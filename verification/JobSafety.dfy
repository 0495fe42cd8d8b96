/** What every step of a job-graph run keeps, and what follows for every run. */
module JobSafety {
  import opened Words
  import opened JobGraph

  /** How many workers are in a phase. */
  function In(s: System, p: Phase): nat {
    multiset(s.workers)[p]
  }

  /** The parent count of a node that has released its dependents: what is still pending until the node
      is cleared, and out of reach of all later decrements afterwards. */
  ghost predicate ReleasedCount(s: System, i: int, pending: int)
    requires 0 <= i < |s.mem.parents|
  {
    || (In(s, Clearing(i)) == 1 && s.mem.parents[i] == pending)
    || 0xffff_fffe <= s.mem.parents[i] - pending <= s.mem.parents[i] <= 0xffff_ffff
  }

  /** What always holds of one node. */
  ghost predicate NodeInv(g: Graph, s: System, i: int)
    requires GoodGraph(g) && Sized(g, s) && 0 <= i < |g.count|
  {
    var word := s.mem.run[i];
    var pending := Pending(g.links, i, s.released);
    && 0 <= word < WORD32
    && Remaining(word) <= g.count[i]
    && Active(word) == In(s, Running(i)) + In(s, Forcing(i)) + In(s, Subtracting(i))
    && (!Awake(g, i, s.released) ==> word == g.count[i] && i !in s.released)
    && s.mem.ready[i] == (if Awake(g, i, s.released) && Remaining(word) > 0 then 1 else 0)
    && (i in s.released ==> word == 0)
    && (i in s.released ==> ReleasedCount(s, i, pending))
    && (i !in s.released ==> s.mem.parents[i] == pending && s.mem.dependents[i] == DependentsOf(g.links, i))
    && (In(s, Forcing(i)) > 0 ==> g.once[i])
    && In(s, Releasing(i)) == (if word == 0 && i !in s.released then 1 else 0)
    && In(s, Clearing(i)) <= 1 && (In(s, Clearing(i)) == 1 ==> i in s.released)
    && s.last[i] == (if word == 0 then 1 else 0)
    && 0 <= s.started[i]
    && s.started[i] - s.finished[i] == In(s, Running(i))
    && s.started[i] + Remaining(word) <= g.count[i]
    && (!g.once[i] ==> s.started[i] + Remaining(word) == g.count[i])
    && (word != g.count[i] ==> s.started[i] >= 1)
  }

  ghost predicate PhaseInRange(g: Graph, p: Phase) {
    match p
    case Running(n) => 0 <= n < |g.count|
    case Forcing(n) => 0 <= n < |g.count|
    case Subtracting(n) => 0 <= n < |g.count|
    case Releasing(n) => 0 <= n < |g.count|
    case Clearing(n) => 0 <= n < |g.count|
    case _ => true
  }

  ghost predicate Nodes(g: Graph, s: System)
    requires GoodGraph(g) && Sized(g, s)
  {
    forall i :: 0 <= i < |g.count| ==> NodeInv(g, s, i)
  }

  /** What always holds of the exit flag. */
  ghost predicate ExitInv(g: Graph, s: System) {
    && (s.mem.exit || In(s, Exiting) > 0 ==> g.Final() in s.released)
    && (g.Final() in s.released ==> s.mem.exit || In(s, Clearing(g.Final())) > 0 || In(s, Exiting) > 0)
    && (In(s, Stopped) > 0 ==> s.mem.exit)
  }

  ghost predicate Inv(g: Graph, s: System)
    requires GoodGraph(g)
  {
    Frame(g, s) && Nodes(g, s)
  }

  /** Workers in three different phases and one more are four different workers. */
  lemma {:induction false} FourPhases(workers: seq<Phase>, a: Phase, b: Phase, c: Phase, d: Phase)
    requires a != b && a != c && a != d && b != c && b != d && c != d
    ensures multiset(workers)[a] + multiset(workers)[b] + multiset(workers)[c] + multiset(workers)[d] <= |workers|
  {
    if workers != [] {
      FourPhases(workers[1..], a, b, c, d);
      assert workers == [workers[0]] + workers[1..];
    }
  }

  /** Adding 0xffff to a run state with remaining runs moves one unit to the active half: no carry
      goes astray, whatever the halves hold. */
  lemma PackedMove(word: int)
    requires 0 <= word < WORD32 && Remaining(word) >= 1 && Active(word) < HALF - 1
    ensures var moved := (word + 0xffff) % WORD32;
      && Remaining(moved) == Remaining(word) - 1 && Active(moved) == Active(word) + 1
  {
  }

  /** With no remaining run the same addition borrows instead: 0xffff runs appear out of nothing. */
  lemma PackedMoveUnderflows(word: int)
    requires 0 <= word < WORD32 && Remaining(word) == 0
    ensures var moved := (word + 0xffff) % WORD32;
      && Remaining(moved) == 0xffff && Active(moved) == Active(word)
  {
  }

  lemma PackedDrop(word: int)
    requires 0 <= word < WORD32 && Active(word) >= 1
    ensures var dropped := (word - HALF) % WORD32;
      && Remaining(dropped) == Remaining(word) && Active(dropped) == Active(word) - 1
      && (dropped == 0 <==> word == HALF)
  {
  }

  /** A worker that changes phase moves one from the old phase to the new one. */
  lemma Moved(s: System, t: System, w: int, q: Phase)
    requires 0 <= w < |s.workers| && t.workers == s.workers[w := q]
    ensures forall p :: In(t, p) == In(s, p) - (if p == s.workers[w] then 1 else 0) + (if p == q then 1 else 0)
    ensures In(s, s.workers[w]) >= 1
  {
  }

  lemma {:induction false} AllIdle(workers: seq<Phase>, p: Phase)
    requires p != Idle && forall w :: 0 <= w < |workers| ==> workers[w] == Idle
    ensures multiset(workers)[p] == 0
  {
    if workers != [] {
      AllIdle(workers[1..], p);
      assert workers == [workers[0]] + workers[1..];
    }
  }

  lemma StartInv(g: Graph, s: System)
    requires GoodGraph(g) && Start(g, s)
    ensures Inv(g, s)
  {
    forall p | p != Idle ensures In(s, p) == 0 {
      AllIdle(s.workers, p);
    }
    forall i | 0 <= i < |g.count| ensures NodeInv(g, s, i) {
      assert 1 <= g.count[i] < HALF;
    }
  }

  /** Only the packed word, the queue and the workers of node `n` change: other nodes keep what holds of them. */
  ghost predicate OnlyAbout(s: System, t: System, n: int) {
    && |t.mem.run| == |s.mem.run| && |t.mem.parents| == |s.mem.parents| && |t.mem.dependents| == |s.mem.dependents|
    && |t.started| == |s.started| && |t.finished| == |s.finished| && |t.last| == |s.last|
    && t.released == s.released
    && (forall i :: 0 <= i < |s.mem.run| && i != n ==> t.mem.run[i] == s.mem.run[i])
    && (forall i :: 0 <= i < |s.mem.parents| && i != n ==> t.mem.parents[i] == s.mem.parents[i])
    && (forall i :: 0 <= i < |s.mem.dependents| && i != n ==> t.mem.dependents[i] == s.mem.dependents[i])
    && (forall i :: 0 <= i < |s.started| && i != n ==> t.started[i] == s.started[i])
    && (forall i :: 0 <= i < |s.finished| && i != n ==> t.finished[i] == s.finished[i])
    && (forall i :: 0 <= i < |s.last| && i != n ==> t.last[i] == s.last[i])
    && (forall i :: i != n ==> t.mem.ready[i] == s.mem.ready[i])
  }

  /** The phase concerns no node but `n`. */
  predicate About(p: Phase, n: int) {
    p in {Idle, Running(n), Forcing(n), Subtracting(n), Releasing(n), Clearing(n), Exiting, Stopped}
  }

  lemma OtherKeeps(g: Graph, s: System, w: int, q: Phase, t: System, n: int, i: int)
    requires GoodGraph(g) && Sized(g, s) && Sized(g, t) && OnlyAbout(s, t, n)
    requires 0 <= w < |s.workers| && t.workers == s.workers[w := q]
    requires About(s.workers[w], n) && About(q, n)
    requires 0 <= i < |g.count| && i != n && NodeInv(g, s, i)
    ensures NodeInv(g, t, i)
  {
    Moved(s, t, w, q);
  }

  lemma OthersKeep(g: Graph, s: System, w: int, q: Phase, t: System, n: int)
    requires GoodGraph(g) && Sized(g, s) && Sized(g, t) && OnlyAbout(s, t, n)
    requires 0 <= w < |s.workers| && t.workers == s.workers[w := q]
    requires About(s.workers[w], n) && About(q, n)
    requires Nodes(g, s) && (0 <= n < |g.count| ==> NodeInv(g, t, n))
    ensures Nodes(g, t)
  {
    forall i | 0 <= i < |g.count| ensures NodeInv(g, t, i) {
      if i != n {
        OtherKeeps(g, s, w, q, t, n, i);
      }
    }
  }

  /** The parts of the invariant that are about ranges and the exit flag. */
  ghost predicate Frame(g: Graph, s: System)
    requires GoodGraph(g)
  {
    && Sized(g, s) && 1 <= |s.workers| < HALF
    && (forall w :: 0 <= w < |s.workers| ==> PhaseInRange(g, s.workers[w]))
    && (forall i :: i in s.released ==> 0 <= i < |g.count|)
    && (forall i :: i in s.mem.ready ==> 0 <= i < |g.count|)
    && ExitInv(g, s)
  }

  lemma AcquireFrame(g: Graph, s: System, w: int, n: int, t: System)
    requires GoodGraph(g) && Frame(g, s) && Acquires(g, s, w, n, t)
    ensures Frame(g, t)
  {
    Moved(s, t, w, Running(n));
    assert t.mem.ready <= s.mem.ready;
  }

  lemma AcquireNodes(g: Graph, s: System, w: int, n: int, t: System)
    requires GoodGraph(g) && Sized(g, s) && |s.workers| < HALF && Nodes(g, s) && Acquires(g, s, w, n, t)
    ensures Nodes(g, t)
  {
    AcquiredNode(g, s, w, n, t);
    OthersKeep(g, s, w, Running(n), t, n);
  }

  lemma AcquiredNode(g: Graph, s: System, w: int, n: int, t: System)
    requires GoodGraph(g) && |s.workers| < HALF && Acquires(g, s, w, n, t) && NodeInv(g, s, n)
    ensures NodeInv(g, t, n)
  {
    FourPhases(s.workers, Idle, Running(n), Forcing(n), Subtracting(n));
    Moved(s, t, w, Running(n));
    PackedMove(s.mem.run[n]);
  }

  lemma FinishFrame(g: Graph, s: System, w: int, t: System)
    requires GoodGraph(g) && Frame(g, s) && Nodes(g, s) && Finish(g, s, w, t)
    ensures Frame(g, t)
  {
    Moved(s, t, w, t.workers[w]);
    assert NodeInv(g, s, s.workers[w].n);
  }

  lemma FinishNodes(g: Graph, s: System, w: int, t: System)
    requires GoodGraph(g) && Sized(g, s) && Nodes(g, s) && Finish(g, s, w, t)
    ensures Nodes(g, t)
  {
    var n := s.workers[w].n;
    Moved(s, t, w, t.workers[w]);
    assert NodeInv(g, s, n);
    assert NodeInv(g, t, n);
    OthersKeep(g, s, w, t.workers[w], t, n);
  }

  lemma ForceFrame(g: Graph, s: System, w: int, t: System)
    requires GoodGraph(g) && Frame(g, s) && Nodes(g, s) && Force(g, s, w, t)
    ensures Frame(g, t)
  {
    Moved(s, t, w, t.workers[w]);
    assert NodeInv(g, s, s.workers[w].n);
  }

  lemma ForceNodes(g: Graph, s: System, w: int, t: System)
    requires GoodGraph(g) && Sized(g, s) && Nodes(g, s) && Force(g, s, w, t) && g.answer.Before?
    ensures Nodes(g, t)
  {
    var n := s.workers[w].n;
    Moved(s, t, w, t.workers[w]);
    assert NodeInv(g, s, n);
    assert NodeInv(g, t, n);
    OthersKeep(g, s, w, t.workers[w], t, n);
  }

  lemma SubtractFrame(g: Graph, s: System, w: int, t: System)
    requires GoodGraph(g) && Frame(g, s) && Nodes(g, s) && Subtract(g, s, w, t)
    ensures Frame(g, t)
  {
    Moved(s, t, w, t.workers[w]);
    assert NodeInv(g, s, s.workers[w].n);
  }

  lemma SubtractNodes(g: Graph, s: System, w: int, t: System)
    requires GoodGraph(g) && Sized(g, s) && Nodes(g, s) && Subtract(g, s, w, t)
    ensures Nodes(g, t)
  {
    var n := s.workers[w].n;
    Moved(s, t, w, t.workers[w]);
    assert NodeInv(g, s, n);
    PackedDrop(s.mem.run[n]);
    assert NodeInv(g, t, n);
    OthersKeep(g, s, w, t.workers[w], t, n);
  }

  lemma ClearFrame(g: Graph, s: System, w: int, t: System)
    requires GoodGraph(g) && Frame(g, s) && Nodes(g, s) && Clear(g, s, w, t)
    ensures Frame(g, t)
  {
    Moved(s, t, w, t.workers[w]);
    assert NodeInv(g, s, s.workers[w].n);
  }

  lemma ClearNodes(g: Graph, s: System, w: int, t: System)
    requires GoodGraph(g) && Sized(g, s) && Nodes(g, s) && Clear(g, s, w, t)
    ensures Nodes(g, t)
  {
    var n := s.workers[w].n;
    Moved(s, t, w, t.workers[w]);
    assert NodeInv(g, s, n);
    PendingMono(g.links, n, {}, s.released);
    assert NodeInv(g, t, n);
    OthersKeep(g, s, w, t.workers[w], t, n);
  }

  lemma ExitStopInv(g: Graph, s: System, w: int, t: System)
    requires GoodGraph(g) && Frame(g, s) && Nodes(g, s) && (Exit(g, s, w, t) || Stop(g, s, w, t))
    ensures Frame(g, t) && Nodes(g, t)
  {
    Moved(s, t, w, t.workers[w]);
    OthersKeep(g, s, w, t.workers[w], t, -1);
  }

  /** The links that a release takes off are all still counted. */
  lemma ReleaseFalls(g: Graph, s: System, w: int, t: System)
    requires GoodGraph(g) && Sized(g, s) && Nodes(g, s) && Release(g, s, w, t)
    ensures Affordable(s.mem, s.mem.dependents[s.workers[w].n])
    ensures var deps := s.mem.dependents[s.workers[w].n];
      forall d :: 0 <= d < |g.count| ==>
        Pending(g.links, d, s.released) == Pending(g.links, d, t.released) + multiset(deps)[d]
  {
    var n := s.workers[w].n;
    assert NodeInv(g, s, n);
    Moved(s, t, w, Clearing(n));
    forall d | 0 <= d < |g.count|
      ensures Pending(g.links, d, s.released) == Pending(g.links, d, t.released) + multiset(s.mem.dependents[n])[d]
      ensures Pending(g.links, d, s.released) <= s.mem.parents[d] < WORD32
    {
      PendingRelease(g.links, d, s.released, n);
      assert NodeInv(g, s, d);
    }
  }

  /** Releasing takes the node's links off the parent count of every node, and queues exactly those
      nodes whose count passes the value that the answer is compared with. */
  lemma ReleaseCounts(g: Graph, s: System, w: int, t: System)
    requires GoodGraph(g) && Sized(g, s) && Nodes(g, s) && Release(g, s, w, t)
    ensures t.mem == s.mem.(parents := t.mem.parents, ready := t.mem.ready) && |t.mem.parents| == |s.mem.parents|
    ensures forall i :: 0 <= i < |g.count| ==> ReleaseEffect(g, s, t, s.workers[w].n, i)
    ensures forall i :: i in t.mem.ready ==> i in s.mem.ready || 0 <= i < |g.count|
  {
    var deps := s.mem.dependents[s.workers[w].n];
    ReleaseFalls(g, s, w, t);
    DroppedParents(s.mem, deps, g.answer);
    forall d ensures t.mem.ready[d] == s.mem.ready[d] +
      if 0 <= d < |s.mem.parents| then One(Passes(s.mem.parents[d], multiset(deps)[d], g.answer)) else 0
    {
      DroppedReady(s.mem, deps, g.answer, d);
    }
  }

  ghost predicate ReleaseEffect(g: Graph, s: System, t: System, n: int, i: int)
    requires 0 <= n < |s.mem.dependents| && 0 <= i < |s.mem.parents| && i < |t.mem.parents|
  {
    var links := multiset(s.mem.dependents[n])[i];
    && t.mem.parents[i] == s.mem.parents[i] - links
    && t.mem.ready[i] == s.mem.ready[i] + One(Passes(s.mem.parents[i], links, g.answer))
    && Pending(g.links, i, s.released) == Pending(g.links, i, t.released) + links
  }

  /** A parent count passes the value in question exactly when its node wakes. */
  lemma PassesWhenWaking(g: Graph, i: int, a: set<int>, b: set<int>, fall: int)
    requires fall >= 0 && Pending(g.links, i, a) == Pending(g.links, i, b) + fall
    ensures Awake(g, i, a) ==> Awake(g, i, b)
    ensures Passes(Pending(g.links, i, a), fall, g.answer) <==> Awake(g, i, b) && !Awake(g, i, a)
  {
    PendingMono(g.links, i, {}, a);
  }

  /** A node that is awake is never queued again. */
  lemma AwakePasses(g: Graph, s: System, i: int, fall: int)
    requires GoodGraph(g) && Sized(g, s) && 0 <= i < |g.count| && NodeInv(g, s, i) && Awake(g, i, s.released)
    requires 0 <= fall <= Pending(g.links, i, s.released)
    ensures !Passes(s.mem.parents[i], fall, g.answer)
  {
    PendingMono(g.links, i, {}, s.released);
  }

  /** The queue after a release holds exactly the awake nodes with runs left. */
  lemma ReleasedReady(g: Graph, s: System, t: System, i: int, fall: int)
    requires GoodGraph(g) && Sized(g, s) && 0 <= i < |g.count| && NodeInv(g, s, i)
    requires fall >= 0 && Pending(g.links, i, s.released) == Pending(g.links, i, t.released) + fall
    requires t.mem.ready[i] == s.mem.ready[i] + One(Passes(s.mem.parents[i], fall, g.answer))
    ensures t.mem.ready[i] == (if Awake(g, i, t.released) && Remaining(s.mem.run[i]) > 0 then 1 else 0)
    ensures Awake(g, i, s.released) ==> Awake(g, i, t.released)
  {
    PassesWhenWaking(g, i, s.released, t.released, fall);
    if Awake(g, i, s.released) {
      AwakePasses(g, s, i, fall);
    }
  }

  /** A release moves one worker from releasing to clearing its node. */
  lemma ReleasedHands(s: System, w: int, t: System, n: int, i: int)
    requires 0 <= w < |s.workers| && s.workers[w] == Releasing(n) && t.workers == s.workers[w := Clearing(n)]
    ensures In(t, Running(i)) == In(s, Running(i)) && In(t, Forcing(i)) == In(s, Forcing(i))
    ensures In(t, Subtracting(i)) == In(s, Subtracting(i))
    ensures In(t, Releasing(i)) == In(s, Releasing(i)) - One(i == n)
    ensures In(t, Clearing(i)) == In(s, Clearing(i)) + One(i == n)
    ensures In(s, Releasing(n)) >= 1
  {
    Moved(s, t, w, Clearing(n));
  }

  lemma ReleasedNode(g: Graph, s: System, w: int, t: System, i: int)
    requires GoodGraph(g) && Sized(g, s) && Sized(g, t) && Release(g, s, w, t)
    requires NodeInv(g, s, s.workers[w].n)
    requires t.mem == s.mem.(parents := t.mem.parents, ready := t.mem.ready)
    requires 0 <= i < |g.count| && ReleaseEffect(g, s, t, s.workers[w].n, i) && NodeInv(g, s, i)
    ensures NodeInv(g, t, i)
  {
    var n := s.workers[w].n;
    ReleasedHands(s, w, t, n, i);
    ReleasedReady(g, s, t, i, multiset(s.mem.dependents[n])[i]);
  }

  lemma ReleaseNodes(g: Graph, s: System, w: int, t: System)
    requires GoodGraph(g) && Sized(g, s) && Nodes(g, s) && Release(g, s, w, t)
    ensures Sized(g, t) && Nodes(g, t)
  {
    ReleaseCounts(g, s, w, t);
    assert NodeInv(g, s, s.workers[w].n);
    forall i | 0 <= i < |g.count| ensures NodeInv(g, t, i) {
      ReleasedNode(g, s, w, t, i);
    }
  }

  lemma ReleaseFrame(g: Graph, s: System, w: int, t: System)
    requires GoodGraph(g) && Frame(g, s) && Nodes(g, s) && Release(g, s, w, t)
    ensures Frame(g, t)
  {
    ReleaseCounts(g, s, w, t);
    Moved(s, t, w, t.workers[w]);
  }

  /** No worker is about to force a node out of the queue, unless forcing is told the old value. */
  ghost predicate Calm(g: Graph, s: System) {
    g.answer.Before? || forall w :: 0 <= w < |s.workers| ==> !s.workers[w].Forcing?
  }

  /** Every step keeps the invariant, unless it forces a node and is told the new value. */
  lemma StepInv(g: Graph, s: System, t: System)
    requires GoodGraph(g) && Inv(g, s) && Calm(g, s) && Step(g, s, t)
    ensures Inv(g, t)
  {
    var w :| WorkerStep(g, s, w, t);
    if n :| Acquires(g, s, w, n, t) { AcquireNodes(g, s, w, n, t); AcquireFrame(g, s, w, n, t); }
    else if Finish(g, s, w, t) { FinishNodes(g, s, w, t); FinishFrame(g, s, w, t); }
    else if Force(g, s, w, t) { ForceNodes(g, s, w, t); ForceFrame(g, s, w, t); }
    else if Subtract(g, s, w, t) { SubtractNodes(g, s, w, t); SubtractFrame(g, s, w, t); }
    else if Release(g, s, w, t) { ReleaseNodes(g, s, w, t); ReleaseFrame(g, s, w, t); }
    else if Clear(g, s, w, t) { ClearNodes(g, s, w, t); ClearFrame(g, s, w, t); }
    else { ExitStopInv(g, s, w, t); }
  }

  /** A run satisfies the invariant as long as it stays calm. */
  lemma {:induction false} CalmRunInv(g: Graph, states: seq<System>, k: int)
    requires GoodGraph(g) && Run(g, states) && 0 <= k < |states|
    requires forall j :: 0 <= j < k ==> Calm(g, states[j])
    ensures Inv(g, states[k])
    decreases k
  {
    if k == 0 {
      StartInv(g, states[0]);
    } else {
      CalmRunInv(g, states, k - 1);
      assert StepInto(g, states, k);
      StepInv(g, states[k - 1], states[k]);
    }
  }

  /** Nothing is ever forced out of the queue: no job that may run more than once completes after one run. */
  ghost predicate Sound(g: Graph) {
    g.answer.Before? || forall i :: 0 <= i < |g.count| && i < |g.once| && g.once[i] ==> g.count[i] == 1
  }

  /** A job that runs once has no run left when it returns, so its worker does not force it. */
  lemma StepCalm(g: Graph, s: System, t: System)
    requires GoodGraph(g) && Sound(g) && Inv(g, s) && Calm(g, s) && Step(g, s, t)
    ensures Calm(g, t)
  {
    var w :| WorkerStep(g, s, w, t);
    if Finish(g, s, w, t) {
      assert s.workers[w] in multiset(s.workers);
      assert NodeInv(g, s, s.workers[w].n);
    }
  }

  /** Every state of every run satisfies the invariant. */
  lemma {:induction false} RunInv(g: Graph, states: seq<System>, k: int)
    requires GoodGraph(g) && Sound(g) && Run(g, states) && 0 <= k < |states|
    ensures Inv(g, states[k]) && Calm(g, states[k])
    decreases k
  {
    if k == 0 {
      StartInv(g, states[0]);
    } else {
      RunInv(g, states, k - 1);
      assert StepInto(g, states, k);
      StepInv(g, states[k - 1], states[k]);
      StepCalm(g, states[k - 1], states[k]);
    }
  }
}
