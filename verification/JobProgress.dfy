/** The theorems about whole runs of a job graph: order, completeness, progress and termination. Those that
    ask for the answer `Before` hold of a queue whose decrement answers with the value before it. */
module JobProgress {
  import opened Words
  import opened JobGraph
  import opened JobSafety

  /** The node has done all it will ever do: no run is left or under way. */
  ghost predicate Done(g: Graph, s: System, i: int)
    requires Sized(g, s) && 0 <= i < |g.count| && |g.once| == |g.count|
  {
    && s.mem.run[i] == 0
    && 1 <= s.started[i] == s.finished[i] <= g.count[i]
    && (!g.once[i] ==> s.started[i] == g.count[i])
    && s.last[i] == 1
  }

  /** Whenever a worker runs a job, the job has been woken by the nodes released so far. */
  lemma RunsAwake(g: Graph, s: System, w: int)
    requires GoodGraph(g) && Inv(g, s) && 0 <= w < |s.workers| && s.workers[w].Running?
    ensures 0 <= s.workers[w].n < |g.count| && Awake(g, s.workers[w].n, s.released)
    ensures s.mem.run[s.workers[w].n] != g.count[s.workers[w].n]
  {
    assert s.workers[w] in multiset(s.workers);
    assert PhaseInRange(g, s.workers[w]) && NodeInv(g, s, s.workers[w].n);
  }

  /** Nothing runs before its parents: whenever a worker runs a job, or has it at any later stage,
      every parent of the job has finished all its runs. */
  lemma ParentsFirst(g: Graph, states: seq<System>, k: int, w: int, link: int)
    requires GoodGraph(g) && g.answer.Before? && Run(g, states) && 0 <= k < |states|
    requires 0 <= w < |states[k].workers| && states[k].workers[w].Running?
    requires 0 <= link < |g.links| && g.links[link].dependent == states[k].workers[w].n
    ensures Inv(g, states[k])
    ensures g.links[link].parent in states[k].released
    ensures Done(g, states[k], g.links[link].parent)
  {
    RunInv(g, states, k);
    var s := states[k];
    RunsAwake(g, s, w);
    PendingZero(g.links, s.workers[w].n, s.released);
    ReleasedDone(g, s, g.links[link].parent);
  }

  lemma ReleasedDone(g: Graph, s: System, i: int)
    requires GoodGraph(g) && Inv(g, s) && i in s.released
    ensures 0 <= i < |g.count| && Done(g, s, i)
  {
    assert NodeInv(g, s, i);
    assert g.count[i] >= 1;
  }

  /** The exit flag is set only after every node has done all its runs, each non-complete-once job
      exactly as often as asked, and exactly one worker of each saw itself as the last. */
  lemma ExitAfterAll(g: Graph, states: seq<System>, k: int)
    requires GoodGraph(g) && g.answer.Before? && Run(g, states) && 0 <= k < |states| && states[k].mem.exit
    ensures Inv(g, states[k])
    ensures forall i :: 0 <= i < |g.count| ==> i in states[k].released && Done(g, states[k], i)
  {
    RunInv(g, states, k);
    var s := states[k];
    assert NodeInv(g, s, g.Final());
    PendingZero(g.links, g.Final(), s.released);
    forall i | 0 <= i < |g.count| ensures i in s.released && Done(g, s, i) {
      if i < g.Final() {
        var link :| 0 <= link < |g.links| && g.links[link] == Link(i, g.Final());
        assert g.links[link].parent in s.released;
      }
      ReleasedDone(g, s, i);
    }
  }

  /** In every state a node is queued, once, exactly when it is awake and still has runs left. */
  lemma QueuedExactlyWhenAwake(g: Graph, states: seq<System>, k: int, i: int)
    requires GoodGraph(g) && Sound(g) && Run(g, states) && 0 <= k < |states| && 0 <= i < |g.count|
    ensures Inv(g, states[k]) && states[k].mem.ready[i] <= 1
    ensures i in states[k].mem.ready <==> Awake(g, i, states[k].released) && Remaining(states[k].mem.run[i]) > 0
  {
    RunInv(g, states, k);
    assert NodeInv(g, states[k], i);
  }

  /** With a decrement that answers with the old value, being awake is having no unreleased parent. */
  lemma QueuedExactlyWhenReady(g: Graph, states: seq<System>, k: int, i: int)
    requires GoodGraph(g) && g.answer.Before? && Run(g, states) && 0 <= k < |states| && 0 <= i < |g.count|
    ensures Inv(g, states[k])
    ensures i in states[k].mem.ready <==>
              && (forall l :: 0 <= l < |g.links| && g.links[l].dependent == i ==>
                    g.links[l].parent in states[k].released)
              && Remaining(states[k].mem.run[i]) > 0
  {
    QueuedExactlyWhenAwake(g, states, k, i);
    PendingZero(g.links, i, states[k].released);
  }

  // ---------------------------------------------------------------------------------------
  // Progress.

  /** The unreleased node of lowest rank waits for nobody. */
  lemma {:induction false} SomeNodeWaitsForNobody(g: Graph, rank: seq<nat>, released: set<int>, i: int) returns (n: int)
    requires GoodGraph(g) && Ranked(g, rank) && 0 <= i < |g.count| && i !in released
    ensures 0 <= n < |g.count| && n !in released && Pending(g.links, n, released) == 0
    decreases rank[i]
  {
    PendingZero(g.links, i, released);
    if Pending(g.links, i, released) == 0 {
      n := i;
    } else {
      var l :| 0 <= l < |g.links| && g.links[l].dependent == i && g.links[l].parent !in released;
      n := SomeNodeWaitsForNobody(g, rank, released, g.links[l].parent);
    }
  }

  /** Until the exit flag is set, some job is queued or some worker is busy with one. */
  lemma NeverStuck(g: Graph, rank: seq<nat>, s: System)
    requires GoodGraph(g) && g.answer.Before? && Ranked(g, rank) && Inv(g, s) && !s.mem.exit
    ensures (exists i :: 0 <= i < |g.count| && i in s.mem.ready)
         || (exists w :: 0 <= w < |s.workers| && s.workers[w] != Idle && s.workers[w] != Stopped)
  {
    if forall w :: 0 <= w < |s.workers| ==> s.workers[w] == Idle || s.workers[w] == Stopped {
      forall p | p != Idle && p != Stopped ensures In(s, p) == 0 {
        NoneIn(s.workers, p);
      }
      assert g.Final() !in s.released;
      var n := SomeNodeWaitsForNobody(g, rank, s.released, g.Final());
      assert NodeInv(g, s, n);
      assert n in s.mem.ready;
    }
  }

  lemma {:induction false} NoneIn(workers: seq<Phase>, p: Phase)
    requires forall w :: 0 <= w < |workers| ==> workers[w] != p
    ensures multiset(workers)[p] == 0
  {
    if workers != [] {
      NoneIn(workers[1..], p);
      assert workers == [workers[0]] + workers[1..];
    }
  }

  /** The state after a worker has released the dependents of the node in its hands. */
  lemma ReleaseStep(g: Graph, s: System, w: int) returns (t: System)
    requires GoodGraph(g) && Inv(g, s) && 0 <= w < |s.workers| && s.workers[w].Releasing?
    ensures Release(g, s, w, t)
  {
    var n := s.workers[w].n;
    assert PhaseInRange(g, s.workers[w]);
    assert NodeInv(g, s, n);
    assert s.workers[w] in multiset(s.workers);
    DependentsInRange(g.links, n, |g.count|);
    t := s.(mem := Dropped(s.mem, s.mem.dependents[n], g.answer), workers := s.workers[w := Clearing(n)],
            released := s.released + {n});
  }

  /** The state after a busy worker's next step. */
  lemma BusyCanStep(g: Graph, s: System, w: int) returns (t: System)
    requires GoodGraph(g) && Inv(g, s) && 0 <= w < |s.workers|
    requires s.workers[w] != Idle && s.workers[w] != Stopped
    ensures WorkerStep(g, s, w, t)
  {
    assert PhaseInRange(g, s.workers[w]);
    match s.workers[w]
    case Running(n) =>
      var next := if g.once[n] && Remaining(s.mem.run[n]) != 0 then Forcing(n) else Subtracting(n);
      t := s.(workers := s.workers[w := next],
              finished := s.finished[n := s.finished[n] + 1]);
      assert Finish(g, s, w, t);
    case Forcing(n) =>
      t := s.(mem := ForceRemoved(s.mem, n, g.answer), workers := s.workers[w := Subtracting(n)]);
      assert Force(g, s, w, t);
    case Subtracting(n) =>
      var isLast := s.mem.run[n] == HALF;
      t := s.(mem := Subtracted(s.mem, n), workers := s.workers[w := if isLast then Releasing(n) else Idle],
              last := s.last[n := s.last[n] + (if isLast then 1 else 0)]);
      assert Subtract(g, s, w, t);
    case Releasing(_) =>
      t := ReleaseStep(g, s, w);
    case Clearing(n) =>
      t := s.(mem := Cleared(s.mem, n), workers := s.workers[w := if n == g.Final() then Exiting else Idle]);
      assert Clear(g, s, w, t);
    case Exiting =>
      t := s.(mem := s.mem.(exit := true), workers := s.workers[w := Idle]);
      assert Exit(g, s, w, t);
  }

  /** Of queued nodes below `size` one has the greatest priority. */
  lemma {:induction false} SomeForemost(g: Graph, ready: multiset<int>, i: int, size: int) returns (n: int)
    requires GoodGraph(g) && 0 <= i < size <= |g.count| && i in ready
    ensures 0 <= n < size && n in ready
    ensures forall j :: 0 <= j < size && j in ready ==> g.priority[j] <= g.priority[n]
    decreases size
  {
    n := i;
    if j :| 0 <= j < size - 1 && j in ready {
      n := SomeForemost(g, ready, j, size - 1);
    }
    if size - 1 in ready && g.priority[n] <= g.priority[size - 1] {
      n := size - 1;
    }
  }

  /** No deadlock: for an acyclic graph, every state that a run reaches without the exit flag has a
      next step. */
  lemma NoDeadlock(g: Graph, rank: seq<nat>, states: seq<System>, k: int) returns (t: System)
    requires GoodGraph(g) && g.answer.Before? && Ranked(g, rank)
    requires Run(g, states) && 0 <= k < |states| && !states[k].mem.exit
    ensures Step(g, states[k], t)
  {
    RunInv(g, states, k);
    var s := states[k];
    if w :| 0 <= w < |s.workers| && s.workers[w] != Idle && s.workers[w] != Stopped {
      t := BusyCanStep(g, s, w);
      assert WorkerStep(g, s, w, t);
    } else {
      NeverStuck(g, rank, s);
      var i :| 0 <= i < |g.count| && i in s.mem.ready;
      var n := SomeForemost(g, s.mem.ready, i, |g.count|);
      NoneIn(s.workers, Stopped) by {
        assert forall w :: 0 <= w < |s.workers| && s.workers[w] == Stopped ==> s.workers[w] in multiset(s.workers);
      }
      assert s.workers[0] == Idle;
      t := s.(mem := Scheduled(s.mem, n), workers := s.workers[0 := Running(n)],
              started := s.started[n := s.started[n] + 1]);
      assert Acquires(g, s, 0, n, t);
      assert WorkerStep(g, s, 0, t);
    }
  }

  // ---------------------------------------------------------------------------------------
  // Termination.

  function Stage(p: Phase): nat {
    match p
    case Stopped => 0
    case Idle => 1
    case Exiting => 2
    case Clearing(_) => 3
    case Releasing(_) => 4
    case Subtracting(_) => 5
    case Forcing(_) => 6
    case Running(_) => 7
  }

  function Stages(workers: seq<Phase>): nat {
    if workers == [] then 0 else Stages(workers[..|workers| - 1]) + Stage(workers[|workers| - 1])
  }

  function RunsLeft(run: seq<int>): nat {
    if run == [] then 0 else RunsLeft(run[..|run| - 1]) + Remaining(run[|run| - 1])
  }

  /** Bounds how many steps are still to come. */
  function Measure(s: System): nat {
    7 * RunsLeft(s.mem.run) + Stages(s.workers)
  }

  lemma {:induction false} StagesUpdate(workers: seq<Phase>, w: int, q: Phase)
    requires 0 <= w < |workers|
    ensures Stages(workers[w := q]) == Stages(workers) - Stage(workers[w]) + Stage(q)
  {
    var last := |workers| - 1;
    assert workers[w := q][..last] == if w == last then workers[..last] else workers[..last][w := q];
    if w < last {
      StagesUpdate(workers[..last], w, q);
    }
  }

  lemma {:induction false} RunsLeftUpdate(run: seq<int>, n: int, word: int)
    requires 0 <= n < |run|
    ensures RunsLeft(run[n := word]) == RunsLeft(run) - Remaining(run[n]) + Remaining(word)
  {
    var last := |run| - 1;
    assert run[n := word][..last] == if n == last then run[..last] else run[..last][n := word];
    if n < last {
      RunsLeftUpdate(run[..last], n, word);
    }
  }

  /** An acquire moves one unit of one node from the remaining to the active half. */
  lemma AcquiredWord(g: Graph, s: System, w: int, t: System) returns (n: int)
    requires GoodGraph(g) && Inv(g, s) && Acquire(g, s, w, t)
    ensures 0 <= n < |g.count| && t.mem.run == s.mem.run[n := t.mem.run[n]] && t.workers == s.workers[w := Running(n)]
    ensures Remaining(t.mem.run[n]) == Remaining(s.mem.run[n]) - 1
    ensures Active(t.mem.run[n]) == Active(s.mem.run[n]) + 1
  {
    n :| Acquires(g, s, w, n, t);
    ReadyWord(g, s, w, n);
    PackedMove(s.mem.run[n]);
  }

  /** A queued node has a run left, and room for one more active run. */
  lemma ReadyWord(g: Graph, s: System, w: int, n: int)
    requires GoodGraph(g) && Sized(g, s) && |s.workers| < HALF && 0 <= w < |s.workers| && s.workers[w] == Idle
    requires 0 <= n < |g.count| && NodeInv(g, s, n) && n in s.mem.ready
    ensures 0 <= s.mem.run[n] < WORD32 && Remaining(s.mem.run[n]) >= 1 && Active(s.mem.run[n]) < HALF - 1
  {
    FourPhases(s.workers, Idle, Running(n), Forcing(n), Subtracting(n));
  }

  /** A finish takes one unit of one node from the active half. */
  lemma SubtractedWord(g: Graph, s: System, w: int, t: System) returns (n: int)
    requires GoodGraph(g) && Inv(g, s) && Subtract(g, s, w, t)
    ensures 0 <= n < |g.count| && t.mem.run == s.mem.run[n := t.mem.run[n]]
    ensures Remaining(t.mem.run[n]) == Remaining(s.mem.run[n])
    ensures Active(t.mem.run[n]) == Active(s.mem.run[n]) - 1
  {
    n := s.workers[w].n;
    assert NodeInv(g, s, n);
    PackedDrop(s.mem.run[n]);
  }

  lemma AcquireLowersMeasure(g: Graph, s: System, w: int, t: System)
    requires GoodGraph(g) && Inv(g, s) && Acquire(g, s, w, t)
    ensures Measure(t) < Measure(s)
  {
    var n := AcquiredWord(g, s, w, t);
    RunsLeftUpdate(s.mem.run, n, t.mem.run[n]);
    StagesUpdate(s.workers, w, Running(n));
  }

  lemma SubtractLowersMeasure(g: Graph, s: System, w: int, t: System)
    requires GoodGraph(g) && Inv(g, s) && Subtract(g, s, w, t)
    ensures Measure(t) < Measure(s)
  {
    var n := SubtractedWord(g, s, w, t);
    RunsLeftUpdate(s.mem.run, n, t.mem.run[n]);
    StagesUpdate(s.workers, w, t.workers[w]);
  }

  lemma ForceLowersMeasure(g: Graph, s: System, w: int, t: System)
    requires GoodGraph(g) && Force(g, s, w, t)
    ensures Measure(t) < Measure(s)
  {
    RunsLeftUpdate(s.mem.run, s.workers[w].n, t.mem.run[s.workers[w].n]);
    StagesUpdate(s.workers, w, t.workers[w]);
  }

  /** A step that changes no word only brings a worker to a later stage. */
  lemma StageLowersMeasure(g: Graph, s: System, w: int, t: System)
    requires GoodGraph(g) && Inv(g, s) && WorkerStep(g, s, w, t)
    requires !Acquire(g, s, w, t) && !Force(g, s, w, t) && !Subtract(g, s, w, t)
    ensures Measure(t) < Measure(s)
  {
    StagesUpdate(s.workers, w, t.workers[w]);
    if Release(g, s, w, t) {
      ReleaseCounts(g, s, w, t);
    }
  }

  /** Every step of every worker lowers the measure. */
  lemma StepLowersMeasure(g: Graph, s: System, w: int, t: System)
    requires GoodGraph(g) && Inv(g, s) && WorkerStep(g, s, w, t)
    ensures Measure(t) < Measure(s)
  {
    if Acquire(g, s, w, t) {
      AcquireLowersMeasure(g, s, w, t);
    } else if Force(g, s, w, t) {
      ForceLowersMeasure(g, s, w, t);
    } else if Subtract(g, s, w, t) {
      SubtractLowersMeasure(g, s, w, t);
    } else {
      StageLowersMeasure(g, s, w, t);
    }
  }

  /** Every run is finite: it has no more steps than the measure of its first state. */
  lemma {:induction false} RunIsBounded(g: Graph, states: seq<System>, k: int)
    requires GoodGraph(g) && Sound(g) && Run(g, states) && 0 <= k < |states|
    ensures k + Measure(states[k]) <= Measure(states[0])
    decreases k
  {
    if k > 0 {
      RunIsBounded(g, states, k - 1);
      RunInv(g, states, k - 1);
      assert StepInto(g, states, k);
      var w :| WorkerStep(g, states[k - 1], w, states[k]);
      StepLowersMeasure(g, states[k - 1], w, states[k]);
    }
  }

  /** Twice the remaining runs plus the active runs of a node fall by one with every run that is
      acquired or finished, and no other node's word changes. */
  lemma WorkFalls(g: Graph, s: System, w: int, t: System) returns (n: int)
    requires GoodGraph(g) && Inv(g, s)
    requires Acquire(g, s, w, t) || Subtract(g, s, w, t)
    ensures 0 <= n < |g.count| && t.mem.run == s.mem.run[n := t.mem.run[n]]
    ensures 2 * Remaining(t.mem.run[n]) + Active(t.mem.run[n]) == 2 * Remaining(s.mem.run[n]) + Active(s.mem.run[n]) - 1
  {
    if Acquire(g, s, w, t) {
      n := AcquiredWord(g, s, w, t);
    } else {
      n := SubtractedWord(g, s, w, t);
    }
  }
}
