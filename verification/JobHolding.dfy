/** Schedules of a job graph that the queue cannot prevent: whichever node of greatest priority it hands out,
    one worker does all the work while some others each keep the first run of a node under way. */
module JobHolding {
  import opened Words
  import opened JobGraph
  import opened JobSafety
  import opened JobProgress
  import opened JobWaking

  function Last(states: seq<System>): System
    requires states != []
  {
    states[|states| - 1]
  }

  /** What the queue hands out next, after all that has happened so far. */
  type Choice = seq<System> -> int

  ghost predicate ChoosesAt(g: Graph, pick: Choice, states: seq<System>) {
    states != [] && (exists n :: Foremost(g, Last(states).mem.ready, n)) ==>
      Foremost(g, Last(states).mem.ready, pick(states))
  }

  /** The choice is always a node of greatest priority, if one is queued; between equals it is free. */
  ghost predicate Chooses(g: Graph, pick: Choice) {
    forall states :: ChoosesAt(g, pick, states)
  }

  /** The step takes no node but the one chosen, and only while the exit flag is not set. */
  ghost predicate TakesOnly(g: Graph, s: System, t: System, choice: int) {
    forall w, n :: Acquires(g, s, w, n, t) ==> n == choice && !s.mem.exit
  }

  /** If the step into state `i` takes a node then it is the one that the queue hands out, and the exit flag
      is not set. */
  ghost predicate ObeysAt(g: Graph, pick: Choice, states: seq<System>, i: int) {
    0 < i < |states| && TakesOnly(g, states[i - 1], states[i], pick(states[..i]))
  }

  /** A run of so many workers whose queue hands out what is chosen. */
  ghost predicate Obeyed(g: Graph, pick: Choice, workers: nat, states: seq<System>) {
    && Run(g, states) && |states[0].workers| == workers
    && forall i :: 0 < i < |states| ==> ObeysAt(g, pick, states, i)
  }

  lemma Continued(g: Graph, pick: Choice, workers: nat, states: seq<System>, t: System)
    requires Obeyed(g, pick, workers, states) && Step(g, Last(states), t)
    requires TakesOnly(g, Last(states), t, pick(states))
    ensures Obeyed(g, pick, workers, states + [t])
  {
    var more := states + [t];
    forall i | 0 < i < |more| ensures StepInto(g, more, i) && ObeysAt(g, pick, more, i) {
      assert more[..i] == states[..i];
      if i < |states| {
        assert StepInto(g, states, i) && ObeysAt(g, pick, states, i);
      } else {
        assert more[..i] == states;
      }
    }
  }

  // ---------------------------------------------------------------------------------------
  // Holding nodes.

  /** A job that is complete after its first run although it may run more often. */
  predicate Forceful(g: Graph, i: int) {
    0 <= i < |g.count| && i < |g.once| && g.once[i] && g.count[i] > 1
  }

  /** Each node that is to be held has a worker of its own, which is not the first one. */
  ghost predicate GoodSeats(g: Graph, seats: map<int, int>, workers: nat) {
    && (forall h :: h in seats ==> 0 <= h < |g.count| && 1 <= seats[h] < workers && !Forceful(g, h))
    && (forall h, k :: h in seats && k in seats && seats[h] == seats[k] ==> h == k)
  }

  /** A held node is untouched, or its worker runs it. */
  ghost predicate HeldIn(g: Graph, seats: map<int, int>, s: System, h: int)
    requires h in seats && |s.mem.run| == |g.count|
  {
    && 0 <= h < |g.count| && h !in s.released && 0 < seats[h] < |s.workers|
    && s.workers[seats[h]] == if s.mem.run[h] == g.count[h] then Idle else Running(h)
  }

  /** All work but that of holding nodes is done by the first worker. */
  ghost predicate OnlyFirst(seats: map<int, int>, s: System) {
    forall w :: 0 < w < |s.workers| && s.workers[w] != Idle ==>
      s.workers[w].Running? && s.workers[w].n in seats && seats[s.workers[w].n] == w
  }

  /** A forceful node is untouched, or the first worker is about to come back from its first run. */
  ghost predicate ForcefulAhead(g: Graph, s: System)
    requires |s.mem.run| == |g.count| && |s.workers| > 0
  {
    forall i :: Forceful(g, i) ==>
      || s.mem.run[i] == g.count[i]
      || (s.workers[0] == Running(i) && Remaining(s.mem.run[i]) == g.count[i] - 1)
  }

  ghost predicate Holding(g: Graph, seats: map<int, int>, s: System)
    requires GoodGraph(g)
  {
    && g.answer.After? && Inv(g, s) && Calm(g, s) && s.workers[0] != Stopped
    && (forall h :: h in seats ==> HeldIn(g, seats, s, h))
    && OnlyFirst(seats, s) && ForcefulAhead(g, s)
  }

  /** A held node is in none of the later stages. */
  lemma HeldNotDone(g: Graph, seats: map<int, int>, s: System, h: int)
    requires GoodGraph(g) && Holding(g, seats, s) && h in seats
    ensures s.workers[0] != Releasing(h) && s.workers[0] != Clearing(h)
    ensures s.workers[0] == Subtracting(h) ==> s.mem.run[h] != HALF
  {
    assert HeldIn(g, seats, s, h) && NodeInv(g, s, h);
    assert s.workers[0] in multiset(s.workers) && s.workers[seats[h]] in multiset(s.workers);
  }

  /** A run of a node that is not forceful is not cut short. */
  lemma NotForced(g: Graph, s: System, w: int)
    requires GoodGraph(g) && Inv(g, s) && 0 <= w < |s.workers| && s.workers[w].Running?
    requires !Forceful(g, s.workers[w].n)
    ensures var n := s.workers[w].n; 0 <= n < |g.count| && !(g.once[n] && Remaining(s.mem.run[n]) != 0)
  {
    RunsAwake(g, s, w);
    assert NodeInv(g, s, s.workers[w].n);
  }

  /** The first worker is busy, and does not run a forceful node. */
  ghost predicate FirstBusy(g: Graph, s: System) {
    && |s.workers| > 0 && s.workers[0] != Idle && s.workers[0] != Stopped
    && !(s.workers[0].Running? && Forceful(g, s.workers[0].n))
  }

  /** A step of the first worker with the node in its hands. */
  ghost predicate FirstStep(g: Graph, seats: map<int, int>, s: System, t: System)
    requires GoodGraph(g)
  {
    Holding(g, seats, s) && FirstBusy(g, s) && WorkerStep(g, s, 0, t)
  }

  /** What such a step changes. */
  lemma FirstChanges(g: Graph, seats: map<int, int>, s: System, t: System)
    requires GoodGraph(g) && FirstStep(g, seats, s, t)
    ensures t.started == s.started && |t.workers| == |s.workers| > 0 && t.workers[0] != Stopped
    ensures !t.workers[0].Forcing? && !t.workers[0].Running?
    ensures forall w :: 0 < w < |s.workers| ==> t.workers[w] == s.workers[w]
    ensures |t.mem.run| == |g.count|
    ensures forall i :: 0 <= i < |g.count| && t.mem.run[i] != s.mem.run[i] ==> s.workers[0] == Subtracting(i)
    ensures forall h :: h in t.released && h !in s.released ==> s.workers[0] == Releasing(h)
  {
    if s.workers[0].Running? {
      NotForced(g, s, 0);
    }
    if Release(g, s, 0, t) {
      ReleaseCounts(g, s, 0, t);
    }
  }

  lemma FirstHolds(g: Graph, seats: map<int, int>, s: System, t: System, h: int)
    requires GoodGraph(g) && FirstStep(g, seats, s, t) && h in seats
    ensures |t.mem.run| == |g.count| && HeldIn(g, seats, t, h)
  {
    FirstChanges(g, seats, s, t);
    HeldNotDone(g, seats, s, h);
    assert HeldIn(g, seats, s, h) && NodeInv(g, s, h);
    assert s.workers[0] in multiset(s.workers) && s.workers[seats[h]] in multiset(s.workers);
  }

  lemma FirstAhead(g: Graph, seats: map<int, int>, s: System, t: System, i: int)
    requires GoodGraph(g) && FirstStep(g, seats, s, t) && Forceful(g, i)
    ensures |t.mem.run| == |g.count| && t.mem.run[i] == g.count[i]
  {
    FirstChanges(g, seats, s, t);
    assert NodeInv(g, s, i);
    assert s.workers[0] in multiset(s.workers);
  }

  lemma FirstKeeps(g: Graph, seats: map<int, int>, s: System, t: System)
    requires GoodGraph(g) && FirstStep(g, seats, s, t)
    ensures Holding(g, seats, t)
  {
    assert Step(g, s, t);
    StepInv(g, s, t);
    FirstChanges(g, seats, s, t);
    forall h | h in seats ensures HeldIn(g, seats, t, h) {
      FirstHolds(g, seats, s, t, h);
    }
    forall i | Forceful(g, i) ensures t.mem.run[i] == g.count[i] {
      FirstAhead(g, seats, s, t, i);
    }
  }

  /** A worker takes a node that is handed out: a held node that is untouched goes to its own worker, any
      other to the first one. */
  function Taker(g: Graph, seats: map<int, int>, s: System, n: int): int
    requires |s.mem.run| == |g.count| && 0 <= n < |g.count|
  {
    if n in seats && s.mem.run[n] == g.count[n] then seats[n] else 0
  }

  function Taken(s: System, w: int, n: int): System
    requires 0 <= n < |s.mem.run| == |s.started| && 0 <= w < |s.workers|
  {
    s.(mem := Scheduled(s.mem, n), workers := s.workers[w := Running(n)], started := s.started[n := s.started[n] + 1])
  }

  /** The queue hands out node `n` while the first worker is idle. */
  ghost predicate HandsOut(g: Graph, seats: map<int, int>, s: System, n: int)
    requires GoodGraph(g)
  {
    && Holding(g, seats, s) && GoodSeats(g, seats, |s.workers|)
    && s.workers[0] == Idle && Foremost(g, s.mem.ready, n)
  }

  lemma TakerIdle(g: Graph, seats: map<int, int>, s: System, n: int)
    requires GoodGraph(g) && HandsOut(g, seats, s, n)
    ensures 0 <= Taker(g, seats, s, n) < |s.workers| && s.workers[Taker(g, seats, s, n)] == Idle
  {
    assert n in seats ==> HeldIn(g, seats, s, n);
  }

  /** Taking a node changes its word, and makes it touched. */
  lemma TakenWord(g: Graph, s: System, w: int, n: int)
    requires GoodGraph(g) && Inv(g, s) && 0 <= w < |s.workers| && s.workers[w] == Idle && Foremost(g, s.mem.ready, n)
    ensures var t := Taken(s, w, n);
      && t.mem.run == s.mem.run[n := t.mem.run[n]] && t.mem.run[n] != g.count[n]
      && Remaining(t.mem.run[n]) == Remaining(s.mem.run[n]) - 1
      && Acquires(g, s, w, n, t) && WorkerStep(g, s, w, t)
  {
    ReadyWord(g, s, w, n);
    PackedMove(s.mem.run[n]);
    assert Acquires(g, s, w, n, Taken(s, w, n));
  }

  lemma TakenHolds(g: Graph, seats: map<int, int>, s: System, n: int, h: int)
    requires GoodGraph(g) && HandsOut(g, seats, s, n) && h in seats
    ensures 0 <= Taker(g, seats, s, n) < |s.workers|
    ensures var t := Taken(s, Taker(g, seats, s, n), n); |t.mem.run| == |g.count| && HeldIn(g, seats, t, h)
  {
    TakerIdle(g, seats, s, n);
    TakenWord(g, s, Taker(g, seats, s, n), n);
    assert HeldIn(g, seats, s, h);
  }

  lemma TakenKeeps(g: Graph, seats: map<int, int>, s: System, n: int) returns (t: System)
    requires GoodGraph(g) && HandsOut(g, seats, s, n)
    ensures 0 <= Taker(g, seats, s, n) < |s.workers| && t == Taken(s, Taker(g, seats, s, n), n)
    ensures WorkerStep(g, s, Taker(g, seats, s, n), t) && Acquires(g, s, Taker(g, seats, s, n), n, t)
    ensures Holding(g, seats, t)
  {
    var w := Taker(g, seats, s, n);
    TakerIdle(g, seats, s, n);
    TakenWord(g, s, w, n);
    t := Taken(s, w, n);
    assert Step(g, s, t);
    StepInv(g, s, t);
    forall h | h in seats ensures HeldIn(g, seats, t, h) {
      TakenHolds(g, seats, s, n, h);
    }
    TakenAhead(g, seats, s, n);
  }

  lemma TakenAhead(g: Graph, seats: map<int, int>, s: System, n: int)
    requires GoodGraph(g) && HandsOut(g, seats, s, n)
    ensures 0 <= Taker(g, seats, s, n) < |s.workers|
    ensures var t := Taken(s, Taker(g, seats, s, n), n);
      |t.mem.run| == |g.count| && |t.workers| > 0 && OnlyFirst(seats, t) && ForcefulAhead(g, t)
  {
    TakerIdle(g, seats, s, n);
    TakenWord(g, s, Taker(g, seats, s, n), n);
  }

  // ---------------------------------------------------------------------------------------
  // Carrying on.

  /** The first worker comes back from the first run of a forceful node, or there is nothing to take. */
  ghost predicate Quiet(g: Graph, s: System) {
    && |s.workers| > 0
    && if s.workers[0] == Idle then s.mem.exit || forall n :: 0 <= n < |g.count| ==> n !in s.mem.ready
       else s.workers[0].Running? && Forceful(g, s.workers[0].n)
  }

  /** A run that holds the nodes which have a worker of their own. */
  ghost predicate HoldingRun(g: Graph, pick: Choice, seats: map<int, int>, workers: nat, states: seq<System>)
    requires GoodGraph(g)
  {
    && Obeyed(g, pick, workers, states) && |Last(states).workers| == workers
    && Chooses(g, pick) && GoodSeats(g, seats, workers) && Holding(g, seats, Last(states))
  }

  lemma TakingStarts(g: Graph, s: System, w: int, n: int, t: System)
    requires Acquires(g, s, w, n, t)
    ensures t.started != s.started
  {
    assert t.started[n] == s.started[n] + 1;
  }

  lemma NothingTaken(g: Graph, s: System, t: System, choice: int)
    requires GoodGraph(g) && t.started == s.started
    ensures TakesOnly(g, s, t, choice)
  {
    forall w, n ensures !Acquires(g, s, w, n, t) {
      if Acquires(g, s, w, n, t) {
        TakingStarts(g, s, w, n, t);
      }
    }
  }

  lemma OneTaken(g: Graph, s: System, w: int, n: int, t: System)
    requires GoodGraph(g) && Acquires(g, s, w, n, t) && !s.mem.exit
    ensures TakesOnly(g, s, t, n)
  {
    forall v, m | Acquires(g, s, v, m, t) ensures m == n {
      assert t.started[m] == s.started[m] + 1;
    }
  }

  /** The first worker goes on with what it has in its hands. */
  lemma FirstGoesOn(g: Graph, seats: map<int, int>, s: System, choice: int) returns (t: System)
    requires GoodGraph(g) && Holding(g, seats, s) && FirstBusy(g, s)
    ensures Step(g, s, t) && Holding(g, seats, t) && |t.workers| == |s.workers| && Measure(t) < Measure(s)
    ensures TakesOnly(g, s, t, choice)
  {
    t := BusyCanStep(g, s, 0);
    FirstKeeps(g, seats, s, t);
    FirstChanges(g, seats, s, t);
    StepLowersMeasure(g, s, 0, t);
    NothingTaken(g, s, t, choice);
  }

  /** A worker takes what the queue hands out. */
  lemma HandedOut(g: Graph, seats: map<int, int>, s: System, n: int) returns (t: System)
    requires GoodGraph(g) && HandsOut(g, seats, s, n) && !s.mem.exit
    ensures Step(g, s, t) && Holding(g, seats, t) && |t.workers| == |s.workers| && Measure(t) < Measure(s)
    ensures TakesOnly(g, s, t, n)
  {
    t := TakenKeeps(g, seats, s, n);
    StepLowersMeasure(g, s, Taker(g, seats, s, n), t);
    OneTaken(g, s, Taker(g, seats, s, n), n, t);
  }

  lemma ChosenIsForemost(g: Graph, pick: Choice, states: seq<System>, i: int)
    requires GoodGraph(g) && Chooses(g, pick) && states != []
    requires 0 <= i < |g.count| && i in Last(states).mem.ready
    ensures Foremost(g, Last(states).mem.ready, pick(states))
  {
    var n := SomeForemost(g, Last(states).mem.ready, i, |g.count|);
    assert ChoosesAt(g, pick, states);
    assert Foremost(g, Last(states).mem.ready, n);
  }

  /** The next step of such a run: of the first worker if it is busy, else into what the queue hands out. */
  lemma HoldOnce(g: Graph, pick: Choice, seats: map<int, int>, workers: nat, states: seq<System>) returns (t: System)
    requires GoodGraph(g) && HoldingRun(g, pick, seats, workers, states) && !Quiet(g, Last(states))
    ensures HoldingRun(g, pick, seats, workers, states + [t]) && Measure(t) < Measure(Last(states))
  {
    var s := Last(states);
    if s.workers[0] != Idle {
      t := FirstGoesOn(g, seats, s, pick(states));
    } else {
      var i :| 0 <= i < |g.count| && i in s.mem.ready;
      ChosenIsForemost(g, pick, states, i);
      t := HandedOut(g, seats, s, pick(states));
    }
    Continued(g, pick, workers, states, t);
  }

  /** Such a run can be carried on until nothing is left to take. */
  lemma {:induction false} HoldOn(g: Graph, pick: Choice, seats: map<int, int>, workers: nat, states: seq<System>)
    returns (more: seq<System>)
    requires GoodGraph(g) && HoldingRun(g, pick, seats, workers, states)
    ensures HoldingRun(g, pick, seats, workers, more) && Quiet(g, Last(more))
    decreases Measure(Last(states))
  {
    more := states;
    if !Quiet(g, Last(states)) {
      var t := HoldOnce(g, pick, seats, workers, states);
      more := HoldOn(g, pick, seats, workers, states + [t]);
    }
  }

  function StartReady(g: Graph, n: nat): multiset<int> {
    if n == 0 then multiset{}
    else StartReady(g, n - 1) + if Pending(g.links, n - 1, {}) == 0 then multiset{n - 1} else multiset{}
  }

  lemma {:induction false} StartReadyIs(g: Graph, n: nat, i: int)
    ensures StartReady(g, n)[i] == if 0 <= i < n && Pending(g.links, i, {}) == 0 then 1 else 0
    decreases n
  {
    if n > 0 {
      StartReadyIs(g, n - 1, i);
    }
  }

  /** A queue that has not begun. */
  lemma FirstState(g: Graph, workers: nat) returns (s: System)
    requires GoodGraph(g) && 1 <= workers < HALF
    ensures Start(g, s) && |s.workers| == workers
  {
    var n := |g.count|;
    var mem := Memory(g.count, seq(n, i => Pending(g.links, i, {})), seq(n, i => DependentsOf(g.links, i)),
                      StartReady(g, n), false);
    forall i ensures StartReady(g, n)[i] == if 0 <= i < n && Pending(g.links, i, {}) == 0 then 1 else 0 {
      StartReadyIs(g, n, i);
    }
    s := System(mem, seq(workers, _ => Idle), seq(n, _ => 0), seq(n, _ => 0), seq(n, _ => 0), {});
  }

  /** A run that holds the given nodes, carried on until nothing is left to take. */
  lemma Hold(g: Graph, pick: Choice, seats: map<int, int>, workers: nat) returns (states: seq<System>)
    requires GoodGraph(g) && g.answer.After? && Chooses(g, pick)
    requires 1 <= workers < HALF && GoodSeats(g, seats, workers)
    ensures HoldingRun(g, pick, seats, workers, states) && Quiet(g, Last(states))
  {
    var s := FirstState(g, workers);
    StartInv(g, s);
    states := HoldOn(g, pick, seats, workers, [s]);
  }

  // ---------------------------------------------------------------------------------------
  // What has been done then.

  /** Nothing is queued and the first worker is idle. */
  ghost predicate AtRest(g: Graph, seats: map<int, int>, s: System)
    requires GoodGraph(g)
  {
    Holding(g, seats, s) && s.workers[0] == Idle && forall n :: 0 <= n < |g.count| ==> n !in s.mem.ready
  }

  /** A node that is awake has no run left, is not forceful, and has released its dependents if it is not held. */
  lemma AwakeIsDone(g: Graph, seats: map<int, int>, s: System, i: int)
    requires GoodGraph(g) && AtRest(g, seats, s) && 0 <= i < |g.count| && Awake(g, i, s.released)
    ensures s.mem.run[i] != g.count[i] && Remaining(s.mem.run[i]) == 0 && !Forceful(g, i)
    ensures i !in seats ==> i in s.released
  {
    assert NodeInv(g, s, i);
    if i !in seats {
      NoneIn(s.workers, Running(i));
      NoneIn(s.workers, Forcing(i));
      NoneIn(s.workers, Subtracting(i));
      NoneIn(s.workers, Releasing(i));
    }
  }

  /** All that can wake without the held nodes has released its dependents. */
  lemma {:induction false} WokenIsDone(g: Graph, seats: map<int, int>, s: System, may: set<int>, n: nat)
    requires GoodGraph(g) && AtRest(g, seats, s) && forall i :: i in may ==> i !in seats
    ensures Woken(g, may, n) <= s.released
    decreases n
  {
    if n > 0 {
      WokenIsDone(g, seats, s, may, n - 1);
      forall i | i in Woken(g, may, n) ensures i in s.released {
        if i !in Woken(g, may, n - 1) {
          AwakeMono(g, i, Woken(g, may, n - 1), s.released);
          AwakeIsDone(g, seats, s, i);
        }
      }
    }
  }

  /** If the final node has released, which it does to nobody, then the exit flag is set. */
  lemma FinalSettled(g: Graph, seats: map<int, int>, s: System)
    requires GoodGraph(g) && AtRest(g, seats, s) && g.Final() in s.released
    ensures s.mem.exit
  {
    NoneIn(s.workers, Clearing(g.Final()));
    NoneIn(s.workers, Exiting);
  }
}
