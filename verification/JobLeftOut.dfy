/** Which jobs a run can leave out altogether and still exit: exactly, by their links and their priorities. */
module JobLeftOut {
  import opened Words
  import opened JobGraph
  import opened JobSafety
  import opened JobProgress
  import opened JobWaking
  import opened JobHolding
  import opened JobOutcomes

  /** The run has set the exit flag although the job was never started. */
  ghost predicate LeftOut(g: Graph, states: seq<System>, j: int) {
    Exits(g, states) && 0 <= j < g.Final() < |Last(states).started| && Last(states).started[j] == 0
  }

  /** A queue prefers node `d` to node `j`: always, or at least if it breaks a tie that way. */
  ghost predicate Beats(g: Graph, always: bool, d: int, j: int) {
    && 0 <= d < |g.priority| && 0 <= j < |g.priority|
    && if always then g.priority[d] > g.priority[j] else g.priority[d] >= g.priority[j]
  }

  /** Every job of the set is woken by others of it, so that just these jobs can release their dependents. */
  ghost predicate Supported(g: Graph, r: set<int>) {
    AllWoken(g, r) == r
  }

  /** Once the jobs of the set have released their dependents the job still sleeps, and every other node
      could have been taken by then, or beats the job later. */
  ghost predicate PassedOver(g: Graph, always: bool, j: int, r: set<int>) {
    && Supported(g, r) && !Awake(g, j, r)
    && forall d :: 0 <= d < |g.count| && d != j ==> Awake(g, d, r) || Beats(g, always, d, j)
  }

  /** The job is queued from the start, but every other node beats it. */
  ghost predicate LastFromTheStart(g: Graph, always: bool, j: int) {
    Awake(g, j, {}) && forall d :: 0 <= d < |g.count| && d != j ==> Beats(g, always, d, j)
  }

  /** The final node can wake without the job, and all others can be taken before it. */
  ghost predicate Omittable(g: Graph, always: bool, j: int) {
    FinalWakesWithout(g, j) && (LastFromTheStart(g, always, j) || exists r :: PassedOver(g, always, j, r))
  }

  // ---------------------------------------------------------------------------------------
  // What a run that leaves a job out shows.

  /** If the step takes a node while the job is queued then that node beats the job. */
  ghost predicate TakesBetter(g: Graph, always: bool, j: int, s: System, t: System) {
    forall w, n :: Acquires(g, s, w, n, t) && j in s.mem.ready ==> Beats(g, always, n, j)
  }

  ghost predicate TakesBetterInto(g: Graph, always: bool, j: int, states: seq<System>, i: int) {
    0 < i < |states| && TakesBetter(g, always, j, states[i - 1], states[i])
  }

  ghost predicate AlwaysBetter(g: Graph, always: bool, j: int, states: seq<System>) {
    forall i :: 0 < i < |states| ==> TakesBetterInto(g, always, j, states, i)
  }

  /** The last state up to `k` in which the job still slept. */
  lemma {:induction false} LastAsleep(g: Graph, states: seq<System>, j: int, k: int) returns (m: int)
    requires Plain(g) && Run(g, states) && -1 <= k < |states|
    ensures -1 <= m <= k && (m >= 0 ==> !Awake(g, j, states[m].released))
    ensures forall i :: m < i <= k ==> Awake(g, j, states[i].released)
    decreases k + 1
  {
    m := k;
    if k >= 0 && Awake(g, j, states[k].released) {
      m := LastAsleep(g, states, j, k - 1);
    }
  }

  /** A node that is touched at `k` but was not at `m` has been taken in between. */
  lemma {:induction false} TakenBetween(g: Graph, states: seq<System>, m: int, k: int, d: int) returns (i: int, w: int)
    requires Plain(g) && Run(g, states) && 0 <= m <= k < |states| && 0 <= d < |g.count|
    requires Inv(g, states[m]) && Inv(g, states[k])
    requires states[m].mem.run[d] == g.count[d] && states[k].mem.run[d] != g.count[d]
    ensures m < i <= k && Acquires(g, states[i - 1], w, d, states[i])
    decreases k
  {
    RunInv(g, states, k - 1);
    if states[k - 1].mem.run[d] != g.count[d] {
      i, w := TakenBetween(g, states, m, k - 1, d);
    } else {
      assert StepInto(g, states, k);
      i := k;
      w := TakenNow(g, states[k - 1], states[k], d);
    }
  }

  lemma TakenNow(g: Graph, s: System, t: System, d: int) returns (w: int)
    requires GoodGraph(g) && Inv(g, s) && Inv(g, t) && Step(g, s, t) && 0 <= d < |g.count|
    requires s.mem.run[d] == g.count[d] && t.mem.run[d] != g.count[d]
    ensures Acquires(g, s, w, d, t)
  {
    w :| WorkerStep(g, s, w, t);
    FirstTaken(g, s, w, t, d);
  }

  /** Links from two jobs that have not released a node are two pending links. */
  lemma {:induction false} TwoPending(links: seq<Link>, d: int, released: set<int>, a: int, b: int)
    requires a != b && a !in released && b !in released && Link(a, d) in links && Link(b, d) in links
    ensures Pending(links, d, released) >= 2
  {
    var front, last := links[..|links| - 1], links[|links| - 1];
    assert links == front + [last];
    if last == Link(a, d) {
      OnePending(front, d, released, b);
    } else if last == Link(b, d) {
      OnePending(front, d, released, a);
    } else {
      TwoPending(front, d, released, a, b);
    }
  }

  lemma OnePending(links: seq<Link>, d: int, released: set<int>, a: int)
    requires a !in released && Link(a, d) in links
    ensures Pending(links, d, released) >= 1
  {
    PendingZero(links, d, released);
  }

  /** When the final node has run without the job, all other nodes have run. */
  lemma OthersTouched(g: Graph, s: System, j: int, d: int)
    requires Plain(g) && Inv(g, s) && s.mem.exit && 0 <= j < g.Final() && j !in s.released
    requires 0 <= d < |g.count| && d != j
    ensures s.mem.run[d] != g.count[d]
  {
    FinalRan(g, s);
    assert NodeInv(g, s, g.Final()) && NodeInv(g, s, d);
    SomeLinkToFinal(g);
    if d !in s.released {
      assert Link(d, g.Final()) in g.links && Link(j, g.Final()) in g.links;
      TwoPending(g.links, g.Final(), s.released, d, j);
      PendingMono(g.links, g.Final(), {}, s.released);
    }
  }

  /** A job that was never started is untouched, and queued as soon as it is awake. */
  lemma UntouchedReady(g: Graph, s: System, j: int)
    requires GoodGraph(g) && Inv(g, s) && 0 <= j < |g.count| && s.mem.run[j] == g.count[j]
    ensures j in s.mem.ready <==> Awake(g, j, s.released)
    ensures j !in s.released
  {
    assert NodeInv(g, s, j);
  }

  /** A job that was never started is untouched. */
  lemma NeverStarted(g: Graph, s: System, j: int)
    requires GoodGraph(g) && Inv(g, s) && 0 <= j < |g.count| && s.started[j] == 0
    ensures s.mem.run[j] == g.count[j]
  {
    assert NodeInv(g, s, j);
  }

  /** It was untouched all along. */
  lemma {:induction false} UntouchedBefore(g: Graph, states: seq<System>, i: int, k: int, j: int)
    requires Plain(g) && Run(g, states) && 0 <= i <= k < |states| && 0 <= j < |g.count|
    requires |states[k].started| == |g.count| && states[k].started[j] == 0
    ensures Inv(g, states[i]) && states[i].started[j] == 0 && states[i].mem.run[j] == g.count[j]
    decreases k
  {
    if i < k {
      StartedBefore(g, states, k, j);
      UntouchedBefore(g, states, i, k - 1, j);
    } else {
      RunInv(g, states, k);
      NeverStarted(g, states[k], j);
    }
  }

  lemma StartedBefore(g: Graph, states: seq<System>, k: int, j: int)
    requires Plain(g) && Run(g, states) && 0 < k < |states| && 0 <= j < |g.count|
    requires |states[k].started| == |g.count| && states[k].started[j] == 0
    ensures |states[k - 1].started| == |g.count| && states[k - 1].started[j] == 0
  {
    RunInv(g, states, k - 1);
    assert StepInto(g, states, k);
    StartsNever(g, states[k - 1], states[k], j);
    assert NodeInv(g, states[k - 1], j);
  }

  lemma StartsNever(g: Graph, s: System, t: System, j: int)
    requires GoodGraph(g) && Inv(g, s) && Step(g, s, t) && 0 <= j < |g.count|
    ensures |t.started| == |g.count| && s.started[j] <= t.started[j]
  {
    var w :| WorkerStep(g, s, w, t);
  }

  /** A node that was taken while the job was awake beats the job. */
  lemma TakenLaterBeats(g: Graph, always: bool, states: seq<System>, j: int, m: int, d: int)
    requires Plain(g) && Run(g, states) && LeftOut(g, states, j) && AlwaysBetter(g, always, j, states)
    requires 0 <= m < |states| && 0 <= d < |g.count| && Inv(g, states[m]) && states[m].mem.run[d] == g.count[d]
    requires d != j && forall i :: m < i < |states| ==> Awake(g, j, states[i].released)
    requires Awake(g, j, states[m].released) || m < |states| - 1
    ensures Beats(g, always, d, j)
  {
    var k := |states| - 1;
    RunInv(g, states, k);
    UntouchedBefore(g, states, k, k, j);
    UntouchedReady(g, states[k], j);
    OthersTouched(g, states[k], j, d);
    var i, w := TakenBetween(g, states, m, k, d);
    UntouchedBefore(g, states, i - 1, k, j);
    UntouchedReady(g, states[i - 1], j);
    assert TakesBetterInto(g, always, j, states, i);
    assert states[i].released == states[i - 1].released;
    assert Awake(g, j, states[i].released);
  }

  /** What has been touched is awake by the jobs that have released their dependents. */
  lemma TouchedIsAwake(g: Graph, s: System, d: int)
    requires Plain(g) && Inv(g, s) && 0 <= d < |g.count|
    ensures Awake(g, d, s.released) <==> Awake(g, d, s.released - {g.Final()})
    ensures s.mem.run[d] != g.count[d] ==> Awake(g, d, s.released)
  {
    AwakeMono(g, d, s.released, s.released - {g.Final()});
    AwakeMono(g, d, s.released - {g.Final()}, s.released);
    assert NodeInv(g, s, d);
  }

  lemma ReleasedSupported(g: Graph, states: seq<System>, k: int)
    requires Plain(g) && Run(g, states) && 0 <= k < |states|
    ensures Supported(g, states[k].released - {g.Final()})
  {
    var r := states[k].released - {g.Final()};
    forall i | 0 <= i < k ensures Calm(g, states[i]) {
      RunInv(g, states, i);
    }
    RunInv(g, states, k);
    RunsOnlyWoken(g, r, states, k);
    WokenInAll(g, r, k);
    WokenJobs(g, r, g.Final());
    assert r <= Woken(g, r, k) <= AllWoken(g, r);
    forall d | d in AllWoken(g, r) ensures d in r {
      assert d in Woken(g, r, g.Final());
    }
    assert AllWoken(g, r) <= r;
  }

  /** A job that a run leaves out can be left out. */
  lemma LeftOutIsOmittable(g: Graph, always: bool, states: seq<System>, j: int)
    requires Plain(g) && Run(g, states) && LeftOut(g, states, j) && AlwaysBetter(g, always, j, states)
    ensures Omittable(g, always, j)
  {
    var k := |states| - 1;
    RunInv(g, states, k);
    UntouchedBefore(g, states, k, k, j);
    UntouchedReady(g, states[k], j);
    ReleasedAreJobs(g, states[k]);
    ExitWakesFinal(g, states, Others(g, j));
    var m := LastAsleep(g, states, j, k);
    if m < 0 {
      assert states[0].released == {};
      StartInv(g, states[0]);
      forall d | 0 <= d < |g.count| && d != j ensures Beats(g, always, d, j) {
        TakenLaterBeats(g, always, states, j, 0, d);
      }
    } else {
      PassedAt(g, always, states, j, m);
    }
  }

  lemma PassedAt(g: Graph, always: bool, states: seq<System>, j: int, m: int)
    requires Plain(g) && Run(g, states) && LeftOut(g, states, j) && AlwaysBetter(g, always, j, states)
    requires 0 <= m < |states| && !Awake(g, j, states[m].released)
    requires forall i :: m < i < |states| ==> Awake(g, j, states[i].released)
    ensures PassedOver(g, always, j, states[m].released - {g.Final()})
  {
    var k, r := |states| - 1, states[m].released - {g.Final()};
    RunInv(g, states, k);
    UntouchedBefore(g, states, m, k, j);
    ReleasedSupported(g, states, m);
    TouchedIsAwake(g, states[m], j);
    forall d | 0 <= d < |g.count| && d != j ensures Awake(g, d, r) || Beats(g, always, d, j) {
      TouchedIsAwake(g, states[m], d);
      if states[m].mem.run[d] == g.count[d] {
        if m == k {
          UntouchedReady(g, states[k], j);
          OthersTouched(g, states[k], j, d);
        } else {
          TakenLaterBeats(g, always, states, j, m, d);
        }
      }
    }
  }

  // ---------------------------------------------------------------------------------------
  // Runs that leave a job out.

  /** The queue does not hand the job out while a node is queued that beats it. */
  ghost predicate AvoidsAt(g: Graph, always: bool, j: int, pick: Choice, states: seq<System>) {
    (states != [] && exists d :: 0 <= d < |g.count| && d != j && d in Last(states).mem.ready && Beats(g, always, d, j))
    ==> pick(states) != j
  }

  ghost predicate Avoids(g: Graph, always: bool, j: int, pick: Choice) {
    Chooses(g, pick) && forall states :: AvoidsAt(g, always, j, pick, states)
  }

  /** The job is untouched and every other node beats it or has no run left. */
  ghost predicate Passing(g: Graph, always: bool, j: int, s: System)
    requires GoodGraph(g)
  {
    && Inv(g, s) && Calm(g, s) && 0 <= j < g.Final() && s.mem.run[j] == g.count[j]
    && forall d :: 0 <= d < |g.count| && d != j ==> Remaining(s.mem.run[d]) == 0 || Beats(g, always, d, j)
  }

  /** A busy worker goes on; the job stays untouched, and no node gets a run back. */
  lemma PassingGoesOn(g: Graph, always: bool, j: int, s: System, w: int, choice: int) returns (t: System)
    requires Plain(g) && Passing(g, always, j, s)
    requires 0 <= w < |s.workers| && s.workers[w] != Idle && s.workers[w] != Stopped
    ensures Step(g, s, t) && Passing(g, always, j, t) && Measure(t) < Measure(s) && TakesOnly(g, s, t, choice)
    ensures |t.workers| == |s.workers|
  {
    t := BusyCanStep(g, s, w);
    assert Step(g, s, t);
    StepInv(g, s, t);
    StepCalm(g, s, t);
    StepLowersMeasure(g, s, w, t);
    BusyKeepsRuns(g, s, w, t);
    if t.mem.run[j] != g.count[j] {
      FirstTaken(g, s, w, t, j);
    }
    NothingTaken(g, s, t, choice);
  }

  lemma BusyKeepsRuns(g: Graph, s: System, w: int, t: System)
    requires Plain(g) && Inv(g, s) && Calm(g, s) && WorkerStep(g, s, w, t)
    requires s.workers[w] != Idle && s.workers[w] != Stopped
    ensures t.started == s.started && |t.mem.run| == |g.count| && |t.workers| == |s.workers|
    ensures forall d :: 0 <= d < |g.count| ==> Remaining(t.mem.run[d]) == Remaining(s.mem.run[d])
  {
    if Release(g, s, w, t) {
      ReleaseCounts(g, s, w, t);
    } else if Subtract(g, s, w, t) {
      var n := SubtractedWord(g, s, w, t);
    }
  }

  /** With all workers idle the queue hands out some other node than the job. */
  lemma PassingTakes(g: Graph, always: bool, j: int, s: System, n: int) returns (t: System)
    requires Plain(g) && Passing(g, always, j, s) && s.workers[0] == Idle && !s.mem.exit
    requires Foremost(g, s.mem.ready, n) && n != j
    ensures Step(g, s, t) && Passing(g, always, j, t) && Measure(t) < Measure(s) && TakesOnly(g, s, t, n)
    ensures |t.workers| == |s.workers|
  {
    t := Taken(s, 0, n);
    TakenWord(g, s, 0, n);
    assert Step(g, s, t);
    StepInv(g, s, t);
    StepCalm(g, s, t);
    StepLowersMeasure(g, s, 0, t);
    OneTaken(g, s, 0, n, t);
    assert NodeInv(g, s, n);
  }

  /** A run that passes the job over. */
  ghost predicate PassingRun(g: Graph, always: bool, j: int, pick: Choice, workers: nat, states: seq<System>)
    requires GoodGraph(g)
  {
    && Obeyed(g, pick, workers, states) && |Last(states).workers| == workers
    && Avoids(g, always, j, pick) && Passing(g, always, j, Last(states))
  }

  /** It has exited, or its workers are all idle and nothing but the job is queued. */
  ghost predicate PassedBy(g: Graph, j: int, s: System) {
    || s.mem.exit
    || ((forall w :: 0 <= w < |s.workers| ==> s.workers[w] == Idle)
        && (forall d :: 0 <= d < |g.count| && d != j ==> d !in s.mem.ready))
  }

  lemma PassOnce(g: Graph, always: bool, j: int, pick: Choice, workers: nat, states: seq<System>) returns (t: System)
    requires Plain(g) && PassingRun(g, always, j, pick, workers, states) && !PassedBy(g, j, Last(states))
    ensures PassingRun(g, always, j, pick, workers, states + [t]) && Measure(t) < Measure(Last(states))
  {
    var s := Last(states);
    if w :| 0 <= w < |s.workers| && s.workers[w] != Idle {
      NoStopped(g, s);
      t := PassingGoesOn(g, always, j, s, w, pick(states));
    } else {
      var d :| 0 <= d < |g.count| && d != j && d in s.mem.ready;
      OtherChosen(g, always, j, pick, states, d);
      t := PassingTakes(g, always, j, s, pick(states));
    }
    Continued(g, pick, workers, states, t);
  }

  lemma OtherChosen(g: Graph, always: bool, j: int, pick: Choice, states: seq<System>, d: int)
    requires Plain(g) && Avoids(g, always, j, pick) && states != [] && Passing(g, always, j, Last(states))
    requires 0 <= d < |g.count| && d != j && d in Last(states).mem.ready
    ensures Foremost(g, Last(states).mem.ready, pick(states)) && pick(states) != j
  {
    ChosenIsForemost(g, pick, states, d);
    assert AvoidsAt(g, always, j, pick, states);
    assert NodeInv(g, Last(states), d);
  }

  lemma {:induction false} PassOn(g: Graph, always: bool, j: int, pick: Choice, workers: nat, states: seq<System>)
    returns (more: seq<System>)
    requires Plain(g) && PassingRun(g, always, j, pick, workers, states)
    ensures PassingRun(g, always, j, pick, workers, more) && PassedBy(g, j, Last(more))
    decreases Measure(Last(states))
  {
    more := states;
    if !PassedBy(g, j, Last(states)) {
      var t := PassOnce(g, always, j, pick, workers, states);
      more := PassOn(g, always, j, pick, workers, states + [t]);
    }
  }

  /** When nothing but the job is left, all that wakes without it has released its dependents. */
  lemma {:induction false} PassedIsDone(g: Graph, j: int, s: System, n: nat)
    requires Plain(g) && Inv(g, s) && PassedBy(g, j, s) && !s.mem.exit
    ensures Woken(g, Others(g, j), n) <= s.released
    decreases n
  {
    if n > 0 {
      PassedIsDone(g, j, s, n - 1);
      WokenJobs(g, Others(g, j), n);
      forall i | i in Woken(g, Others(g, j), n) ensures i in s.released {
        if i !in Woken(g, Others(g, j), n - 1) {
          AwakeMono(g, i, Woken(g, Others(g, j), n - 1), s.released);
          IdleIsDone(g, s, i);
        }
      }
    }
  }

  /** With all workers idle, a node that is awake and not queued has released its dependents. */
  lemma IdleIsDone(g: Graph, s: System, i: int)
    requires Plain(g) && Inv(g, s) && 0 <= i < |g.count| && Awake(g, i, s.released) && i !in s.mem.ready
    requires forall w :: 0 <= w < |s.workers| ==> s.workers[w] == Idle
    ensures i in s.released
    ensures i == g.Final() ==> s.mem.exit
  {
    assert NodeInv(g, s, i);
    NoneIn(s.workers, Running(i));
    NoneIn(s.workers, Forcing(i));
    NoneIn(s.workers, Subtracting(i));
    NoneIn(s.workers, Releasing(i));
    NoneIn(s.workers, Clearing(i));
    NoneIn(s.workers, Exiting);
  }

  /** A run that passes the job over exits without it. */
  lemma PassedExits(g: Graph, j: int, s: System)
    requires Plain(g) && Inv(g, s) && PassedBy(g, j, s) && FinalWakesWithout(g, j)
    ensures s.mem.exit
  {
    if !s.mem.exit {
      PassedIsDone(g, j, s, g.Final());
      AwakeMono(g, g.Final(), AllWoken(g, Others(g, j)), s.released);
      IdleIsDone(g, s, g.Final());
    }
  }

  /** From a state in which the job can be passed over, a run goes on to leave it out. */
  lemma LeaveOut(g: Graph, always: bool, j: int, pick: Choice, workers: nat, states: seq<System>)
    returns (more: seq<System>)
    requires Plain(g) && PassingRun(g, always, j, pick, workers, states) && FinalWakesWithout(g, j)
    ensures Obeyed(g, pick, workers, more) && LeftOut(g, more, j)
  {
    more := PassOn(g, always, j, pick, workers, states);
    PassedExits(g, j, Last(more));
    assert NodeInv(g, Last(more), j);
  }

  /** A worker for each node outside of the set. */
  function SeatsBut(g: Graph, r: set<int>): map<int, int> {
    map h | h in Below(|g.count|) && h !in r :: h + 1
  }

  /** At the start the job is queued, and all others beat it. */
  lemma PassFromTheStart(g: Graph, always: bool, j: int, pick: Choice) returns (states: seq<System>)
    requires Plain(g) && Avoids(g, always, j, pick) && 0 <= j < g.Final() && LastFromTheStart(g, always, j)
    ensures PassingRun(g, always, j, pick, 1, states)
  {
    var s := FirstState(g, 1);
    StartInv(g, s);
    states := [s];
  }

  /** With all other nodes held, just the jobs of the set release their dependents, and the job sleeps. */
  lemma PassAfterHolding(g: Graph, always: bool, j: int, pick: Choice, r: set<int>) returns (states: seq<System>)
    requires Plain(g) && Avoids(g, always, j, pick) && 0 <= j < g.Final() && PassedOver(g, always, j, r)
    requires |g.count| < HALF - 1
    ensures PassingRun(g, always, j, pick, |g.count| + 1, states)
  {
    var seats := SeatsBut(g, r);
    NothingForced(g);
    WokenJobs(g, r, g.Final());
    states := Hold(g, pick, seats, |g.count| + 1);
    var s := Last(states);
    assert g.Final() in seats;
    NotExited(g, seats, s);
    WokenIsDone(g, seats, s, r, g.Final());
    forall h | h in s.released ensures h in r {
      assert h in seats ==> HeldIn(g, seats, s, h);
    }
    assert s.released == r;
    assert NodeInv(g, s, j);
    forall d | 0 <= d < |g.count| && d != j ensures Remaining(s.mem.run[d]) == 0 || Beats(g, always, d, j) {
      if Awake(g, d, r) {
        AwakeIsDone(g, seats, s, d);
      }
    }
  }

  lemma LeaveOutOmittable(g: Graph, always: bool, j: int, pick: Choice) returns (workers: nat, states: seq<System>)
    requires Plain(g) && Avoids(g, always, j, pick) && Omittable(g, always, j) && |g.count| < HALF - 1
    ensures Obeyed(g, pick, workers, states) && LeftOut(g, states, j)
  {
    if LastFromTheStart(g, always, j) {
      workers := 1;
      states := PassFromTheStart(g, always, j, pick);
    } else {
      var r :| PassedOver(g, always, j, r);
      workers := |g.count| + 1;
      states := PassAfterHolding(g, always, j, pick, r);
    }
    states := LeaveOut(g, always, j, pick, workers, states);
  }

  // ---------------------------------------------------------------------------------------
  // Queues that break ties for the job or against it.

  /** Hands out a node of greatest priority: the given one if it is among them, or if it is alone. */
  ghost function PickFor(g: Graph, j: int): Choice {
    (states: seq<System>) =>
      if states != [] && Foremost(g, Last(states).mem.ready, j) then j
      else if states != [] && exists n :: Foremost(g, Last(states).mem.ready, n) then
        var n :| Foremost(g, Last(states).mem.ready, n); n
      else 0
  }

  ghost function PickAgainst(g: Graph, j: int): Choice {
    (states: seq<System>) =>
      if states != [] && exists n :: n != j && Foremost(g, Last(states).mem.ready, n) then
        var n :| n != j && Foremost(g, Last(states).mem.ready, n); n
      else j
  }

  lemma PickForChooses(g: Graph, j: int)
    ensures Chooses(g, PickFor(g, j))
  {
    forall states ensures ChoosesAt(g, PickFor(g, j), states) {
    }
  }

  lemma PickAgainstAvoids(g: Graph, j: int)
    requires GoodGraph(g)
    ensures Avoids(g, false, j, PickAgainst(g, j))
  {
    var pick := PickAgainst(g, j);
    forall states ensures ChoosesAt(g, pick, states) && AvoidsAt(g, false, j, pick, states) {
      AgainstAt(g, j, states);
    }
  }

  lemma AgainstAt(g: Graph, j: int, states: seq<System>)
    requires GoodGraph(g)
    ensures ChoosesAt(g, PickAgainst(g, j), states) && AvoidsAt(g, false, j, PickAgainst(g, j), states)
  {
    if states != [] {
      var ready := Last(states).mem.ready;
      if d :| 0 <= d < |g.count| && d != j && d in ready && Beats(g, false, d, j) {
        var n := SomeForemost(g, ready, d, |g.count|);
        assert Foremost(g, ready, n);
        if n == j {
          assert Foremost(g, ready, d);
        }
      }
    }
  }

  /** A queue that hands out nodes of greatest priority only avoids what a queued node really exceeds. */
  lemma ChoosesAvoids(g: Graph, j: int, pick: Choice)
    requires GoodGraph(g) && Chooses(g, pick)
    ensures Avoids(g, true, j, pick)
  {
    forall states ensures AvoidsAt(g, true, j, pick, states) {
      if states != [] {
        var ready := Last(states).mem.ready;
        if d :| 0 <= d < |g.count| && d != j && d in ready && Beats(g, true, d, j) {
          ChosenIsForemost(g, pick, states, d);
        }
      }
    }
  }

  // ---------------------------------------------------------------------------------------
  // Exactly which jobs can be left out.

  /** What is taken has the greatest priority, so it beats any queued node unless a tie goes the other way. */
  lemma TakenBeats(g: Graph, j: int, states: seq<System>)
    requires GoodGraph(g) && Run(g, states) && 0 <= j < |g.count|
    ensures AlwaysBetter(g, false, j, states)
  {
    forall i | 0 < i < |states| ensures TakesBetterInto(g, false, j, states, i) {
    }
  }

  /** A queue that breaks ties for a job which is never started hands out only what really exceeds it. */
  lemma TakenExceeds(g: Graph, j: int, workers: nat, states: seq<System>)
    requires Plain(g) && Obeyed(g, PickFor(g, j), workers, states) && LeftOut(g, states, j)
    ensures AlwaysBetter(g, true, j, states)
  {
    forall i | 0 < i < |states| ensures TakesBetterInto(g, true, j, states, i) {
      ExceedsAt(g, j, workers, states, i);
    }
  }

  lemma ExceedsAt(g: Graph, j: int, workers: nat, states: seq<System>, i: int)
    requires Plain(g) && Obeyed(g, PickFor(g, j), workers, states) && LeftOut(g, states, j) && 0 < i < |states|
    ensures TakesBetterInto(g, true, j, states, i)
  {
    var k := |states| - 1;
    RunInv(g, states, k);
    UntouchedBefore(g, states, i, k, j);
    UntouchedBefore(g, states, i - 1, k, j);
    assert ObeysAt(g, PickFor(g, j), states, i);
    assert Last(states[..i]) == states[i - 1];
    var s, t := states[i - 1], states[i];
    forall w, n | Acquires(g, s, w, n, t) && j in s.mem.ready ensures Beats(g, true, n, j) {
      assert n != j by {
        assert t.started[n] == s.started[n] + 1;
      }
    }
  }

  /** Some run of a queue that may break ties in any way leaves the job out exactly if the job is omittable,
      ties being broken against it. */
  lemma LeftOutExactly(g: Graph, j: int)
    requires Plain(g) && |g.count| < HALF - 1
    ensures (exists states :: LeftOut(g, states, j)) <==> Omittable(g, false, j)
  {
    if states :| LeftOut(g, states, j) {
      TakenBeats(g, j, states);
      LeftOutIsOmittable(g, false, states, j);
    }
    if Omittable(g, false, j) {
      PickAgainstAvoids(g, j);
      var workers, states := LeaveOutOmittable(g, false, j, PickAgainst(g, j));
    }
  }

  /** Some run leaves the job out however the queue breaks ties exactly if the job is omittable without ties. */
  lemma AlwaysLeftOutExactly(g: Graph, j: int)
    requires Plain(g) && |g.count| < HALF - 1
    ensures (forall pick :: Chooses(g, pick) ==> exists workers, states ::
               Obeyed(g, pick, workers, states) && LeftOut(g, states, j)) <==> Omittable(g, true, j)
  {
    if Omittable(g, true, j) {
      forall pick | Chooses(g, pick) ensures exists workers, states ::
        Obeyed(g, pick, workers, states) && LeftOut(g, states, j)
      {
        ChoosesAvoids(g, j, pick);
        var workers, states := LeaveOutOmittable(g, true, j, pick);
      }
    } else {
      PickForChooses(g, j);
      forall workers, states ensures !(Obeyed(g, PickFor(g, j), workers, states) && LeftOut(g, states, j)) {
        if Obeyed(g, PickFor(g, j), workers, states) && LeftOut(g, states, j) {
          TakenExceeds(g, j, workers, states);
          LeftOutIsOmittable(g, true, states, j);
        }
      }
    }
  }

  /** Of two jobs that do not wait for each other the second can be left out exactly if neither the first
      job nor the final node has a lower priority; and whatever is done about ties, exactly if both have a
      greater one. */
  lemma TwoJobsOmittable(first: int, second: int, always: bool)
    ensures Omittable(TwoJobs(first, second), always, 1) <==>
      if always then second < first && second < 0x80 else second <= first && second <= 0x80
  {
    var g := TwoJobs(first, second);
    TwoJobsGood(first, second);
    TwoJobsPending(first, second, 0, {});
    TwoJobsPending(first, second, 1, {});
    TwoJobsPending(first, second, 2, {});
    TwoJobsPending(first, second, 2, {0});
    assert Woken(g, Others(g, 1), 0) == {};
    assert Woken(g, Others(g, 1), 1) == Waking(g, Others(g, 1), Woken(g, Others(g, 1), 0));
    assert 0 in Others(g, 1) && Awake(g, 0, {}) && 0 < g.Final();
    WokenInAll(g, Others(g, 1), 1);
    AwakeMono(g, 2, {0}, AllWoken(g, Others(g, 1)));
    assert FinalWakesWithout(g, 1);
    forall r ensures !PassedOver(g, always, 1, r) {
      AwakeMono(g, 1, {}, r);
    }
    assert LastFromTheStart(g, always, 1) <==> Beats(g, always, 0, 1) && Beats(g, always, 2, 1);
  }

  /** Two jobs of normal priority leave one out only if ties go against it; a second job of less than normal
      priority is left out by some run of every queue, and jobs of more than normal priority by none. */
  lemma TwoJobsLeftOut(first: int, second: int)
    ensures (exists states :: LeftOut(TwoJobs(first, second), states, 1)) <==> second <= first && second <= 0x80
    ensures (forall pick :: Chooses(TwoJobs(first, second), pick) ==> exists workers, states ::
               Obeyed(TwoJobs(first, second), pick, workers, states) && LeftOut(TwoJobs(first, second), states, 1))
            <==> second < first && second < 0x80
  {
    TwoJobsGood(first, second);
    TwoJobsOmittable(first, second, false);
    TwoJobsOmittable(first, second, true);
    LeftOutExactly(TwoJobs(first, second), 1);
    AlwaysLeftOutExactly(TwoJobs(first, second), 1);
  }
}
