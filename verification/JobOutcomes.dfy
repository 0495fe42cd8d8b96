/** What becomes of order, exit and the queue of a job graph when the atomic functions answer with the new
    value: for every graph, whether its runs keep order, whether they exit, and whether they exit too soon.
    Runs that show that something can happen are found whatever node of greatest priority the queue hands out,
    for any number of workers, or for any from two up. */
module JobOutcomes {
  import opened Words
  import opened JobGraph
  import opened JobSafety
  import opened JobProgress
  import opened JobWaking
  import opened JobHolding

  /** A graph whose decrements answer with the new value, and of which no job is ever forced out of the queue. */
  ghost predicate Plain(g: Graph) {
    GoodGraph(g) && g.answer.After? && Sound(g)
  }

  lemma NothingForced(g: Graph)
    requires Plain(g)
    ensures forall i :: !Forceful(g, i)
  {
  }

  /** A queue of so many workers and a choice of what it hands out. */
  ghost predicate Queue(g: Graph, pick: Choice, workers: nat) {
    Chooses(g, pick) && 1 <= workers < HALF
  }

  // ---------------------------------------------------------------------------------------
  // The past of a run.

  lemma InHandsIsTouched(g: Graph, s: System, w: int)
    requires GoodGraph(g) && Inv(g, s) && 0 <= w < |s.workers|
    requires s.workers[w].Forcing? || s.workers[w].Subtracting?
    ensures var n := s.workers[w].n; 0 <= n < |g.count| && s.mem.run[n] != g.count[n]
  {
    assert PhaseInRange(g, s.workers[w]);
    assert s.workers[w] in multiset(s.workers);
    assert NodeInv(g, s, s.workers[w].n);
  }

  /** A word changes for the first time when its node is taken. */
  lemma FirstTaken(g: Graph, s: System, w: int, t: System, d: int)
    requires GoodGraph(g) && Inv(g, s) && WorkerStep(g, s, w, t) && 0 <= d < |g.count|
    requires s.mem.run[d] == g.count[d] && |t.mem.run| == |g.count| && t.mem.run[d] != g.count[d]
    ensures Acquires(g, s, w, d, t)
  {
    if Release(g, s, w, t) {
      ReleaseCounts(g, s, w, t);
    } else if Force(g, s, w, t) || Subtract(g, s, w, t) {
      InHandsIsTouched(g, s, w);
    }
  }

  /** A node whose word has changed was run by some worker before. */
  lemma {:induction false} RanBefore(g: Graph, states: seq<System>, k: int, d: int) returns (j: int, w: int)
    requires Plain(g) && Run(g, states) && 0 <= k < |states| && 0 <= d < |g.count|
    requires |states[k].mem.run| == |g.count| && states[k].mem.run[d] != g.count[d]
    ensures 0 <= j <= k && 0 <= w < |states[j].workers| && states[j].workers[w] == Running(d)
    decreases k
  {
    if k > 0 {
      RunInv(g, states, k - 1);
      if states[k - 1].mem.run[d] != g.count[d] {
        j, w := RanBefore(g, states, k - 1, d);
      } else {
        assert StepInto(g, states, k);
        w :| WorkerStep(g, states[k - 1], w, states[k]);
        FirstTaken(g, states[k - 1], w, states[k], d);
        j := k;
      }
    }
  }

  lemma {:induction false} ReleasedGrows(g: Graph, states: seq<System>, j: int, k: int)
    requires Plain(g) && Run(g, states) && 0 <= j <= k < |states|
    ensures states[j].released <= states[k].released
    decreases k - j
  {
    if j < k {
      ReleasedGrows(g, states, j, k - 1);
      RunInv(g, states, k - 1);
      assert StepInto(g, states, k);
      var w :| WorkerStep(g, states[k - 1], w, states[k]);
      SameSize(g, states[k - 1], w, states[k]);
    }
  }

  // ---------------------------------------------------------------------------------------
  // Order.

  /** Whenever a worker runs a job, the parents of the job have released their dependents. */
  ghost predicate InOrder(g: Graph, states: seq<System>) {
    forall k, w, l ::
      && 0 <= k < |states| && 0 <= w < |states[k].workers| && 0 <= l < |g.links|
      && states[k].workers[w] == Running(g.links[l].dependent) ==>
        g.links[l].parent in states[k].released
  }

  /** The dependent of the link can wake while its parent has not released it. */
  ghost predicate Bypassed(g: Graph, l: int)
    requires 0 <= l < |g.links|
  {
    Awake(g, g.links[l].dependent, AllWoken(g, Others(g, g.links[l].parent)))
  }

  /** Every run keeps order exactly when no dependent can wake without one of its parents; and with two or more
      workers that is so already of the runs of any queue of greatest priorities. */
  lemma OrderKept(g: Graph, pick: Choice, workers: nat)
    requires Plain(g) && Queue(g, pick, workers) && workers >= 2
    ensures (forall states :: Run(g, states) ==> InOrder(g, states)) <==>
            (forall l :: 0 <= l < |g.links| ==> !Bypassed(g, l))
    ensures (forall states :: Obeyed(g, pick, workers, states) ==> InOrder(g, states)) <==>
            (forall l :: 0 <= l < |g.links| ==> !Bypassed(g, l))
  {
    if l :| 0 <= l < |g.links| && Bypassed(g, l) {
      var states := OutOfOrder(g, pick, workers, l);
      assert Obeyed(g, pick, workers, states) && Run(g, states) && !InOrder(g, states);
    } else {
      forall states: seq<System> | Run(g, states) ensures InOrder(g, states) {
        StaysInOrder(g, states);
      }
    }
  }

  lemma StaysInOrder(g: Graph, states: seq<System>)
    requires Plain(g) && Run(g, states) && forall l :: 0 <= l < |g.links| ==> !Bypassed(g, l)
    ensures InOrder(g, states)
  {
    forall k, w, l |
      && 0 <= k < |states| && 0 <= w < |states[k].workers| && 0 <= l < |g.links|
      && states[k].workers[w] == Running(g.links[l].dependent)
      ensures g.links[l].parent in states[k].released
    {
      if g.links[l].parent !in states[k].released {
        StartedWithout(g, states, k, w, g.links[l].parent);
        assert Bypassed(g, l);
      }
    }
  }

  /** What runs while a node has not released its dependents can wake without that node. */
  lemma StartedWithout(g: Graph, states: seq<System>, k: int, w: int, but: int)
    requires Plain(g) && Run(g, states) && 0 <= k < |states| && but !in states[k].released
    requires 0 <= w < |states[k].workers| && states[k].workers[w].Running?
    ensures Awake(g, states[k].workers[w].n, AllWoken(g, Others(g, but)))
  {
    RunInv(g, states, k);
    RunsAwake(g, states[k], w);
    ReleasedAreJobs(g, states[k]);
    ChangedIsWoken(g, states, k, Others(g, but), states[k].workers[w].n);
  }

  lemma ReleasedAreJobs(g: Graph, s: System)
    requires GoodGraph(g) && Inv(g, s)
    ensures forall d :: d in s.released && d != g.Final() ==> d in Jobs(g)
  {
  }

  lemma ChangedIsWoken(g: Graph, states: seq<System>, k: int, may: set<int>, d: int)
    requires Plain(g) && Run(g, states) && 0 <= k < |states| && OnlyMay(g, may, states[k])
    requires 0 <= d < |g.count| && Inv(g, states[k]) && states[k].mem.run[d] != g.count[d]
    ensures Awake(g, d, AllWoken(g, may))
  {
    forall j | 0 <= j < k ensures Calm(g, states[j]) {
      RunInv(g, states, j);
    }
    RunsOnlyWoken(g, may, states, k);
    WokenInAll(g, may, k);
    AwakeMono(g, d, Woken(g, may, k), AllWoken(g, may));
  }

  /** A run in which a node runs while one of its parents, which is held, has not released it. */
  lemma OutOfOrder(g: Graph, pick: Choice, workers: nat, l: int) returns (states: seq<System>)
    requires Plain(g) && Queue(g, pick, workers) && workers >= 2 && 0 <= l < |g.links| && Bypassed(g, l)
    ensures Obeyed(g, pick, workers, states) && !InOrder(g, states)
  {
    var but := g.links[l].parent;
    NothingForced(g);
    states := Hold(g, pick, map[but := 1], workers);
    var s := Last(states);
    assert HeldIn(g, map[but := 1], s, but);
    if s.mem.exit {
      FinalRan(g, s);
      var f :| 0 <= f < |g.links| && g.links[f] == Link(but, g.Final());
      RanOutOfOrder(g, states, f);
    } else {
      WokenIsDone(g, map[but := 1], s, Others(g, but), g.Final());
      AwakeMono(g, g.links[l].dependent, AllWoken(g, Others(g, but)), s.released);
      AwakeIsDone(g, map[but := 1], s, g.links[l].dependent);
      RanOutOfOrder(g, states, l);
    }
  }

  lemma FinalRan(g: Graph, s: System)
    requires GoodGraph(g) && Inv(g, s) && s.mem.exit
    ensures g.Final() in s.released && s.mem.run[g.Final()] != g.count[g.Final()]
  {
    assert NodeInv(g, s, g.Final());
  }

  lemma RanOutOfOrder(g: Graph, states: seq<System>, l: int)
    requires Plain(g) && Run(g, states) && 0 <= l < |g.links| && g.links[l].parent !in Last(states).released
    requires |Last(states).mem.run| == |g.count|
    requires Last(states).mem.run[g.links[l].dependent] != g.count[g.links[l].dependent]
    ensures !InOrder(g, states)
  {
    var j, w := RanBefore(g, states, |states| - 1, g.links[l].dependent);
    ReleasedGrows(g, states, j, |states| - 1);
  }

  // ---------------------------------------------------------------------------------------
  // Exit.

  /** The final node can wake. */
  ghost predicate FinalWakes(g: Graph) {
    Awake(g, g.Final(), AllWoken(g, Jobs(g)))
  }

  ghost predicate Exits(g: Graph, states: seq<System>) {
    Run(g, states) && Last(states).mem.exit
  }

  /** Some run sets the exit flag exactly when the final node can wake; and then one of any number of workers,
      and of any queue of greatest priorities, does. */
  lemma ExitReached(g: Graph, pick: Choice, workers: nat)
    requires Plain(g) && Queue(g, pick, workers)
    ensures (exists states :: Exits(g, states)) <==> FinalWakes(g)
    ensures (exists states :: Obeyed(g, pick, workers, states) && Exits(g, states)) <==> FinalWakes(g)
  {
    if FinalWakes(g) {
      var states := ToTheEnd(g, pick, workers);
      assert Obeyed(g, pick, workers, states) && Exits(g, states);
    }
    if states :| Exits(g, states) {
      ExitWakesFinal(g, states, Jobs(g));
    }
  }

  lemma ExitWakesFinal(g: Graph, states: seq<System>, may: set<int>)
    requires Plain(g) && Exits(g, states)
    requires may == Jobs(g) || OnlyMay(g, may, Last(states))
    ensures Awake(g, g.Final(), AllWoken(g, may))
  {
    var k := |states| - 1;
    RunInv(g, states, k);
    FinalRan(g, states[k]);
    ReleasedAreJobs(g, states[k]);
    ChangedIsWoken(g, states, k, may, g.Final());
  }

  /** A run in which nothing is held, carried on until nothing is left to take. */
  lemma ToTheEnd(g: Graph, pick: Choice, workers: nat) returns (states: seq<System>)
    requires Plain(g) && Queue(g, pick, workers)
    ensures Obeyed(g, pick, workers, states)
    ensures if FinalWakes(g) then Last(states).mem.exit else !GoesOn(g, states, |states| - 1)
  {
    NothingForced(g);
    states := Hold(g, pick, map[], workers);
    var s := Last(states);
    if !s.mem.exit {
      WokenIsDone(g, map[], s, Jobs(g), g.Final());
      if FinalWakes(g) {
        AwakeMono(g, g.Final(), AllWoken(g, Jobs(g)), s.released);
        AwakeIsDone(g, map[], s, g.Final());
        FinalSettled(g, map[], s);
      } else {
        NothingToDo(g, s);
      }
    } else {
      ExitWakesFinal(g, states, Jobs(g));
    }
  }

  ghost predicate CanStep(g: Graph, s: System) {
    exists t :: Step(g, s, t)
  }

  /** The state of a run at `k` is neither at the exit nor stuck before it. */
  ghost predicate GoesOn(g: Graph, states: seq<System>, k: int)
    requires 0 <= k < |states|
  {
    states[k].mem.exit || CanStep(g, states[k])
  }

  lemma NothingToDo(g: Graph, s: System)
    requires GoodGraph(g) && AtRest(g, map[], s) && !s.mem.exit
    ensures !CanStep(g, s)
  {
    forall w, t ensures !WorkerStep(g, s, w, t) {
    }
  }

  /** No run ever gets stuck before the exit flag is set exactly when the final node can wake; and otherwise
      some run of any queue does. As runs are bounded, every run that is carried on then exits. */
  lemma NeverStuckExactly(g: Graph, pick: Choice, workers: nat)
    requires Plain(g) && Queue(g, pick, workers)
    ensures (forall states, k :: Run(g, states) && 0 <= k < |states| ==> GoesOn(g, states, k)) <==> FinalWakes(g)
    ensures (forall states, k :: Obeyed(g, pick, workers, states) && 0 <= k < |states| ==> GoesOn(g, states, k))
            <==> FinalWakes(g)
  {
    if FinalWakes(g) {
      forall states: seq<System>, k | Run(g, states) && 0 <= k < |states| ensures GoesOn(g, states, k) {
        RunInv(g, states, k);
        if !states[k].mem.exit {
          var t := NextStep(g, states[k]);
        }
      }
    } else {
      var states := ToTheEnd(g, pick, workers);
      assert Obeyed(g, pick, workers, states) && !GoesOn(g, states, |states| - 1);
    }
  }

  /** Of a graph whose final node can wake, a state without exit flag has a next step. */
  lemma NextStep(g: Graph, s: System) returns (t: System)
    requires Plain(g) && Inv(g, s) && !s.mem.exit && FinalWakes(g)
    ensures Step(g, s, t)
  {
    NoStopped(g, s);
    if w :| 0 <= w < |s.workers| && s.workers[w] != Idle {
      t := BusyCanStep(g, s, w);
      assert WorkerStep(g, s, w, t);
    } else {
      var n := SomethingQueued(g, s);
      t := Taken(s, 0, n);
      assert Acquires(g, s, 0, n, t);
      assert WorkerStep(g, s, 0, t);
    }
  }

  lemma NoStopped(g: Graph, s: System)
    requires GoodGraph(g) && Inv(g, s) && !s.mem.exit
    ensures forall w :: 0 <= w < |s.workers| ==> s.workers[w] != Stopped
  {
    forall w | 0 <= w < |s.workers| ensures s.workers[w] != Stopped {
      assert s.workers[w] in multiset(s.workers);
    }
  }

  lemma RestingHolds(g: Graph, s: System)
    requires Plain(g) && Inv(g, s) && forall w :: 0 <= w < |s.workers| ==> s.workers[w] == Idle
    ensures Holding(g, map[], s)
  {
    NothingForced(g);
  }

  /** A queue whose workers are all idle, and that is not at the exit, still holds something. */
  lemma SomethingQueued(g: Graph, s: System) returns (n: int)
    requires Plain(g) && Inv(g, s) && !s.mem.exit && FinalWakes(g)
    requires forall w :: 0 <= w < |s.workers| ==> s.workers[w] == Idle
    ensures Foremost(g, s.mem.ready, n)
  {
    if i :| 0 <= i < |g.count| && i in s.mem.ready {
      n := SomeForemost(g, s.mem.ready, i, |g.count|);
    } else {
      RestingHolds(g, s);
      WokenIsDone(g, map[], s, Jobs(g), g.Final());
      AwakeMono(g, g.Final(), AllWoken(g, Jobs(g)), s.released);
      AwakeIsDone(g, map[], s, g.Final());
      FinalSettled(g, map[], s);
      assert false;
    }
  }

  // ---------------------------------------------------------------------------------------
  // Exit too soon.

  /** The run has set the exit flag although the job was never started, or a worker still runs it. */
  ghost predicate CutOff(g: Graph, states: seq<System>, j: int) {
    && Exits(g, states) && 0 <= j < g.Final() < |Last(states).started| && j !in Last(states).released
    && (Last(states).started[j] == 0 ||
        exists w :: 0 <= w < |Last(states).workers| && Last(states).workers[w] == Running(j))
  }

  /** As soon as one run of a graph exits, two or more workers and any queue of greatest priorities have a run
      that exits before one of the jobs has come to an end: no graph both exits and is safe. */
  lemma ExitsTooSoon(g: Graph, pick: Choice, workers: nat)
    requires Plain(g) && OnceToFinal(g) && Queue(g, pick, workers) && workers >= 2
    ensures (exists states, j :: Obeyed(g, pick, workers, states) && CutOff(g, states, j)) <==>
            (exists states :: Exits(g, states))
  {
    ExitReached(g, pick, workers);
    if states, j :| Obeyed(g, pick, workers, states) && CutOff(g, states, j) {
      assert Exits(g, states);
    }
    if FinalWakes(g) {
      var j := Dispensable(g);
      var states := ExitWithout(g, pick, workers, j);
      assert Obeyed(g, pick, workers, states) && CutOff(g, states, j);
    }
  }

  /** The final node can wake without the job. */
  ghost predicate FinalWakesWithout(g: Graph, j: int) {
    0 <= j < g.Final() && Awake(g, g.Final(), AllWoken(g, Others(g, j)))
  }

  /** A run that holds the job, and exits. */
  lemma ExitWithout(g: Graph, pick: Choice, workers: nat, j: int) returns (states: seq<System>)
    requires Plain(g) && Queue(g, pick, workers) && workers >= 2 && FinalWakesWithout(g, j)
    ensures Obeyed(g, pick, workers, states) && CutOff(g, states, j)
  {
    NothingForced(g);
    states := Hold(g, pick, map[j := 1], workers);
    var s := Last(states);
    if !s.mem.exit {
      WokenIsDone(g, map[j := 1], s, Others(g, j), g.Final());
      AwakeMono(g, g.Final(), AllWoken(g, Others(g, j)), s.released);
      AwakeIsDone(g, map[j := 1], s, g.Final());
      FinalSettled(g, map[j := 1], s);
    }
    assert HeldIn(g, map[j := 1], s, j) && NodeInv(g, s, j);
    assert 0 <= 1 < |s.workers| && (s.mem.run[j] != g.count[j] ==> s.workers[1] == Running(j));
  }

  /** The pending links of the final node are the jobs that have not released it. */
  lemma FinalPending(g: Graph, r: set<int>, j: int)
    requires OnceToFinal(g) && 0 <= j < g.Final() && j !in r
    ensures Pending(g.links, g.Final(), r) == Pending(g.links, g.Final(), r + {j}) + 1
  {
    PendingRelease(g.links, g.Final(), r, j);
  }

  /** While a node has links pending, there is a job that has not released its dependents. */
  lemma SomeJobLeft(g: Graph, r: set<int>) returns (j: int)
    requires GoodGraph(g) && Pending(g.links, g.Final(), r) > 0
    ensures 0 <= j < g.Final() && j !in r
  {
    PendingZero(g.links, g.Final(), r);
    var k :| 0 <= k < |g.links| && g.links[k].dependent == g.Final() && g.links[k].parent !in r;
    j := g.links[k].parent;
  }

  /** The first round after which the final node wakes. */
  lemma {:induction false} FinalWakesAfter(g: Graph, n: nat) returns (m: nat)
    requires Plain(g) && Awake(g, g.Final(), Woken(g, Jobs(g), n))
    ensures m < n && Awake(g, g.Final(), Woken(g, Jobs(g), m + 1)) && !Awake(g, g.Final(), Woken(g, Jobs(g), m))
    decreases n
  {
    if n == 0 {
      SomeLinkToFinal(g);
      assert false;
    } else if Awake(g, g.Final(), Woken(g, Jobs(g), n - 1)) {
      m := FinalWakesAfter(g, n - 1);
    } else {
      m := n - 1;
    }
  }

  lemma SomeLinkToFinal(g: Graph)
    requires GoodGraph(g)
    ensures Pending(g.links, g.Final(), {}) > 0
  {
    PendingZero(g.links, g.Final(), {});
    assert Link(0, g.Final()) in g.links;
  }

  /** A job without which the final node still wakes. */
  lemma OneToLeave(g: Graph, before: set<int>, after: set<int>) returns (j: int)
    requires Plain(g) && OnceToFinal(g) && before <= after
    requires Awake(g, g.Final(), after) && !Awake(g, g.Final(), before)
    ensures 0 <= j < g.Final() && j !in before && Awake(g, g.Final(), after - {j})
  {
    PendingMono(g.links, g.Final(), {}, after);
    if Pending(g.links, g.Final(), after) > 0 {
      j := SomeJobLeft(g, after);
      assert after - {j} == after;
    } else {
      j := SomeJobLeft(g, before);
      FinalPending(g, after - {j}, j);
      PendingMono(g.links, g.Final(), after, after - {j} + {j});
    }
  }

  /** What wakes in as many rounds wakes without any job that is not among it. */
  lemma {:induction false} WokenWithout(g: Graph, j: int, n: nat)
    requires j !in Woken(g, Jobs(g), n)
    ensures Woken(g, Jobs(g), n) <= Woken(g, Others(g, j), n)
    decreases n
  {
    if n > 0 {
      WokenWithout(g, j, n - 1);
      forall d | d in Woken(g, Jobs(g), n) ensures d in Woken(g, Others(g, j), n) {
        if d !in Woken(g, Jobs(g), n - 1) {
          AwakeMono(g, d, Woken(g, Jobs(g), n - 1), Woken(g, Others(g, j), n - 1));
        }
      }
    }
  }

  lemma NextRoundWithout(g: Graph, j: int, m: nat)
    requires j !in Woken(g, Jobs(g), m)
    ensures Woken(g, Jobs(g), m + 1) - {j} <= Woken(g, Others(g, j), m + 1)
  {
    WokenWithout(g, j, m);
    var after, without := Woken(g, Jobs(g), m + 1), Woken(g, Others(g, j), m + 1);
    forall d | d in after && d != j ensures d in without {
      if d !in Woken(g, Jobs(g), m) {
        AwakeMono(g, d, Woken(g, Jobs(g), m), Woken(g, Others(g, j), m));
      }
    }
  }

  /** If the final node can wake then it can wake without some job. */
  lemma Dispensable(g: Graph) returns (j: int)
    requires Plain(g) && OnceToFinal(g) && FinalWakes(g)
    ensures FinalWakesWithout(g, j)
  {
    var m := FinalWakesAfter(g, g.Final());
    j := OneToLeave(g, Woken(g, Jobs(g), m), Woken(g, Jobs(g), m + 1));
    NextRoundWithout(g, j, m);
    WokenInAll(g, Others(g, j), m + 1);
    AwakeMono(g, g.Final(), Woken(g, Jobs(g), m + 1) - {j}, AllWoken(g, Others(g, j)));
  }

  // ---------------------------------------------------------------------------------------
  // When a node is queued.

  /** A release queues a node exactly when the number of pending links falls to one, or from above one to
      none; a node with a single link is never queued by one. */
  lemma QueuedByRelease(g: Graph, s: System, w: int, t: System, i: int)
    requires GoodGraph(g) && g.answer.After? && Inv(g, s) && Release(g, s, w, t) && 0 <= i < |g.count|
    ensures t.mem.ready[i] == s.mem.ready[i] +
      if Pending(g.links, i, s.released) >= 2 && Pending(g.links, i, t.released) <= 1 then 1 else 0
    ensures Pending(g.links, i, {}) == 1 ==> t.mem.ready[i] == s.mem.ready[i]
  {
    ReleaseCounts(g, s, w, t);
    assert ReleaseEffect(g, s, t, s.workers[w].n, i);
    assert NodeInv(g, s, i);
    PendingMono(g.links, i, {}, s.released);
    if i in s.released {
      AwakePasses(g, s, i, multiset(s.mem.dependents[s.workers[w].n])[i]);
    }
  }

  /** A node with a single link is never queued and never started. */
  lemma SingleLinkNeverStarts(g: Graph, states: seq<System>, k: int, i: int)
    requires Plain(g) && Run(g, states) && 0 <= k < |states| && 0 <= i < |g.count|
    requires Pending(g.links, i, {}) == 1
    ensures |states[k].started| == |g.count| && states[k].started[i] == 0 && i !in states[k].mem.ready
  {
    RunInv(g, states, k);
    assert NodeInv(g, states[k], i);
  }

  /** A run of a single job never exits. */
  lemma OneJobNeverExits(g: Graph, states: seq<System>, k: int)
    requires Plain(g) && OnceToFinal(g) && g.Final() == 1 && Run(g, states) && 0 <= k < |states|
    ensures !states[k].mem.exit
  {
    SomeLinkToFinal(g);
    FinalPending(g, {}, 0);
    PendingZero(g.links, 1, {} + {0});
    RunInv(g, states, k);
    assert NodeInv(g, states[k], 1);
  }

  /** Two jobs that do not wait for each other, and the final node, which has normal priority. */
  function TwoJobs(first: int, second: int): Graph {
    Graph([1, 1, 1], [first, second, 0x80], [false, false, false], [Link(0, 2), Link(1, 2)], After)
  }

  lemma TwoJobsGood(first: int, second: int)
    ensures Plain(TwoJobs(first, second)) && OnceToFinal(TwoJobs(first, second))
  {
    var links := TwoJobs(first, second).links;
    assert links[0] == Link(0, 2) && links[1] == Link(1, 2);
    TwoLinks(links, 0, {});
    TwoLinks(links, 1, {});
  }

  lemma TwoJobsPending(first: int, second: int, d: int, r: set<int>)
    ensures Pending(TwoJobs(first, second).links, d, r) == if d == 2 then One(0 !in r) + One(1 !in r) else 0
  {
    TwoLinks(TwoJobs(first, second).links, d, r);
  }

  /** The final node is queued as soon as the first job is done, while the second has not begun. */
  lemma TwoJobsWake(first: int, second: int)
    ensures !Awake(TwoJobs(first, second), 2, {}) && Awake(TwoJobs(first, second), 2, {0})
    ensures Awake(TwoJobs(first, second), 1, {})
    ensures FinalWakes(TwoJobs(first, second))
  {
    var g := TwoJobs(first, second);
    TwoJobsPending(first, second, 0, {});
    TwoJobsPending(first, second, 1, {});
    TwoJobsPending(first, second, 2, {});
    TwoJobsPending(first, second, 2, {0});
    assert Woken(g, Jobs(g), 0) == {};
    assert Woken(g, Jobs(g), 1) == Waking(g, Jobs(g), Woken(g, Jobs(g), 0));
    assert Awake(g, 0, {}) && 0 < g.Final();
    WokenInAll(g, Jobs(g), 1);
    AwakeMono(g, 2, {0}, AllWoken(g, Jobs(g)));
  }

  /** Of two jobs that do not wait for each other, whatever their priorities, two workers have a run that
      exits while one is not done. */
  lemma TwoJobsExample(first: int, second: int, pick: Choice) returns (states: seq<System>, j: int)
    requires Chooses(TwoJobs(first, second), pick)
    ensures Obeyed(TwoJobs(first, second), pick, 2, states) && CutOff(TwoJobs(first, second), states, j)
  {
    TwoJobsGood(first, second);
    TwoJobsWake(first, second);
    j := Dispensable(TwoJobs(first, second));
    states := ExitWithout(TwoJobs(first, second), pick, 2, j);
  }

  lemma TwoLinks(links: seq<Link>, d: int, r: set<int>)
    requires |links| == 2
    ensures Pending(links, d, r) == One(links[0].dependent == d && links[0].parent !in r)
                                  + One(links[1].dependent == d && links[1].parent !in r)
    ensures DependentsOf(links, d) == (if links[0].parent == d then [links[0].dependent] else [])
                                    + (if links[1].parent == d then [links[1].dependent] else [])
  {
    var one := links[..1];
    assert one[..0] == [];
    assert Pending(one[..0], d, r) == 0 && DependentsOf(one[..0], d) == [];
    assert Pending(one, d, r) == One(one[0].dependent == d && one[0].parent !in r);
    assert DependentsOf(one, d) == if one[0].parent == d then [one[0].dependent] else [];
  }

  // ---------------------------------------------------------------------------------------
  // Forcing.

  /** Every queued node has a run left. */
  ghost predicate QueueHonest(s: System) {
    forall i :: i in s.mem.ready && 0 <= i < |s.mem.run| ==> Remaining(s.mem.run[i]) > 0
  }

  /** Forcing a node takes away its remaining runs but leaves it in the queue: the queue stays honest exactly
      if the node had no run left to take away. */
  lemma ForceKeepsQueue(g: Graph, s: System, w: int, t: System)
    requires GoodGraph(g) && g.answer.After? && Inv(g, s) && Force(g, s, w, t)
    ensures var n := s.workers[w].n; t.mem.ready == s.mem.ready && Remaining(t.mem.run[n]) == 0
    ensures QueueHonest(s)
    ensures QueueHonest(t) <==> Remaining(s.mem.run[s.workers[w].n]) == 0
  {
    var n := s.workers[w].n;
    forall i | 0 <= i < |g.count| ensures i in s.mem.ready <==> Awake(g, i, s.released) && Remaining(s.mem.run[i]) > 0 {
      assert NodeInv(g, s, i);
    }
    assert s.workers[w] in multiset(s.workers);
    assert NodeInv(g, s, n);
  }

  /** Taking a queued node without runs makes 0xffff runs of none, and leaves it in the queue. */
  lemma TakenFromNothing(m: Memory, n: int)
    requires 0 <= n < |m.run| && 0 <= m.run[n] < WORD32 && Remaining(m.run[n]) == 0
    ensures Remaining(Scheduled(m, n).run[n]) == 0xffff && Scheduled(m, n).ready == m.ready
  {
    PackedMoveUnderflows(m.run[n]);
  }

  /** No job that completes after one run, and may run more than once, can wake. */
  ghost predicate NoneForced(g: Graph) {
    forall i :: Forceful(g, i) ==> !Awake(g, i, AllWoken(g, Jobs(g)))
  }

  /** The queue stays honest in every state of every run exactly when no job that may run more than once and
      completes after one run can wake; and with two or more workers that is so already of the runs of any
      queue of greatest priorities. */
  lemma QueueHonestExactly(g: Graph, pick: Choice, workers: nat)
    requires GoodGraph(g) && g.answer.After? && Queue(g, pick, workers) && workers >= 2
    ensures (forall states, k :: Run(g, states) && 0 <= k < |states| ==> QueueHonest(states[k])) <==> NoneForced(g)
    ensures (forall states, k :: Obeyed(g, pick, workers, states) && 0 <= k < |states| ==> QueueHonest(states[k]))
            <==> NoneForced(g)
  {
    if i :| Forceful(g, i) && Awake(g, i, AllWoken(g, Jobs(g))) {
      var states := Dishonest(g, pick, workers, i);
      assert Obeyed(g, pick, workers, states) && !QueueHonest(states[|states| - 1]);
    } else {
      forall states: seq<System>, k | Run(g, states) && 0 <= k < |states| ensures QueueHonest(states[k]) {
        StaysHonest(g, states, k);
      }
    }
  }

  lemma StaysHonest(g: Graph, states: seq<System>, k: int)
    requires GoodGraph(g) && g.answer.After? && Run(g, states) && 0 <= k < |states| && NoneForced(g)
    ensures QueueHonest(states[k])
  {
    StaysCalm(g, states, k);
    forall i | 0 <= i < |g.count| ensures i in states[k].mem.ready ==> Remaining(states[k].mem.run[i]) > 0 {
      assert NodeInv(g, states[k], i);
    }
  }

  /** If no forceful job can wake then no worker ever comes to force one. */
  lemma {:induction false} StaysCalm(g: Graph, states: seq<System>, k: int)
    requires GoodGraph(g) && g.answer.After? && Run(g, states) && 0 <= k < |states|
    requires NoneForced(g)
    ensures Inv(g, states[k]) && Calm(g, states[k])
    decreases k
  {
    if k == 0 {
      StartInv(g, states[0]);
    } else {
      forall j | 0 <= j < k ensures Calm(g, states[j]) {
        StaysCalm(g, states, j);
      }
      StaysCalm(g, states, k - 1);
      CalmNext(g, states, k);
    }
  }

  lemma CalmNext(g: Graph, states: seq<System>, k: int)
    requires GoodGraph(g) && g.answer.After? && Run(g, states) && 0 < k < |states| && NoneForced(g)
    requires Inv(g, states[k - 1]) && forall j :: 0 <= j < k ==> Calm(g, states[j])
    ensures Inv(g, states[k]) && Calm(g, states[k])
  {
    assert StepInto(g, states, k);
    ReleasedAreJobs(g, states[k - 1]);
    RunsOnlyWoken(g, Jobs(g), states, k - 1);
    CalmStep(g, states[k - 1], states[k], k - 1);
  }

  lemma CalmStep(g: Graph, s: System, t: System, n: nat)
    requires GoodGraph(g) && g.answer.After? && Inv(g, s) && Calm(g, s) && Step(g, s, t)
    requires OnlyWoken(g, Jobs(g), n, s) && NoneForced(g)
    ensures Inv(g, t) && Calm(g, t)
  {
    StepInv(g, s, t);
    StepStaysCalm(g, s, t, n);
  }

  lemma ChangedNotForceful(g: Graph, s: System, n: nat, i: int)
    requires GoodGraph(g) && OnlyWoken(g, Jobs(g), n, s) && NoneForced(g)
    requires 0 <= i < |g.count| && s.mem.run[i] != g.count[i]
    ensures !Forceful(g, i)
  {
    WokenInAll(g, Jobs(g), n);
    AwakeMono(g, i, Woken(g, Jobs(g), n), AllWoken(g, Jobs(g)));
  }

  lemma StepStaysCalm(g: Graph, s: System, t: System, n: nat)
    requires GoodGraph(g) && g.answer.After? && Inv(g, s) && Calm(g, s) && Step(g, s, t)
    requires OnlyWoken(g, Jobs(g), n, s) && NoneForced(g)
    ensures Calm(g, t)
  {
    var w :| WorkerStep(g, s, w, t);
    if Finish(g, s, w, t) {
      FinishStaysCalm(g, s, w, t, n);
    }
  }

  lemma FinishStaysCalm(g: Graph, s: System, w: int, t: System, n: nat)
    requires GoodGraph(g) && g.answer.After? && Inv(g, s) && Calm(g, s) && Finish(g, s, w, t)
    requires OnlyWoken(g, Jobs(g), n, s) && NoneForced(g)
    ensures Calm(g, t)
  {
    RunsAwake(g, s, w);
    assert NodeInv(g, s, s.workers[w].n);
    ChangedNotForceful(g, s, n, s.workers[w].n);
  }

  /** A run in which a forceful job is forced, and stays in the queue. The final node is held, so that the run
      does not exit before. */
  lemma Dishonest(g: Graph, pick: Choice, workers: nat, i: int) returns (states: seq<System>)
    requires GoodGraph(g) && g.answer.After? && Queue(g, pick, workers) && workers >= 2
    requires Forceful(g, i) && Awake(g, i, AllWoken(g, Jobs(g)))
    ensures Obeyed(g, pick, workers, states) && !QueueHonest(Last(states))
  {
    var seats: map<int, int> := if Forceful(g, g.Final()) then map[] else map[g.Final() := 1];
    states := Hold(g, pick, seats, workers);
    var s := Last(states);
    if s.workers[0] == Idle {
      NotExited(g, seats, s);
      WokenIsDone(g, seats, s, Jobs(g), g.Final());
      AwakeMono(g, i, AllWoken(g, Jobs(g)), s.released);
      AwakeIsDone(g, seats, s, i);
    } else {
      states := ForcedOut(g, pick, workers, states, s.workers[0].n);
    }
  }

  /** While the final node is held, or forceful and untouched, the exit flag is not set. */
  lemma NotExited(g: Graph, seats: map<int, int>, s: System)
    requires GoodGraph(g) && Holding(g, seats, s) && s.workers[0] == Idle
    requires Forceful(g, g.Final()) || g.Final() in seats
    ensures !s.mem.exit
  {
    assert NodeInv(g, s, g.Final());
    assert g.Final() in seats ==> HeldIn(g, seats, s, g.Final());
  }

  /** The first worker comes back from a run of a forceful job with runs left, and forces it. */
  lemma ForceSteps(g: Graph, s: System, n: int) returns (b: System, c: System)
    requires GoodGraph(g) && g.answer.After? && Inv(g, s) && s.workers[0] == Running(n)
    requires Forceful(g, n) && Remaining(s.mem.run[n]) > 0
    ensures Step(g, s, b) && b.started == s.started && Step(g, b, c) && c.started == b.started
    ensures !QueueHonest(c)
  {
    RunsAwake(g, s, 0);
    assert NodeInv(g, s, n);
    b := s.(workers := s.workers[0 := Forcing(n)], finished := s.finished[n := s.finished[n] + 1]);
    assert Finish(g, s, 0, b);
    assert WorkerStep(g, s, 0, b);
    c := b.(mem := ForceRemoved(b.mem, n, g.answer), workers := b.workers[0 := Subtracting(n)]);
    assert Force(g, b, 0, c);
    assert WorkerStep(g, b, 0, c);
    assert n in c.mem.ready && Remaining(c.mem.run[n]) == 0;
  }

  lemma ForcedOut(g: Graph, pick: Choice, workers: nat, states: seq<System>, n: int) returns (more: seq<System>)
    requires GoodGraph(g) && g.answer.After? && Obeyed(g, pick, workers, states)
    requires Inv(g, Last(states)) && Last(states).workers[0] == Running(n) && Forceful(g, n)
    requires Remaining(Last(states).mem.run[n]) > 0
    ensures Obeyed(g, pick, workers, more) && !QueueHonest(Last(more))
  {
    var b, c := ForceSteps(g, Last(states), n);
    NothingTaken(g, Last(states), b, pick(states));
    Continued(g, pick, workers, states, b);
    NothingTaken(g, b, c, pick(states + [b]));
    Continued(g, pick, workers, states + [b], c);
    more := states + [b] + [c];
  }

  /** One job that may run twice and is complete after its first run. */
  const TWICE_OR_ONCE := Graph([2, 1], [0x80, 0x80], [true, false], [Link(0, 1)], After)

  /** After its first run the job is still in the queue, with no run left. */
  lemma ForcedExample(pick: Choice) returns (states: seq<System>)
    requires Chooses(TWICE_OR_ONCE, pick)
    ensures Obeyed(TWICE_OR_ONCE, pick, 2, states) && !QueueHonest(Last(states))
  {
    var g := TWICE_OR_ONCE;
    assert g.links[0] == Link(0, 1);
    PendingZero(g.links, 0, {});
    AwakeMono(g, 0, {}, AllWoken(g, Jobs(g)));
    states := Dishonest(g, pick, 2, 0);
  }
}
