/** Which nodes a run wakes, and what that makes of order and exit when the atomic functions answer with
    the new value, as those that the queue calls do. */
module JobWaking {
  import opened JobGraph
  import opened JobSafety
  import opened JobProgress

  // ---------------------------------------------------------------------------------------
  // The nodes that wake.

  function Below(n: nat): (r: set<int>)
    ensures forall d :: d in r <==> 0 <= d < n
  {
    if n == 0 then {} else Below(n - 1) + {n - 1}
  }

  function Jobs(g: Graph): set<int> {
    if g.Final() >= 0 then Below(g.Final()) else {}
  }

  /** All jobs but one. */
  function Others(g: Graph, but: int): set<int> {
    Jobs(g) - {but}
  }

  /** The given jobs, and those that they wake among the jobs that may release their dependents. */
  function Waking(g: Graph, may: set<int>, r: set<int>): set<int> {
    r + set d | 0 <= d < g.Final() && d in may && Awake(g, d, r)
  }

  /** The jobs that have released their dependents after `n` rounds in which every awake job that may does. */
  function Woken(g: Graph, may: set<int>, n: nat): set<int> {
    if n == 0 then {} else Waking(g, may, Woken(g, may, n - 1))
  }

  /** The jobs that ever release their dependents if none does that may not. */
  function AllWoken(g: Graph, may: set<int>): set<int> {
    if g.Final() >= 0 then Woken(g, may, g.Final()) else {}
  }

  lemma {:induction false} WokenJobs(g: Graph, may: set<int>, n: nat)
    ensures forall d :: d in Woken(g, may, n) ==> 0 <= d < g.Final() && d in may
    decreases n
  {
    if n > 0 {
      WokenJobs(g, may, n - 1);
    }
  }

  lemma {:induction false} WokenStays(g: Graph, may: set<int>, n: nat, more: nat)
    requires Waking(g, may, Woken(g, may, n)) == Woken(g, may, n)
    ensures Woken(g, may, n + more) == Woken(g, may, n)
    decreases more
  {
    if more > 0 {
      WokenStays(g, may, n, more - 1);
    }
  }

  lemma {:induction false} WokenGrows(g: Graph, may: set<int>, n: nat)
    ensures |Woken(g, may, n)| >= n || Waking(g, may, Woken(g, may, n)) == Woken(g, may, n)
    decreases n
  {
    if n > 0 {
      var before := Woken(g, may, n - 1);
      WokenGrows(g, may, n - 1);
      if Waking(g, may, before) != before {
        ProperSubset(before, Waking(g, may, before));
      }
    }
  }

  lemma ProperSubset(a: set<int>, b: set<int>)
    requires a <= b && a != b
    ensures |a| < |b|
  {
    assert b == a + (b - a);
    assert b - a != {};
    assert |b| == |a| + |b - a|;
  }

  lemma {:induction false} BoundedSize(a: set<int>, n: nat)
    requires forall d :: d in a ==> 0 <= d < n
    ensures |a| <= n
    ensures |a| == n ==> forall d :: 0 <= d < n ==> d in a
    decreases n
  {
    if n == 0 {
      assert forall d :: d !in a;
    } else {
      var rest := a - {n - 1};
      BoundedSize(rest, n - 1);
      if n - 1 in a {
        assert a == rest + {n - 1};
      } else {
        assert a == rest;
      }
    }
  }

  /** After as many rounds as there are jobs no further job wakes. */
  lemma AllWokenClosed(g: Graph, may: set<int>)
    requires g.Final() >= 0
    ensures Waking(g, may, AllWoken(g, may)) == AllWoken(g, may)
  {
    var n: nat := g.Final();
    WokenGrows(g, may, n);
    WokenJobs(g, may, n);
    BoundedSize(Woken(g, may, n), n);
    if |Woken(g, may, n)| >= n {
      OnlyJobs(g, may, Woken(g, may, n));
    }
  }

  lemma OnlyJobs(g: Graph, may: set<int>, r: set<int>)
    requires forall d :: 0 <= d < g.Final() ==> d in r
    ensures Waking(g, may, r) == r
  {
  }

  lemma WokenInAll(g: Graph, may: set<int>, n: nat)
    requires g.Final() >= 0
    ensures Woken(g, may, n) <= AllWoken(g, may)
  {
    AllWokenClosed(g, may);
    var all: nat := g.Final();
    if n >= all {
      WokenStays(g, may, all, n - all);
    } else {
      WokenUp(g, may, n, all - n);
    }
  }

  lemma {:induction false} WokenUp(g: Graph, may: set<int>, n: nat, more: nat)
    ensures Woken(g, may, n) <= Woken(g, may, n + more)
    decreases more
  {
    if more > 0 {
      WokenUp(g, may, n, more - 1);
    }
  }

  // ---------------------------------------------------------------------------------------
  // What runs has been woken.

  /** No job has released its dependents that may not. */
  ghost predicate OnlyMay(g: Graph, may: set<int>, s: System) {
    forall d :: d in s.released && d != g.Final() ==> d in may
  }

  /** Every node that was started is awake by the jobs that can be woken, and those that released their
      dependents are among them. */
  ghost predicate OnlyWoken(g: Graph, may: set<int>, n: nat, s: System) {
    && |s.mem.run| == |g.count|
    && (forall d :: d in s.released && d != g.Final() ==> d in Woken(g, may, n))
    && (forall d :: 0 <= d < |g.count| && s.mem.run[d] != g.count[d] ==> Awake(g, d, Woken(g, may, n)))
  }

  lemma OnlyWokenStep(g: Graph, may: set<int>, n: nat, s: System, t: System)
    requires GoodGraph(g) && Inv(g, s) && Step(g, s, t) && OnlyWoken(g, may, n, s) && OnlyMay(g, may, t)
    ensures OnlyWoken(g, may, n + 1, t)
  {
    var w :| WorkerStep(g, s, w, t);
    WokenUp(g, may, n, 1);
    SameSize(g, s, w, t);
    forall d | 0 <= d < |g.count| && t.mem.run[d] != g.count[d] ensures Awake(g, d, Woken(g, may, n + 1)) {
      if s.mem.run[d] != g.count[d] {
        AwakeMono(g, d, Woken(g, may, n), Woken(g, may, n + 1));
      } else {
        StartsAwake(g, s, w, t, d);
        AwakeMono(g, d, s.released, Woken(g, may, n + 1));
      }
    }
    forall d | d in t.released && d != g.Final() ensures d in Woken(g, may, n + 1) {
      if d !in s.released {
        ReleasesWoken(g, s, w, t, d);
      }
    }
  }

  /** Only an acquire changes the word of a node for the first time, and what it acquires is awake. */
  lemma StartsAwake(g: Graph, s: System, w: int, t: System, d: int)
    requires GoodGraph(g) && Inv(g, s) && WorkerStep(g, s, w, t) && 0 <= d < |g.count|
    requires s.mem.run[d] == g.count[d] && |t.mem.run| == |g.count| && t.mem.run[d] != g.count[d]
    ensures Awake(g, d, s.released)
  {
    assert NodeInv(g, s, d);
    if Force(g, s, w, t) || Subtract(g, s, w, t) {
      HeldIsAwake(g, s, w);
    } else if Release(g, s, w, t) {
      ReleaseCounts(g, s, w, t);
    }
  }

  /** A node that a worker forces or takes a run off is awake. */
  lemma HeldIsAwake(g: Graph, s: System, w: int)
    requires GoodGraph(g) && Inv(g, s) && 0 <= w < |s.workers|
    requires s.workers[w].Forcing? || s.workers[w].Subtracting?
    ensures 0 <= s.workers[w].n < |g.count| && Awake(g, s.workers[w].n, s.released)
  {
    assert PhaseInRange(g, s.workers[w]);
    assert s.workers[w] in multiset(s.workers);
    assert NodeInv(g, s, s.workers[w].n);
  }

  lemma SameSize(g: Graph, s: System, w: int, t: System)
    requires GoodGraph(g) && Inv(g, s) && WorkerStep(g, s, w, t)
    ensures |t.mem.run| == |g.count| && 0 <= w < |s.workers| && s.released <= t.released
  {
    if Release(g, s, w, t) {
      ReleaseCounts(g, s, w, t);
    }
  }

  lemma ReleasesWoken(g: Graph, s: System, w: int, t: System, d: int)
    requires GoodGraph(g) && Inv(g, s) && WorkerStep(g, s, w, t) && d in t.released && d !in s.released
    ensures 0 <= d < |g.count| && s.mem.run[d] != g.count[d]
  {
    if Release(g, s, w, t) {
      assert s.workers[w] in multiset(s.workers);
      assert NodeInv(g, s, d);
    }
  }

  /** What has been started is what the jobs that have released their dependents can wake. */
  lemma {:induction false} RunsOnlyWoken(g: Graph, may: set<int>, states: seq<System>, k: int)
    requires GoodGraph(g) && Run(g, states) && 0 <= k < |states| && OnlyMay(g, may, states[k])
    requires forall j :: 0 <= j < k ==> Calm(g, states[j])
    ensures OnlyWoken(g, may, k, states[k])
    decreases k
  {
    if k > 0 {
      assert StepInto(g, states, k);
      var w :| WorkerStep(g, states[k - 1], w, states[k]);
      CalmRunInv(g, states, k - 1);
      SameSize(g, states[k - 1], w, states[k]);
      RunsOnlyWoken(g, may, states, k - 1);
      OnlyWokenStep(g, may, k - 1, states[k - 1], states[k]);
    }
  }
}
