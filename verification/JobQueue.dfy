/** The job queue itself: each method is one atomic region, proved against the step of the same name. */
module JobQueue {
  import opened Words
  import opened JobGraph
  import opened JobSafety
  import JobHolding
  import JobOutcomes

  /** The links from each of the first `n` nodes to the final node `final`. */
  function FinalLinks(n: nat, final: int): (links: seq<Link>)
    ensures |links| == n && forall i :: 0 <= i < n ==> links[i] == Link(i, final)
  {
    if n == 0 then [] else FinalLinks(n - 1, final) + [Link(n - 1, final)]
  }

  /** The priority of the final node, and of jobs that ask for no other. */
  const NORMAL_PRIORITY: int := 0x80

  /** The graph of a run: the jobs, a final node of normal priority that runs once, a link from every job to
      the final node, and the links registered by the user. The atomic functions that the queue calls answer
      with the new value. */
  function BuiltGraph(counts: seq<int>, priorities: seq<int>, once: seq<bool>, links: seq<Link>): Graph {
    Graph(counts + [1], priorities + [NORMAL_PRIORITY], once + [false], FinalLinks(|counts|, |counts|) + links, After)
  }

  /** What a job graph may hold: at least one job, positive 16-bit run counts, links between jobs. */
  ghost predicate GoodJobs(counts: seq<int>, priorities: seq<int>, once: seq<bool>, links: seq<Link>) {
    && |counts| >= 1 && |priorities| == |counts| && |once| == |counts|
    && (forall i :: 0 <= i < |counts| ==> 1 <= counts[i] < HALF)
    && (forall k :: 0 <= k < |links| ==> 0 <= links[k].parent < |counts| && 0 <= links[k].dependent < |counts|)
    && |counts| + |links| < WORD32
  }

  /** Of links from each node to `d` in turn, one is from node `i`. */
  lemma {:induction false} FromEachOnce(links: seq<Link>, d: int, i: int)
    requires forall k :: 0 <= k < |links| ==> links[k] == Link(k, d)
    ensures multiset(DependentsOf(links, i))[d] == One(0 <= i < |links|)
  {
    if links != [] {
      FromEachOnce(links[..|links| - 1], d, i);
    }
  }

  /** Of two lists of links in a row, a node has the dependents and the parents that it has of both. */
  lemma {:induction false} JoinedLinks(front: seq<Link>, links: seq<Link>, i: int, d: int)
    ensures multiset(DependentsOf(front + links, i))[d] ==
            multiset(DependentsOf(front, i))[d] + multiset(DependentsOf(links, i))[d]
    ensures Pending(front + links, d, {}) == Pending(front, d, {}) + Pending(links, d, {})
    decreases |links|
  {
    if links == [] {
      assert front + links == front;
    } else {
      var less := links[..|links| - 1];
      assert (front + links)[..|front + links| - 1] == front + less;
      JoinedLinks(front, less, i, d);
    }
  }

  /** The links from `p` to `d`. */
  ghost function Between(links: seq<Link>, p: int, d: int): set<int> {
    set k | 0 <= k < |links| && links[k] == Link(p, d)
  }

  /** The links to `d`. */
  ghost function Into(links: seq<Link>, d: int): set<int> {
    set k | 0 <= k < |links| && links[k].dependent == d
  }

  /** One dependent is listed for each link from `p` to `d`. */
  lemma {:induction false} DependentsCounted(links: seq<Link>, p: int, d: int)
    ensures multiset(DependentsOf(links, p))[d] == |Between(links, p, d)|
  {
    var all := Between(links, p, d);
    if links != [] {
      var front, last := links[..|links| - 1], |links| - 1;
      var less := Between(front, p, d);
      DependentsCounted(front, p, d);
      forall k ensures k in all <==> k in less || (k == last && links[last] == Link(p, d)) {
        assert 0 <= k < last ==> links[k] == front[k];
      }
      assert all == less + (if links[last] == Link(p, d) then {last} else {});
    }
  }

  /** One parent is counted for each link to `d`. */
  lemma {:induction false} ParentsCounted(links: seq<Link>, d: int)
    ensures Pending(links, d, {}) == |Into(links, d)|
  {
    var all := Into(links, d);
    if links != [] {
      var front, last := links[..|links| - 1], |links| - 1;
      var less := Into(front, d);
      ParentsCounted(front, d);
      assert all == less + (if links[last].dependent == d then {last} else {});
    }
  }

  lemma {:induction false} FinalParents(n: nat, final: int, d: int)
    ensures Pending(FinalLinks(n, final), d, {}) == if d == final then n else 0
  {
    if n > 0 {
      FinalParents(n - 1, final, d);
      assert FinalLinks(n, final)[..n - 1] == FinalLinks(n - 1, final);
    }
  }

  lemma {:induction false} NoDependents(links: seq<Link>, p: int)
    requires forall k :: 0 <= k < |links| ==> links[k].parent != p
    ensures DependentsOf(links, p) == []
  {
    if links != [] {
      NoDependents(links[..|links| - 1], p);
    }
  }

  lemma ParentsAsAsked(n: nat, links: seq<Link>, d: int)
    ensures Pending(FinalLinks(n, n) + links, d, {}) == (if d == n then n else 0) + |Into(links, d)|
  {
    JoinedLinks(FinalLinks(n, n), links, 0, d);
    FinalParents(n, n, d);
    ParentsCounted(links, d);
  }

  lemma DependentsAsAsked(n: nat, links: seq<Link>, p: int, d: int)
    requires 0 <= p < n
    ensures multiset(DependentsOf(FinalLinks(n, n) + links, p))[d] == |Between(links, p, d)| + One(d == n)
  {
    var final := FinalLinks(n, n);
    JoinedLinks(final, links, p, d);
    DependentsCounted(links, p, d);
    if d == n {
      FromEachOnce(final, n, p);
    } else {
      DependentsCounted(final, p, d);
      assert Between(final, p, d) == {};
    }
  }

  /** What the links asked for come to in the memory: a job has one parent for each link to it and lists one
      dependent for each link from it, and lists the final node once; the final node has every job as a
      parent and lists nobody. */
  lemma LinksAsAsked(counts: seq<int>, priorities: seq<int>, once: seq<bool>, links: seq<Link>, m: Memory)
    requires GoodJobs(counts, priorities, once, links)
    requires |m.parents| == |counts| + 1 && Linked(m, BuiltGraph(counts, priorities, once, links).links)
    ensures forall d :: 0 <= d < |counts| ==> m.parents[d] == |Into(links, d)|
    ensures m.parents[|counts|] == |counts|
    ensures forall p, d :: 0 <= p < |counts| ==>
        multiset(m.dependents[p])[d] == |Between(links, p, d)| + One(d == |counts|)
    ensures m.dependents[|counts|] == []
  {
    var n := |counts|;
    forall d | 0 <= d <= n ensures m.parents[d] == (if d == n then n else 0) + |Into(links, d)| {
      ParentsAsAsked(n, links, d);
    }
    assert Into(links, n) == {};
    forall p, d | 0 <= p < n ensures multiset(m.dependents[p])[d] == |Between(links, p, d)| + One(d == n) {
      DependentsAsAsked(n, links, p, d);
    }
    NoDependents(FinalLinks(n, n) + links, n);
  }

  /** Whatever the jobs and their links, the built graph meets what the theorems about runs ask for, and no
      user link adds to the one link from each job to the final node. Each job keeps what it was asked to run
      with, and the final node runs once at the normal priority. */
  lemma BuiltGraphGood(counts: seq<int>, priorities: seq<int>, once: seq<bool>, links: seq<Link>)
    requires GoodJobs(counts, priorities, once, links)
    ensures GoodGraph(BuiltGraph(counts, priorities, once, links))
    ensures OnceToFinal(BuiltGraph(counts, priorities, once, links))
    ensures var g, n := BuiltGraph(counts, priorities, once, links), |counts|;
      && |g.count| == n + 1 && g.count[n] == 1 && g.priority[n] == 0x80 && !g.once[n] && g.answer.After?
      && (forall i :: 0 <= i < n ==> g.count[i] == counts[i] && g.priority[i] == priorities[i] && g.once[i] == once[i])
  {
    forall i | 0 <= i < |counts|
      ensures multiset(DependentsOf(FinalLinks(|counts|, |counts|) + links, i))[|counts|] == 1
    {
      FromEachOnce(FinalLinks(|counts|, |counts|), |counts|, i);
      JoinedLinks(FinalLinks(|counts|, |counts|), links, i, |counts|);
      DependentsCounted(links, i, |counts|);
      assert Between(links, i, |counts|) == {};
    }
    var g := BuiltGraph(counts, priorities, once, links);
    forall i | 0 <= i < g.Final() ensures Link(i, g.Final()) in g.links {
      assert g.links[i] == Link(i, g.Final());
    }
  }

  /** Whatever the jobs, their links and priorities, with no job complete after one run of several: if any run
      of the built graph exits, then two or more workers have a run that exits before a job has come to an end,
      whatever the queue does about equal priorities. */
  lemma BuiltGraphExitsTooSoon(counts: seq<int>, priorities: seq<int>, once: seq<bool>, links: seq<Link>,
                               pick: JobHolding.Choice, workers: nat)
    requires GoodJobs(counts, priorities, once, links)
    requires forall i :: 0 <= i < |counts| && once[i] ==> counts[i] == 1
    requires JobHolding.Chooses(BuiltGraph(counts, priorities, once, links), pick) && 2 <= workers < HALF
    ensures var g := BuiltGraph(counts, priorities, once, links);
      (exists states, j :: JobHolding.Obeyed(g, pick, workers, states) && JobOutcomes.CutOff(g, states, j)) <==>
      (exists states :: JobOutcomes.Exits(g, states))
  {
    BuiltGraphGood(counts, priorities, once, links);
    JobOutcomes.ExitsTooSoon(BuiltGraph(counts, priorities, once, links), pick, workers);
  }

  /** A non-empty queue has a node of greatest priority. */
  lemma {:induction false} TopExists(ready: multiset<int>, priority: seq<int>) returns (top: int)
    requires |ready| > 0 && forall n :: n in ready ==> 0 <= n < |priority|
    ensures top in ready && forall n :: n in ready ==> priority[n] <= priority[top]
    decreases |ready|
  {
    top :| top in ready;
    var rest := ready - multiset{top};
    if |rest| > 0 {
      var other := TopExists(rest, priority);
      if priority[top] <= priority[other] {
        top := other;
      }
    }
  }

  class DependencyJobQueue {
    var runState: seq<int>
    var parentCount: seq<int>
    var dependentList: seq<seq<int>>
    var priority: seq<int>
    var priorityQueue: multiset<int>
    var isReadyToExit: bool

    ghost function Mem(): Memory
      reads this
    {
      Memory(runState, parentCount, dependentList, priorityQueue, isReadyToExit)
    }

    /** Fresh nodes: one per job and the final node, all at their defaults. */
    constructor (jobs: nat)
      ensures runState == seq(jobs + 1, _ => 1) && priority == seq(jobs + 1, _ => NORMAL_PRIORITY)
      ensures parentCount == seq(jobs + 1, _ => 0) && dependentList == seq(jobs + 1, _ => [])
      ensures priorityQueue == multiset{} && !isReadyToExit
    {
      runState := seq(jobs + 1, _ => 1);
      priority := seq(jobs + 1, _ => NORMAL_PRIORITY);
      parentCount := seq(jobs + 1, _ => 0);
      dependentList := seq(jobs + 1, _ => []);
      priorityQueue := multiset{};
      isReadyToExit := false;
    }

    method RegisterDependency(parent: int, dependent: int)
      requires 0 <= parent < |dependentList| && 0 <= dependent < |parentCount|
      modifies this`parentCount, this`dependentList
      ensures Mem() == Registered(old(Mem()), Link(parent, dependent))
      ensures parentCount == old(parentCount)[dependent := (old(parentCount)[dependent] + 1) % 0x1_0000_0000]
      ensures dependentList == old(dependentList)[parent := old(dependentList)[parent] + [dependent]]
    {
      parentCount := parentCount[dependent := (parentCount[dependent] + 1) % WORD32];
      dependentList := dependentList[parent := dependentList[parent] + [dependent]];
    }

    /** Registering a link keeps counts and dependents in agreement with the links registered so far. */
    method RegisterAfter(ghost before: seq<Link>, link: Link)
      requires Linked(Mem(), before) && |before| < WORD32 - 1
      requires 0 <= link.parent < |parentCount| && 0 <= link.dependent < |parentCount|
      modifies this`parentCount, this`dependentList
      ensures |parentCount| == old(|parentCount|) && Linked(Mem(), before + [link])
    {
      RegisteredLinked(Mem(), before, link);
      RegisterDependency(link.parent, link.dependent);
    }

    /** Copies the run count and the priority of job `i` and links the job to the final node. */
    method CopyJob(i: int, count: int, ofPriority: int, final: int)
      requires 0 <= i < final < WORD32 && |runState| == |priority| == |parentCount| == final + 1
      requires Linked(Mem(), FinalLinks(i, final))
      modifies this`runState, this`priority, this`parentCount, this`dependentList
      ensures runState == old(runState)[i := count] && priority == old(priority)[i := ofPriority]
      ensures |parentCount| == final + 1 && Linked(Mem(), FinalLinks(i + 1, final))
    {
      runState := runState[i := count];
      priority := priority[i := ofPriority];
      RegisterAfter(FinalLinks(i, final), Link(i, final));
    }

    /** The first `i` jobs have their run counts and priorities and are linked to the final node. */
    ghost predicate Copied(counts: seq<int>, priorities: seq<int>, i: int)
      reads this
    {
      && 0 <= i <= |counts| == |priorities| && |runState| == |priority| == |parentCount| == |counts| + 1
      && runState == counts[..i] + seq(|counts| + 1 - i, _ => 1)
      && priority == priorities[..i] + seq(|counts| + 1 - i, _ => NORMAL_PRIORITY)
      && Linked(Mem(), FinalLinks(i, |counts|))
    }

    /** Copies job `i`. */
    method CopyNext(counts: seq<int>, priorities: seq<int>, i: int)
      requires Copied(counts, priorities, i) && i < |counts| < WORD32
      modifies this`runState, this`priority, this`parentCount, this`dependentList
      ensures Copied(counts, priorities, i + 1)
    {
      CopyJob(i, counts[i], priorities[i], |counts|);
    }

    /** Copies the run count and the priority of each job and links the job to the final node. */
    method CopyJobs(counts: seq<int>, priorities: seq<int>)
      requires |priorities| == |counts| < WORD32
      requires runState == seq(|counts| + 1, _ => 1) && priority == seq(|counts| + 1, _ => NORMAL_PRIORITY)
      requires parentCount == seq(|counts| + 1, _ => 0) && dependentList == seq(|counts| + 1, _ => [])
      modifies this`runState, this`priority, this`parentCount, this`dependentList
      ensures runState == counts + [1] && priority == priorities + [NORMAL_PRIORITY]
      ensures |parentCount| == |counts| + 1 && Linked(Mem(), FinalLinks(|counts|, |counts|))
    {
      var i := 0;
      while i < |counts|
        invariant Copied(counts, priorities, i)
      {
        CopyNext(counts, priorities, i);
        i := i + 1;
      }
      assert counts[..i] == counts && priorities[..i] == priorities;
    }

    /** Registers the links asked for by the user, on top of those registered before. */
    method RegisterLinks(ghost before: seq<Link>, links: seq<Link>)
      requires Linked(Mem(), before)
      requires forall k :: 0 <= k < |links| ==>
          0 <= links[k].parent < |parentCount| && 0 <= links[k].dependent < |parentCount|
      requires |before| + |links| < WORD32
      modifies this`parentCount, this`dependentList
      ensures |parentCount| == old(|parentCount|) && Linked(Mem(), before + links)
    {
      var i := 0;
      assert before + links[..0] == before;
      while i < |links|
        invariant 0 <= i <= |links|
        invariant |parentCount| == old(|parentCount|) && Linked(Mem(), before + links[..i])
      {
        assert before + links[..i + 1] == (before + links[..i]) + [links[i]];
        RegisterAfter(before + links[..i], links[i]);
        i := i + 1;
      }
      assert links[..i] == links;
    }

    /** Copies the run counts and priorities and registers every link of the graph. */
    method BuildJobGraph(counts: seq<int>, priorities: seq<int>, ghost once: seq<bool>, links: seq<Link>)
      requires GoodJobs(counts, priorities, once, links)
      requires runState == seq(|counts| + 1, _ => 1) && priority == seq(|counts| + 1, _ => NORMAL_PRIORITY)
      requires parentCount == seq(|counts| + 1, _ => 0) && dependentList == seq(|counts| + 1, _ => [])
      modifies this`runState, this`priority, this`parentCount, this`dependentList
      ensures runState == BuiltGraph(counts, priorities, once, links).count
      ensures priority == BuiltGraph(counts, priorities, once, links).priority
      ensures |parentCount| == |counts| + 1 && Linked(Mem(), BuiltGraph(counts, priorities, once, links).links)
      ensures runState == counts + [1] && priority == priorities + [0x80]
      ensures |parentCount| == |dependentList| == |counts| + 1
      ensures forall d :: 0 <= d < |counts| ==>
          parentCount[d] == |Into(links, d)|
      ensures parentCount[|counts|] == |counts|
      ensures forall p, d :: 0 <= p < |counts| ==>
          multiset(dependentList[p])[d] ==
          |Between(links, p, d)| + One(d == |counts|)
      ensures dependentList[|counts|] == []
    {
      CopyJobs(counts, priorities);
      RegisterLinks(FinalLinks(|counts|, |counts|), links);
      LinksAsAsked(counts, priorities, once, links, Mem());
    }

    /** Queues every job that waits for nobody. The final node is not among the jobs looked at. */
    method SetupRun()
      requires |parentCount| >= 1 && priorityQueue == multiset{}
      modifies this`priorityQueue
      ensures forall i :: priorityQueue[i] == if 0 <= i < |parentCount| - 1 && parentCount[i] <= 0 then 1 else 0
    {
      var i := 0;
      while i < |parentCount| - 1
        invariant 0 <= i <= |parentCount| - 1
        invariant forall j :: priorityQueue[j] == if 0 <= j < i && parentCount[j] <= 0 then 1 else 0
      {
        if !(0 < parentCount[i]) {
          priorityQueue := priorityQueue + multiset{i};
        }
        i := i + 1;
      }
    }

    /** Building a graph and setting it up gives the start of a run of that graph. */
    method PrepareRun(counts: seq<int>, priorities: seq<int>, ghost once: seq<bool>, links: seq<Link>)
      requires GoodJobs(counts, priorities, once, links)
      requires runState == seq(|counts| + 1, _ => 1) && priority == seq(|counts| + 1, _ => NORMAL_PRIORITY)
      requires parentCount == seq(|counts| + 1, _ => 0) && dependentList == seq(|counts| + 1, _ => [])
      requires priorityQueue == multiset{} && !isReadyToExit
      modifies this`runState, this`priority, this`parentCount, this`dependentList, this`priorityQueue
      ensures Initial(BuiltGraph(counts, priorities, once, links), Mem())
      ensures priority == BuiltGraph(counts, priorities, once, links).priority
      ensures forall d :: priorityQueue[d] == if 0 <= d < |counts| && Into(links, d) == {} then 1 else 0
    {
      BuildJobGraph(counts, priorities, once, links);
      SetupRun();
      ghost var g := BuiltGraph(counts, priorities, once, links);
      BuiltGraphGood(counts, priorities, once, links);
      FinalWaits(g);
    }

    /** Takes the next job off the shared queue, or reports that there is none to take. */
    method ScheduleNextJob() returns (found: bool, node: int)
      requires Shaped(Mem(), |priority|) && forall n :: n in priorityQueue ==> 0 <= n < |priority|
      modifies this`runState, this`priorityQueue
      ensures found <==> |old(priorityQueue)| > 0
      ensures !found ==> Mem() == old(Mem())
      ensures found ==>
          && node in old(priorityQueue) && 0 <= node < |priority|
          && (forall n :: n in old(priorityQueue) ==> priority[n] <= priority[node])
          && Mem() == Scheduled(old(Mem()), node)
          && runState == old(runState)[node := (old(runState)[node] + 0xffff) % 0x1_0000_0000]
          && priorityQueue == (if old(runState)[node] % 0x1_0000 == 1 then old(priorityQueue) - multiset{node}
                               else old(priorityQueue))
    {
      if |priorityQueue| == 0 {
        return false, 0;
      }
      ghost var top := TopExists(priorityQueue, priority);
      node :| node in priorityQueue && forall n :: n in priorityQueue ==> priority[n] <= priority[node];
      var previous := runState[node];
      runState := runState[node := (previous + 0xffff) % WORD32];
      if previous % HALF != 1 {
        return true, node;
      }
      priorityQueue := priorityQueue - multiset{node};
      return true, node;
    }

    /** Clears the remaining runs of a node. The mask answers with the word that it leaves, which has no
        runs left, so the node always stays in the queue. */
    method ForceRemoveForCompleteOnce(node: int)
      requires 0 <= node < |runState|
      modifies this`runState, this`priorityQueue
      ensures Mem() == ForceRemoved(old(Mem()), node, After)
      ensures runState == old(runState)[node := old(runState)[node] / 0x1_0000 * 0x1_0000]
      ensures priorityQueue == old(priorityQueue)
    {
      var cleared := runState[node] - runState[node] % HALF;
      runState := runState[node := cleared];
      if cleared % HALF == 0 {
        return;
      }
      priorityQueue := priorityQueue - multiset{node};
    }

    /** Takes a run off the active half, and tells whether it was the last one. */
    method DecrementActive(node: int) returns (isLast: bool)
      requires 0 <= node < |runState|
      modifies this`runState
      ensures Mem() == Subtracted(old(Mem()), node) && (isLast <==> old(runState)[node] == 0x1_0000)
      ensures runState == old(runState)[node := (old(runState)[node] - 0x1_0000) % 0x1_0000_0000]
    {
      var last := runState[node];
      runState := runState[node := (last - HALF) % WORD32];
      return last == HALF;
    }

    /** Takes a parent from one dependent, and queues it if it has one parent left. */
    method RemoveDependency(d: int)
      requires 0 <= d < |parentCount|
      modifies this`parentCount, this`priorityQueue
      ensures Mem() == Lowered(old(Mem()), d, After)
      ensures parentCount == old(parentCount)[d := (old(parentCount)[d] - 1) % 0x1_0000_0000]
      ensures priorityQueue == old(priorityQueue) + (if parentCount[d] == 1 then multiset{d} else multiset{})
    {
      var last := (parentCount[d] - 1) % WORD32;
      parentCount := parentCount[d := last];
      if last != 1 {
        return;
      }
      priorityQueue := priorityQueue + multiset{d};
    }

    /** Takes a parent from every dependent of a node and queues those that have one parent left. */
    method RemoveDependencies(node: int)
      requires 0 <= node < |dependentList|
      requires forall j :: 0 <= j < |dependentList[node]| ==> 0 <= dependentList[node][j] < |parentCount|
      modifies this`parentCount, this`priorityQueue
      ensures Mem() == Dropped(old(Mem()), old(dependentList)[node], After)
    {
      ghost var m := Mem();
      var deps := dependentList[node];
      var i := 0;
      while i < |deps|
        invariant 0 <= i <= |deps|
        invariant Mem() == Dropped(m, deps[..i], After)
      {
        assert deps[..i + 1][..i] == deps[..i];
        RemoveDependency(deps[i]);
        i := i + 1;
      }
      assert deps[..i] == deps;
    }

    /** Marks a node as done; the final node then sets the exit flag. */
    method FinishRemoval(node: int)
      requires 0 <= node < |parentCount| == |dependentList|
      modifies this`parentCount, this`dependentList, this`isReadyToExit
      ensures var cleared := Cleared(old(Mem()), node);
        Mem() == if node == |parentCount| - 1 then cleared.(exit := true) else cleared
      ensures parentCount == old(parentCount)[node := 0xffff_ffff]
      ensures dependentList == old(dependentList)[node := []]
      ensures isReadyToExit <==> old(isReadyToExit) || node == |parentCount| - 1
    {
      parentCount := parentCount[node := 0xffff_ffff];
      dependentList := dependentList[node := []];
      if node != |parentCount| - 1 {
        return;
      }
      isReadyToExit := true;
    }
  }

  /** The final node waits for the jobs, so a run never starts with it. */
  lemma FinalWaits(g: Graph)
    requires GoodGraph(g)
    ensures Pending(g.links, g.Final(), {}) > 0
  {
    PendingZero(g.links, g.Final(), {});
    var k :| 0 <= k < |g.links| && g.links[k] == Link(0, g.Final());
  }
}
