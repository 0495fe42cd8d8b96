/** A job graph run by many workers: the memory of the queue, what each atomic region does to it,
    and the step machine of the workers. */
module JobGraph {
  import opened Words

  const HALF: int := 0x1_0000

  /** A link says that `dependent` may not run before `parent` is done. */
  datatype Link = Link(parent: int, dependent: int)

  /** What an atomic update answers with: the value before it, or the value after it. */
  datatype Answer = Before | After

  /** The jobs of a run: how often each runs, its priority, which end their runs early, all registered links,
      and what the decrement and the masking of the queue answer with. The last node is the final node, which
      depends on every other. */
  datatype Graph = Graph(count: seq<int>, priority: seq<int>, once: seq<bool>, links: seq<Link>, answer: Answer) {
    function Final(): int { |count| - 1 }
  }

  ghost predicate GoodGraph(g: Graph) {
    && |g.count| >= 2 && |g.once| == |g.count| && |g.priority| == |g.count|
    && (forall i :: 0 <= i < |g.count| ==> 1 <= g.count[i] < HALF)
    && (forall k :: 0 <= k < |g.links| ==> 0 <= g.links[k].parent < g.Final() && 0 <= g.links[k].dependent < |g.count|)
    && (forall i :: 0 <= i < g.Final() ==> Link(i, g.Final()) in g.links)
    && |g.links| < WORD32
  }

  /** Every link climbs in some ranking of the nodes. */
  ghost predicate Ranked(g: Graph, rank: seq<nat>) {
    && |rank| == |g.count|
    && (forall k :: 0 <= k < |g.links| && 0 <= g.links[k].parent < |rank| && 0 <= g.links[k].dependent < |rank| ==>
          rank[g.links[k].parent] < rank[g.links[k].dependent])
  }

  /** The dependents of a node, one per link, in registration order. */
  function DependentsOf(links: seq<Link>, n: int): (deps: seq<int>) {
    if links == [] then []
    else
      var last := links[|links| - 1];
      DependentsOf(links[..|links| - 1], n) + (if last.parent == n then [last.dependent] else [])
  }

  /** Each job is linked to the final node once. */
  ghost predicate OnceToFinal(g: Graph) {
    forall i :: 0 <= i < g.Final() ==> multiset(DependentsOf(g.links, i))[g.Final()] == 1
  }

  /** How many links into `d` come from nodes outside `released`. */
  function Pending(links: seq<Link>, d: int, released: set<int>): (n: nat)
    ensures n <= |links|
  {
    if links == [] then 0
    else
      var last := links[|links| - 1];
      Pending(links[..|links| - 1], d, released) + (if last.dependent == d && last.parent !in released then 1 else 0)
  }

  /** Released nodes only lower the number of pending links. */
  lemma {:induction false} PendingMono(links: seq<Link>, d: int, a: set<int>, b: set<int>)
    requires forall k :: 0 <= k < |links| && links[k].parent in a ==> links[k].parent in b
    ensures Pending(links, d, b) <= Pending(links, d, a)
  {
    if links != [] {
      var front := links[..|links| - 1];
      assert forall k :: 0 <= k < |front| ==> front[k] == links[k];
      PendingMono(front, d, a, b);
    }
  }

  /** Whether a node has been queued once the given nodes have released their dependents. A decrement
      that answers with the old value queues a node with its last link. One that answers with the new
      value queues it while one link is still pending, and never if it has just one link. */
  predicate Awake(g: Graph, i: int, released: set<int>) {
    var links, pending := Pending(g.links, i, {}), Pending(g.links, i, released);
    if g.answer.Before? then pending == 0 else links == 0 || (links >= 2 && pending <= 1)
  }

  lemma AwakeMono(g: Graph, i: int, a: set<int>, b: set<int>)
    requires forall k :: 0 <= k < |g.links| && g.links[k].parent in a ==> g.links[k].parent in b
    ensures Awake(g, i, a) ==> Awake(g, i, b)
  {
    PendingMono(g.links, i, a, b);
  }

  lemma {:induction false} PendingZero(links: seq<Link>, d: int, released: set<int>)
    ensures Pending(links, d, released) == 0 <==>
            forall k :: 0 <= k < |links| && links[k].dependent == d ==> links[k].parent in released
  {
    if links != [] {
      var front := links[..|links| - 1];
      PendingZero(front, d, released);
      assert forall k :: 0 <= k < |front| ==> links[k] == front[k];
      if Pending(links, d, released) == 0 {
        forall k | 0 <= k < |links| && links[k].dependent == d ensures links[k].parent in released {
          assert k < |front| ==> links[k] == front[k];
        }
      }
    }
  }

  /** Releasing a node takes as many pending links from each node as it has links to it. */
  lemma {:induction false} PendingRelease(links: seq<Link>, d: int, released: set<int>, n: int)
    requires n !in released
    ensures Pending(links, d, released) == Pending(links, d, released + {n}) + multiset(DependentsOf(links, n))[d]
  {
    if links != [] {
      PendingRelease(links[..|links| - 1], d, released, n);
    }
  }

  lemma {:induction false} DependentsInRange(links: seq<Link>, n: int, size: int)
    requires forall k :: 0 <= k < |links| ==> 0 <= links[k].dependent < size
    ensures forall j :: 0 <= j < |DependentsOf(links, n)| ==> 0 <= DependentsOf(links, n)[j] < size
  {
    if links != [] {
      DependentsInRange(links[..|links| - 1], n, size);
    }
  }

  // ---------------------------------------------------------------------------------------
  // The shared memory of the queue.

  /** Per node: the packed run state (remaining runs low, active runs high), the parent count and
      the dependents; the ready queue; and the exit flag. */
  datatype Memory = Memory(
    run: seq<int>,
    parents: seq<int>,
    dependents: seq<seq<int>>,
    ready: multiset<int>,
    exit: bool)

  function Remaining(word: int): int { word % HALF }

  function Active(word: int): int { word / HALF }

  ghost predicate Shaped(m: Memory, size: int) {
    |m.run| == size && |m.parents| == size && |m.dependents| == size
  }

  /** Moves one unit from the remaining to the active half by one addition; the last remaining run
      takes the node out of the queue. */
  function Scheduled(m: Memory, n: int): Memory
    requires 0 <= n < |m.run|
  {
    var previous := m.run[n];
    m.(run := m.run[n := (previous + 0xffff) % WORD32],
       ready := if Remaining(previous) != 1 then m.ready else m.ready - multiset{n})
  }

  /** Clears the remaining half; the node leaves the queue if the answer shows remaining runs. */
  function ForceRemoved(m: Memory, n: int, answer: Answer): Memory
    requires 0 <= n < |m.run|
  {
    var previous := m.run[n];
    var cleared := previous - Remaining(previous);
    var seen := if answer.Before? then previous else cleared;
    m.(run := m.run[n := cleared],
       ready := if Remaining(seen) == 0 then m.ready else m.ready - multiset{n})
  }

  /** Takes one unit from the active half. */
  function Subtracted(m: Memory, n: int): Memory
    requires 0 <= n < |m.run|
  {
    m.(run := m.run[n := (m.run[n] - HALF) % WORD32])
  }

  /** Takes one parent from a node, which becomes ready when the answer is one. */
  function Lowered(m: Memory, d: int, answer: Answer): Memory
    requires 0 <= d < |m.parents|
  {
    var lower := (m.parents[d] - 1) % WORD32;
    var seen := if answer.Before? then m.parents[d] else lower;
    m.(parents := m.parents[d := lower], ready := if seen != 1 then m.ready else m.ready + multiset{d})
  }

  /** Takes one parent from each listed node in turn. */
  function Dropped(m: Memory, deps: seq<int>, answer: Answer): Memory
    requires forall j :: 0 <= j < |deps| ==> 0 <= deps[j] < |m.parents|
    ensures |Dropped(m, deps, answer).parents| == |m.parents|
  {
    if deps == [] then m else Lowered(Dropped(m, deps[..|deps| - 1], answer), deps[|deps| - 1], answer)
  }

  /** Dropping lowers each parent count by as often as the node is listed, and changes nothing else
      but the queue. */
  lemma {:induction false} DroppedParents(m: Memory, deps: seq<int>, answer: Answer)
    requires Affordable(m, deps)
    ensures var after := Dropped(m, deps, answer);
      && after == m.(parents := after.parents, ready := after.ready)
      && (forall d :: 0 <= d < |m.parents| ==> after.parents[d] == m.parents[d] - multiset(deps)[d])
  {
    if deps != [] {
      AffordableFront(m, deps);
      DroppedParents(m, deps[..|deps| - 1], answer);
    }
  }

  /** Whether a parent count passes the value that queues the node while it falls by `fall`. */
  predicate Passes(count: int, fall: int, answer: Answer) {
    fall > 0 && if answer.Before? then fall == count else count >= 2 && count - fall <= 1
  }

  /** One more decrement passes the value in question exactly if its own answer is one. */
  lemma PassesNext(count: int, fall: int, answer: Answer)
    requires 0 <= fall < count
    ensures var seen := if answer.Before? then count - fall else count - fall - 1;
      One(Passes(count, fall + 1, answer)) == One(Passes(count, fall, answer)) + One(seen == 1)
  {
  }

  lemma LoweredReady(m: Memory, d: int, answer: Answer, x: int)
    requires 0 <= d < |m.parents| && 0 < m.parents[d] < WORD32
    ensures Lowered(m, d, answer).ready[x] ==
      m.ready[x] + One(x == d && (if answer.Before? then m.parents[d] else m.parents[d] - 1) == 1)
  {
  }

  /** The falls that the listed links make stay within the counts. */
  ghost predicate Affordable(m: Memory, deps: seq<int>) {
    && (forall j :: 0 <= j < |deps| ==> 0 <= deps[j] < |m.parents|)
    && (forall d :: 0 <= d < |m.parents| && multiset(deps)[d] > 0 ==> multiset(deps)[d] <= m.parents[d] < WORD32)
  }

  lemma AffordableFront(m: Memory, deps: seq<int>)
    requires deps != [] && Affordable(m, deps)
    ensures Affordable(m, deps[..|deps| - 1])
    ensures var last := deps[|deps| - 1];
      0 <= multiset(deps[..|deps| - 1])[last] < m.parents[last] < WORD32
    ensures multiset(deps) == multiset(deps[..|deps| - 1]) + multiset{deps[|deps| - 1]}
  {
    ListedOnce(deps);
  }

  /** Dropping queues a node, once, exactly when its count passes the value that the answer is compared with. */
  lemma {:induction false} DroppedReady(m: Memory, deps: seq<int>, answer: Answer, d: int)
    requires Affordable(m, deps)
    ensures Dropped(m, deps, answer).ready[d] ==
      m.ready[d] + if 0 <= d < |m.parents| then One(Passes(m.parents[d], multiset(deps)[d], answer)) else 0
    decreases |deps|
  {
    if deps != [] {
      var front, last := deps[..|deps| - 1], deps[|deps| - 1];
      AffordableFront(m, deps);
      DroppedReady(m, front, answer, d);
      DroppedParents(m, front, answer);
      LoweredReady(Dropped(m, front, answer), last, answer, d);
      PassesNext(m.parents[last], multiset(front)[last], answer);
    }
  }

  lemma ListedOnce(deps: seq<int>)
    requires deps != []
    ensures multiset(deps) == multiset(deps[..|deps| - 1]) + multiset{deps[|deps| - 1]}
  {
    assert deps == deps[..|deps| - 1] + [deps[|deps| - 1]];
  }

  /** Marks a finished node; its dependents are forgotten. */
  function Cleared(m: Memory, n: int): Memory
    requires 0 <= n < |m.parents| && n < |m.dependents|
  {
    m.(parents := m.parents[n := 0xffff_ffff], dependents := m.dependents[n := []])
  }

  // ---------------------------------------------------------------------------------------
  // Setting a run up.

  /** Registers one link. */
  function Registered(m: Memory, link: Link): Memory
    requires 0 <= link.parent < |m.dependents| && 0 <= link.dependent < |m.parents|
  {
    m.(parents := m.parents[link.dependent := (m.parents[link.dependent] + 1) % WORD32],
       dependents := m.dependents[link.parent := m.dependents[link.parent] + [link.dependent]])
  }

  /** The memory once links have been registered: counts and dependents agree with the links. */
  ghost predicate Linked(m: Memory, links: seq<Link>) {
    && |m.parents| == |m.dependents|
    && (forall i :: 0 <= i < |m.parents| ==> m.parents[i] == Pending(links, i, {}))
    && (forall i :: 0 <= i < |m.dependents| ==> m.dependents[i] == DependentsOf(links, i))
  }

  lemma RegisteredLinked(m: Memory, links: seq<Link>, link: Link)
    requires Linked(m, links) && |links| < WORD32 - 1
    requires 0 <= link.parent < |m.dependents| && 0 <= link.dependent < |m.parents|
    ensures Linked(Registered(m, link), links + [link])
  {
    assert (links + [link])[..|links|] == links;
  }

  /** The memory at the start of a run. */
  ghost predicate Initial(g: Graph, m: Memory) {
    && m.run == g.count
    && |m.parents| == |g.count| && Linked(m, g.links)
    && (forall i :: m.ready[i] == if 0 <= i < |g.count| && m.parents[i] == 0 then 1 else 0)
    && !m.exit
  }

  // ---------------------------------------------------------------------------------------
  // Workers.

  datatype Phase =
    | Idle
    | Running(n: int)
    | Forcing(n: int)
    | Subtracting(n: int)
    | Releasing(n: int)
    | Clearing(n: int)
    | Exiting
    | Stopped

  /** The memory, the workers, and the history of the run: how often each job was started, how often
      it finished, how often a worker saw itself as the last one, and which nodes have released
      their dependents. */
  datatype System = System(
    mem: Memory,
    workers: seq<Phase>,
    started: seq<int>,
    finished: seq<int>,
    last: seq<int>,
    released: set<int>)

  ghost predicate Start(g: Graph, s: System) {
    && Initial(g, s.mem)
    && 1 <= |s.workers| < HALF
    && (forall w :: 0 <= w < |s.workers| ==> s.workers[w] == Idle)
    && s.started == seq(|g.count|, _ => 0) && s.finished == seq(|g.count|, _ => 0) && s.last == seq(|g.count|, _ => 0)
    && s.released == {}
  }

  ghost predicate Sized(g: Graph, s: System) {
    && Shaped(s.mem, |g.count|)
    && |s.started| == |g.count| && |s.finished| == |g.count| && |s.last| == |g.count|
  }

  /** A queued node whose priority no queued node exceeds. */
  ghost predicate Foremost(g: Graph, ready: multiset<int>, n: int) {
    && 0 <= n < |g.count| == |g.priority| && n in ready
    && forall i :: 0 <= i < |g.priority| && i in ready ==> g.priority[i] <= g.priority[n]
  }

  /** A worker takes node `n`, of greatest priority, from the ready queue. */
  ghost predicate Acquires(g: Graph, s: System, w: int, n: int, t: System) {
    && Sized(g, s) && 0 <= w < |s.workers| && s.workers[w] == Idle && Foremost(g, s.mem.ready, n)
    && t == s.(mem := Scheduled(s.mem, n), workers := s.workers[w := Running(n)],
               started := s.started[n := s.started[n] + 1])
  }

  ghost predicate Acquire(g: Graph, s: System, w: int, t: System) {
    exists n :: Acquires(g, s, w, n, t)
  }

  /** A job returns; a node that completes after one run and still has runs left is forced out. */
  ghost predicate Finish(g: Graph, s: System, w: int, t: System) {
    && Sized(g, s) && 0 <= w < |s.workers| && s.workers[w].Running?
    && var n := s.workers[w].n;
    && 0 <= n < |g.count| && n < |g.once|
    && var next := if g.once[n] && Remaining(s.mem.run[n]) != 0 then Forcing(n) else Subtracting(n);
    && t == s.(workers := s.workers[w := next],
               finished := s.finished[n := s.finished[n] + 1])
  }

  ghost predicate Force(g: Graph, s: System, w: int, t: System) {
    && Sized(g, s) && 0 <= w < |s.workers| && s.workers[w].Forcing?
    && var n := s.workers[w].n;
    && 0 <= n < |g.count|
    && t == s.(mem := ForceRemoved(s.mem, n, g.answer), workers := s.workers[w := Subtracting(n)])
  }

  /** Only the worker that sees exactly one active run and none remaining goes on to release. */
  ghost predicate Subtract(g: Graph, s: System, w: int, t: System) {
    && Sized(g, s) && 0 <= w < |s.workers| && s.workers[w].Subtracting?
    && var n := s.workers[w].n;
    && 0 <= n < |g.count|
    && var isLast := s.mem.run[n] == HALF;
    && t == s.(mem := Subtracted(s.mem, n), workers := s.workers[w := if isLast then Releasing(n) else Idle],
               last := s.last[n := s.last[n] + (if isLast then 1 else 0)])
  }

  ghost predicate Release(g: Graph, s: System, w: int, t: System) {
    && Sized(g, s) && 0 <= w < |s.workers| && s.workers[w].Releasing?
    && var n := s.workers[w].n;
    && 0 <= n < |g.count|
    && (forall j :: 0 <= j < |s.mem.dependents[n]| ==> 0 <= s.mem.dependents[n][j] < |s.mem.parents|)
    && t == s.(mem := Dropped(s.mem, s.mem.dependents[n], g.answer), workers := s.workers[w := Clearing(n)],
               released := s.released + {n})
  }

  ghost predicate Clear(g: Graph, s: System, w: int, t: System) {
    && Sized(g, s) && 0 <= w < |s.workers| && s.workers[w].Clearing?
    && var n := s.workers[w].n;
    && 0 <= n < |g.count|
    && t == s.(mem := Cleared(s.mem, n), workers := s.workers[w := if n == g.Final() then Exiting else Idle])
  }

  ghost predicate Exit(g: Graph, s: System, w: int, t: System) {
    && Sized(g, s) && 0 <= w < |s.workers| && s.workers[w] == Exiting
    && t == s.(mem := s.mem.(exit := true), workers := s.workers[w := Idle])
  }

  ghost predicate Stop(g: Graph, s: System, w: int, t: System) {
    && Sized(g, s) && 0 <= w < |s.workers| && s.workers[w] == Idle && s.mem.exit
    && t == s.(workers := s.workers[w := Stopped])
  }

  ghost predicate WorkerStep(g: Graph, s: System, w: int, t: System) {
    || Acquire(g, s, w, t) || Finish(g, s, w, t) || Force(g, s, w, t) || Subtract(g, s, w, t)
    || Release(g, s, w, t) || Clear(g, s, w, t) || Exit(g, s, w, t) || Stop(g, s, w, t)
  }

  ghost predicate Step(g: Graph, s: System, t: System) {
    exists w :: WorkerStep(g, s, w, t)
  }

  /** State `i` of a run follows from the one before it. */
  ghost predicate StepInto(g: Graph, states: seq<System>, i: int) {
    0 < i < |states| && Step(g, states[i - 1], states[i])
  }

  ghost predicate Run(g: Graph, states: seq<System>) {
    && states != [] && Start(g, states[0])
    && (forall i :: 0 < i < |states| ==> StepInto(g, states, i))
  }
}
