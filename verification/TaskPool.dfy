/** The pool of tasks: one list to acquire from, one to free into, and an event that says when the second
    has something in it. Tasks are named by their index in the allocator's array. */
module TaskPool {
  /** Where the thread that holds the acquire lock stands, if there is one. */
  datatype Holder = Nobody | Trying | Waiting | Woken

  datatype Pool = Pool(
    acquiring: seq<int>,
    freed: seq<int>,
    available: bool,
    isFree: seq<bool>,
    out: set<int>,
    holder: Holder)

  /** The free tasks, in the order in which they will be handed out. */
  function Queue(p: Pool): seq<int> {
    p.acquiring + p.freed
  }

  predicate InPool(list: seq<int>, n: int) {
    forall j :: 0 <= j < |list| ==> 0 <= list[j] < n
  }

  /** The position of the first task of a list that is marked as free, or the length of the list. */
  function FirstFree(list: seq<int>, isFree: seq<bool>): (i: nat)
    requires InPool(list, |isFree|)
    ensures i <= |list| && (forall j :: 0 <= j < i ==> !isFree[list[j]]) && (i < |list| ==> isFree[list[i]])
  {
    if list == [] || isFree[list[0]] then 0 else 1 + FirstFree(list[1..], isFree)
  }

  // ---------------------------------------------------------------------------------------------
  // Steps, one for each region under a lock

  ghost predicate Enter(p: Pool, q: Pool) {
    p.holder == Nobody && q == p.(holder := Trying)
  }

  /** Hands out the task at position `i` of the acquire list. */
  ghost predicate TakeAt(p: Pool, q: Pool, i: int) {
    && p.holder == Trying && 0 <= i < |p.acquiring| && InPool(p.acquiring, |p.isFree|)
    && q == p.(acquiring := p.acquiring[..i] + p.acquiring[i + 1..], isFree := p.isFree[p.acquiring[i] := false],
               out := p.out + {p.acquiring[i]}, holder := Nobody)
  }

  /** Hands out the first task of the acquire list that is marked as free. */
  ghost predicate Take(p: Pool, q: Pool) {
    InPool(p.acquiring, |p.isFree|) && TakeAt(p, q, FirstFree(p.acquiring, p.isFree))
  }

  ghost predicate FindEmpty(p: Pool, q: Pool) {
    p.holder == Trying && p.acquiring == [] && q == p.(holder := Waiting)
  }

  ghost predicate Wake(p: Pool, q: Pool) {
    p.holder == Waiting && p.available && q == p.(holder := Woken)
  }

  ghost predicate Swap(p: Pool, q: Pool) {
    p.holder == Woken && q == p.(acquiring := p.freed, freed := p.acquiring, available := false, holder := Trying)
  }

  /** Takes a task back that had been handed out. */
  ghost predicate Free(p: Pool, q: Pool, t: int) {
    && t in p.out && 0 <= t < |p.isFree|
    && q == p.(freed := p.freed + [t], available := true, isFree := p.isFree[t := true], out := p.out - {t})
  }

  /** The thread that ran a task marks it as free once more, even if it has been handed out again since. */
  ghost predicate Mark(p: Pool, q: Pool, t: int) {
    0 <= t < |p.isFree| && q == p.(isFree := p.isFree[t := true])
  }

  ghost predicate Step(p: Pool, q: Pool) {
    || Enter(p, q) || Take(p, q) || FindEmpty(p, q) || Wake(p, q) || Swap(p, q)
    || (exists t :: Free(p, q, t)) || (exists t :: Mark(p, q, t))
  }

  ghost predicate StepInto(states: seq<Pool>, i: int) {
    0 < i < |states| && Step(states[i - 1], states[i])
  }

  ghost predicate Initial(p: Pool, count: nat) {
    && p.acquiring == Ids(count) && p.freed == [] && !p.available && p.out == {} && p.holder == Nobody
    && |p.isFree| == count && forall t :: 0 <= t < count ==> p.isFree[t]
  }

  function Ids(n: nat): (s: seq<int>)
    ensures |s| == n && forall i :: 0 <= i < n ==> s[i] == i
  {
    if n == 0 then [] else Ids(n - 1) + [n - 1]
  }

  /** A run of a pool of `count` tasks. */
  ghost predicate Run(states: seq<Pool>, count: nat) {
    && |states| > 0 && Initial(states[0], count)
    && forall i :: 0 < i < |states| ==> StepInto(states, i)
  }

  // ---------------------------------------------------------------------------------------------
  // The invariant

  /** Each of the `count` tasks is in one place of the queue, or handed out. */
  predicate Placed(queue: seq<int>, out: set<int>, count: nat) {
    && (forall i, j :: 0 <= i < j < |queue| ==> queue[i] != queue[j])
    && (forall i :: 0 <= i < |queue| ==> 0 <= queue[i] < count && queue[i] !in out)
    && (forall t :: t in out ==> 0 <= t < count)
    && (forall t :: 0 <= t < count ==> t in queue || t in out)
  }

  ghost predicate Inv(p: Pool, count: nat) {
    && |p.isFree| == count && Placed(Queue(p), p.out, count)
    && (forall i :: 0 <= i < |Queue(p)| ==> p.isFree[Queue(p)[i]])
    && (p.available <==> p.freed != [])
    && (p.holder in {Waiting, Woken} ==> p.acquiring == [])
    && (p.holder == Woken ==> p.available)
  }

  /** With every listed task marked as free, the search stops at the head of the list: the timed wait
      behind it is never reached. */
  lemma NoTimedWait(p: Pool, count: nat)
    requires Inv(p, count) && p.acquiring != []
    ensures InPool(p.acquiring, |p.isFree|) && FirstFree(p.acquiring, p.isFree) == 0
  {
    forall j | 0 <= j < |p.acquiring| ensures 0 <= p.acquiring[j] < count && p.isFree[p.acquiring[j]] {
      assert Queue(p)[j] == p.acquiring[j];
    }
  }

  /** Handing out the head of the queue keeps every task in one place. */
  lemma HeadPlaced(queue: seq<int>, out: set<int>, count: nat)
    requires Placed(queue, out, count) && queue != []
    ensures Placed(queue[1..], out + {queue[0]}, count)
  {
    assert queue == [queue[0]] + queue[1..];
  }

  lemma TailPlaced(queue: seq<int>, out: set<int>, t: int, count: nat)
    requires Placed(queue, out, count) && t in out
    ensures Placed(queue + [t], out - {t}, count)
  {
    forall u | 0 <= u < count ensures u in queue + [t] || u in out - {t} {
      if u in queue {
        assert u in queue + [t];
      }
    }
  }

  lemma TakeInv(p: Pool, q: Pool, count: nat)
    requires Inv(p, count) && Take(p, q)
    ensures Inv(q, count) && Queue(p) != [] && Queue(q) == Queue(p)[1..] && q.out == p.out + {Queue(p)[0]}
  {
    NoTimedWait(p, count);
    HeadTaken(p, q);
    HeadPlaced(Queue(p), p.out, count);
    forall i | 0 <= i < |Queue(q)| ensures q.isFree[Queue(q)[i]] {
      assert Queue(q)[i] == Queue(p)[i + 1] && Queue(p)[i + 1] != Queue(p)[0];
    }
  }

  lemma HeadTaken(p: Pool, q: Pool)
    requires TakeAt(p, q, 0)
    ensures Queue(p) != [] && Queue(p)[0] == p.acquiring[0] && Queue(q) == Queue(p)[1..]
  {
    assert q.acquiring == p.acquiring[1..];
  }

  lemma FreeInv(p: Pool, q: Pool, t: int, count: nat)
    requires Inv(p, count) && Free(p, q, t)
    ensures Inv(q, count) && Queue(q) == Queue(p) + [t] && q.out == p.out - {t}
  {
    assert Queue(q) == Queue(p) + [t];
    TailPlaced(Queue(p), p.out, t, count);
  }

  lemma SwapInv(p: Pool, q: Pool, count: nat)
    requires Inv(p, count) && Swap(p, q)
    ensures Inv(q, count) && Queue(q) == Queue(p) && q.acquiring != [] && q.freed == []
  {
    assert Queue(q) == Queue(p);
  }

  /** A step of the plain queue that the two lists stand for: nothing happens, the head is handed out, or
      a task comes back at the end. */
  ghost predicate FifoStep(queue: seq<int>, out: set<int>, queue': seq<int>, out': set<int>) {
    || (queue' == queue && out' == out)
    || (queue != [] && queue' == queue[1..] && out' == out + {queue[0]})
    || (exists t :: t in out && queue' == queue + [t] && out' == out - {t})
  }

  lemma StepInv(p: Pool, q: Pool, count: nat)
    requires Inv(p, count) && Step(p, q)
    ensures Inv(q, count) && FifoStep(Queue(p), p.out, Queue(q), q.out)
  {
    if Take(p, q) {
      TakeInv(p, q, count);
    } else if Swap(p, q) {
      SwapInv(p, q, count);
    } else if t :| Free(p, q, t) {
      FreeInv(p, q, t, count);
    }
  }

  lemma InitialInv(p: Pool, count: nat)
    requires Initial(p, count)
    ensures Inv(p, count)
  {
    assert Queue(p) == Ids(count);
    forall t | 0 <= t < count ensures t in Queue(p) {
      assert Ids(count)[t] == t;
    }
  }

  /** Over every run each task stays in exactly one place and the event tells whether tasks were freed. */
  lemma {:induction false} RunInv(states: seq<Pool>, count: nat, i: nat)
    requires Run(states, count) && i < |states|
    ensures Inv(states[i], count)
    decreases i
  {
    if i == 0 {
      InitialInv(states[0], count);
    } else {
      RunInv(states, count, i - 1);
      assert StepInto(states, i);
      StepInv(states[i - 1], states[i], count);
    }
  }

  /** The pool hands tasks out in the order in which they came back, as one plain queue would. */
  lemma RunIsFifo(states: seq<Pool>, count: nat, i: nat)
    requires Run(states, count) && 0 < i < |states|
    ensures FifoStep(Queue(states[i - 1]), states[i - 1].out, Queue(states[i]), states[i].out)
  {
    RunInv(states, count, i - 1);
    assert StepInto(states, i);
    StepInv(states[i - 1], states[i], count);
  }

  /** No wakeup is lost: a thread that waits can go on exactly when some task is not handed out. */
  lemma NoLostWakeup(p: Pool, count: nat)
    requires Inv(p, count) && p.holder == Waiting
    ensures (exists q :: Wake(p, q)) <==> (exists t :: 0 <= t < count && t !in p.out)
  {
    assert Queue(p) == p.freed;
    if p.available {
      assert Wake(p, p.(holder := Woken));
      assert Queue(p)[0] == p.freed[0];
    }
  }

  /** A thread that holds the acquire lock always has a step to make, unless every task is handed out. */
  lemma HolderCanStep(p: Pool, count: nat)
    requires Inv(p, count) && p.holder != Nobody && (p.holder == Waiting ==> Queue(p) != [])
    ensures exists q :: Take(p, q) || FindEmpty(p, q) || Wake(p, q) || Swap(p, q)
  {
    if p.holder == Trying && p.acquiring != [] {
      NoTimedWait(p, count);
      var t := p.acquiring[0];
      assert Take(p, p.(acquiring := p.acquiring[..0] + p.acquiring[1..], isFree := p.isFree[t := false],
                        out := p.out + {t}, holder := Nobody));
    } else if p.holder == Trying {
      assert FindEmpty(p, p.(holder := Waiting));
    } else if p.holder == Waiting {
      assert Wake(p, p.(holder := Woken));
    } else {
      assert Swap(p, p.(acquiring := p.freed, freed := p.acquiring, available := false, holder := Trying));
    }
  }

  // ---------------------------------------------------------------------------------------------
  // The allocator

  /** What the search of the acquire list came to. */
  datatype Acquired = Empty | Task(id: int) | AllBusy

  class AsyncTaskAllocator {
    var taskList: seq<seq<int>>
    var listIndex: int
    var available: bool
    var isFree: seq<bool>
    ghost var out: set<int>
    ghost var holder: Holder

    ghost predicate Valid()
      reads this
    {
      |taskList| == 2 && 0 <= listIndex < 2
    }

    ghost function State(): Pool
      requires Valid()
      reads this
    {
      Pool(taskList[listIndex], taskList[1 - listIndex], available, isFree, out, holder)
    }

    /** Creates the tasks and puts all of them on the acquire list. */
    constructor (count: nat)
      ensures Valid() && Initial(State(), count)
    {
      available, listIndex, out, holder := false, 0, {}, Nobody;
      var list: seq<int>, marks: seq<bool> := [], [];
      for i := 0 to count
        invariant list == Ids(i) && |marks| == i && forall t :: 0 <= t < i ==> marks[t]
      {
        marks := marks + [true];
        list := list + [i];
      }
      taskList, isFree := [list, []], marks;
    }

    /** Searches the acquire list for a task that is marked as free, and takes it off the list. */
    method AcquireTaskImpl() returns (r: Acquired)
      requires Valid() && holder == Trying && InPool(taskList[listIndex], |isFree|)
      modifies this
      ensures Valid()
      ensures r.Empty? ==> FindEmpty(old(State()), State())
      ensures r.Task? ==> Take(old(State()), State()) && State().out == old(out) + {r.id}
      ensures r.AllBusy? ==>
          && State() == old(State()) && State().acquiring != []
          && FirstFree(State().acquiring, isFree) == |State().acquiring|
    {
      var list := taskList[listIndex];
      if |list| == 0 {
        holder := Waiting;
        return Empty;
      }
      var i := 0;
      while i < |list|
        invariant 0 <= i <= |list| && Valid() && State() == old(State())
        invariant i <= FirstFree(list, isFree)
      {
        var t := list[i];
        if isFree[t] {
          assert i == FirstFree(list, isFree);
          taskList := taskList[listIndex := list[..i] + list[i + 1..]];
          isFree := isFree[t := false];
          out := out + {t};
          holder := Nobody;
          return Task(t);
        }
        i := i + 1;
      }
      return AllBusy;
    }

    /** Makes the tasks freed so far the ones to acquire from. */
    method SwapLists()
      requires Valid() && holder == Woken
      modifies this
      ensures Valid() && Swap(old(State()), State())
    {
      listIndex := 1 - listIndex;
      available := false;
      holder := Trying;
    }

    /** Puts a task on the free list and says so. */
    method FreeTask(t: int)
      requires Valid() && t in out && 0 <= t < |isFree|
      modifies this
      ensures Valid() && Free(old(State()), State(), t)
    {
      isFree := isFree[t := true];
      taskList := taskList[1 - listIndex := taskList[1 - listIndex] + [t]];
      available := true;
      out := out - {t};
    }
  }
}
