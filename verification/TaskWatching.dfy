/** A watched task: a reference-counted watcher decides when the task goes back to its allocator, while
    any number of threads wait for it or cancel it. */
module TaskWatching {
  import opened Words
  import opened TaskPool

  datatype WatchState = Uninitialized | Pending | Complete | Cancelled

  predicate Terminal(s: WatchState) {
    s.Complete? || s.Cancelled?
  }

  /** What the task and its watcher hold of each other; `returned` counts the returns to the allocator. */
  datatype Bond = Bond(
    count: int,
    watcherTask: bool,
    taskWatcher: bool,
    state: WatchState,
    owned: bool,
    returned: nat)

  function Returned(b: Bond): Bond {
    if b.owned then b.(owned := false, returned := b.returned + 1) else b
  }

  /** The task lets go of its watcher, and goes back if the watcher's state is terminal. */
  function FreedToAllocator(b: Bond): Bond {
    if !b.taskWatcher then b
    else if !Terminal(b.state) then b.(taskWatcher := false)
    else Returned(b.(taskWatcher := false))
  }

  function Referenced(b: Bond): Bond {
    b.(count := (b.count + 1) % WORD32)
  }

  /** A reference is released; with the last one the watcher lets go of its task. */
  function ReleasedReference(b: Bond): Bond {
    var c := if b.count < 1 then b else b.(count := (b.count - 1) % WORD32);
    if (b.count < 1 || c.count == 0) && b.watcherTask then FreedToAllocator(c).(watcherTask := false) else c
  }

  /** The end of a task: its watcher takes the new state and loses a reference; without one it goes back. */
  function ReleasedWatcher(b: Bond, s: WatchState): Bond {
    if b.taskWatcher then ReleasedReference(b.(state := s)) else Returned(b)
  }

  // ---------------------------------------------------------------------------------------------
  // Steps, one for each region under the queue lock or unlocked look

  datatype Runner = Queued | Running | Ended

  /** A waiting thread: away, having seen the task, having referenced the watcher, and then having found
      the task there or gone. */
  datatype Waiter = Away | Saw | Holding | Using | TooLate

  datatype Watch = Watch(bond: Bond, runner: Runner, waiters: seq<Waiter>)

  predicate Holds(w: Waiter) {
    w in {Holding, Using, TooLate}
  }

  function Holders(waiters: seq<Waiter>): (n: nat)
    ensures n <= |waiters|
  {
    if waiters == [] then 0
    else Holders(waiters[..|waiters| - 1]) + if Holds(waiters[|waiters| - 1]) then 1 else 0
  }

  ghost predicate See(w: Watch, v: Watch, i: int) {
    && 0 <= i < |w.waiters| && w.waiters[i] == Away && w.bond.watcherTask
    && v == w.(waiters := w.waiters[i := Saw])
  }

  ghost predicate Reference(w: Watch, v: Watch, i: int) {
    && 0 <= i < |w.waiters| && w.waiters[i] == Saw
    && v == w.(bond := Referenced(w.bond), waiters := w.waiters[i := Holding])
  }

  ghost predicate Look(w: Watch, v: Watch, i: int) {
    && 0 <= i < |w.waiters| && w.waiters[i] == Holding
    && v == w.(waiters := w.waiters[i := if w.bond.watcherTask then Using else TooLate])
  }

  /** The wait is over, or there was nothing to wait for. */
  ghost predicate Release(w: Watch, v: Watch, i: int) {
    && 0 <= i < |w.waiters| && w.waiters[i] in {Using, TooLate}
    && v == w.(bond := ReleasedReference(w.bond), waiters := w.waiters[i := Away])
  }

  ghost predicate Acquire(w: Watch, v: Watch) {
    w.runner == Queued && v == w.(runner := Running)
  }

  ghost predicate Reschedule(w: Watch, v: Watch) {
    w.runner == Running && v == w.(runner := Queued)
  }

  ghost predicate Finish(w: Watch, v: Watch) {
    w.runner == Running && v == w.(runner := Ended, bond := ReleasedWatcher(w.bond, Complete))
  }

  ghost predicate Cancel(w: Watch, v: Watch) {
    w.runner == Queued && v == w.(runner := Ended, bond := ReleasedWatcher(w.bond, Cancelled))
  }

  /** A task that went back may be handed out to somebody else. */
  ghost predicate Reuse(w: Watch, v: Watch) {
    w.bond.returned > 0 && v == w.(bond := w.bond.(owned := true))
  }

  ghost predicate Step(w: Watch, v: Watch) {
    || (exists i :: See(w, v, i)) || (exists i :: Reference(w, v, i)) || (exists i :: Look(w, v, i))
    || (exists i :: Release(w, v, i))
    || Acquire(w, v) || Reschedule(w, v) || Finish(w, v) || Cancel(w, v) || Reuse(w, v)
  }

  ghost predicate StepInto(states: seq<Watch>, i: int) {
    0 < i < |states| && Step(states[i - 1], states[i])
  }

  /** The task has been given its watcher and pushed; nobody waits for it yet. */
  ghost predicate Scheduled(w: Watch) {
    && w.bond == Bond(1, true, true, Pending, true, 0) && w.runner == Queued
    && |w.waiters| < WORD32 - 1 && forall i :: 0 <= i < |w.waiters| ==> w.waiters[i] == Away
  }

  ghost predicate Run(states: seq<Watch>) {
    && |states| > 0 && Scheduled(states[0])
    && forall i :: 0 < i < |states| ==> StepInto(states, i)
  }

  // ---------------------------------------------------------------------------------------------
  // The invariant

  ghost predicate Inv(w: Watch) {
    var b := w.bond;
    && |w.waiters| < WORD32 - 1
    && b.count == Holders(w.waiters) + (if w.runner == Ended then 0 else 1)
    && b.watcherTask == b.taskWatcher
    && b.returned == (if b.watcherTask then 0 else 1)
    && (b.watcherTask ==> b.owned && b.count > 0)
    && (!b.watcherTask ==> w.runner == Ended)
    && (Terminal(b.state) <==> w.runner == Ended)
    && (forall i :: 0 <= i < |w.waiters| && w.waiters[i] == Using ==> b.watcherTask)
  }

  /** Changing one waiter changes the number of holders by what that waiter holds. */
  lemma {:induction false} HoldersUpdate(s: seq<Waiter>, i: nat, x: Waiter)
    requires i < |s|
    ensures Holders(s[i := x]) == Holders(s) - (if Holds(s[i]) then 1 else 0) + (if Holds(x) then 1 else 0)
    decreases |s|
  {
    var n := |s| - 1;
    if i == n {
      assert s[i := x][..n] == s[..n];
    } else {
      assert s[i := x][..n] == s[..n][i := x];
      HoldersUpdate(s[..n], i, x);
    }
  }

  lemma {:induction false} HolderCounts(s: seq<Waiter>, i: nat)
    requires i < |s| && Holds(s[i])
    ensures Holders(s) > 0
    decreases |s|
  {
    if i < |s| - 1 {
      HolderCounts(s[..|s| - 1], i);
    }
  }

  lemma NobodyUses(s: seq<Waiter>)
    requires Holders(s) == 0
    ensures forall i :: 0 <= i < |s| ==> s[i] != Using
  {
    forall i | 0 <= i < |s| ensures s[i] != Using {
      if s[i] == Using {
        HolderCounts(s, i);
      }
    }
  }

  lemma ReleaseInv(w: Watch, v: Watch, i: int)
    requires Inv(w) && Release(w, v, i)
    ensures Inv(v)
  {
    HoldersUpdate(w.waiters, i, Away);
    if v.bond.count == 0 {
      NobodyUses(v.waiters);
    }
  }

  lemma EndInv(w: Watch, v: Watch)
    requires Inv(w) && (Finish(w, v) || Cancel(w, v))
    ensures Inv(v)
  {
    if v.bond.count == 0 {
      NobodyUses(v.waiters);
    }
  }

  lemma WaiterInv(w: Watch, v: Watch, i: int)
    requires Inv(w) && (See(w, v, i) || Reference(w, v, i) || Look(w, v, i))
    ensures Inv(v)
  {
    HoldersUpdate(w.waiters, i, v.waiters[i]);
  }

  lemma StepInv(w: Watch, v: Watch)
    requires Inv(w) && Step(w, v)
    ensures Inv(v)
  {
    if i :| See(w, v, i) || Reference(w, v, i) || Look(w, v, i) {
      WaiterInv(w, v, i);
    } else if i :| Release(w, v, i) {
      ReleaseInv(w, v, i);
    } else if Finish(w, v) || Cancel(w, v) {
      EndInv(w, v);
    }
  }

  lemma {:induction false} NobodyHolds(s: seq<Waiter>)
    requires forall i :: 0 <= i < |s| ==> s[i] == Away
    ensures Holders(s) == 0
    decreases |s|
  {
    if s != [] {
      NobodyHolds(s[..|s| - 1]);
    }
  }

  lemma {:induction false} RunInv(states: seq<Watch>, i: nat)
    requires Run(states) && i < |states|
    ensures Inv(states[i])
    decreases i
  {
    if i == 0 {
      NobodyHolds(states[0].waiters);
    } else {
      RunInv(states, i - 1);
      assert StepInto(states, i);
      StepInv(states[i - 1], states[i]);
    }
  }

  /** Over every run the task goes back at most once, only when its watcher's state is terminal, and never
      while a thread that found the task there still holds its reference. */
  lemma ReturnedSafely(states: seq<Watch>, i: nat)
    requires Run(states) && i < |states|
    ensures var w := states[i];
      && w.bond.returned <= 1
      && (w.bond.returned == 1 ==> Terminal(w.bond.state))
      && (w.bond.returned == 1 ==> forall j :: 0 <= j < |w.waiters| ==> w.waiters[j] != Using)
  {
    RunInv(states, i);
  }

  /** It goes back in the very step after which it has ended and nobody holds a reference. */
  lemma ReturnedAtOnce(states: seq<Watch>, i: nat)
    requires Run(states) && 0 < i < |states| && states[i - 1].bond.returned == 0
    ensures states[i].bond.returned == 1 <==> states[i].runner == Ended && Holders(states[i].waiters) == 0
  {
    RunInv(states, i - 1);
    RunInv(states, i);
    assert StepInto(states, i);
    ReturnStep(states[i - 1], states[i]);
  }

  lemma ReturnStep(w: Watch, v: Watch)
    requires Inv(w) && Inv(v) && Step(w, v) && w.bond.returned == 0
    ensures v.bond.returned == 1 <==> v.bond.count == 0
  {
  }

  /** The watcher is pending until the task ends, and then tells how: the run left it complete, or it was
      cancelled while it was queued. */
  lemma {:induction false} EndIsTold(states: seq<Watch>, i: nat) returns (j: nat)
    requires Run(states) && i < |states|
    ensures states[i].runner != Ended <==> states[i].bond.state == Pending
    ensures states[i].runner == Ended ==>
      && 0 < j <= i && states[j].runner == Ended
      && (states[j - 1].runner == Running ==> states[i].bond.state == Complete)
      && (states[j - 1].runner == Queued ==> states[i].bond.state == Cancelled)
      && states[j - 1].runner != Ended
    decreases i
  {
    j := 0;
    if i > 0 {
      j := EndIsTold(states, i - 1);
      RunInv(states, i - 1);
      assert StepInto(states, i);
      StateStep(states[i - 1], states[i]);
      if states[i - 1].runner != Ended {
        j := i;
      }
    }
  }

  lemma StateStep(w: Watch, v: Watch)
    requires Inv(w) && Step(w, v)
    ensures w.runner == Ended ==> v.runner == Ended
    ensures v.bond.state ==
        if w.runner == Ended || v.runner != Ended then w.bond.state
        else if w.runner == Running then Complete else Cancelled
  {
  }

  // ---------------------------------------------------------------------------------------------
  // The two objects

  class AsyncTaskWatcher {
    var state: WatchState
    var referenceCount: int
    var asyncTask: AsyncTaskForAllocator?

    constructor ()
      ensures state == Uninitialized && referenceCount == 0 && asyncTask == null
    {
      state, referenceCount, asyncTask := Uninitialized, 0, null;
    }

    method Reference(ghost t: AsyncTaskForAllocator)
      modifies this`referenceCount
      ensures t.BondWith(this) == Referenced(old(t.BondWith(this)))
    {
      referenceCount := (referenceCount + 1) % WORD32;
    }

    /** Releases a reference. The task, if there is one left, is `t`. */
    method ReleaseReference(ghost t: AsyncTaskForAllocator)
      requires (asyncTask == null || asyncTask == t) && t.Home()
      requires asyncTask != null && t.watcher != null ==> t.watcher == this
      modifies this, t, t.taskAllocator
      ensures t.BondWith(this) == ReleasedReference(old(t.BondWith(this)))
      ensures asyncTask == null || asyncTask == old(asyncTask)
      ensures t.taskAllocator == old(t.taskAllocator) || t.taskAllocator == null
      ensures old(t.taskAllocator) != null ==>
          && old(t.taskAllocator).Valid()
          && if t.returned == old(t.returned) then old(t.taskAllocator).State() == old(t.taskAllocator.State())
             else Free(old(t.taskAllocator.State()), old(t.taskAllocator).State(), t.id)
    {
      var newCount := (referenceCount - 1) % WORD32;
      var last := referenceCount < 1;
      if !last {
        referenceCount := newCount;
        last := newCount == 0;
      }
      if last && asyncTask != null {
        asyncTask.FreeToAllocator();
        asyncTask := null;
      }
    }
  }

  class AsyncTaskForAllocator {
    const id: int
    var taskAllocator: AsyncTaskAllocator?
    var watcher: AsyncTaskWatcher?
    ghost var returned: nat

    constructor (id: int)
      ensures this.id == id && taskAllocator == null && watcher == null && returned == 0
    {
      this.id := id;
      taskAllocator, watcher, returned := null, null, 0;
    }

    ghost function BondWith(w: AsyncTaskWatcher): Bond
      reads this, w
    {
      Bond(w.referenceCount, w.asyncTask == this, watcher == w, w.state, taskAllocator != null, returned)
    }

    /** A task with an allocator is one that the allocator has handed out. */
    ghost predicate Home()
      reads this, taskAllocator
    {
      taskAllocator != null ==>
        taskAllocator.Valid() && id in taskAllocator.out && 0 <= id < |taskAllocator.isFree|
    }

    /** Gives the task a watcher, unless it has one. */
    method SetWatcher(w: AsyncTaskWatcher)
      modifies this`watcher, w
      ensures old(watcher) != null ==> watcher == old(watcher) && BondWith(w) == old(BondWith(w))
      ensures old(watcher) == null ==>
          BondWith(w) == Referenced(old(BondWith(w))).(watcherTask := true, taskWatcher := true, state := Pending)
    {
      if watcher != null {
        return;
      }
      watcher := w;
      w.asyncTask := this;
      w.referenceCount := (w.referenceCount + 1) % WORD32;
      w.state := Pending;
    }

    /** Puts the task back into the pool it came from. */
    method FreeTask()
      requires Home() && taskAllocator != null
      modifies this, taskAllocator
      ensures taskAllocator == null && watcher == old(watcher) && returned == old(returned) + 1
      ensures old(taskAllocator).Valid() && Free(old(taskAllocator.State()), old(taskAllocator).State(), id)
    {
      taskAllocator.FreeTask(id);
      taskAllocator := null;
      returned := returned + 1;
    }

    method FreeToAllocator()
      requires Home()
      modifies this, taskAllocator
      ensures watcher == null
      ensures old(watcher) != null ==>
          && BondWith(old(watcher)) == FreedToAllocator(old(BondWith(watcher)))
          && (old(taskAllocator) != null ==>
                (taskAllocator == null <==> old(watcher.state) == Complete || old(watcher.state) == Cancelled))
      ensures old(watcher) == null ==> taskAllocator == old(taskAllocator) && returned == old(returned)
      ensures taskAllocator == old(taskAllocator) || taskAllocator == null
      ensures old(taskAllocator) != null ==>
          && old(taskAllocator).Valid()
          && if returned == old(returned) then old(taskAllocator).State() == old(taskAllocator.State())
             else Free(old(taskAllocator.State()), old(taskAllocator).State(), id)
    {
      if watcher == null {
        return;
      }
      var w := watcher;
      watcher := null;
      if !Terminal(w.state) {
        return;
      }
      if taskAllocator != null {
        FreeTask();
      }
    }

    /** The end of the task, by completion or cancellation. */
    method ReleaseWatcher(s: WatchState)
      requires Home() && (watcher != null ==> watcher.asyncTask == this || watcher.asyncTask == null)
      modifies this, taskAllocator, watcher
      ensures old(watcher) != null ==>
          BondWith(old(watcher)) == ReleasedWatcher(old(BondWith(watcher)), s) && old(watcher).state == s
      ensures old(watcher) == null ==>
          && watcher == null && taskAllocator == null
          && returned == old(returned) + (if old(taskAllocator) != null then 1 else 0)
      ensures taskAllocator == old(taskAllocator) || taskAllocator == null
      ensures old(taskAllocator) != null ==>
          && old(taskAllocator).Valid()
          && if returned == old(returned) then old(taskAllocator).State() == old(taskAllocator.State())
             else Free(old(taskAllocator.State()), old(taskAllocator).State(), id)
    {
      if watcher != null {
        watcher.state := s;
        watcher.ReleaseReference(this);
        return;
      }
      if taskAllocator != null {
        FreeTask();
      }
    }
  }
}
