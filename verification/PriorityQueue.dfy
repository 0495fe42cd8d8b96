/** The array-backed priority queue that the job queue takes its next job from. Nodes are named by an index
    into the priorities; the greatest priority stands in front. */
module PriorityQueues {
  function Parent(i: int): int {
    (i - 1) / 2
  }

  predicate InRange(q: seq<int>, key: seq<int>) {
    forall i :: 0 <= i < |q| ==> 0 <= q[i] < |key|
  }

  /** Node `j` has no greater priority than node `i`. */
  ghost predicate Over(q: seq<int>, key: seq<int>, i: int, j: int)
    requires InRange(q, key)
  {
    0 <= i < |q| && 0 <= j < |q| && key[q[i]] >= key[q[j]]
  }

  /** No node has a greater priority than its parent. */
  ghost predicate Ordered(q: seq<int>, key: seq<int>)
    requires InRange(q, key)
  {
    forall i :: 0 < i < |q| ==> Over(q, key, Parent(i), i)
  }

  /** Ordered but for node `h`, whose children would still be in order under its parent. */
  ghost predicate Loose(q: seq<int>, key: seq<int>, h: int)
    requires InRange(q, key)
  {
    && 0 <= h < |q|
    && (forall i :: 0 < i < |q| && i != h && Parent(i) != h ==> Over(q, key, Parent(i), i))
    && (forall i :: 0 < i < |q| && Parent(i) == h && h > 0 ==> Over(q, key, Parent(h), i))
  }

  ghost predicate Above(q: seq<int>, key: seq<int>, h: int)
    requires InRange(q, key)
  {
    h > 0 ==> Over(q, key, Parent(h), h)
  }

  ghost predicate Below(q: seq<int>, key: seq<int>, h: int)
    requires InRange(q, key)
  {
    forall i :: 0 < i < |q| && Parent(i) == h ==> Over(q, key, h, i)
  }

  lemma LooseOrdered(q: seq<int>, key: seq<int>, h: int)
    requires InRange(q, key) && Loose(q, key, h) && Above(q, key, h) && Below(q, key, h)
    ensures Ordered(q, key)
  {
  }

  /** In an ordered queue no node has a greater priority than the one in front. */
  lemma {:induction false} FrontIsGreatest(q: seq<int>, key: seq<int>, i: int)
    requires InRange(q, key) && Ordered(q, key) && 0 <= i < |q|
    ensures key[q[0]] >= key[q[i]]
    decreases i
  {
    if i > 0 {
      FrontIsGreatest(q, key, Parent(i));
      assert Over(q, key, Parent(i), i);
    }
  }

  function Swapped(q: seq<int>, i: int, j: int): seq<int>
    requires 0 <= i < |q| && 0 <= j < |q|
  {
    q[i := q[j]][j := q[i]]
  }

  lemma SwapKeeps(q: seq<int>, i: int, j: int)
    requires 0 <= i < |q| && 0 <= j < |q|
    ensures multiset(Swapped(q, i, j)) == multiset(q)
  {
  }

  /** Moving a node above a parent of smaller priority. */
  lemma MoveUp(q: seq<int>, key: seq<int>, h: int)
    requires InRange(q, key) && Loose(q, key, h) && h > 0 && key[q[Parent(h)]] < key[q[h]]
    ensures var r := Swapped(q, h, Parent(h));
      InRange(r, key) && Loose(r, key, Parent(h)) && Below(r, key, Parent(h)) && multiset(r) == multiset(q)
  {
    var p, r := Parent(h), Swapped(q, h, Parent(h));
    SwapKeeps(q, h, p);
    forall i | 0 < i < |q| && i != p ensures Over(r, key, Parent(i), i) {
      assert i == h || (Parent(i) == h && Over(q, key, p, i)) || Over(q, key, Parent(i), i);
    }
    forall i | 0 < i < |q| && Parent(i) == p && p > 0 ensures Over(r, key, Parent(p), i) {
      assert Over(q, key, Parent(p), p);
      assert i == h || Over(q, key, p, i);
    }
  }

  /** Moving a node below the greater of its children. */
  lemma MoveDown(q: seq<int>, key: seq<int>, h: int, c: int)
    requires InRange(q, key) && Loose(q, key, h) && 0 < c < |q| && Parent(c) == h
    requires key[q[h]] < key[q[c]] && forall i :: 0 < i < |q| && Parent(i) == h ==> Over(q, key, c, i)
    ensures var r := Swapped(q, h, c);
      InRange(r, key) && Loose(r, key, c) && Above(r, key, c) && multiset(r) == multiset(q)
  {
    var r := Swapped(q, h, c);
    SwapKeeps(q, h, c);
    forall i | 0 < i < |q| && i != c && Parent(i) != c ensures Over(r, key, Parent(i), i) {
      if i == h {
        assert Over(q, key, Parent(h), c);
      } else if Parent(i) == h {
        assert Over(q, key, c, i);
      } else {
        assert Over(q, key, Parent(i), i);
      }
    }
    forall i | 0 < i < |q| && Parent(i) == c ensures Over(r, key, Parent(c), i) {
      assert Over(q, key, c, i);
    }
  }

  class PriorityQueue {
    const key: seq<int>
    const queue: array<int>
    var count: int

    constructor (key: seq<int>, max: nat)
      ensures Valid() && Items() == [] && fresh(queue) && queue.Length == max && this.key == key
    {
      this.key := key;
      queue := new int[max];
      count := 0;
    }

    /** The nodes of the queue, in the order of the array. */
    function Items(): seq<int>
      requires 0 <= count <= queue.Length
      reads this, queue
    {
      queue[..count]
    }

    ghost predicate Valid()
      reads this, queue
    {
      0 <= count <= queue.Length && InRange(Items(), key) && Ordered(Items(), key)
    }

    /** The array is `g`, but for place `h`, which is meant for `node`. */
    ghost predicate Holding(g: seq<int>, h: int, node: int)
      reads this, queue
    {
      && |g| == count <= queue.Length && 0 <= h < count && g[h] == node
      && forall k :: 0 <= k < count && k != h ==> queue[k] == g[k]
    }

    /** Copies a node to the free place, which frees the place it came from. */
    method Shift(h: int, from: int, ghost node: int, ghost g: seq<int>)
      requires Holding(g, h, node) && 0 <= from < count && from != h
      modifies queue
      ensures Holding(Swapped(g, h, from), from, node)
    {
      queue[h] := queue[from];
    }

    /** Puts the node into the place that was kept for it. */
    method Put(h: int, node: int, ghost g: seq<int>)
      requires Holding(g, h, node)
      modifies queue
      ensures Items() == g
    {
      queue[h] := node;
    }

    /** Moves the node at `pivot` up to where its parent's priority is not smaller. */
    method InsertFixup(pivot: int) returns (at: int)
      requires 0 <= count <= queue.Length && InRange(Items(), key) && Loose(Items(), key, pivot)
      modifies queue
      ensures multiset(Items()) == multiset(old(Items())) && InRange(Items(), key)
      ensures at != pivot ==> Ordered(Items(), key)
      ensures at == pivot ==> Items() == old(Items()) && Above(Items(), key, pivot)
    {
      if pivot == 0 {
        return pivot;
      }
      var node := queue[pivot];
      var low, high := pivot, Parent(pivot);
      ghost var was, g := Items(), Items();
      while key[queue[high]] < key[node]
        invariant 0 < low <= pivot < count && high == Parent(low) && count == old(count)
        invariant Holding(g, low, node) && InRange(g, key) && Loose(g, key, low)
        invariant multiset(g) == multiset(was) && (if low == pivot then g == was else Below(g, key, low))
        decreases low
      {
        MoveUp(g, key, low);
        Shift(low, high, node, g);
        g := Swapped(g, low, high);
        low := high;
        if low == 0 {
          break;
        }
        high := Parent(low);
      }
      Put(low, node, g);
      at := low;
      if at != pivot {
        LooseOrdered(g, key, low);
      }
    }

    /** Moves the greater child of place `at` up to it. */
    method Lift(at: int, left: int, right: int, node: int, ghost g: seq<int>) returns (child: int, ghost r: seq<int>)
      requires Holding(g, at, node) && InRange(g, key) && Loose(g, key, at) && Above(g, key, at)
      requires left == 2 * at + 1 < count && right == 2 * at + 2
      requires key[node] < key[g[left]] || (right < count && key[node] < key[g[right]])
      modifies queue
      ensures at < child < count && Holding(r, child, node) && InRange(r, key) && Loose(r, key, child)
      ensures Above(r, key, child) && multiset(r) == multiset(g)
    {
      child := if right >= count || key[queue[right]] <= key[queue[left]] then left else right;
      ChildGreatest(g, key, at, child);
      MoveDown(g, key, at, child);
      Shift(at, child, node, g);
      r := Swapped(g, at, child);
    }

    /** Moves the node at `iter` down to where neither child has a greater priority. */
    method RemoveFixup(iter: int)
      requires 0 <= count <= queue.Length && InRange(Items(), key) && Loose(Items(), key, iter)
      requires Above(Items(), key, iter)
      modifies queue
      ensures Valid() && multiset(Items()) == multiset(old(Items()))
    {
      if count <= 2 * iter + 1 {
        ChildrenBelow(Items(), key, iter);
        LooseOrdered(Items(), key, iter);
        return;
      }
      SiftDown(iter);
    }

    method SiftDown(iter: int)
      requires 0 <= count <= queue.Length && InRange(Items(), key) && Loose(Items(), key, iter)
      requires Above(Items(), key, iter) && 2 * iter + 1 < count
      modifies queue
      ensures Valid() && multiset(Items()) == multiset(old(Items()))
    {
      var left, right := 2 * iter + 1, 2 * iter + 2;
      var node := queue[iter];
      var at := iter;
      ghost var was, g := Items(), Items();
      while key[node] < key[queue[left]] || (right < count && key[node] < key[queue[right]])
        invariant 0 <= at && left == 2 * at + 1 < count && right == 2 * at + 2 && count == old(count)
        invariant Holding(g, at, node) && InRange(g, key) && Loose(g, key, at) && Above(g, key, at)
        invariant multiset(g) == multiset(was)
        decreases count - at
      {
        at, g := Lift(at, left, right, node, g);
        left, right := 2 * at + 1, 2 * at + 2;
        if count <= left {
          break;
        }
      }
      Settle(at, node, g);
    }

    /** Puts the node into its place when no child of that place has a greater priority. */
    method Settle(at: int, node: int, ghost g: seq<int>)
      requires Holding(g, at, node) && InRange(g, key) && Loose(g, key, at) && Above(g, key, at)
      requires 2 * at + 1 < count ==> key[node] >= key[g[2 * at + 1]]
      requires 2 * at + 2 < count ==> key[node] >= key[g[2 * at + 2]]
      modifies queue
      ensures Valid() && Items() == g
    {
      ChildrenBelow(g, key, at);
      Put(at, node, g);
      LooseOrdered(g, key, at);
    }

    method Insert(node: int)
      requires Valid() && count < queue.Length && 0 <= node < |key|
      modifies this`count, queue
      ensures Valid() && multiset(Items()) == multiset(old(Items())) + multiset{node}
    {
      ghost var was := Items();
      queue[count] := node;
      count := count + 1;
      assert Items() == was + [node];
      InsertedLoose(was, key, node);
      var at := InsertFixup(count - 1);
      if at == count - 1 {
        LooseOrdered(Items(), key, at);
      }
    }

    /** The node in front, whose priority is not exceeded. */
    method Peek() returns (node: int)
      requires Valid() && count > 0
      ensures node == Items()[0] && forall n :: n in Items() ==> key[n] <= key[node]
    {
      node := queue[0];
      forall n | n in Items() ensures key[n] <= key[node] {
        var i :| 0 <= i < |Items()| && Items()[i] == n;
        FrontIsGreatest(Items(), key, i);
      }
    }

    /** Takes the last node off the queue. */
    method DropLast()
      requires Valid() && count > 0
      modifies this`count
      ensures Valid() && multiset(Items()) == multiset(old(Items())) - multiset{old(Items()[count - 1])}
    {
      ghost var was := Items();
      LastRemoved(was, key);
      count := count - 1;
      assert Items() == was[..count];
    }

    /** Takes the last node off the queue and puts it in the place of node `i`. */
    method MoveLast(i: int)
      requires Valid() && 0 <= i < count - 1
      modifies this`count, queue
      ensures count == old(count) - 1 && InRange(Items(), key) && Loose(Items(), key, i)
      ensures multiset(Items()) == multiset(old(Items())) - multiset{old(Items()[i])}
    {
      ghost var was := Items();
      WithoutLoose(was, key, i);
      count := count - 1;
      assert Items() == was[..count] && queue[count] == was[count];
      queue[i] := queue[count];
      assert Items() == Without(was, i);
    }

    method RemoveFront() returns (node: int)
      requires Valid() && count > 0
      modifies this`count, queue
      ensures Valid() && multiset(Items()) == multiset(old(Items())) - multiset{node}
      ensures node == old(Items()[0]) && forall n :: n in old(Items()) ==> key[n] <= key[node]
    {
      node := Peek();
      if count == 1 {
        DropLast();
      } else {
        MoveLast(0);
        RemoveFixup(0);
      }
    }

    /** The first place of a node, or none, for which the length stands, exactly if it is not queued. */
    method FindIterTo(node: int) returns (i: int)
      requires Valid()
      ensures 0 <= i <= count && node !in Items()[..i]
      ensures i < count ==> Items()[i] == node
      ensures i == count <==> node !in Items()
    {
      i := 0;
      while i < count
        invariant 0 <= i <= count && node !in Items()[..i]
      {
        if queue[i] == node {
          return;
        }
        i := i + 1;
      }
      assert Items()[..i] == Items();
    }

    method Remove(i: int)
      requires Valid() && 0 <= i < count
      modifies this`count, queue
      ensures Valid() && multiset(Items()) == multiset(old(Items())) - multiset{old(Items()[i])}
    {
      if i == count - 1 {
        DropLast();
      } else {
        MoveLast(i);
        Fixup(i);
      }
    }

    /** Moves a node that is out of order in either direction to its place. */
    method Fixup(i: int)
      requires 0 <= count <= queue.Length && InRange(Items(), key) && Loose(Items(), key, i)
      modifies queue
      ensures Valid() && multiset(Items()) == multiset(old(Items()))
    {
      var at := InsertFixup(i);
      if at != i {
        return;
      }
      RemoveFixup(i);
    }
  }

  lemma ChildGreatest(q: seq<int>, key: seq<int>, h: int, c: int)
    requires InRange(q, key) && 0 <= h && 2 * h + 1 < |q|
    requires c == if 2 * h + 2 >= |q| || key[q[2 * h + 2]] <= key[q[2 * h + 1]] then 2 * h + 1 else 2 * h + 2
    ensures Parent(c) == h && forall i :: 0 < i < |q| && Parent(i) == h ==> Over(q, key, c, i)
  {
    forall i | 0 < i < |q| && Parent(i) == h ensures Over(q, key, c, i) {
      assert i == 2 * h + 1 || i == 2 * h + 2;
    }
  }

  lemma ChildrenBelow(q: seq<int>, key: seq<int>, h: int)
    requires InRange(q, key) && 0 <= h < |q|
    requires 2 * h + 1 < |q| ==> key[q[h]] >= key[q[2 * h + 1]]
    requires 2 * h + 2 < |q| ==> key[q[h]] >= key[q[2 * h + 2]]
    ensures Below(q, key, h)
  {
    forall i | 0 < i < |q| && Parent(i) == h ensures Over(q, key, h, i) {
      assert i == 2 * h + 1 || i == 2 * h + 2;
    }
  }

  lemma InsertedLoose(q: seq<int>, key: seq<int>, node: int)
    requires InRange(q, key) && Ordered(q, key) && 0 <= node < |key|
    ensures InRange(q + [node], key) && Loose(q + [node], key, |q|) && Below(q + [node], key, |q|)
  {
    forall i | 0 < i < |q| ensures Over(q + [node], key, Parent(i), i) {
      assert Over(q, key, Parent(i), i);
    }
  }

  /** The queue without its last node. */
  lemma LastRemoved(q: seq<int>, key: seq<int>)
    requires InRange(q, key) && Ordered(q, key) && q != []
    ensures var r := q[..|q| - 1];
      InRange(r, key) && Ordered(r, key) && multiset(r) == multiset(q) - multiset{q[|q| - 1]}
  {
    var r := q[..|q| - 1];
    assert q == r + [q[|q| - 1]];
    forall i | 0 < i < |r| ensures Over(r, key, Parent(i), i) {
      assert Over(q, key, Parent(i), i);
    }
  }

  /** The queue with the last node in place of the one at `i`. */
  function Without(q: seq<int>, i: int): seq<int>
    requires 0 <= i < |q| - 1
  {
    q[..|q| - 1][i := q[|q| - 1]]
  }

  lemma WithoutLoose(q: seq<int>, key: seq<int>, i: int)
    requires InRange(q, key) && Ordered(q, key) && 0 <= i < |q| - 1
    ensures InRange(Without(q, i), key) && Loose(Without(q, i), key, i)
    ensures multiset(Without(q, i)) == multiset(q) - multiset{q[i]}
  {
    var n, r := |q| - 1, Without(q, i);
    assert q == q[..n] + [q[n]];
    forall j | 0 < j < n && j != i && Parent(j) != i ensures Over(r, key, Parent(j), j) {
      assert Over(q, key, Parent(j), j);
    }
    forall j | 0 < j < n && Parent(j) == i && i > 0 ensures Over(r, key, Parent(i), j) {
      assert Over(q, key, Parent(j), j) && Over(q, key, Parent(i), i);
    }
  }
}
