/** Finding the heap that an address lies in, with the help of the heaps that the calling thread used last,
    and finding a heap by its name. */
module HeapLookup {
  import opened Words

  /** A heap with its child heaps. Not every heap is one of the manager's own kind. */
  datatype Heap = Heap(id: int, name: string, start: int, end: int, isMemHeap: bool, children: seq<Heap>)

  predicate Contains(h: Heap, a: int) {
    h.start <= a < h.end
  }

  /** As written: answers whether the child list is empty. */
  predicate HasChildren(h: Heap) {
    h.children == []
  }

  /** The index of the first heap that contains an address, or the number of heaps. */
  function FirstWith(heaps: seq<Heap>, a: int): (i: nat)
    ensures i <= |heaps| && (i < |heaps| ==> Contains(heaps[i], a))
    ensures forall j :: 0 <= j < i ==> !Contains(heaps[j], a)
  {
    if heaps == [] || Contains(heaps[0], a) then 0 else 1 + FirstWith(heaps[1..], a)
  }

  /** The search from a heap downwards: into the first child that contains the address, if there is one. */
  function Find(h: Heap, a: int): Option<Heap>
    decreases h
  {
    if !Contains(h, a) then None
    else
      var i := FirstWith(h.children, a);
      if i < |h.children| then Find(h.children[i], a) else Some(h)
  }

  // ---------------------------------------------------------------------------------------------
  // Live heaps

  predicate Apart(heaps: seq<Heap>) {
    forall i, j :: 0 <= i < j < |heaps| ==> heaps[i].end <= heaps[j].start || heaps[j].end <= heaps[i].start
  }

  /** Child heaps lie inside their parent and apart from each other. */
  predicate Nested(h: Heap)
    decreases h
  {
    && Apart(h.children)
    && forall i :: 0 <= i < |h.children| ==>
        Nested(h.children[i]) && h.start <= h.children[i].start && h.children[i].end <= h.end
  }

  predicate In(x: Heap, h: Heap)
    decreases h
  {
    x == h || exists i :: 0 <= i < |h.children| && In(x, h.children[i])
  }

  predicate Forest(roots: seq<Heap>) {
    Apart(roots) && forall i :: 0 <= i < |roots| ==> Nested(roots[i])
  }

  predicate Live(x: Heap, roots: seq<Heap>) {
    exists i :: 0 <= i < |roots| && In(x, roots[i])
  }

  /** A child of the heap contains the address. */
  predicate ChildContains(h: Heap, a: int) {
    FirstWith(h.children, a) < |h.children|
  }

  /** The innermost heap for an address: it contains the address, and none of its children does. */
  predicate Innermost(x: Heap, a: int) {
    Contains(x, a) && !ChildContains(x, a)
  }

  lemma {:induction false} InsideOf(x: Heap, h: Heap, a: int)
    requires Nested(h) && In(x, h) && Contains(x, a)
    ensures Contains(h, a)
    decreases h
  {
    if x != h {
      var i :| 0 <= i < |h.children| && In(x, h.children[i]);
      InsideOf(x, h.children[i], a);
    }
  }

  lemma OnlyOneContains(heaps: seq<Heap>, i: nat, a: int)
    requires Apart(heaps) && i < |heaps| && Contains(heaps[i], a)
    ensures FirstWith(heaps, a) == i
  {
  }

  /** The search finds exactly the innermost heap for the address, if the address lies in the tree. */
  lemma {:induction false} FindIsInnermost(h: Heap, x: Heap, a: int)
    requires Nested(h)
    ensures Find(h, a) == Some(x) <==> In(x, h) && Innermost(x, a)
    decreases h
  {
    var i := FirstWith(h.children, a);
    if Contains(h, a) && i < |h.children| {
      FindIsInnermost(h.children[i], x, a);
      if In(x, h) && Innermost(x, a) {
        var j :| 0 <= j < |h.children| && In(x, h.children[j]);
        InsideOf(x, h.children[j], a);
        OnlyOneContains(h.children, j, a);
      }
    } else if In(x, h) && Innermost(x, a) && x != h {
      var j :| 0 <= j < |h.children| && In(x, h.children[j]);
      InsideOf(x, h.children[j], a);
    }
  }

  lemma {:induction false} FindSucceeds(h: Heap, a: int)
    requires Contains(h, a)
    ensures Find(h, a).Some?
    decreases h
  {
    var i := FirstWith(h.children, a);
    if i < |h.children| {
      FindSucceeds(h.children[i], a);
    }
  }

  // ---------------------------------------------------------------------------------------------
  // The lookup

  /** The heap of the search if it is of the manager's kind. */
  function Usable(found: Option<Heap>): Option<Heap> {
    if found.Some? && found.value.isMemHeap then found else None
  }

  function FindInRoots(roots: seq<Heap>, a: int): Option<Heap> {
    if roots == [] then None
    else if Usable(Find(roots[0], a)).Some? then Find(roots[0], a)
    else FindInRoots(roots[1..], a)
  }

  /** What the lookup is for: the innermost live heap that contains the address. */
  ghost predicate Right(roots: seq<Heap>, a: int, r: Option<Heap>) {
    match r
    case Some(x) => Live(x, roots) && Innermost(x, a) && x.isMemHeap
    case None => forall x :: Live(x, roots) && Innermost(x, a) ==> !x.isMemHeap
  }

  lemma {:induction false} RootsRight(roots: seq<Heap>, a: int)
    requires Forest(roots)
    ensures Right(roots, a, FindInRoots(roots, a))
    decreases |roots|
  {
    if roots != [] {
      var rest := roots[1..];
      assert forall i :: 0 <= i < |rest| ==> rest[i] == roots[i + 1];
      RootsRight(rest, a);
      forall x ensures Find(roots[0], a) == Some(x) <==> In(x, roots[0]) && Innermost(x, a) {
        FindIsInnermost(roots[0], x, a);
      }
      assert forall x :: Live(x, roots) <==> In(x, roots[0]) || Live(x, rest) by {
        forall x ensures Live(x, roots) <==> In(x, roots[0]) || Live(x, rest) {
          if i :| 0 <= i < |roots| && In(x, roots[i]) && i > 0 {
            assert In(x, rest[i - 1]);
          }
          if i :| 0 <= i < |rest| && In(x, rest[i]) {
            assert In(x, roots[i + 1]);
          }
        }
      }
    }
  }

  /** A shortcut heap: one that the lookup takes at its word, because `HasChildren` says no. */
  predicate Shortcut(h: Option<Heap>, a: int) {
    h.Some? && !HasChildren(h.value) && Contains(h.value, a)
  }

  /** Where the lookup goes wrong: a heap is taken at its word although one of its children has the address. */
  predicate Misled(lookup: Option<Heap>, current: Option<Heap>, a: int) {
    if Shortcut(lookup, a) then ChildContains(lookup.value, a)
    else Shortcut(current, a) && ChildContains(current.value, a)
  }

  /** The answer of the lookup for a thread whose last lookup and current heaps are given. */
  function Answer(roots: seq<Heap>, lookup: Option<Heap>, current: Option<Heap>, a: int): Option<Heap> {
    if Shortcut(lookup, a) then lookup
    else if Shortcut(current, a) then current
    else if lookup.Some? && HasChildren(lookup.value) && Usable(Find(lookup.value, a)).Some? then Find(lookup.value, a)
    else if current.Some? && HasChildren(current.value) && Usable(Find(current.value, a)).Some? then
      Find(current.value, a)
    else FindInRoots(roots, a)
  }

  ghost predicate LiveSlot(h: Option<Heap>, roots: seq<Heap>) {
    h.Some? ==> Live(h.value, roots) && h.value.isMemHeap
  }

  /** Two innermost live heaps for the same address are the same heap. */
  lemma InnermostUnique(roots: seq<Heap>, x: Heap, y: Heap, a: int)
    requires Forest(roots) && Live(x, roots) && Live(y, roots) && Innermost(x, a) && Innermost(y, a)
    ensures x == y
  {
    var i :| 0 <= i < |roots| && In(x, roots[i]);
    var j :| 0 <= j < |roots| && In(y, roots[j]);
    InsideOf(x, roots[i], a);
    InsideOf(y, roots[j], a);
    FindIsInnermost(roots[i], x, a);
    FindIsInnermost(roots[j], y, a);
  }

  /** A heap that is searched because it has no children is itself what the search finds. */
  lemma LeafFound(h: Heap, a: int)
    requires HasChildren(h)
    ensures Find(h, a) == if Contains(h, a) then Some(h) else None
    ensures !ChildContains(h, a)
  {
  }

  /** The lookup answers with the innermost live heap exactly when it is not misled, whatever live heaps
      the thread's two slots hold. */
  lemma RightUnlessMisled(roots: seq<Heap>, lookup: Option<Heap>, current: Option<Heap>, a: int)
    requires Forest(roots) && LiveSlot(lookup, roots) && LiveSlot(current, roots)
    ensures Right(roots, a, Answer(roots, lookup, current, a)) <==> !Misled(lookup, current, a)
  {
    RootsRight(roots, a);
    if lookup.Some? && HasChildren(lookup.value) {
      LeafFound(lookup.value, a);
    }
    if current.Some? && HasChildren(current.value) {
      LeafFound(current.value, a);
    }
  }

  /** A parent with one child: with the parent in its lookup slot a thread gets the parent for an address
      in the child, and with empty slots it gets the child. */
  lemma MisledExample()
    ensures var child := Heap(2, "child", 0x20, 0x80, true, []);
      var root := Heap(1, "root", 0, 0x100, true, [child]);
      && Forest([root]) && Live(root, [root])
      && Answer([root], Some(root), None, 0x40) == Some(root)
      && Answer([root], None, None, 0x40) == Some(child)
  {
    var child := Heap(2, "child", 0x20, 0x80, true, []);
    var root := Heap(1, "root", 0, 0x100, true, [child]);
    assert In(root, [root][0]);
    assert FirstWith(root.children, 0x40) == 0;
    assert Find(child, 0x40) == Some(child);
  }

  // ---------------------------------------------------------------------------------------------
  // The calls

  /** A thread and the two heaps it keeps. */
  class ThreadHeaps {
    var currentHeap: Option<Heap>
    var lookupHeap: Option<Heap>

    constructor (currentHeap: Option<Heap>)
      ensures this.currentHeap == currentHeap && lookupHeap == None
    {
      this.currentHeap, lookupHeap := currentHeap, None;
    }
  }

  /** What a call comes to. Without a thread there is nobody to remember the heap that was found for. */
  datatype Outcome = Found(heap: Heap) | NotFound | NullThread

  /** The innermost search, as it walks the child list. */
  method SearchDown(h: Heap, a: int) returns (r: Option<Heap>)
    ensures r == Find(h, a)
    decreases h
  {
    if !(h.start <= a < h.end) {
      return None;
    }
    var i := 0;
    while i < |h.children|
      invariant 0 <= i <= FirstWith(h.children, a)
    {
      var child := h.children[i];
      if Contains(child, a) {
        r := SearchDown(child, a);
        return;
      }
      i := i + 1;
    }
    return Some(h);
  }

  method SearchRoots(roots: seq<Heap>, a: int) returns (r: Option<Heap>)
    ensures r == FindInRoots(roots, a)
  {
    var i := 0;
    while i < |roots|
      invariant 0 <= i <= |roots| && FindInRoots(roots, a) == FindInRoots(roots[i..], a)
    {
      r := SearchDown(roots[i], a);
      if r.Some? && r.value.isMemHeap {
        return;
      }
      i := i + 1;
    }
    return None;
  }

  method FindHeapFromAddress(thread: ThreadHeaps?, roots: seq<Heap>, a: int) returns (r: Outcome)
    modifies if thread == null then {} else {thread}
    ensures thread == null ==> r == if FindInRoots(roots, a).Some? then NullThread else NotFound
    ensures thread != null ==>
        && thread.currentHeap == old(thread.currentHeap)
        && var answer := Answer(roots, old(thread.lookupHeap), old(thread.currentHeap), a);
          && r == (if answer.Some? then Found(answer.value) else NotFound)
          && thread.lookupHeap == if answer.Some? then answer else old(thread.lookupHeap)
  {
    var current: Option<Heap>, last: Option<Heap> := None, None;
    if thread != null {
      current, last := thread.currentHeap, thread.lookupHeap;
      if last.Some? && !HasChildren(last.value) && Contains(last.value, a) {
        return Found(last.value);
      }
      if current.Some? && !HasChildren(current.value) && Contains(current.value, a) {
        thread.lookupHeap := current;
        return Found(current.value);
      }
    }
    if last.Some? && HasChildren(last.value) {
      var found := SearchDown(last.value, a);
      if found.Some? && found.value.isMemHeap {
        thread.lookupHeap := found;
        return Found(found.value);
      }
    }
    if current.Some? && HasChildren(current.value) {
      var found := SearchDown(current.value, a);
      if found.Some? && found.value.isMemHeap {
        thread.lookupHeap := found;
        return Found(found.value);
      }
    }
    var found := SearchRoots(roots, a);
    if found.None? {
      return NotFound;
    }
    if thread == null {
      return NullThread;
    }
    thread.lookupHeap := found;
    return Found(found.value);
  }

  /** A lookup that finds a heap leaves a live heap in the lookup slot, so the next call may trust it. */
  lemma AnswerIsLive(roots: seq<Heap>, lookup: Option<Heap>, current: Option<Heap>, a: int)
    requires Forest(roots) && LiveSlot(lookup, roots) && LiveSlot(current, roots)
    ensures LiveSlot(Answer(roots, lookup, current, a), roots)
  {
    RootsRight(roots, a);
    if lookup.Some? && HasChildren(lookup.value) {
      LeafFound(lookup.value, a);
    }
    if current.Some? && HasChildren(current.value) {
      LeafFound(current.value, a);
    }
  }

  // ---------------------------------------------------------------------------------------------
  // Names

  /** The heaps of the manager's kind below a list of heaps, parents first, in the order of the lists. */
  function Preorder(heaps: seq<Heap>): seq<Heap>
    decreases heaps
  {
    if heaps == [] then []
    else (if heaps[0].isMemHeap then [heaps[0]] + Preorder(heaps[0].children) else []) + Preorder(heaps[1..])
  }

  /** The index of the first heap of a list with this name, or the number of heaps. */
  function NameIndex(heaps: seq<Heap>, name: string): (i: nat)
    ensures i <= |heaps| && (i < |heaps| ==> heaps[i].name == name)
    ensures forall j :: 0 <= j < i ==> heaps[j].name != name
  {
    if heaps == [] || heaps[0].name == name then 0 else 1 + NameIndex(heaps[1..], name)
  }

  function FirstNamed(heaps: seq<Heap>, name: string): Option<Heap> {
    var i := NameIndex(heaps, name);
    if i < |heaps| then Some(heaps[i]) else None
  }

  lemma FirstNamedAppend(a: seq<Heap>, b: seq<Heap>, name: string)
    ensures FirstNamed(a + b, name) == if FirstNamed(a, name).Some? then FirstNamed(a, name) else FirstNamed(b, name)
  {
    var i, j := NameIndex(a, name), NameIndex(b, name);
    var k := NameIndex(a + b, name);
    assert forall x :: 0 <= x < |a| ==> (a + b)[x] == a[x];
    assert forall x :: 0 <= x < |b| ==> (a + b)[|a| + x] == b[x];
    if i < |a| {
      assert k == i;
    } else {
      assert k >= |a|;
      assert j < |b| ==> k <= |a| + j;
      assert k < |a| + |b| ==> j <= k - |a|;
    }
  }

  /** The positions in the child lists on the way down to heap `x`, every heap of which is of the manager's kind. */
  ghost predicate Reaches(heaps: seq<Heap>, path: seq<nat>, x: Heap)
    decreases |path|
  {
    && path != [] && path[0] < |heaps| && heaps[path[0]].isMemHeap
    && if |path| == 1 then x == heaps[path[0]] else Reaches(heaps[path[0]].children, path[1..], x)
  }

  /** Path `p` comes first: it parts from `q` to an earlier child, or it is the way to a heap above. */
  ghost predicate Earlier(p: seq<nat>, q: seq<nat>)
    decreases |q|
  {
    q != [] && (p == [] || p[0] < q[0] || (p[0] == q[0] && Earlier(p[1..], q[1..])))
  }

  /** No heap of the manager's kind with this name is reached, at whatever depth. */
  ghost predicate NobodyNamed(heaps: seq<Heap>, name: string) {
    forall path, x | Reaches(heaps, path, x) :: x.name != name
  }

  /** The path reaches a heap with this name, and no earlier path does. */
  ghost predicate ReachesFirst(heaps: seq<Heap>, path: seq<nat>, x: Heap, name: string) {
    && Reaches(heaps, path, x) && x.name == name
    && forall q, y | Reaches(heaps, q, y) && y.name == name :: !Earlier(q, path)
  }

  ghost predicate Finds(heaps: seq<Heap>, name: string, r: Option<Heap>) {
    match r
    case None => NobodyNamed(heaps, name)
    case Some(x) => exists path :: ReachesFirst(heaps, path, x, name)
  }

  lemma ReachesRest(heaps: seq<Heap>, path: seq<nat>, x: Heap)
    requires path != [] && path[0] > 0 && heaps != []
    ensures Reaches(heaps, path, x) <==> Reaches(heaps[1..], [path[0] - 1] + path[1..], x)
  {
    assert ([path[0] - 1] + path[1..])[1..] == path[1..];
  }

  /** The heap in front has the name. */
  lemma FrontFound(heaps: seq<Heap>, name: string)
    requires heaps != [] && heaps[0].isMemHeap && heaps[0].name == name
    ensures Finds(heaps, name, Some(heaps[0]))
  {
    assert ReachesFirst(heaps, [0], heaps[0], name);
  }

  /** The heap in front does not have the name, and a heap below it does. */
  lemma BelowFound(heaps: seq<Heap>, name: string, path: seq<nat>, x: Heap)
    requires heaps != [] && heaps[0].isMemHeap && heaps[0].name != name
    requires ReachesFirst(heaps[0].children, path, x, name)
    ensures Finds(heaps, name, Some(x))
  {
    var down := [0] + path;
    assert down[1..] == path;
    forall q, y | Reaches(heaps, q, y) && y.name == name ensures !Earlier(q, down) {
      if q[0] == 0 {
        assert Reaches(heaps[0].children, q[1..], y);
      }
    }
    assert ReachesFirst(heaps, down, x, name);
  }

  lemma DownFromFront(heaps: seq<Heap>, q: seq<nat>, y: Heap)
    requires Reaches(heaps, q, y) && q[0] == 0
    ensures heaps[0].isMemHeap && (y == heaps[0] || Reaches(heaps[0].children, q[1..], y))
  {
  }

  /** Neither the heap in front nor one below it has the name. */
  lemma NotInFront(heaps: seq<Heap>, name: string, r: Option<Heap>)
    requires heaps != [] && (heaps[0].isMemHeap ==> heaps[0].name != name && NobodyNamed(heaps[0].children, name))
    requires Finds(heaps[1..], name, r)
    ensures Finds(heaps, name, r)
  {
    forall q, y | Reaches(heaps, q, y) && y.name == name
      ensures q[0] > 0 && Reaches(heaps[1..], [q[0] - 1] + q[1..], y)
    {
      if q[0] == 0 {
        DownFromFront(heaps, q, y);
      }
      ReachesRest(heaps, q, y);
    }
    if r.Some? {
      var path :| ReachesFirst(heaps[1..], path, r.value, name);
      var next := [path[0] + 1] + path[1..];
      ReachesRest(heaps, next, r.value);
      assert [next[0] - 1] + next[1..] == path;
      forall q, y | Reaches(heaps, q, y) && y.name == name ensures !Earlier(q, next) {
        var q' := [q[0] - 1] + q[1..];
        assert !Earlier(q', path);
        assert q'[1..] == q[1..] && next[1..] == path[1..];
      }
      assert ReachesFirst(heaps, next, r.value, name);
    }
  }

  /** The first heap of the preorder with a name is the first heap with this name at any depth. */
  lemma {:induction false} PreorderFinds(heaps: seq<Heap>, name: string)
    ensures Finds(heaps, name, FirstNamed(Preorder(heaps), name))
    decreases heaps
  {
    if heaps != [] {
      var h, rest := heaps[0], heaps[1..];
      PreorderFinds(rest, name);
      if h.isMemHeap {
        var below := Preorder(h.children);
        PreorderFinds(h.children, name);
        FirstNamedAppend([h] + below, Preorder(rest), name);
        FirstNamedAppend([h], below, name);
        OneNamed(h, name);
        if h.name == name {
          FrontFound(heaps, name);
        } else if FirstNamed(below, name).Some? {
          var path :| ReachesFirst(h.children, path, FirstNamed(below, name).value, name);
          BelowFound(heaps, name, path, FirstNamed(below, name).value);
        } else {
          NotInFront(heaps, name, FirstNamed(Preorder(rest), name));
        }
      } else {
        assert Preorder(heaps) == Preorder(rest);
        NotInFront(heaps, name, FirstNamed(Preorder(rest), name));
      }
    }
  }

  lemma OneNamed(h: Heap, name: string)
    ensures FirstNamed([h], name) == if h.name == name then Some(h) else None
  {
  }

  /** The recursive search by name finds the first heap of the preorder that has the name: null means that no
      heap of the manager's kind has it, at whatever depth. */
  method FindHeapByNameImpl(heaps: seq<Heap>, name: string) returns (r: Option<Heap>)
    ensures r == FirstNamed(Preorder(heaps), name)
    ensures r.None? ==> forall path, x | Reaches(heaps, path, x) :: x.name != name
    ensures r.Some? ==> exists path :: ReachesFirst(heaps, path, r.value, name)
    decreases heaps
  {
    PreorderFinds(heaps, name);
    var i := 0;
    while i < |heaps|
      invariant 0 <= i <= |heaps| && FirstNamed(Preorder(heaps), name) == FirstNamed(Preorder(heaps[i..]), name)
    {
      var heap := heaps[i];
      assert heaps[i..][1..] == heaps[i + 1..];
      if heap.isMemHeap {
        FirstNamedAppend([heap] + Preorder(heap.children), Preorder(heaps[i + 1..]), name);
        assert ([heap] + Preorder(heap.children))[1..] == Preorder(heap.children);
      } else {
        assert Preorder(heaps[i..]) == Preorder(heaps[i + 1..]);
      }
      if heap.name == name && heap.isMemHeap {
        return Some(heap);
      }
      if heap.isMemHeap && heap.children != [] {
        r := FindHeapByNameImpl(heap.children, name);
        if r.Some? {
          return;
        }
      }
      i := i + 1;
    }
    return None;
  }
}
