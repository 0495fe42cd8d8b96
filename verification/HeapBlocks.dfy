/** Address intervals managed by an expandable heap, and what makes a free list canonical. */
module HeapBlocks {

  /** Size of a block header in bytes. */
  const HEADER: int := 0x20
  /** Smallest payload worth a header of its own. */
  const GRANULARITY: int := 4
  /** Smallest alignment of an allocation. */
  const MINIMUM_ALIGNMENT: int := 4
  /** Size of a heap object, which sits in front of the memory it manages. */
  const HEAP_OBJECT: int := 0xa0
  /** Arenas lie in user space, far below the top of the address space. */
  const ADDRESS_LIMIT: int := 0x8000_0000_0000

  /** A free block: a header at `start`, then `size` payload bytes. */
  datatype FreeBlock = FreeBlock(start: int, size: int) {
    function End(): int { start + HEADER + size }
    predicate Has(x: int) { start <= x < End() }
  }

  /** A used block: `padding` skipped bytes, a header, then `size` bytes handed out at `address`. */
  datatype UsedBlock = UsedBlock(address: int, padding: int, size: int) {
    function First(): int { address - HEADER - padding }
    function End(): int { address + size }
    predicate Has(x: int) { First() <= x < End() }
  }

  /** The bounds of an arena, its free list in list order, and its used list. */
  datatype HeapState = HeapState(start: int, end: int, free: seq<FreeBlock>, used: seq<UsedBlock>)

  ghost predicate InFree(free: seq<FreeBlock>, x: int) {
    exists i :: 0 <= i < |free| && free[i].Has(x)
  }

  ghost predicate InUsed(used: seq<UsedBlock>, x: int) {
    exists i :: 0 <= i < |used| && used[i].Has(x)
  }

  /** Strictly address ordered, with a gap between any two blocks. */
  ghost predicate Canonical(free: seq<FreeBlock>) {
    && (forall i :: 0 <= i < |free| ==> free[i].size >= 0)
    && (forall i, j :: 0 <= i < j < |free| ==> free[i].End() < free[j].start)
  }

  /** The blocks of a list lie in user space. */
  ghost predicate Bounded(free: seq<FreeBlock>) {
    forall i :: 0 <= i < |free| ==> 0 < free[i].start && 0 <= free[i].size && free[i].End() < ADDRESS_LIMIT
  }

  /** Used block `k` lies in user space and overlaps no free block. */
  ghost predicate Owned(s: HeapState, k: int) {
    && Canonical(s.free) && 0 <= k < |s.used|
    && 0 <= s.used[k].padding && 0 <= s.used[k].size && 0 <= s.used[k].First() && s.used[k].End() < ADDRESS_LIMIT
    && (forall i :: 0 <= i < |s.free| ==>
          s.free[i].End() <= s.used[k].First() || s.used[k].End() <= s.free[i].start)
  }

  /** No two blocks of a heap overlap, and all lie inside the arena. */
  ghost predicate WellFormed(s: HeapState) {
    && 0 < s.start <= s.end < ADDRESS_LIMIT
    && Canonical(s.free)
    && (forall i :: 0 <= i < |s.free| ==> s.start <= s.free[i].start && s.free[i].End() <= s.end)
    && (forall i :: 0 <= i < |s.used| ==>
          && 0 <= s.used[i].padding < HEADER + GRANULARITY
          && 0 <= s.used[i].size
          && s.start <= s.used[i].First() && s.used[i].End() <= s.end)
    && (forall i, j :: 0 <= i < j < |s.used| ==>
          s.used[i].End() <= s.used[j].First() || s.used[j].End() <= s.used[i].First())
    && (forall i, j :: 0 <= i < |s.free| && 0 <= j < |s.used| ==>
          s.free[i].End() <= s.used[j].First() || s.used[j].End() <= s.free[i].start)
  }

  /** The arena is exactly the disjoint union of free blocks and used extents. */
  ghost predicate Tiled(s: HeapState) {
    && WellFormed(s)
    && (forall x :: s.start <= x < s.end ==> InFree(s.free, x) || InUsed(s.used, x))
  }

  /** In a well-formed heap a byte is never both free and used. */
  lemma FreeIsNotUsed(s: HeapState, x: int)
    requires WellFormed(s)
    ensures InFree(s.free, x) ==> s.start <= x < s.end && !InUsed(s.used, x)
  {
  }

  /** A block in front of a canonical list covers exactly the bytes below its end. */
  lemma TailCover(free: seq<FreeBlock>, x: int)
    requires Canonical(free) && free != []
    ensures Canonical(free[1..])
    ensures InFree(free[1..], x) <==> InFree(free, x) && x >= free[0].End()
  {
    if InFree(free[1..], x) {
      var i :| 0 <= i < |free[1..]| && free[1..][i].Has(x);
      assert free[i + 1].Has(x);
    }
    if InFree(free, x) && x >= free[0].End() {
      var i :| 0 <= i < |free| && free[i].Has(x);
      assert free[1..][i - 1].Has(x);
    }
  }

  lemma FirstBlockInside(a: seq<FreeBlock>, b: seq<FreeBlock>)
    requires Canonical(a) && Canonical(b) && a != [] && b != []
    requires forall x :: InFree(a, x) <==> InFree(b, x)
    ensures b[0].start <= a[0].start
    ensures a[0].start == b[0].start ==> b[0].End() <= a[0].End()
  {
    assert a[0].Has(a[0].start);
    assert InFree(b, a[0].start);
    assert !InFree(a, a[0].End());
    assert !b[0].Has(a[0].End());
  }

  lemma EmptyTogether(a: seq<FreeBlock>, b: seq<FreeBlock>)
    requires Canonical(a)
    requires forall x :: InFree(a, x) <==> InFree(b, x)
    ensures b == [] ==> a == []
  {
    if a != [] {
      assert a[0].Has(a[0].start);
      assert InFree(a, a[0].start) && InFree(b, a[0].start);
    }
  }

  /** A canonical free list is determined by the bytes it covers. */
  lemma {:induction false} CanonicalUnique(a: seq<FreeBlock>, b: seq<FreeBlock>)
    requires Canonical(a) && Canonical(b)
    requires forall x :: InFree(a, x) <==> InFree(b, x)
    ensures a == b
    decreases |a|
  {
    EmptyTogether(a, b);
    EmptyTogether(b, a);
    if a != [] && b != [] {
      FirstBlockInside(a, b);
      FirstBlockInside(b, a);
      forall x ensures InFree(a[1..], x) <==> InFree(b[1..], x) {
        TailCover(a, x);
        TailCover(b, x);
      }
      TailCover(a, 0);
      TailCover(b, 0);
      CanonicalUnique(a[1..], b[1..]);
      assert a == [a[0]] + a[1..] && b == [b[0]] + b[1..];
    }
  }

  /** In a tiled heap the free list is a function of the bounds and of the live blocks:
      neither the order nor the history of the calls that led here matters. */
  lemma FreeListIsCanonical(s: HeapState, t: HeapState)
    requires Tiled(s) && Tiled(t)
    requires s.start == t.start && s.end == t.end
    requires multiset(s.used) == multiset(t.used)
    ensures s.free == t.free
  {
    forall x ensures InUsed(s.used, x) <==> InUsed(t.used, x) {
      SameBlocksSameBytes(s.used, t.used, x);
      SameBlocksSameBytes(t.used, s.used, x);
    }
    forall x ensures InFree(s.free, x) <==> InFree(t.free, x) {
      FreeIsNotUsed(s, x);
      FreeIsNotUsed(t, x);
    }
    CanonicalUnique(s.free, t.free);
  }

  lemma SameBlocksSameBytes(a: seq<UsedBlock>, b: seq<UsedBlock>, x: int)
    requires multiset(a) == multiset(b)
    ensures InUsed(a, x) ==> InUsed(b, x)
  {
    if InUsed(a, x) {
      var i :| 0 <= i < |a| && a[i].Has(x);
      assert a[i] in multiset(a);
      assert a[i] in b;
    }
  }

  /** With nothing left allocated, the free list is the single block the heap was created with. */
  lemma EmptyHeapIsOneBlock(s: HeapState)
    requires Tiled(s) && s.used == [] && s.start + HEADER <= s.end
    ensures s.free == [FreeBlock(s.start, s.end - s.start - HEADER)]
  {
    var whole := [FreeBlock(s.start, s.end - s.start - HEADER)];
    forall x ensures InFree(s.free, x) <==> InFree(whole, x) {
      FreeIsNotUsed(s, x);
      assert whole[0].Has(x) <==> s.start <= x < s.end;
    }
    CanonicalUnique(s.free, whole);
  }

  // ---------------------------------------------------------------------------------------
  // The steps of a heap, as relations between its state before and after.

  /** A used block `u` is cut out of free block `i`. */
  ghost predicate Carved(s: HeapState, i: int, u: UsedBlock, t: HeapState) {
    && 0 <= i < |s.free|
    && t.start == s.start && t.end == s.end
    && t.used == s.used + [u]
    && 0 <= u.padding < HEADER + GRANULARITY && 0 <= u.size
    && s.free[i].start <= u.First() && u.End() <= s.free[i].End()
    && Canonical(t.free)
    && (forall x :: InFree(t.free, x) <==> InFree(s.free, x) && !u.Has(x))
  }

  /** The whole extent of used block `k` becomes free. */
  ghost predicate Released(s: HeapState, k: int, t: HeapState) {
    && 0 <= k < |s.used|
    && t.start == s.start && t.end == s.end
    && t.used == s.used[..k] + s.used[k + 1..]
    && Canonical(t.free)
    && (forall x :: InFree(t.free, x) <==> InFree(s.free, x) || s.used[k].Has(x))
  }

  /** Used block `k` keeps its first `size` bytes, and the rest of it becomes free. */
  ghost predicate Shrunk(s: HeapState, k: int, size: int, t: HeapState) {
    && 0 <= k < |s.used| && 0 <= size <= s.used[k].size
    && t.start == s.start && t.end == s.end
    && t.used == s.used[k := s.used[k].(size := size)]
    && Canonical(t.free)
    && (forall x :: InFree(t.free, x) <==> InFree(s.free, x) || s.used[k].address + size <= x < s.used[k].End())
  }

  /** The last free block, which reaches the end of the arena, leaves the arena. */
  ghost predicate Trimmed(s: HeapState, t: HeapState) {
    && s.free != [] && s.free[|s.free| - 1].End() == s.end
    && t.start == s.start && t.end == s.free[|s.free| - 1].start
    && t.used == s.used && t.free == s.free[..|s.free| - 1]
  }

  /** Both ends of every free block of a canonical list stay inside whatever contains its bytes. */
  lemma BlocksInside(free: seq<FreeBlock>, lo: int, hi: int)
    requires Canonical(free)
    requires forall x :: InFree(free, x) ==> lo <= x < hi
    ensures forall i :: 0 <= i < |free| ==> lo <= free[i].start && free[i].End() <= hi
  {
    forall i | 0 <= i < |free| ensures lo <= free[i].start && free[i].End() <= hi {
      assert free[i].Has(free[i].start) && free[i].Has(free[i].End() - 1);
      assert InFree(free, free[i].start) && InFree(free, free[i].End() - 1);
    }
  }

  /** A free block and a used block that share no byte are apart as intervals. */
  lemma BlocksApart(free: seq<FreeBlock>, u: UsedBlock)
    requires Canonical(free) && u.First() < u.End()
    requires forall x :: InFree(free, x) ==> !u.Has(x)
    ensures forall i :: 0 <= i < |free| ==> free[i].End() <= u.First() || u.End() <= free[i].start
  {
    forall i | 0 <= i < |free| ensures free[i].End() <= u.First() || u.End() <= free[i].start {
      var x := if free[i].start <= u.First() then u.First() else free[i].start;
      if free[i].Has(x) {
        assert InFree(free, x);
      }
    }
  }

  /** Blocks that share no byte with the used blocks of a heap make up a well-formed heap with them. */
  lemma FreeFitsUsed(t: HeapState)
    requires 0 < t.start <= t.end < ADDRESS_LIMIT && Canonical(t.free)
    requires forall x :: InFree(t.free, x) ==> t.start <= x < t.end && !InUsed(t.used, x)
    requires forall i :: 0 <= i < |t.used| ==>
               && 0 <= t.used[i].padding < HEADER + GRANULARITY
               && 0 <= t.used[i].size
               && t.start <= t.used[i].First() && t.used[i].End() <= t.end
    requires forall i, j :: 0 <= i < j < |t.used| ==>
               t.used[i].End() <= t.used[j].First() || t.used[j].End() <= t.used[i].First()
    ensures WellFormed(t)
  {
    BlocksInside(t.free, t.start, t.end);
    forall j | 0 <= j < |t.used|
      ensures forall i :: 0 <= i < |t.free| ==>
          t.free[i].End() <= t.used[j].First() || t.used[j].End() <= t.free[i].start
    {
      forall x | InFree(t.free, x) ensures !t.used[j].Has(x) {
        assert !InUsed(t.used, x);
      }
      BlocksApart(t.free, t.used[j]);
    }
  }

  lemma CarvedUsed(s: HeapState, i: int, u: UsedBlock, t: HeapState, x: int)
    requires Carved(s, i, u, t)
    ensures InUsed(t.used, x) <==> InUsed(s.used, x) || u.Has(x)
  {
    if InUsed(s.used, x) {
      var j :| 0 <= j < |s.used| && s.used[j].Has(x);
      assert t.used[j].Has(x);
    }
    if u.Has(x) {
      assert t.used[|s.used|].Has(x);
    }
  }

  lemma CarvedTiled(s: HeapState, i: int, u: UsedBlock, t: HeapState)
    requires WellFormed(s) && Carved(s, i, u, t)
    ensures WellFormed(t) && (Tiled(s) ==> Tiled(t))
  {
    forall x ensures InUsed(t.used, x) <==> InUsed(s.used, x) || u.Has(x) {
      CarvedUsed(s, i, u, t, x);
    }
    forall x | InFree(t.free, x) ensures t.start <= x < t.end && !InUsed(t.used, x) {
      FreeIsNotUsed(s, x);
    }
    FreeFitsUsed(t);
  }

  lemma OneOwner(s: HeapState, j: int, k: int, x: int)
    requires WellFormed(s) && 0 <= j < |s.used| && 0 <= k < |s.used|
    requires s.used[j].Has(x) && s.used[k].Has(x)
    ensures j == k
  {
  }

  lemma RemovedUsed(used: seq<UsedBlock>, k: int, x: int)
    requires 0 <= k < |used|
    ensures InUsed(used[..k] + used[k + 1..], x) <==> exists j :: 0 <= j < |used| && j != k && used[j].Has(x)
  {
    var rest := used[..k] + used[k + 1..];
    if j :| 0 <= j < |used| && j != k && used[j].Has(x) {
      assert rest[if j < k then j else j - 1].Has(x);
    }
    if InUsed(rest, x) {
      var j :| 0 <= j < |rest| && rest[j].Has(x);
      assert used[if j < k then j else j + 1].Has(x);
    }
  }

  lemma ReleasedUsed(s: HeapState, k: int, t: HeapState, x: int)
    requires WellFormed(s) && Released(s, k, t)
    ensures InUsed(t.used, x) <==> InUsed(s.used, x) && !s.used[k].Has(x)
  {
    RemovedUsed(s.used, k, x);
    if j :| 0 <= j < |s.used| && j != k && s.used[j].Has(x) {
      if s.used[k].Has(x) {
        OneOwner(s, j, k, x);
      }
    }
  }

  lemma ReleasedTiled(s: HeapState, k: int, t: HeapState)
    requires WellFormed(s) && Released(s, k, t)
    ensures WellFormed(t) && (Tiled(s) ==> Tiled(t))
  {
    forall x ensures InUsed(t.used, x) <==> InUsed(s.used, x) && !s.used[k].Has(x) {
      ReleasedUsed(s, k, t, x);
    }
    forall x | InFree(t.free, x) ensures t.start <= x < t.end && !InUsed(t.used, x) {
      FreeIsNotUsed(s, x);
    }
    FreeFitsUsed(t);
  }

  lemma ShrunkUsed(s: HeapState, k: int, size: int, t: HeapState, x: int)
    requires WellFormed(s) && Shrunk(s, k, size, t)
    ensures InUsed(t.used, x) <==> InUsed(s.used, x) && !(s.used[k].address + size <= x < s.used[k].End())
  {
    if InUsed(t.used, x) {
      var j :| 0 <= j < |t.used| && t.used[j].Has(x);
      assert s.used[j].Has(x);
    }
    if InUsed(s.used, x) && !(s.used[k].address + size <= x < s.used[k].End()) {
      var j :| 0 <= j < |s.used| && s.used[j].Has(x);
      assert t.used[j].Has(x);
    }
  }

  lemma ShrunkTiled(s: HeapState, k: int, size: int, t: HeapState)
    requires WellFormed(s) && Shrunk(s, k, size, t)
    ensures WellFormed(t) && (Tiled(s) ==> Tiled(t))
  {
    forall x ensures InUsed(t.used, x) <==> InUsed(s.used, x) && !(s.used[k].address + size <= x < s.used[k].End()) {
      ShrunkUsed(s, k, size, t, x);
    }
    forall x | InFree(t.free, x) ensures t.start <= x < t.end && !InUsed(t.used, x) {
      FreeIsNotUsed(s, x);
      if s.used[k].address + size <= x < s.used[k].End() {
        assert s.used[k].Has(x);
      }
    }
    FreeFitsUsed(t);
  }

  lemma TrimmedWellFormed(s: HeapState, t: HeapState)
    requires WellFormed(s) && Trimmed(s, t)
    ensures WellFormed(t)
  {
    var last := |s.free| - 1;
    forall j | 0 <= j < |t.used| ensures t.used[j].End() <= t.end {
      assert s.free[last].End() <= s.used[j].First() || s.used[j].End() <= s.free[last].start;
    }
  }

  lemma TrimmedTiled(s: HeapState, t: HeapState)
    requires WellFormed(s) && Trimmed(s, t)
    ensures WellFormed(t) && (Tiled(s) ==> Tiled(t))
  {
    TrimmedWellFormed(s, t);
    if Tiled(s) {
      forall x | t.start <= x < t.end ensures InFree(t.free, x) || InUsed(t.used, x) {
        if InFree(s.free, x) {
          var i :| 0 <= i < |s.free| && s.free[i].Has(x);
          assert t.free[i].Has(x);
        }
      }
    }
  }

  /** Releasing a block right after it was carved gives back the very same heap. */
  lemma CarveThenRelease(s: HeapState, i: int, u: UsedBlock, t: HeapState, r: HeapState)
    requires WellFormed(s) && Carved(s, i, u, t) && Released(t, |s.used|, r)
    ensures r == s
  {
    assert t.used[..|s.used|] + t.used[|s.used| + 1..] == s.used;
    forall x ensures InFree(r.free, x) <==> InFree(s.free, x) {
      if u.Has(x) {
        assert s.free[i].Has(x);
      }
    }
    CanonicalUnique(r.free, s.free);
  }
}
