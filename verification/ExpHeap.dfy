/** The expandable heap: an address-ordered free list that is split on allocation, coalesced on
    free, and trimmed at its end. List positions stand for the links of the intrusive lists. */
module ExpHeaps {
  import opened Words
  import opened Alignments
  import opened HeapBlocks
  import HeapAccounting

  // ---------------------------------------------------------------------------------------
  // Fitting an allocation into a free block.

  /** Where an allocation placed in this block would start. */
  function AllocationAddress(b: FreeBlock, a: int): int
    requires a > 0
  {
    AlignUp(b.start + HEADER, a)
  }

  /** The bytes skipped in front of that allocation's header. */
  function Padding(b: FreeBlock, a: int): int
    requires a > 0
  {
    AllocationAddress(b, a) - b.start - HEADER
  }

  predicate Fits(b: FreeBlock, size: int, a: int)
    requires a > 0
  {
    Padding(b, a) + size <= b.size
  }

  /** The largest payload that some block of the list still offers at this alignment. */
  function Maximum(free: seq<FreeBlock>, a: int): (most: int)
    requires a > 0
  {
    if free == [] then 0
    else
      var most := Maximum(free[..|free| - 1], a);
      var last := free[|free| - 1];
      if most < last.size - Padding(last, a) then last.size - Padding(last, a) else most
  }

  /** The maximum is an upper bound for every block, and some block reaches it unless it is zero. */
  lemma {:induction false} MaximumIsReached(free: seq<FreeBlock>, a: int)
    requires a > 0
    ensures 0 <= Maximum(free, a)
    ensures forall i :: 0 <= i < |free| ==> free[i].size - Padding(free[i], a) <= Maximum(free, a)
    ensures Maximum(free, a) > 0 ==>
        exists i :: 0 <= i < |free| && free[i].size - Padding(free[i], a) == Maximum(free, a)
  {
    if free != [] {
      var front := free[..|free| - 1];
      MaximumIsReached(front, a);
      if i :| 0 <= i < |front| && front[i].size - Padding(front[i], a) == Maximum(front, a) {
        assert free[i] == front[i];
      }
      assert forall i :: 0 <= i < |front| ==> free[i] == front[i];
      assert free[|free| - 1].size - Padding(free[|free| - 1], a) <= Maximum(free, a);
    }
  }

  /** The size a request is rounded to; the request for the whole heap takes the largest block. */
  function AlignedSize(free: seq<FreeBlock>, size: int, a: int): int
    requires a > 0
  {
    if size != 0 then AlignUp(size, a) else Maximum(free, a)
  }

  /** A size of at least one byte fits some block exactly up to the reported maximum. */
  lemma FitThreshold(free: seq<FreeBlock>, a: int, size: int)
    requires a > 0 && size >= 1
    ensures (exists i :: 0 <= i < |free| && Fits(free[i], size, a)) <==> size <= Maximum(free, a)
  {
    MaximumIsReached(free, a);
    if size <= Maximum(free, a) {
      var i :| 0 <= i < |free| && free[i].size - Padding(free[i], a) == Maximum(free, a);
      assert Fits(free[i], size, a);
    }
  }

  /** The word arithmetic of the search computes padding plus size without a stray wrap. */
  lemma NeededSize(b: FreeBlock, size: int, a: int)
    requires Alignment(a) && 0 < b.start && 0 <= b.size && b.End() < ADDRESS_LIMIT
    requires 0 <= size && size + a - 1 < WORD64
    ensures 0 <= Padding(b, a) < a
    ensures Word(size - HEADER - b.start + AllocationAddress(b, a)) == Padding(b, a) + size
  {
  }

  /** No block smaller than the request fits it. */
  lemma ExactIsSmallest(free: seq<FreeBlock>, needed: int, a: int)
    requires Bounded(free) && Alignment(a) && 0 <= needed && needed + a - 1 < WORD64
    ensures forall j :: 0 <= j < |free| && Fits(free[j], needed, a) ==> needed <= free[j].size
  {
    forall j | 0 <= j < |free| && Fits(free[j], needed, a) ensures needed <= free[j].size {
      NeededSize(free[j], needed, a);
    }
  }

  /** Which block the two search modes choose among those that fit. */
  ghost predicate FirstFit(free: seq<FreeBlock>, size: int, a: int, i: int)
    requires a > 0
  {
    && 0 <= i < |free| && Fits(free[i], size, a)
    && (forall j :: 0 <= j < i ==> !Fits(free[j], size, a))
  }

  ghost predicate BestFit(free: seq<FreeBlock>, size: int, a: int, i: int)
    requires a > 0
  {
    && 0 <= i < |free| && Fits(free[i], size, a)
    && (forall j :: 0 <= j < |free| && Fits(free[j], size, a) ==> free[i].size <= free[j].size)
    && (forall j :: 0 <= j < i && Fits(free[j], size, a) ==> free[i].size < free[j].size)
  }

  ghost predicate Chosen(free: seq<FreeBlock>, isBestFit: bool, size: int, a: int, i: int)
    requires a > 0
  {
    if isBestFit then BestFit(free, size, a, i) else FirstFit(free, size, a, i)
  }

  /** What an allocation request does: null and no change when no block fits, else a cut of the
      block that the search mode chooses. */
  ghost predicate Allocated(s: HeapState, isBestFit: bool, size: int, a: int, address: int, t: HeapState)
    requires a > 0
  {
    var needed := AlignedSize(s.free, size, a);
    if forall j :: 0 <= j < |s.free| ==> !Fits(s.free[j], needed, a) then
      address == 0 && t == s
    else
      exists i ::
        && Chosen(s.free, isBestFit, needed, a, i)
        && address == AllocationAddress(s.free[i], a)
        && t == Cut(s, i, address, needed)
  }

  /** A successful allocation carves one aligned used block out of the chosen block, no larger than needed
      by more than what could not stay free, and its address is not null. */
  lemma AllocatedIsCarved(s: HeapState, isBestFit: bool, size: int, a: int, i: int) returns (u: UsedBlock)
    requires Canonical(s.free) && Bounded(s.free) && Alignment(a) && 0 <= size < WORD64
    requires Chosen(s.free, isBestFit, AlignedSize(s.free, size, a), a, i)
    ensures var address, needed := AllocationAddress(s.free[i], a), AlignedSize(s.free, size, a);
      && Carved(s, i, u, Cut(s, i, address, needed))
      && u.address == address && address != 0 && address % a == 0
      && needed <= u.size < needed + HEADER + GRANULARITY
  {
    var address, needed := AllocationAddress(s.free[i], a), AlignedSize(s.free, size, a);
    u := CutBlock(s.free[i], address, needed);
    FittingRoom(s.free, size, a, i);
    CutCarved(s, i, address, needed);
  }

  /** The block that a successful allocation was cut out of. */
  lemma WhichBlock(s: HeapState, isBestFit: bool, size: int, a: int, address: int, t: HeapState) returns (i: int)
    requires a > 0 && Allocated(s, isBestFit, size, a, address, t) && (address != 0 || t != s)
    ensures Chosen(s.free, isBestFit, AlignedSize(s.free, size, a), a, i)
    ensures address == AllocationAddress(s.free[i], a) && t == Cut(s, i, address, AlignedSize(s.free, size, a))
  {
    i :| Chosen(s.free, isBestFit, AlignedSize(s.free, size, a), a, i)
         && address == AllocationAddress(s.free[i], a) && t == Cut(s, i, address, AlignedSize(s.free, size, a));
  }

  /** An allocation placed in a block that fits it lies inside that block, aligned. */
  lemma FittingRoom(free: seq<FreeBlock>, size: int, a: int, i: int)
    requires Bounded(free) && Alignment(a) && 0 <= size < WORD64
    requires 0 <= i < |free| && Fits(free[i], AlignedSize(free, size, a), a)
    ensures var address := AllocationAddress(free[i], a);
      InBlock(free[i], address, AlignedSize(free, size, a)) && address != 0 && address % a == 0
  {
    NeededRoom(free, size, a);
    NeededSize(free[i], AlignedSize(free, size, a), a);
    AlignedIsMultiple(free[i].start + HEADER, a);
  }

  /** Allocation keeps a heap well formed, and tiled if it was. */
  lemma AllocatedTiled(s: HeapState, isBestFit: bool, size: int, a: int, address: int, t: HeapState)
    requires WellFormed(s) && Alignment(a) && 0 <= size < WORD64
    requires Allocated(s, isBestFit, size, a, address, t)
    ensures WellFormed(t) && (Tiled(s) ==> Tiled(t))
    ensures address != 0 ==> IndexOf(t.used, address) == |s.used| && Owned(t, |s.used|)
    ensures address != 0 ==> t.used[|s.used|].size >= AlignedSize(s.free, size, a)
  {
    if address != 0 || t != s {
      var i := WhichBlock(s, isBestFit, size, a, address, t);
      var u := AllocatedIsCarved(s, isBestFit, size, a, i);
      CarvedTiled(s, i, u, t);
      OnlyIndex(t, |s.used|);
    }
  }

  /** Freeing the result of any successful allocation restores exactly the heap before it: the same
      free blocks, with the same sizes, in the same order. */
  lemma AllocateFreeIdentity(s: HeapState, isBestFit: bool, size: int, a: int, address: int, t: HeapState, r: HeapState)
    requires WellFormed(s) && Alignment(a) && 0 <= size < WORD64
    requires Allocated(s, isBestFit, size, a, address, t) && address != 0
    requires Released(t, IndexOf(t.used, address), r)
    ensures r == s
  {
    var i := WhichBlock(s, isBestFit, size, a, address, t);
    var u := AllocatedIsCarved(s, isBestFit, size, a, i);
    AllocatedTiled(s, isBestFit, size, a, address, t);
    CarveThenRelease(s, i, u, t, r);
  }

  /** No request leaves the word arithmetic of the search room to wrap. */
  lemma NeededRoom(free: seq<FreeBlock>, size: int, a: int)
    requires Bounded(free) && Alignment(a) && 0 <= size < WORD64
    ensures 0 <= AlignedSize(free, size, a) && AlignedSize(free, size, a) + a - 1 < WORD64
  {
    if size != 0 {
      AlignedLeavesRoom(size, a);
    } else {
      MaximumBelowArena(free, a);
    }
  }

  // ---------------------------------------------------------------------------------------
  // Coverage of spliced lists.

  /** A byte of block `i` belongs to no other block of a canonical list. */
  lemma ApartFrom(free: seq<FreeBlock>, i: int, x: int)
    requires Canonical(free) && 0 <= i < |free| && free[i].Has(x)
    ensures !InFree(free[..i], x) && !InFree(free[i + 1..], x)
  {
  }

  lemma InFreeConcat(a: seq<FreeBlock>, b: seq<FreeBlock>, x: int)
    ensures InFree(a + b, x) <==> InFree(a, x) || InFree(b, x)
  {
    if InFree(a, x) {
      var i :| 0 <= i < |a| && a[i].Has(x);
      assert (a + b)[i].Has(x);
    }
    if InFree(b, x) {
      var i :| 0 <= i < |b| && b[i].Has(x);
      assert (a + b)[|a| + i].Has(x);
    }
  }

  /** Replacing blocks `lo..hi` of a free list by others changes the coverage accordingly. */
  lemma Spliced(free: seq<FreeBlock>, lo: int, hi: int, mid: seq<FreeBlock>, x: int)
    requires 0 <= lo <= hi <= |free|
    ensures InFree(free[..lo] + mid + free[hi..], x) <==>
            InFree(free[..lo], x) || InFree(mid, x) || InFree(free[hi..], x)
    ensures InFree(free, x) <==>
            InFree(free[..lo], x) || InFree(free[lo..hi], x) || InFree(free[hi..], x)
  {
    InFreeConcat(free[..lo] + mid, free[hi..], x);
    InFreeConcat(free[..lo], mid, x);
    InFreeConcat(free[..lo] + free[lo..hi], free[hi..], x);
    InFreeConcat(free[..lo], free[lo..hi], x);
    assert free == free[..lo] + free[lo..hi] + free[hi..];
  }

  lemma InFreeFew(blocks: seq<FreeBlock>, x: int)
    requires |blocks| <= 2
    ensures InFree(blocks, x) <==> (|blocks| >= 1 && blocks[0].Has(x)) || (|blocks| == 2 && blocks[1].Has(x))
  {
    if |blocks| >= 1 && blocks[0].Has(x) { assert InFree(blocks, x); }
    if |blocks| == 2 && blocks[1].Has(x) { assert InFree(blocks, x); }
  }

  /** Free block `i`, replaced by what is left of it around a used block, loses exactly that block. */
  lemma CutOut(free: seq<FreeBlock>, i: int, mid: seq<FreeBlock>, u: UsedBlock)
    requires Canonical(free) && 0 <= i < |free|
    requires free[i].start <= u.First() && u.First() < u.End() <= free[i].End()
    requires Canonical(mid) && |mid| <= 2
    requires |mid| >= 1 ==> free[i].start <= mid[0].start && mid[|mid| - 1].End() <= free[i].End()
    requires forall x :: (|mid| >= 1 && mid[0].Has(x)) || (|mid| == 2 && mid[1].Has(x)) <==> free[i].Has(x) && !u.Has(x)
    ensures Canonical(free[..i] + mid + free[i + 1..])
    ensures forall x :: InFree(free[..i] + mid + free[i + 1..], x) <==> InFree(free, x) && !u.Has(x)
  {
    forall x ensures InFree(free[..i] + mid + free[i + 1..], x) <==> InFree(free, x) && !u.Has(x) {
      Spliced(free, i, i + 1, mid, x);
      InFreeFew(mid, x);
      InFreeFew(free[i..i + 1], x);
      if free[i].Has(x) { ApartFrom(free, i, x); }
    }
  }

  /** What is left of a free block around an allocation: a front and a back block where they are
      large enough for a header and a minimal payload. */
  function FrontRest(b: FreeBlock, address: int): seq<FreeBlock> {
    var padding := address - HEADER - b.start;
    if HEADER + GRANULARITY <= padding then [FreeBlock(b.start, padding - HEADER)] else []
  }

  function BackRest(b: FreeBlock, address: int, size: int): seq<FreeBlock> {
    var leftover := b.End() - (address + size);
    if HEADER + GRANULARITY <= leftover then [FreeBlock(address + size, leftover - HEADER)] else []
  }

  /** The used block takes the bytes at both ends that are too few to stay free. */
  function CutBlock(b: FreeBlock, address: int, size: int): UsedBlock {
    UsedBlock(address,
              if FrontRest(b, address) == [] then address - HEADER - b.start else 0,
              if BackRest(b, address, size) == [] then b.End() - address else size)
  }

  function Cut(s: HeapState, i: int, address: int, size: int): HeapState
    requires 0 <= i < |s.free|
  {
    s.(free := s.free[..i] + (FrontRest(s.free[i], address) + BackRest(s.free[i], address, size)) + s.free[i + 1..],
       used := s.used + [CutBlock(s.free[i], address, size)])
  }

  /** The allocation lies in block `i`, header included. */
  predicate InBlock(b: FreeBlock, address: int, size: int) {
    0 <= size && b.start + HEADER <= address && address + size <= b.End()
  }

  /** The rests of a block and the used block share its bytes out. */
  lemma RestsFit(b: FreeBlock, address: int, size: int)
    requires InBlock(b, address, size)
    ensures var u, mid := CutBlock(b, address, size), FrontRest(b, address) + BackRest(b, address, size);
      && b.start <= u.First() && u.First() < u.End() <= b.End()
      && Canonical(mid) && |mid| <= 2
      && (|mid| >= 1 ==> b.start <= mid[0].start && mid[|mid| - 1].End() <= b.End())
      && (forall x :: (|mid| >= 1 && mid[0].Has(x)) || (|mid| == 2 && mid[1].Has(x)) <==> b.Has(x) && !u.Has(x))
      && size <= u.size < size + HEADER + GRANULARITY
  {
  }

  /** Cutting a block takes exactly the used extent out of the free bytes and keeps the heap well formed. */
  lemma CutCarved(s: HeapState, i: int, address: int, size: int)
    requires Canonical(s.free) && 0 <= i < |s.free| && InBlock(s.free[i], address, size)
    ensures var u := CutBlock(s.free[i], address, size);
      && Carved(s, i, u, Cut(s, i, address, size))
      && size <= u.size < size + HEADER + GRANULARITY
  {
    var b := s.free[i];
    var u := CutBlock(b, address, size);
    var mid := FrontRest(b, address) + BackRest(b, address, size);
    RestsFit(b, address, size);
    CutOut(s.free, i, mid, u);
    assert Cut(s, i, address, size).free == s.free[..i] + mid + s.free[i + 1..];
  }

  lemma Regrouped(a: seq<FreeBlock>, front: seq<FreeBlock>, back: seq<FreeBlock>, b: seq<FreeBlock>)
    ensures (a + front) + (back + b) == a + (front + back) + b
  {
  }

  /** Some free block ends where the range starts, or starts where it ends. */
  ghost predicate Touches(free: seq<FreeBlock>, start: int, end: int) {
    exists i :: 0 <= i < |free| && (free[i].End() == start || free[i].start == end)
  }

  /** A block between the rest of a canonical list keeps it canonical. */
  lemma PutBetween(free: seq<FreeBlock>, lo: int, hi: int, block: FreeBlock)
    requires Canonical(free) && 0 <= lo <= hi <= |free|
    requires block.size >= 0
    requires lo > 0 ==> free[lo - 1].End() < block.start
    requires hi < |free| ==> block.End() < free[hi].start
    ensures Canonical(free[..lo] + [block] + free[hi..])
  {
    var t := free[..lo] + [block] + free[hi..];
    forall i | 0 <= i < |t|
      ensures t[i].size >= 0
      ensures i < lo ==> t[i].End() < block.start
      ensures i > lo ==> block.End() < t[i].start
    {
      if i > lo { assert t[i] == free[i - lo - 1 + hi]; }
    }
  }

  /** A block that stands for free blocks `lo..hi` and an address range adds exactly that range. */
  lemma Coalesced(free: seq<FreeBlock>, lo: int, hi: int, start: int, end: int, block: FreeBlock)
    requires 0 <= lo <= hi <= |free| && hi <= lo + 2
    requires forall x :: block.Has(x) <==>
        start <= x < end || (lo < hi && free[lo].Has(x)) || (lo + 1 < hi && free[lo + 1].Has(x))
    ensures forall x :: InFree(free[..lo] + [block] + free[hi..], x) <==> InFree(free, x) || start <= x < end
  {
    forall x ensures InFree(free[..lo] + [block] + free[hi..], x) <==> InFree(free, x) || start <= x < end {
      Spliced(free, lo, hi, [block], x);
      InFreeFew([block], x);
      InFreeFew(free[lo..hi], x);
    }
  }

  /** Slicing a list that lost its elements `lo..hi` gives the slices of the list it was. */
  lemma Slices(was: seq<FreeBlock>, lo: int, hi: int)
    requires 0 <= lo <= hi <= |was|
    ensures lo == hi ==> was[..lo] + was[hi..] == was
    ensures var list := was[..lo] + was[hi..];
      && list[..lo] == was[..lo] && list[lo..] == was[hi..]
      && (lo > 0 ==> list[lo - 1] == was[lo - 1] && list[..lo - 1] == was[..lo - 1])
  {
  }

  /** The range goes between free blocks `k - 1` and `k`, and takes in each of them that it touches. */
  ghost predicate Between(free: seq<FreeBlock>, k: int, start: int, end: int, lo: int, hi: int, block: FreeBlock) {
    && 0 <= k <= |free| && 0 <= start < end
    && (k > 0 ==> free[k - 1].End() <= start)
    && (k < |free| ==> end <= free[k].start)
    && lo == (if k > 0 && free[k - 1].End() == start then k - 1 else k)
    && hi == (if k < |free| && end == free[k].start then k + 1 else k)
    && block.start == (if lo < k then free[lo].start else start)
    && block.End() == (if k < hi then free[k].End() else end)
  }

  lemma IsBetween(free: seq<FreeBlock>, k: int, start: int, end: int, lo: int, hi: int, newStart: int, newEnd: int)
    requires 0 <= k <= |free| && 0 <= start < end
    requires (k > 0 ==> free[k - 1].End() <= start) && (k < |free| ==> end <= free[k].start)
    requires lo == (if k > 0 && free[k - 1].End() == start then k - 1 else k)
    requires hi == (if k < |free| && end == free[k].start then k + 1 else k)
    requires newStart == (if lo < k then free[lo].start else start)
    requires newEnd == (if k < hi then free[k].End() else end)
    ensures Between(free, k, start, end, lo, hi, FreeBlock(newStart, newEnd - newStart - HEADER))
  {
  }

  lemma TouchesBetween(free: seq<FreeBlock>, k: int, start: int, end: int, lo: int, hi: int, block: FreeBlock)
    requires Canonical(free) && Between(free, k, start, end, lo, hi, block)
    ensures Touches(free, start, end) <==> lo < hi
    ensures lo < hi ==> block.size >= 0
  {
    if lo < k {
      assert free[k - 1].End() == start;
    }
    if k < hi {
      assert free[k].start == end;
    }
  }

  lemma CoalescedAt(free: seq<FreeBlock>, k: int, start: int, end: int, lo: int, hi: int,
                    block: FreeBlock, t: seq<FreeBlock>)
    requires Canonical(free) && Between(free, k, start, end, lo, hi, block) && block.size >= 0
    requires t == free[..lo] + [block] + free[hi..]
    ensures Canonical(t)
    ensures forall x :: InFree(t, x) <==> InFree(free, x) || start <= x < end
  {
    PutBetween(free, lo, hi, block);
    Coalesced(free, lo, hi, start, end, block);
  }

  /** What giving the range back comes to, once it has grown to `block`. */
  lemma GivenBack(free: seq<FreeBlock>, k: int, start: int, end: int, lo: int, hi: int, block: FreeBlock)
    requires Canonical(free) && Between(free, k, start, end, lo, hi, block)
    ensures 0 <= lo <= hi <= |free|
    ensures block.size >= 0 <==> end - start >= HEADER || Touches(free, start, end)
    ensures block.size < 0 ==> free[..lo] + free[hi..] == free
    ensures block.size >= 0 ==> Canonical(free[..lo] + [block] + free[hi..])
    ensures block.size >= 0 ==>
        forall x :: InFree(free[..lo] + [block] + free[hi..], x) <==> InFree(free, x) || start <= x < end
  {
    TouchesBetween(free, k, start, end, lo, hi, block);
    Slices(free, lo, hi);
    if block.size >= 0 {
      CoalescedAt(free, k, start, end, lo, hi, block, free[..lo] + [block] + free[hi..]);
    }
  }

  function IndexOf(used: seq<UsedBlock>, address: int): (k: int)
    ensures -1 <= k < |used|
    ensures k >= 0 ==> used[k].address == address
    ensures k == -1 ==> forall i :: 0 <= i < |used| ==> used[i].address != address
  {
    if used == [] then -1
    else if used[0].address == address then 0
    else
      var k := IndexOf(used[1..], address);
      assert forall i :: 1 <= i < |used| ==> used[i] == used[1..][i - 1];
      if k == -1 then -1 else k + 1
  }

  /** The tail of block `k` beyond `size` bytes is empty, fits a header, or touches a free block. */
  ghost predicate TailIsKept(s: HeapState, k: int, size: int)
    requires 0 <= k < |s.used|
  {
    || size == s.used[k].size
    || s.used[k].size - size >= HEADER
    || Touches(s.free, s.used[k].address + size, s.used[k].End())
  }

  /** What shrinking block `k` does: the tail becomes free if it is kept, else it is dropped. */
  ghost predicate Adjusted(s: HeapState, k: int, size: int, t: HeapState) {
    && 0 <= k < |s.used| && 0 <= size <= s.used[k].size
    && t.used == s.used[k := s.used[k].(size := size)]
    && (if TailIsKept(s, k, size) then Shrunk(s, k, size, t)
        else t.free == s.free && t.start == s.start && t.end == s.end)
  }

  /** A shrink keeps the heap tiled exactly when its tail is kept. */
  lemma AdjustKeepsTiling(s: HeapState, k: int, size: int, t: HeapState)
    requires Tiled(s) && Adjusted(s, k, size, t)
    ensures Tiled(t) <==> TailIsKept(s, k, size)
  {
    if TailIsKept(s, k, size) {
      ShrunkTiled(s, k, size, t);
    } else {
      var lost := s.used[k].address + size;
      assert s.used[k].Has(lost);
      assert InUsed(s.used, lost);
      FreeIsNotUsed(s, lost);
      forall j | 0 <= j < |t.used| ensures !t.used[j].Has(lost) {
        assert j != k ==> t.used[j] == s.used[j];
      }
    }
  }

  /** A heap of two adjacent used blocks. */
  const FULL_HEAP := HeapState(0x1000, 0x1080, [], [UsedBlock(0x1020, 0, 0x20), UsedBlock(0x1060, 0, 0x20)])

  lemma FullHeapTiled()
    ensures Tiled(FULL_HEAP)
  {
    forall x | FULL_HEAP.start <= x < FULL_HEAP.end ensures InUsed(FULL_HEAP.used, x) {
      assert FULL_HEAP.used[0].Has(x) || FULL_HEAP.used[1].Has(x);
    }
  }

  /** Halving the first of two adjacent blocks of 0x20 bytes loses the other 0x10. */
  lemma LostTailExample(t: HeapState)
    requires Adjusted(FULL_HEAP, 0, 0x10, t)
    ensures Tiled(FULL_HEAP) && !Tiled(t)
  {
    FullHeapTiled();
    AdjustKeepsTiling(FULL_HEAP, 0, 0x10, t);
  }

  /** The bytes of an allocation in the parent heap hold a whole child heap: its object, then its memory. */
  ghost predicate Nested(parent: HeapState, child: HeapState) {
    var k := IndexOf(parent.used, child.start - HEAP_OBJECT);
    Owned(parent, k) && child.start <= child.end <= parent.used[k].End()
  }

  /** Trimming a nested heap keeps it inside its allocation and keeps both heaps well formed; the
      child stays tiled, and the parent stays tiled exactly when the tail is kept. */
  lemma TrimKeepsNesting(parent: HeapState, child: HeapState, parent': HeapState, child': HeapState, size: int)
    requires Tiled(parent) && Tiled(child) && Nested(parent, child)
    requires Trimmed(child, child')
    requires size == SizeInParent(child'.start, child'.end)
    requires Adjusted(parent, IndexOf(parent.used, child.start - HEAP_OBJECT), size, parent')
    ensures Tiled(child') && WellFormed(parent') && Nested(parent', child')
    ensures Tiled(parent') <==> TailIsKept(parent, IndexOf(parent.used, child.start - HEAP_OBJECT), size)
  {
    var k := IndexOf(parent.used, child.start - HEAP_OBJECT);
    TrimmedTiled(child, child');
    AdjustedWellFormed(parent, k, size, parent');
    AdjustKeepsTiling(parent, k, size, parent');
    StillNested(parent', k, child');
  }

  /** The size that the allocation of a heap, in its parent, shrinks to when the heap is to end at `end`. */
  function SizeInParent(start: int, end: int): int {
    AlignUp(end - start + HEAP_OBJECT, GRANULARITY)
  }

  /** What a nested heap needs of its allocation once its end has moved down by at least a header. */
  lemma ShrinksInParent(parent: HeapState, child: HeapState, end: int)
    requires Nested(parent, child) && 0 < child.start <= end <= child.end - HEADER
    ensures var k := IndexOf(parent.used, child.start - HEAP_OBJECT);
      k >= 0 && SizeInParent(child.start, end) <= parent.used[k].size
  {
  }

  lemma StillNested(parent: HeapState, k: int, child: HeapState)
    requires WellFormed(parent) && 0 <= k < |parent.used| && child.start <= child.end <= parent.used[k].End()
    requires child.start - HEAP_OBJECT == parent.used[k].address
    ensures Nested(parent, child)
  {
    OnlyIndex(parent, k);
  }

  /** A trimmed block with at least a granule of payload is always kept: its bytes, up to rounding,
      become free in the parent. */
  lemma TrimmedTailIsFree(parent: HeapState, child: HeapState, parent': HeapState, child': HeapState, size: int)
    requires Tiled(parent) && Tiled(child) && Nested(parent, child)
    requires Trimmed(child, child')
    requires size == SizeInParent(child'.start, child'.end)
    requires Adjusted(parent, IndexOf(parent.used, child.start - HEAP_OBJECT), size, parent')
    requires child.free[|child.free| - 1].size >= GRANULARITY
    ensures Tiled(parent')
    ensures forall x :: child'.end + GRANULARITY - 1 <= x < child.end ==> InFree(parent'.free, x)
  {
    AdjustKeepsTiling(parent, IndexOf(parent.used, child.start - HEAP_OBJECT), size, parent');
  }

  /** The alignment an allocation works with, once the minimum is enforced. */
  function EnforcedAlignment(alignment: int): (a: int)
    ensures a >= MINIMUM_ALIGNMENT
    ensures alignment < MINIMUM_ALIGNMENT || Alignment(alignment) ==> Alignment(a)
  {
    assert Pow2(2) == 4;
    if alignment < MINIMUM_ALIGNMENT then MINIMUM_ALIGNMENT else alignment
  }

  /** The bytes a new child heap takes; zero stands for the whole of the parent's largest block. */
  function AskedSize(free: seq<FreeBlock>, size: int, a: int): int
    requires a > 0
  {
    if size == 0 then Maximum(free, a) else size
  }

  /** The smallest memory a heap can be created in. */
  const MINIMUM_HEAP: int := HEAP_OBJECT + HEADER + GRANULARITY

  /** The memory of a heap of `size` bytes at `address`, object included, before any allocation. */
  function FreshHeap(address: int, size: int): HeapState {
    HeapState(address + HEAP_OBJECT, Word(address + size),
              [FreeBlock(address + HEAP_OBJECT, size - HEAP_OBJECT - HEADER)], [])
  }

  /** What creating a child heap does to the parent: nothing when the size is too small, else an
      allocation whose address becomes the heap, unless it is null. */
  ghost predicate Created(s: HeapState, isBestFit: bool, size: int, a: int, isNull: bool, address: int, t: HeapState)
    requires a > 0
  {
    var asked := AskedSize(s.free, size, a);
    if asked < MINIMUM_HEAP then isNull && t == s
    else
      && Allocated(s, isBestFit, asked, a, address, t)
      && (isNull <==> address == 0)
  }

  /** A new child heap is tiled and lies inside its allocation exactly if its size can be rounded up
      without wrapping around. */
  lemma CreatedIsNested(s: HeapState, isBestFit: bool, size: int, a: int, address: int, t: HeapState)
    requires WellFormed(s) && Alignment(a) && 0 <= size < WORD64
    requires Created(s, isBestFit, size, a, false, address, t)
    ensures WellFormed(t) && (Tiled(s) ==> Tiled(t))
    ensures var asked := AskedSize(s.free, size, a);
      && (Tiled(FreshHeap(address, asked)) <==> asked + a - 1 < WORD64)
      && (Nested(t, FreshHeap(address, asked)) <==> asked + a - 1 < WORD64)
  {
    var asked := AskedSize(s.free, size, a);
    MaximumBelowArena(s.free, a);
    AllocatedTiled(s, isBestFit, asked, a, address, t);
    if asked + a - 1 < WORD64 {
      OwnedIsNested(t, |s.used|, asked);
    } else {
      WrappedIsNotNested(t, |s.used|, asked, a);
    }
  }

  lemma WrappedIsNotNested(t: HeapState, k: int, asked: int, a: int)
    requires Owned(t, k) && IndexOf(t.used, t.used[k].address) == k
    requires Alignment(a) && WORD64 - a < asked < WORD64 && t.used[k].address > 0
    ensures !Tiled(FreshHeap(t.used[k].address, asked)) && !Nested(t, FreshHeap(t.used[k].address, asked))
  {
  }

  /** A heap whose memory is one free block. */
  const SMALL_HEAP := HeapState(0x1000, 0x2000, [FreeBlock(0x1000, 0xfe0)], [])

  lemma SmallHeapTiled()
    ensures Tiled(SMALL_HEAP)
  {
    forall x | SMALL_HEAP.start <= x < SMALL_HEAP.end ensures InFree(SMALL_HEAP.free, x) {
      assert SMALL_HEAP.free[0].Has(x);
    }
  }

  lemma SmallHeapGrants(isBestFit: bool)
    ensures Allocated(SMALL_HEAP, isBestFit, WORD64 - 1, 4, 0x1020, Cut(SMALL_HEAP, 0, 0x1020, 0))
  {
    assert Pow2(2) == 4;
    WrappedRequest(WORD64 - 1, 4);
    MultipleAligned(0x1020, 4);
    assert Fits(SMALL_HEAP.free[0], 0, 4) && Chosen(SMALL_HEAP.free, isBestFit, 0, 4, 0);
  }

  /** A request for a child of 2^64 - 1 bytes is granted out of a heap of 4096 bytes, and the child does
      not lie inside its memory. */
  lemma WrappedChildExample(isBestFit: bool)
    ensures Tiled(SMALL_HEAP)
    ensures var t := Cut(SMALL_HEAP, 0, 0x1020, 0);
      Created(SMALL_HEAP, isBestFit, WORD64 - 1, 4, false, 0x1020, t) && !Nested(t, FreshHeap(0x1020, WORD64 - 1))
  {
    SmallHeapTiled();
    SmallHeapGrants(isBestFit);
    assert Pow2(2) == 4;
    CreatedIsNested(SMALL_HEAP, isBestFit, WORD64 - 1, 4, 0x1020, Cut(SMALL_HEAP, 0, 0x1020, 0));
  }

  lemma OwnedIsNested(t: HeapState, k: int, asked: int)
    requires Owned(t, k) && IndexOf(t.used, t.used[k].address) == k
    requires MINIMUM_HEAP <= asked <= t.used[k].size && t.used[k].address > 0
    ensures Tiled(FreshHeap(t.used[k].address, asked)) && Nested(t, FreshHeap(t.used[k].address, asked))
  {
    FreshHeapTiled(t.used[k].address, asked);
  }

  /** Asking for the whole of the parent's largest block succeeds exactly when that block is large
      enough for a heap and its size is already a multiple of the alignment. */
  lemma WholeHeapCreated(s: HeapState, isBestFit: bool, a: int, isNull: bool, address: int, t: HeapState)
    requires WellFormed(s) && Alignment(a)
    requires Created(s, isBestFit, 0, a, isNull, address, t)
    ensures !isNull <==> MINIMUM_HEAP <= Maximum(s.free, a) && Maximum(s.free, a) % a == 0
  {
    var most := Maximum(s.free, a);
    MaximumBelowArena(s.free, a);
    if most >= MINIMUM_HEAP {
      AllocationFails(s, isBestFit, most, a, address, t);
      var needed := AlignUp(most, a);
      FitThreshold(s.free, a, needed);
      assert address != 0 <==> needed <= most;
      RoundingFits(most, a);
    }
  }

  /** A heap whose memory is one free block of 0x2fe2 bytes, two more than a multiple of four. */
  const ODD_HEAP := HeapState(0x1000, 0x4002, [FreeBlock(0x1000, 0x2fe2)], [])

  lemma OddHeapMost()
    ensures WellFormed(ODD_HEAP) && Maximum(ODD_HEAP.free, 4) == 0x2fe2
  {
    MultipleAligned(0x1020, 4);
    assert ODD_HEAP.free[..0] == [];
  }

  /** A child of the whole of that block is refused, although the block has room for a heap. */
  lemma WholeHeapRefused(isBestFit: bool, isNull: bool, address: int, t: HeapState)
    requires Created(ODD_HEAP, isBestFit, 0, 4, isNull, address, t)
    ensures WellFormed(ODD_HEAP) && MINIMUM_HEAP <= Maximum(ODD_HEAP.free, 4) && isNull
  {
    assert Pow2(2) == 4;
    OddHeapMost();
    WholeHeapCreated(ODD_HEAP, isBestFit, 4, isNull, address, t);
  }

  /** An allocation returns null exactly when no block fits the aligned size. */
  lemma AllocationFails(s: HeapState, isBestFit: bool, size: int, a: int, address: int, t: HeapState)
    requires WellFormed(s) && Alignment(a) && 0 <= size < WORD64
    requires Allocated(s, isBestFit, size, a, address, t)
    ensures address == 0 <==> forall j :: 0 <= j < |s.free| ==> !Fits(s.free[j], AlignedSize(s.free, size, a), a)
  {
    if j :| 0 <= j < |s.free| && Fits(s.free[j], AlignedSize(s.free, size, a), a) {
      if t != s {
        var i := WhichBlock(s, isBestFit, size, a, address, t);
        var u := AllocatedIsCarved(s, isBestFit, size, a, i);
      }
    }
  }

  lemma MaximumBelowArena(free: seq<FreeBlock>, a: int)
    requires Bounded(free) && Alignment(a)
    ensures 0 <= Maximum(free, a) < ADDRESS_LIMIT
  {
    MaximumIsReached(free, a);
    if i :| 0 <= i < |free| && free[i].size - Padding(free[i], a) == Maximum(free, a) {
      NeededSize(free[i], 0, a);
    }
  }

  lemma FreshHeapTiled(address: int, size: int)
    requires 0 < address && address + size < ADDRESS_LIMIT && MINIMUM_HEAP <= size
    ensures Tiled(FreshHeap(address, size))
  {
    var s := FreshHeap(address, size);
    forall x | s.start <= x < s.end ensures InFree(s.free, x) {
      assert s.free[0].Has(x);
    }
  }

  // ---------------------------------------------------------------------------------------
  // What a request answers, in the terms of the caller.

  /** Block `b` has room, at `at`, for `n` bytes that start at a multiple of `align` behind a header. */
  ghost predicate Room(b: FreeBlock, at: int, n: int, align: int)
    requires align > 0
  {
    at % align == 0 && b.start + 0x20 <= at && at + n <= b.start + 0x20 + b.size
  }

  ghost predicate NoRoom(free: seq<FreeBlock>, n: int, align: int)
    requires align > 0
  {
    forall i, at :: 0 <= i < |free| ==> !Room(free[i], at, n, align)
  }

  /** `n` is the most that any block of the list has room for, and zero if none has room for a byte. */
  ghost predicate IsMost(free: seq<FreeBlock>, align: int, n: int)
    requires align > 0
  {
    && 0 <= n
    && (forall i, at, m :: 0 <= i < |free| && Room(free[i], at, m, align) ==> m <= n)
    && (n > 0 ==> !NoRoom(free, n, align))
  }

  /** `n` is the number of bytes that a request takes: the next multiple of the alignment, none if that is
      past the 64-bit range, and for size zero the most that any block has room for. */
  ghost predicate Takes(free: seq<FreeBlock>, size: int, align: int, n: int)
    requires align > 0
  {
    if size == 0 then IsMost(free, align, n)
    else if size + align - 1 < WORD64 then n % align == 0 && size <= n < size + align
    else n == 0
  }

  /** Block `i` is the one to take: with best fit the smallest with room, and the first of those; else the
      first with room. */
  ghost predicate Preferred(free: seq<FreeBlock>, isBestFit: bool, n: int, align: int, i: int)
    requires align > 0 && 0 <= i < |free|
  {
    forall j, at :: 0 <= j < |free| && j != i && Room(free[j], at, n, align) ==>
      if isBestFit then free[i].size < free[j].size || (free[i].size == free[j].size && i < j) else i < j
  }

  /** `n` bytes at `address` and a header in front of them are taken out of free block `i`; what is left of
      the block at either end stays free exactly if it holds a header and four bytes. */
  ghost predicate TakenFrom(s: HeapState, i: int, address: int, n: int, t: HeapState) {
    && 0 <= i < |s.free| && Canonical(t.free) && t.start == s.start && t.end == s.end
    && var b := s.free[i];
       var before, after := address - 0x20 - b.start, b.start + 0x20 + b.size - (address + n);
       && t.used == s.used + [UsedBlock(address, if before >= 0x24 then 0 else before,
                                        if after >= 0x24 then n else n + after)]
       && (forall x :: InFree(t.free, x) <==>
             && InFree(s.free, x)
             && (b.start <= x < address - 0x20 ==> before >= 0x24)
             && !(address - 0x20 <= x < address + n)
             && (address + n <= x < b.start + 0x20 + b.size ==> after >= 0x24))
  }

  /** The answer to a request for `size` bytes at a multiple of `align`: null, and no change, exactly if no
      block has room for what it takes; else the lowest address with room in the block to take. */
  ghost predicate Answers(s: HeapState, isBestFit: bool, size: int, align: int, address: int, t: HeapState)
    requires align > 0
  {
    exists n :: Takes(s.free, size, align, n) && AnswersFor(s, isBestFit, n, align, address, t)
  }

  ghost predicate AnswersFor(s: HeapState, isBestFit: bool, n: int, align: int, address: int, t: HeapState)
    requires align > 0
  {
    && (address == 0 <==> NoRoom(s.free, n, align))
    && (address == 0 ==> t == s)
    && (address != 0 ==> exists i ::
          && 0 <= i < |s.free|
          && Room(s.free[i], address, n, align)
          && (forall at :: Room(s.free[i], at, n, align) ==> address <= at)
          && Preferred(s.free, isBestFit, n, align, i)
          && TakenFrom(s, i, address, n, t))
  }

  /** A block fits a size exactly if it has room for it somewhere, and the lowest such address is the one
      that the search computes. */
  lemma RoomIsFits(b: FreeBlock, n: int, a: int)
    requires Alignment(a) && 0 < b.start && 0 <= b.size && b.End() < ADDRESS_LIMIT && 0 <= n
    ensures Fits(b, n, a) <==> Room(b, AllocationAddress(b, a), n, a)
    ensures forall at :: Room(b, at, n, a) ==> Fits(b, n, a) && AllocationAddress(b, a) <= at
  {
    AlignedIsMultiple(b.start + HEADER, a);
    forall at | Room(b, at, n, a) ensures AllocationAddress(b, a) <= at {
      LeastMultiple(b.start + HEADER, at, a);
    }
  }

  lemma LeastMultiple(value: int, at: int, a: int)
    requires a > 0 && 0 <= value <= at && value + a - 1 < WORD64 && at % a == 0
    ensures AlignUp(value, a) <= at
  {
    AlignedIsMultiple(value, a);
    var up := AlignUp(value, a);
    assert at == (at / a) * a && up == (up / a) * a;
    if at < up {
      MultipleBelow(at / a, up / a, a);
    }
  }

  lemma NoRoomIsNoFit(free: seq<FreeBlock>, n: int, a: int)
    requires Bounded(free) && Alignment(a) && 0 <= n
    ensures NoRoom(free, n, a) <==> forall i :: 0 <= i < |free| ==> !Fits(free[i], n, a)
  {
    forall i | 0 <= i < |free| ensures Fits(free[i], n, a) <==> exists at :: Room(free[i], at, n, a) {
      RoomIsFits(free[i], n, a);
    }
  }

  /** The computed maximum is the most that any block has room for. */
  lemma MaximumIsMost(free: seq<FreeBlock>, a: int)
    requires Bounded(free) && Alignment(a)
    ensures IsMost(free, a, Maximum(free, a))
  {
    var most := Maximum(free, a);
    MaximumIsReached(free, a);
    forall i, at, m | 0 <= i < |free| && Room(free[i], at, m, a) ensures m <= most {
      if m >= 0 {
        RoomIsFits(free[i], m, a);
      }
    }
    if i :| most > 0 && 0 <= i < |free| && free[i].size - Padding(free[i], a) == most {
      RoomIsFits(free[i], most, a);
      assert Room(free[i], AllocationAddress(free[i], a), most, a);
    }
  }

  lemma AlignedIsTaken(free: seq<FreeBlock>, size: int, a: int)
    requires Bounded(free) && Alignment(a) && 0 <= size < WORD64
    ensures Takes(free, size, a, AlignedSize(free, size, a))
  {
    if size == 0 {
      MaximumIsMost(free, a);
    } else if size + a - 1 < WORD64 {
      AlignedIsMultiple(size, a);
    } else {
      WrappedRequest(size, a);
    }
  }

  lemma ChosenIsPreferred(free: seq<FreeBlock>, isBestFit: bool, n: int, a: int, i: int)
    requires Bounded(free) && Alignment(a) && 0 <= n && Chosen(free, isBestFit, n, a, i)
    ensures Preferred(free, isBestFit, n, a, i)
  {
    forall j, at | 0 <= j < |free| && j != i && Room(free[j], at, n, a)
      ensures if isBestFit then free[i].size < free[j].size || (free[i].size == free[j].size && i < j) else i < j
    {
      RoomIsFits(free[j], n, a);
    }
  }

  lemma CutIsTaken(s: HeapState, i: int, address: int, n: int)
    requires Canonical(s.free) && 0 <= i < |s.free| && InBlock(s.free[i], address, n)
    ensures TakenFrom(s, i, address, n, Cut(s, i, address, n))
  {
    CutCarved(s, i, address, n);
    var b, t := s.free[i], Cut(s, i, address, n);
    forall x | b.Has(x) ensures InFree(s.free, x) {
      assert s.free[i].Has(x);
    }
  }

  lemma AllocatedAligned(s: HeapState, isBestFit: bool, size: int, a: int, address: int, t: HeapState)
    requires Bounded(s.free) && Alignment(a) && 0 <= size < WORD64
    requires Allocated(s, isBestFit, size, a, address, t)
    ensures address % a == 0
  {
    if address != 0 || t != s {
      var i := WhichBlock(s, isBestFit, size, a, address, t);
      FittingRoom(s.free, size, a, i);
    }
  }

  /** What an allocation does is what the caller asked for. */
  lemma AllocatedAnswers(s: HeapState, isBestFit: bool, size: int, a: int, address: int, t: HeapState)
    requires Canonical(s.free) && Bounded(s.free) && Alignment(a) && 0 <= size < WORD64
    requires Allocated(s, isBestFit, size, a, address, t)
    ensures Answers(s, isBestFit, size, a, address, t)
  {
    var n := AlignedSize(s.free, size, a);
    NeededRoom(s.free, size, a);
    AlignedIsTaken(s.free, size, a);
    NoRoomIsNoFit(s.free, n, a);
    if !NoRoom(s.free, n, a) {
      var i :| Chosen(s.free, isBestFit, n, a, i) && address == AllocationAddress(s.free[i], a)
               && t == Cut(s, i, address, n);
      FittingRoom(s.free, size, a, i);
      RoomIsFits(s.free[i], n, a);
      ChosenIsPreferred(s.free, isBestFit, n, a, i);
      CutIsTaken(s, i, address, n);
    }
    assert AnswersFor(s, isBestFit, n, a, address, t);
  }

  /** The same of a request with an alignment that may be below the minimum. */
  lemma AnswersAsAsked(s: HeapState, isBestFit: bool, size: int, alignment: int, address: int, t: HeapState)
    requires Bounded(s.free) && 0 <= size < WORD64 && (alignment < MINIMUM_ALIGNMENT || Alignment(alignment))
    requires Allocated(s, isBestFit, size, EnforcedAlignment(alignment), address, t)
    ensures Canonical(s.free) ==>
        Answers(s, isBestFit, size, if alignment < 4 then 4 else alignment, address, t)
    ensures address % (if alignment < 4 then 4 else alignment) == 0
  {
    var a := if alignment < 4 then 4 else alignment;
    assert EnforcedAlignment(alignment) == a;
    AllocatedAligned(s, isBestFit, size, a, address, t);
    if Canonical(s.free) {
      AllocatedAnswers(s, isBestFit, size, a, address, t);
    }
  }

  /** The answer to a request for a child heap of `size` bytes, zero standing for the most that the parent has
      room for: no heap below 0xc4 bytes, and none if an allocation of so many bytes gives none; else one free
      block behind the heap object, over the bytes asked for. */
  ghost predicate ChildGranted(s: HeapState, isBestFit: bool, size: int, align: int, heap: Option<HeapState>,
                               t: HeapState)
    requires align > 0
  {
    exists asked ::
      && (if size == 0 then IsMost(s.free, align, asked) else asked == size)
      && ChildAnswers(s, isBestFit, asked, align, heap, t)
  }

  ghost predicate ChildAnswers(s: HeapState, isBestFit: bool, asked: int, align: int, heap: Option<HeapState>,
                               t: HeapState)
    requires align > 0
  {
    match heap
    case None => if asked < 0xc4 then t == s else Answers(s, isBestFit, asked, align, 0, t)
    case Some(h) =>
      var address := h.start - 0xa0;
      && asked >= 0xc4 && address != 0 && Answers(s, isBestFit, asked, align, address, t)
      && h == HeapState(address + 0xa0, (address + asked) % WORD64, [FreeBlock(address + 0xa0, asked - 0xc0)], [])
  }

  lemma GrantedBy(s: HeapState, isBestFit: bool, size: int, asked: int, a: int, heap: Option<HeapState>, t: HeapState)
    requires a > 0 && (if size == 0 then IsMost(s.free, a, asked) else asked == size)
    requires heap.Some? ==> asked >= 0xc4 && heap.value == FreshHeap(heap.value.start - HEAP_OBJECT, asked)
    requires heap.Some? ==> heap.value.start != HEAP_OBJECT
    requires asked < 0xc4 ==> t == s
    requires asked >= 0xc4 ==>
      Answers(s, isBestFit, asked, a, if heap.None? then 0 else heap.value.start - HEAP_OBJECT, t)
    ensures ChildGranted(s, isBestFit, size, a, heap, t)
  {
    assert ChildAnswers(s, isBestFit, asked, a, heap, t);
  }

  lemma CreatedGrants(s: HeapState, isBestFit: bool, size: int, a: int, heap: Option<HeapState>, t: HeapState)
    requires Canonical(s.free) && Bounded(s.free) && Alignment(a) && 0 <= size < WORD64
    requires var address := if heap.None? then 0 else heap.value.start - HEAP_OBJECT;
      Created(s, isBestFit, size, a, heap.None?, address, t)
    requires heap.Some? ==> heap.value == FreshHeap(heap.value.start - HEAP_OBJECT, AskedSize(s.free, size, a))
    ensures ChildGranted(s, isBestFit, size, a, heap, t)
  {
    var asked := AskedSize(s.free, size, a);
    MaximumIsMost(s.free, a);
    MaximumBelowArena(s.free, a);
    if asked >= 0xc4 {
      AllocatedAnswers(s, isBestFit, asked, a, if heap.None? then 0 else heap.value.start - HEAP_OBJECT, t);
    }
    GrantedBy(s, isBestFit, size, asked, a, heap, t);
  }

  /** What creating a child heap does is what the caller asked for. */
  lemma GrantedAsAsked(s: HeapState, isBestFit: bool, size: int, alignment: int, heap: Option<HeapState>,
                       t: HeapState)
    requires Bounded(s.free) && 0 <= size < WORD64 && (alignment < MINIMUM_ALIGNMENT || Alignment(alignment))
    requires var address := if heap.None? then 0 else heap.value.start - HEAP_OBJECT;
      Created(s, isBestFit, size, EnforcedAlignment(alignment), heap.None?, address, t)
    requires heap.Some? ==>
      heap.value == FreshHeap(heap.value.start - HEAP_OBJECT, AskedSize(s.free, size, EnforcedAlignment(alignment)))
    ensures Canonical(s.free) ==>
        ChildGranted(s, isBestFit, size, if alignment < 4 then 4 else alignment, heap, t)
  {
    var a := if alignment < 4 then 4 else alignment;
    assert EnforcedAlignment(alignment) == a;
    if Canonical(s.free) {
      CreatedGrants(s, isBestFit, size, a, heap, t);
    }
  }

  // ---------------------------------------------------------------------------------------
  // Runs of calls.

  /** A call of the heap: an allocation with its answer, a free of used block `k`, a shrink of it, or a trim
      of the arena. */
  datatype Call =
    | Allocate(isBestFit: bool, bytes: int, alignment: int, address: int)
    | Free(k: int)
    | Shrink(k: int, size: int)
    | Trim

  /** What a call makes of the heap. */
  ghost predicate Does(call: Call, s: HeapState, t: HeapState) {
    match call
    case Allocate(isBestFit, bytes, a, address) =>
      Alignment(a) && 0 <= bytes < WORD64 && Allocated(s, isBestFit, bytes, a, address, t)
    case Free(k) => Released(s, k, t)
    case Shrink(k, size) => Adjusted(s, k, size, t)
    case Trim => Trimmed(s, t)
  }

  /** The call is not a shrink that drops its tail. */
  ghost predicate Keeps(call: Call, s: HeapState) {
    call.Shrink? && 0 <= call.k < |s.used| ==> TailIsKept(s, call.k, call.size)
  }

  /** Every call keeps the heap well formed, and keeps it tiled exactly if it drops no tail. */
  lemma CallTiled(call: Call, s: HeapState, t: HeapState)
    requires WellFormed(s) && Does(call, s, t)
    ensures WellFormed(t) && (Tiled(s) ==> (Tiled(t) <==> Keeps(call, s)))
  {
    match call
    case Allocate(isBestFit, bytes, a, address) => AllocatedTiled(s, isBestFit, bytes, a, address, t);
    case Free(k) => ReleasedTiled(s, k, t);
    case Shrink(k, size) =>
      AdjustedWellFormed(s, k, size, t);
      if Tiled(s) {
        AdjustKeepsTiling(s, k, size, t);
      }
    case Trim => TrimmedTiled(s, t);
  }

  /** State `i` of a run follows from the one before it by the call between them. */
  ghost predicate CallInto(calls: seq<Call>, states: seq<HeapState>, i: int) {
    0 < i < |states| == |calls| + 1 && Does(calls[i - 1], states[i - 1], states[i])
  }

  ghost predicate Run(calls: seq<Call>, states: seq<HeapState>) {
    |states| == |calls| + 1 && forall i :: 0 < i < |states| ==> CallInto(calls, states, i)
  }

  /** No shrink among the first `k` calls drops its tail. */
  ghost predicate TailsKept(calls: seq<Call>, states: seq<HeapState>, k: int) {
    forall i :: 0 <= i < k && i < |calls| && i < |states| ==> Keeps(calls[i], states[i])
  }

  /** Over every run of calls the heap stays well formed, and all its states are tiled exactly if no shrink
      drops its tail. */
  lemma {:induction false} RunTiled(calls: seq<Call>, states: seq<HeapState>, k: int)
    requires Run(calls, states) && Tiled(states[0]) && 0 <= k < |states|
    ensures WellFormed(states[k])
    ensures (forall j :: 0 <= j <= k ==> Tiled(states[j])) <==> TailsKept(calls, states, k)
    decreases k
  {
    if k > 0 {
      RunTiled(calls, states, k - 1);
      assert CallInto(calls, states, k);
      CallTiled(calls[k - 1], states[k - 1], states[k]);
      if forall j :: 0 <= j <= k ==> Tiled(states[j]) {
        assert TailsKept(calls, states, k - 1);
      }
    }
  }

  /** Two runs from tiled heaps that dropped no tail, and that end with the same bounds and the same live
      blocks, end with the same free list, whatever was called on the way and in what order. */
  lemma RunsAgree(calls: seq<Call>, states: seq<HeapState>, calls': seq<Call>, states': seq<HeapState>)
    requires Run(calls, states) && Tiled(states[0]) && TailsKept(calls, states, |calls|)
    requires Run(calls', states') && Tiled(states'[0]) && TailsKept(calls', states', |calls'|)
    requires states[|calls|].start == states'[|calls'|].start && states[|calls|].end == states'[|calls'|].end
    requires multiset(states[|calls|].used) == multiset(states'[|calls'|].used)
    ensures states[|calls|].free == states'[|calls'|].free
  {
    RunTiled(calls, states, |calls|);
    RunTiled(calls', states', |calls'|);
    FreeListIsCanonical(states[|calls|], states'[|calls'|]);
  }

  class ExpHeap {
    const startAddress: int
    var endAddress: int
    var freeList: seq<FreeBlock>
    var usedList: seq<UsedBlock>
    var isBestFit: bool
    var parent: ExpHeap?

    ghost function State(): HeapState
      reads this
    {
      HeapState(startAddress, endAddress, freeList, usedList)
    }

    /** A heap over memory of its own. */
    constructor (address: int, size: int)
      requires 0 < address && address + size < ADDRESS_LIMIT && MINIMUM_HEAP <= size
      ensures State() == FreshHeap(address, size) && Tiled(State())
      ensures parent == null && isBestFit
    {
      startAddress := address + HEAP_OBJECT;
      endAddress := address + size;
      freeList := [FreeBlock(address + HEAP_OBJECT, size - (HEAP_OBJECT + HEADER))];
      usedList := [];
      isBestFit := true;
      parent := null;
      FreshHeapTiled(address, size);
    }

    /** A heap inside memory already allocated from `parent`. */
    constructor Child(parent: ExpHeap, address: int, size: int)
      ensures State() == FreshHeap(address, size)
      ensures this.parent == parent && isBestFit
    {
      startAddress := address + HEAP_OBJECT;
      endAddress := Word(address + size);
      freeList := [FreeBlock(address + HEAP_OBJECT, size - (HEAP_OBJECT + HEADER))];
      usedList := [];
      isBestFit := true;
      this.parent := parent;
    }

    /** Creates a heap in memory allocated from `parent`; size zero asks for the largest block.
        Returns null when the size is too small or no block of the parent fits it. The new heap lies
        inside its memory unless the size is so large that rounding it up wraps. */
    static method TryCreate(parent: ExpHeap, size: int, alignment: int) returns (heap: ExpHeap?)
      requires Bounded(parent.freeList)
      requires 0 <= size < WORD64 && (alignment < MINIMUM_ALIGNMENT || Alignment(alignment))
      modifies parent`freeList, parent`usedList
      ensures Created(old(parent.State()), parent.isBestFit, size, EnforcedAlignment(alignment), heap == null,
                      if heap == null then 0 else heap.startAddress - HEAP_OBJECT, parent.State())
      ensures heap != null ==>
        && fresh(heap) && heap.parent == parent
        && heap.State() == FreshHeap(heap.startAddress - HEAP_OBJECT,
                                     AskedSize(old(parent.freeList), size, EnforcedAlignment(alignment)))
      ensures heap != null ==> (heap.startAddress - 0xa0) % (if alignment < 4 then 4 else alignment) == 0
    {
      var a := EnforcedAlignment(alignment);
      assert Alignment(a);
      var asked := size;
      if size == 0 {
        asked := parent.GetMaximumAllocatableSizeUnsafe(a);
      }
      MaximumBelowArena(parent.freeList, a);
      assert asked == AskedSize(old(parent.freeList), size, a);
      if asked < MINIMUM_HEAP {
        return null;
      }
      ghost var s := parent.State();
      var memory := parent.TryAllocate(asked, alignment);
      ghost var t := parent.State();
      assert Allocated(s, parent.isBestFit, asked, a, memory, t);
      if memory == 0 {
        return null;
      }
      heap := new ExpHeap.Child(parent, memory, asked);
      assert parent.State() == t;
    }

    /** The last block that starts before an address, and the first that does not; when there is no
        such block, the last one stands in for it. */
    method FindNeighbours(newStart: int) returns (prev: int, next: int)
      ensures -1 <= prev < |freeList|
      ensures forall j :: 0 <= j <= prev ==> freeList[j].start < newStart
      ensures next == if prev + 1 < |freeList| then prev + 1 else prev
      ensures prev + 1 < |freeList| ==> newStart <= freeList[prev + 1].start
    {
      prev, next := -1, -1;
      var i := 0;
      while i < |freeList|
        invariant 0 <= i <= |freeList|
        invariant prev == i - 1 && next == i - 1
        invariant forall j :: 0 <= j < i ==> freeList[j].start < newStart
      {
        next := i;
        if newStart <= freeList[i].start { break; }
        prev := i;
        i := i + 1;
      }
    }

    /** Takes the free blocks that touch a range out of the list: the range grows by them, and the
        link says how many blocks stay in front of it. */
    method UnlinkNeighbours(rangeStart: int, rangeEnd: int)
      returns (newStart: int, newEnd: int, link: int, ghost k: int, ghost lo: int, ghost hi: int)
      requires Canonical(freeList) && 0 <= rangeStart < rangeEnd
      requires forall i :: 0 <= i < |freeList| ==> freeList[i].End() <= rangeStart || rangeEnd <= freeList[i].start
      modifies this`freeList
      ensures Between(old(freeList), k, rangeStart, rangeEnd, lo, hi, FreeBlock(newStart, newEnd - newStart - HEADER))
      ensures link == lo && freeList == old(freeList)[..lo] + old(freeList)[hi..]
    {
      ghost var was := freeList;
      newStart, newEnd, link := rangeStart, rangeEnd, 0;
      k, lo, hi := 0, 0, 0;
      if |freeList| != 0 {
        var prev, next := FindNeighbours(newStart);
        k := prev + 1;
        assert k > 0 ==> was[k - 1].End() <= rangeStart;
        newEnd, hi := UnlinkNext(rangeStart, rangeEnd, was, next, k);
        newStart, link := UnlinkPrevious(rangeStart, was, prev, hi);
        lo := link;
        IsBetween(was, k, rangeStart, rangeEnd, lo, hi, newStart, newEnd);
      }
    }

    /** Takes the next block out of the list if it starts where the range ends. */
    method UnlinkNext(rangeStart: int, rangeEnd: int, ghost was: seq<FreeBlock>, next: int, ghost k: int)
      returns (newEnd: int, ghost hi: int)
      requires freeList == was && 0 <= k <= |was| && 0 < |was| && rangeStart < rangeEnd
      requires next == if k < |was| then k else k - 1
      requires forall j :: 0 <= j < k ==> was[j].start < rangeStart
      modifies this`freeList
      ensures hi == if k < |was| && rangeEnd == was[k].start then k + 1 else k
      ensures newEnd == if k < hi then was[k].End() else rangeEnd
      ensures freeList == was[..k] + was[hi..]
    {
      newEnd, hi := rangeEnd, k;
      if next >= 0 && newEnd == freeList[next].start {
        hi := k + 1;
        newEnd := freeList[next].End();
        freeList := freeList[..next] + freeList[next + 1..];
      } else {
        Slices(was, k, k);
      }
    }

    /** Takes the previous block out of the list if it ends where the range starts. */
    method UnlinkPrevious(rangeStart: int, ghost was: seq<FreeBlock>, prev: int, ghost hi: int)
      returns (newStart: int, link: int)
      requires -1 <= prev < hi <= |was| && freeList == was[..prev + 1] + was[hi..]
      modifies this`freeList
      ensures link == if prev >= 0 && was[prev].End() == rangeStart then prev else prev + 1
      ensures newStart == if link == prev then was[prev].start else rangeStart
      ensures freeList == was[..link] + was[hi..]
    {
      newStart, link := rangeStart, 0;
      if prev >= 0 {
        Slices(was, prev + 1, hi);
        link := prev + 1;
        if newStart == freeList[prev].End() {
          link := prev;
          newStart := freeList[prev].start;
          freeList := freeList[..prev] + freeList[prev + 1..];
        }
      }
    }

    /** Gives an address range back, merged with the free blocks it touches. */
    method AddFreeBlock(rangeStart: int, rangeEnd: int) returns (added: bool)
      requires Canonical(freeList) && 0 <= rangeStart < rangeEnd
      requires forall i :: 0 <= i < |freeList| ==> freeList[i].End() <= rangeStart || rangeEnd <= freeList[i].start
      modifies this`freeList
      ensures added <==> rangeEnd - rangeStart >= HEADER || Touches(old(freeList), rangeStart, rangeEnd)
      ensures !added ==> freeList == old(freeList)
      ensures added ==> Canonical(freeList)
      ensures added ==> forall x :: InFree(freeList, x) <==> InFree(old(freeList), x) || rangeStart <= x < rangeEnd
    {
      ghost var was := freeList;
      var newStart, newEnd, link, k, lo, hi := UnlinkNeighbours(rangeStart, rangeEnd);
      var newSize := newEnd - newStart;
      var block := FreeBlock(newStart, newSize - HEADER);
      GivenBack(was, k, rangeStart, rangeEnd, lo, hi, block);
      if newSize < HEADER {
        return false;
      }
      assert freeList[..link] == was[..lo] && freeList[link..] == was[hi..] by {
        Slices(was, lo, hi);
      }
      freeList := freeList[..link] + [block] + freeList[link..];
      return true;
    }

    /** Turns free block `i` into a used block, keeping what is large enough at both ends free. */
    method AddUsedBlock(i: int, allocationAddress: int, size: int)
      requires 0 <= i < |freeList| && InBlock(freeList[i], allocationAddress, size)
      modifies this`freeList, this`usedList
      ensures State() == Cut(old(State()), i, allocationAddress, size)
      ensures Canonical(old(freeList)) ==> TakenFrom(old(State()), i, allocationAddress, size, State())
    {
      ghost var s := State();
      var block := freeList[i];
      var before, after := freeList[..i], freeList[i + 1..];
      var newFreeAddress := allocationAddress + size;
      var leftover := block.End() - newFreeAddress;
      var padding := allocationAddress - HEADER - block.start;
      if HEADER + GRANULARITY <= padding {
        before := before + [FreeBlock(block.start, padding - HEADER)];
        padding := 0;
      }
      if HEADER + GRANULARITY <= leftover {
        after := [FreeBlock(newFreeAddress, leftover - HEADER)] + after;
        leftover := 0;
      }
      assert before == freeList[..i] + FrontRest(block, allocationAddress);
      assert after == BackRest(block, allocationAddress, size) + freeList[i + 1..];
      Regrouped(freeList[..i], FrontRest(block, allocationAddress),
                BackRest(block, allocationAddress, size), freeList[i + 1..]);
      freeList := before + after;
      // The padding is stored in a single byte.
      usedList := usedList + [UsedBlock(allocationAddress, padding % 0x100, size + leftover)];
      assert State() == Cut(s, i, allocationAddress, size);
      if Canonical(s.free) {
        CutIsTaken(s, i, allocationAddress, size);
      }
    }

    /** The largest size that can still be allocated at this alignment. */
    method GetMaximumAllocatableSizeUnsafe(alignment: int) returns (most: int)
      requires Bounded(freeList) && Alignment(alignment)
      ensures most == Maximum(freeList, alignment)
    {
      most := 0;
      var i := 0;
      while i < |freeList|
        invariant 0 <= i <= |freeList|
        invariant most == Maximum(freeList[..i], alignment)
      {
        var blockStart := freeList[i].start + HEADER;
        var blockEnd := blockStart + freeList[i].size;
        var alignStart := AlignUp(blockStart, alignment);
        var size := Word(blockEnd - alignStart);
        assert freeList[..i + 1][..i] == freeList[..i];
        MaximumIsReached(freeList[..i], alignment);
        if alignStart <= blockEnd && most < size {
          most := size;
        }
        i := i + 1;
      }
      assert freeList[..i] == freeList;
    }

    /** The sum of all free payloads: the arena less every header and every used extent. */
    method GetTotalFreeSize() returns (freeSize: int)
      requires Tiled(State())
      ensures freeSize == endAddress - startAddress - HEADER * |freeList| - HeapAccounting.UsedExtents(usedList)
    {
      freeSize := 0;
      var i := 0;
      while i < |freeList|
        invariant 0 <= i <= |freeList|
        invariant freeSize == HeapAccounting.FreePayload(freeList[..i])
      {
        assert freeList[..i + 1][..i] == freeList[..i];
        freeSize := freeSize + freeList[i].size;
        i := i + 1;
      }
      assert freeList[..i] == freeList;
      HeapAccounting.BytesConserved(State());
    }

    /** Finds a free block by the heap's search mode and cuts the allocation out of it. Returns the
        null address when no block fits; the out-of-memory callback is taken to give up. */
    method TryAllocate(size: int, alignment: int) returns (address: int)
      requires Bounded(freeList)
      requires 0 <= size < WORD64 && (alignment < MINIMUM_ALIGNMENT || Alignment(alignment))
      modifies this`freeList, this`usedList
      ensures Allocated(old(State()), isBestFit, size, EnforcedAlignment(alignment), address, State())
      ensures Canonical(old(freeList)) ==>
        Answers(old(State()), isBestFit, size, if alignment < 4 then 4 else alignment, address, State())
      ensures address % (if alignment < 4 then 4 else alignment) == 0
    {
      ghost var s := State();
      var a := EnforcedAlignment(alignment);
      assert Alignment(a);
      if |freeList| == 0 {
        AnswersAsAsked(s, isBestFit, size, alignment, 0, State());
        return 0;
      }
      var needed;
      if size != 0 {
        needed := AlignUp(size, a);
      } else {
        needed := GetMaximumAllocatableSizeUnsafe(a);
      }
      NeededRoom(freeList, size, a);
      var i, allocationAddress;
      if !isBestFit {
        i, allocationAddress := FindFirstFit(needed, a);
      } else {
        i, allocationAddress := FindBestFit(needed, a);
      }
      if i == |freeList| {
        AnswersAsAsked(s, isBestFit, size, alignment, 0, State());
        return 0;
      }
      NeededSize(freeList[i], needed, a);
      assert Chosen(freeList, isBestFit, needed, a, i);
      AddUsedBlock(i, allocationAddress, needed);
      AnswersAsAsked(s, isBestFit, size, alignment, allocationAddress, State());
      return allocationAddress;
    }

    /** The first-fit walk. */
    method FindFirstFit(needed: int, a: int) returns (i: int, allocationAddress: int)
      requires Bounded(freeList) && Alignment(a) && 0 <= needed && needed + a - 1 < WORD64
      ensures i == |freeList| ==> forall j :: 0 <= j < |freeList| ==> !Fits(freeList[j], needed, a)
      ensures i != |freeList| ==>
        FirstFit(freeList, needed, a, i) && allocationAddress == AllocationAddress(freeList[i], a)
    {
      i, allocationAddress := 0, 0;
      while i < |freeList|
        invariant 0 <= i <= |freeList|
        invariant forall j :: 0 <= j < i ==> !Fits(freeList[j], needed, a)
      {
        var block := freeList[i];
        allocationAddress := AlignUp(block.start + HEADER, a);
        NeededSize(block, needed, a);
        if Word(needed - HEADER - block.start + allocationAddress) <= block.size { break; }
        i := i + 1;
      }
    }

    /** The best-fit walk, which stops early at a block of exactly the requested size. */
    method FindBestFit(needed: int, a: int) returns (smallest: int, smallestAddress: int)
      requires Bounded(freeList) && Alignment(a) && 0 <= needed && needed + a - 1 < WORD64
      ensures smallest == |freeList| ==> forall j :: 0 <= j < |freeList| ==> !Fits(freeList[j], needed, a)
      ensures smallest != |freeList| ==>
        BestFit(freeList, needed, a, smallest) && smallestAddress == AllocationAddress(freeList[smallest], a)
    {
      var smallestSize := WORD64 - 1;
      smallest, smallestAddress := |freeList|, 0;
      var i := 0;
      while i < |freeList|
        invariant 0 <= i <= |freeList|
        invariant smallest == |freeList| ==>
          smallestSize == WORD64 - 1 && forall j :: 0 <= j < i ==> !Fits(freeList[j], needed, a)
        invariant smallest != |freeList| ==>
          && 0 <= smallest < i && smallestSize == freeList[smallest].size
          && smallestAddress == AllocationAddress(freeList[smallest], a)
          && Fits(freeList[smallest], needed, a)
          && (forall j :: 0 <= j < i && Fits(freeList[j], needed, a) ==> smallestSize <= freeList[j].size)
          && (forall j :: 0 <= j < smallest && Fits(freeList[j], needed, a) ==> smallestSize < freeList[j].size)
      {
        var block := freeList[i];
        var allocationAddress := AlignUp(block.start + HEADER, a);
        NeededSize(block, needed, a);
        assert Fits(block, needed, a) <==> Word(needed - HEADER - block.start + allocationAddress) <= block.size;
        if block.size < smallestSize && Word(needed - HEADER - block.start + allocationAddress) <= block.size {
          smallestSize, smallest, smallestAddress := block.size, i, allocationAddress;
          if block.size == needed {
            ExactIsSmallest(freeList, needed, a);
            break;
          }
        }
        i := i + 1;
      }
    }

    /** Gives an allocation back, with the bytes skipped in front of it. */
    method Free(address: int)
      requires Owned(State(), IndexOf(usedList, address))
      modifies this`freeList, this`usedList
      ensures Released(old(State()), IndexOf(old(usedList), address), State())
    {
      var k := IndexOf(usedList, address);
      var block := usedList[k];
      usedList := usedList[..k] + usedList[k + 1..];
      var start := address - HEADER - block.padding;
      var end := address + block.size;
      var added := AddFreeBlock(start, end);
    }

    /** Shrinks an allocation to the aligned new size. A tail too small for a header that touches no
        free block is dropped: it then belongs to no block at all. */
    method AdjustAllocation(address: int, newSize: int) returns (size: int)
      requires Owned(State(), IndexOf(usedList, address))
      requires 0 <= newSize && AlignUp(newSize, GRANULARITY) <= usedList[IndexOf(usedList, address)].size
      modifies this`freeList, this`usedList
      ensures size == AlignUp(newSize, GRANULARITY)
      ensures Adjusted(old(State()), IndexOf(old(usedList), address), size, State())
    {
      size := AlignUp(newSize, GRANULARITY);
      var k := IndexOf(usedList, address);
      var block := usedList[k];
      if block.size == size {
        assert usedList == usedList[k := block.(size := size)];
        return;
      }
      assert forall i :: 0 <= i < |freeList| ==>
          freeList[i].End() <= address + size || block.End() <= freeList[i].start;
      var added := AddFreeBlock(address + size, address + block.size);
      usedList := usedList[k := block.(size := size)];
    }

    /** Shrinks the allocation that holds this heap to `size` bytes. */
    method ShrinkInParent(size: int, ghost before: HeapState)
      requires parent != null && parent != this && Nested(parent.State(), before)
      requires 0 < startAddress == before.start <= endAddress <= before.end - HEADER
      requires size == endAddress - startAddress + HEAP_OBJECT
      modifies parent`freeList, parent`usedList
      ensures Adjusted(old(parent.State()), IndexOf(old(parent.usedList), startAddress - HEAP_OBJECT),
                       SizeInParent(startAddress, endAddress), parent.State())
    {
      ShrinksInParent(parent.State(), before, endAddress);
      var adjusted := parent.AdjustAllocation(startAddress - HEAP_OBJECT, size);
    }

    /** Cuts a free block at the end of the arena off, and gives its memory back to the parent. */
    method AdjustHeap() returns (address: int, trimmed: int)
      requires Bounded(freeList) && startAddress <= endAddress < ADDRESS_LIMIT
      requires forall i :: 0 <= i < |freeList| ==> startAddress <= freeList[i].start
      requires parent != null ==> parent != this && Nested(parent.State(), State())
      modifies this`freeList, this`endAddress
      modifies (if parent == null then {} else {parent})`freeList, (if parent == null then {} else {parent})`usedList
      ensures address == endAddress && trimmed == old(endAddress) - endAddress
      ensures if old(freeList) != [] && old(freeList)[|old(freeList)| - 1].End() == old(endAddress)
              then Trimmed(old(State()), State())
              else State() == old(State())
      ensures parent != null ==>
        if trimmed == 0 then parent.State() == old(parent.State())
        else Adjusted(old(parent.State()), IndexOf(old(parent.usedList), startAddress - HEAP_OBJECT),
                      SizeInParent(startAddress, endAddress), parent.State())
    {
      var heapSize := endAddress - startAddress + HEAP_OBJECT;
      if |freeList| == 0 {
        return endAddress, 0;
      }
      var last := freeList[|freeList| - 1];
      trimmed := HEADER + last.size;
      if last.start + trimmed != endAddress {
        return endAddress, 0;
      }
      freeList := freeList[..|freeList| - 1];
      endAddress := endAddress - trimmed;
      if parent != null {
        ShrinkInParent(heapSize - trimmed, old(State()));
      }
      return endAddress, trimmed;
    }
  }

  /** Shrinking keeps a heap well formed even when the tail is dropped. */
  lemma AdjustedWellFormed(s: HeapState, k: int, size: int, t: HeapState)
    requires WellFormed(s) && Adjusted(s, k, size, t)
    ensures WellFormed(t)
  {
    if TailIsKept(s, k, size) {
      ShrunkTiled(s, k, size, t);
    } else {
      assert |t.used| == |s.used|;
      assert forall j :: 0 <= j < |s.used| ==>
          && t.used[j].First() == s.used[j].First() && t.used[j].End() <= s.used[j].End()
          && t.used[j].padding == s.used[j].padding && t.used[j].size >= 0;
    }
  }

  /** The used blocks of a well-formed heap have distinct addresses. */
  lemma OnlyIndex(s: HeapState, k: int)
    requires WellFormed(s) && 0 <= k < |s.used|
    ensures IndexOf(s.used, s.used[k].address) == k
  {
    var i := IndexOf(s.used, s.used[k].address);
    assert i >= 0 && s.used[i].address == s.used[k].address;
  }
}
