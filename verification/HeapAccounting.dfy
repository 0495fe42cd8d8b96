/** Conservation of bytes: the free blocks and the used extents of a tiled heap add up to its arena. */
module HeapAccounting {
  import opened HeapBlocks

  /** The sum that a heap reports as its free size: payload bytes only, headers left out. */
  function FreePayload(free: seq<FreeBlock>): int {
    if free == [] then 0 else FreePayload(free[..|free| - 1]) + free[|free| - 1].size
  }

  function UsedExtents(used: seq<UsedBlock>): int {
    if used == [] then 0
    else UsedExtents(used[..|used| - 1]) + (used[|used| - 1].End() - used[|used| - 1].First())
  }

  function Interval(lo: int, hi: int): (bytes: set<int>)
    requires lo <= hi
    ensures forall x :: x in bytes <==> lo <= x < hi
    decreases hi - lo
  {
    if lo == hi then {} else Interval(lo, hi - 1) + {hi - 1}
  }

  lemma {:induction false} IntervalSize(lo: int, hi: int)
    requires lo <= hi
    ensures |Interval(lo, hi)| == hi - lo
    decreases hi - lo
  {
    if lo < hi {
      IntervalSize(lo, hi - 1);
    }
  }

  lemma SizesAdd(a: set<int>, b: set<int>, c: set<int>)
    requires a !! b && (forall x :: x in c <==> x in a || x in b)
    ensures |a| + |b| == |c|
  {
    forall x ensures x in c <==> x in a + b {
    }
    assert c == a + b;
    assert a * b == {};
  }

  lemma LastFree(free: seq<FreeBlock>, x: int)
    requires free != []
    ensures InFree(free, x) <==> InFree(free[..|free| - 1], x) || free[|free| - 1].Has(x)
  {
    var front := free[..|free| - 1];
    if InFree(front, x) {
      var i :| 0 <= i < |front| && front[i].Has(x);
      assert free[i].Has(x);
    }
    if InFree(free, x) && !free[|free| - 1].Has(x) {
      var i :| 0 <= i < |free| && free[i].Has(x);
      assert front[i].Has(x);
    }
  }

  lemma {:induction false} FreeBytes(free: seq<FreeBlock>) returns (bytes: set<int>)
    requires Canonical(free)
    ensures forall x :: x in bytes <==> InFree(free, x)
    ensures |bytes| == FreePayload(free) + HEADER * |free|
  {
    bytes := {};
    if free != [] {
      var front, last := free[..|free| - 1], free[|free| - 1];
      var before := FreeBytes(front);
      var more := Interval(last.start, last.End());
      IntervalSize(last.start, last.End());
      bytes := before + more;
      forall x ensures x in bytes <==> InFree(free, x) {
        LastFree(free, x);
      }
      assert before !! more;
    }
  }

  lemma LastUsed(used: seq<UsedBlock>, x: int)
    requires used != []
    ensures InUsed(used, x) <==> InUsed(used[..|used| - 1], x) || used[|used| - 1].Has(x)
  {
    var front := used[..|used| - 1];
    if InUsed(front, x) {
      var i :| 0 <= i < |front| && front[i].Has(x);
      assert used[i].Has(x);
    }
    if InUsed(used, x) && !used[|used| - 1].Has(x) {
      var i :| 0 <= i < |used| && used[i].Has(x);
      assert front[i].Has(x);
    }
  }

  lemma {:induction false} UsedBytes(used: seq<UsedBlock>) returns (bytes: set<int>)
    requires forall i :: 0 <= i < |used| ==> used[i].First() <= used[i].End()
    requires forall i, j :: 0 <= i < j < |used| ==> used[i].End() <= used[j].First() || used[j].End() <= used[i].First()
    ensures forall x :: x in bytes <==> InUsed(used, x)
    ensures |bytes| == UsedExtents(used)
  {
    bytes := {};
    if used != [] {
      var front, last := used[..|used| - 1], used[|used| - 1];
      var before := UsedBytes(front);
      var more := Interval(last.First(), last.End());
      IntervalSize(last.First(), last.End());
      bytes := before + more;
      forall x ensures x in bytes <==> InUsed(used, x) {
        LastUsed(used, x);
      }
      forall x | x in more ensures x !in before {
        assert !InUsed(front, x);
      }
      SizesAdd(before, more, bytes);
    }
  }

  /** Free payload, free headers and used extents make up the whole arena, byte for byte. */
  lemma BytesConserved(s: HeapState)
    requires Tiled(s)
    ensures FreePayload(s.free) + HEADER * |s.free| + UsedExtents(s.used) == s.end - s.start
  {
    var free := FreeBytes(s.free);
    var used := UsedBytes(s.used);
    forall x ensures !(x in free && x in used) {
      if x in free {
        FreeIsNotUsed(s, x);
      }
    }
    IntervalSize(s.start, s.end);
    forall x ensures x in Interval(s.start, s.end) <==> x in free || x in used {
      assert x in free <==> InFree(s.free, x);
      assert x in used <==> InUsed(s.used, x);
    }
    SizesAdd(free, used, Interval(s.start, s.end));
  }
}
