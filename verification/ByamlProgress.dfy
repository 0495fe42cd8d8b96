/** How far a swap has come: which words have been reversed, and which data regions have been met. */
module ByamlProgress {
  import opened Words
  import opened ByamlLayout

  /** The rank of a word in its region: the head comes first, then the entries in order. */
  function Rank(s: Slot): int {
    if s.Head? then -1 else s.i
  }

  /** A rank that no word of a region reaches. */
  function Limit(r: Region): int {
    match r
    case Nothing => 0
    case Header => 5
    case Table(_, n) => n + 1
    case Container(_, n, _) => n
    case Blob(_, _) => 2
  }

  /** A word of a region met after `v0` and by `v1`. */
  predicate New(c: Cell, v0: set<U32>, v1: set<U32>) {
    c.owner.Object? && c.owner.offset in v1 && c.owner.offset !in v0
  }

  /** A word of `w` of rank below `n`. */
  predicate Before(c: Cell, w: Owner, n: int) {
    c.owner == w && Rank(c.slot) < n
  }

  ghost predicate NewRefsIn(pl: Plan, v0: set<U32>, v1: set<U32>) {
    forall o :: o in v1 && o !in v0 ==> AllRefsIn(pl, RegionOf(pl, Object(o)), v1)
  }

  /** From `d0` on, each word of each newly met region has been reversed once more, and no other. */
  ghost predicate Advanced(pl: Plan, d0: multiset<Cell>, v0: set<U32>, d1: multiset<Cell>, v1: set<U32>) {
    && v0 <= v1 <= pl.objects.Keys
    && (forall c :: d1[c] == d0[c] + One(IsCell(pl, c) && New(c, v0, v1)))
    && NewRefsIn(pl, v0, v1)
  }

  /** As `Advanced`, but the words of `w` of rank below `n` have been reversed too. */
  ghost predicate Progress(pl: Plan, w: Owner, n: int, d0: multiset<Cell>, v0: set<U32>,
                           d1: multiset<Cell>, v1: set<U32>) {
    && v0 <= v1 <= pl.objects.Keys
    && (forall c :: d1[c] == d0[c] + One(IsCell(pl, c) && New(c, v0, v1)) + One(IsCell(pl, c) && Before(c, w, n)))
    && NewRefsIn(pl, v0, v1)
    && RefsIn(pl, RegionOf(pl, w), n, v1)
  }

  /** What an entry refers to has been met, unless it is blocked. */
  ghost predicate EntryMet(pl: Plan, r: Region, i: int, v: set<U32>)
    requires r.Container?
  {
    EntryTag(pl, r, i).Reference? ==> Blocked(pl, EntryWord(pl, r, i)) || EntryWord(pl, r, i) in v
  }

  /** No word of `w` has been reversed, and if `w` is a data region it counts as met. */
  ghost predicate Untouched(w: Owner, d0: multiset<Cell>, v0: set<U32>) {
    && (forall c :: c in d0 ==> c.owner != w)
    && (w.Object? ==> w.offset in v0)
  }

  /** Only words of regions that have been met are reversed. */
  ghost predicate OnlyMet(d: multiset<Cell>, v: set<U32>) {
    forall c :: c in d && c.owner.Object? ==> c.owner.offset in v
  }

  function AddIf(d: multiset<Cell>, b: bool, c: Cell): multiset<Cell> {
    if b then d + multiset{c} else d
  }

  /** The words of entry `i` are all still as they were. */
  lemma EntryAhead(pl: Plan, w: Owner, i: int, d0: multiset<Cell>, v0: set<U32>, d1: multiset<Cell>, v1: set<U32>)
    requires Progress(pl, w, i, d0, v0, d1, v1) && Untouched(w, d0, v0)
    ensures CellAt(pl, w, Key(i)) !in d1 && CellAt(pl, w, Value(i)) !in d1 && CellAt(pl, w, Remap(i)) !in d1
  {
    assert d1[CellAt(pl, w, Key(i))] == 0;
    assert d1[CellAt(pl, w, Value(i))] == 0;
    assert d1[CellAt(pl, w, Remap(i))] == 0;
  }

  /** Swapping what an entry refers to leaves the remap index of the entry as it was. */
  lemma RemapAhead(pl: Plan, w: Owner, i: int, d2: multiset<Cell>, v1: set<U32>, d3: multiset<Cell>, v3: set<U32>)
    requires Advanced(pl, d2, v1, d3, v3) && (w.Object? ==> w.offset in v1)
    requires CellAt(pl, w, Remap(i)) !in d2
    ensures CellAt(pl, w, Remap(i)) !in d3 + multiset{CellAt(pl, w, Value(i))}
  {
    assert d3[CellAt(pl, w, Remap(i))] == 0;
  }

  lemma HeadDone(pl: Plan, w: Owner, d0: multiset<Cell>, v0: set<U32>)
    requires RegionOf(pl, w).Container? && v0 <= pl.objects.Keys
    ensures Progress(pl, w, 0, d0, v0, d0 + multiset{CellAt(pl, w, Head)}, v0)
  {
    forall c | IsCell(pl, c) && c.owner == w && Rank(c.slot) < 0 ensures c == CellAt(pl, w, Head) {
    }
  }

  /** A plain data region is done once its one word, or both its words, have been reversed. */
  lemma BlobDone(pl: Plan, w: Owner, d0: multiset<Cell>, v0: set<U32>, d1: multiset<Cell>)
    requires RegionOf(pl, w).Blob? && v0 <= pl.objects.Keys
    requires d1 == AddIf(d0, HasSlot(RegionOf(pl, w), Field(1)), CellAt(pl, w, Field(1)))
                   + multiset{CellAt(pl, w, Field(0))}
    ensures Progress(pl, w, 2, d0, v0, d1, v0)
  {
    forall c | IsCell(pl, c) && c.owner == w ensures c.slot in {Field(0), Field(1)} {
    }
  }

  /** One entry of a container: its key, then what its value leads to, then its value and remap index. */
  lemma EntryDone(pl: Plan, w: Owner, i: int, d0: multiset<Cell>, v0: set<U32>, d1: multiset<Cell>, v1: set<U32>,
                  d2: multiset<Cell>, d3: multiset<Cell>, v3: set<U32>, d4: multiset<Cell>)
    requires HasEntry(RegionOf(pl, w), i) && (w.Object? ==> w.offset in v0)
    requires Progress(pl, w, i, d0, v0, d1, v1)
    requires d2 == AddIf(d1, HasSlot(RegionOf(pl, w), Key(i)), CellAt(pl, w, Key(i)))
    requires Advanced(pl, d2, v1, d3, v3)
    requires d4 == AddIf(d3 + multiset{CellAt(pl, w, Value(i))}, HasSlot(RegionOf(pl, w), Remap(i)),
                         CellAt(pl, w, Remap(i)))
    requires EntryMet(pl, RegionOf(pl, w), i, v3)
    ensures Progress(pl, w, i + 1, d0, v0, d4, v3)
  {
    forall c ensures d4[c] == d0[c] + One(IsCell(pl, c) && New(c, v0, v3)) + One(IsCell(pl, c) && Before(c, w, i + 1)) {
      EntryCount(pl, w, i, d1, d2, d3, d4, c);
      NewSplits(pl, c, v0, v1, v3);
    }
    RefsGrow(pl, v0, v1, v3);
    EntryRefs(pl, RegionOf(pl, w), i, v1, v3);
  }

  lemma NewSplits(pl: Plan, c: Cell, v0: set<U32>, v1: set<U32>, v3: set<U32>)
    requires v0 <= v1 <= v3
    ensures One(IsCell(pl, c) && New(c, v0, v3))
      == One(IsCell(pl, c) && New(c, v0, v1)) + One(IsCell(pl, c) && New(c, v1, v3))
  {
  }

  lemma EntryRefs(pl: Plan, r: Region, i: int, v1: set<U32>, v3: set<U32>)
    requires HasEntry(r, i) && RefsIn(pl, r, i, v1) && v1 <= v3 && EntryMet(pl, r, i, v3)
    ensures RefsIn(pl, r, i + 1, v3)
  {
  }

  /** The words of an entry are its key, its value and its remap index. */
  lemma EntryCount(pl: Plan, w: Owner, i: int, d1: multiset<Cell>, d2: multiset<Cell>, d3: multiset<Cell>,
                   d4: multiset<Cell>, c: Cell)
    requires HasEntry(RegionOf(pl, w), i)
    requires d2 == AddIf(d1, HasSlot(RegionOf(pl, w), Key(i)), CellAt(pl, w, Key(i)))
    requires d4 == AddIf(d3 + multiset{CellAt(pl, w, Value(i))}, HasSlot(RegionOf(pl, w), Remap(i)),
                         CellAt(pl, w, Remap(i)))
    ensures d4[c] - d3[c] + d2[c] - d1[c] == One(IsCell(pl, c) && c.owner == w && Rank(c.slot) == i)
  {
    if c.owner == w && c == CellAt(pl, w, c.slot) {
      match c.slot
      case Head =>
      case Field(_) =>
      case Key(_) =>
      case Value(_) =>
      case Remap(_) =>
    }
  }

  lemma RefsGrow(pl: Plan, v0: set<U32>, v1: set<U32>, v3: set<U32>)
    requires v0 <= v1 <= v3 && NewRefsIn(pl, v0, v1) && NewRefsIn(pl, v1, v3)
    ensures NewRefsIn(pl, v0, v3)
  {
    forall o | o in v3 && o !in v0 ensures AllRefsIn(pl, RegionOf(pl, Object(o)), v3) {
      if o in v1 {
        assert AllRefsIn(pl, RegionOf(pl, Object(o)), v1);
      }
    }
  }

  /** No word of a region reaches its limit. */
  lemma RankBelowLimit(pl: Plan, c: Cell)
    requires IsCell(pl, c)
    ensures Rank(c.slot) < Limit(RegionOf(pl, c.owner))
  {
  }

  /** The one word of a bare container is its head. */
  lemma BareRank(pl: Plan, w: Owner, c: Cell)
    requires RegionOf(pl, w).Container? && RegionOf(pl, w).form.Bare? && IsCell(pl, c) && c.owner == w
    ensures Rank(c.slot) < 0 <= RegionOf(pl, w).count
  {
  }

  /** A bare container has no entries to look at. */
  lemma BareDone(pl: Plan, w: Owner, d0: multiset<Cell>, v0: set<U32>, d1: multiset<Cell>, v1: set<U32>)
    requires RegionOf(pl, w).Container? && RegionOf(pl, w).form.Bare?
    requires Progress(pl, w, 0, d0, v0, d1, v1)
    ensures Progress(pl, w, RegionOf(pl, w).count, d0, v0, d1, v1)
  {
    forall c ensures IsCell(pl, c) && Before(c, w, RegionOf(pl, w).count) <==> IsCell(pl, c) && Before(c, w, 0) {
      if IsCell(pl, c) && c.owner == w {
        BareRank(pl, w, c);
      }
    }
  }

  /** A data region that has been worked through counts as one newly met region. */
  lemma RegionDone(pl: Plan, o: U32, d0: multiset<Cell>, v0: set<U32>, d1: multiset<Cell>, v1: set<U32>)
    requires o in pl.objects && o !in v0
    requires Progress(pl, Object(o), Limit(RegionOf(pl, Object(o))), d0, v0 + {o}, d1, v1)
    ensures Advanced(pl, d0, v0, d1, v1)
  {
    forall c ensures d1[c] == d0[c] + One(IsCell(pl, c) && New(c, v0, v1)) {
      if IsCell(pl, c) && c.owner == Object(o) {
        RankBelowLimit(pl, c);
      }
    }
    assert AllRefsIn(pl, RegionOf(pl, Object(o)), v1);
  }

  /** The cache holds the offsets of the tables and the root, and the keys of the regions met. */
  ghost predicate CacheAgrees(pl: Plan, cache: set<U32>, visited: set<U32>) {
    && visited <= pl.objects.Keys
    && forall k :: k in cache <==> k in Tops(pl) || CacheKey(pl.native, k) in visited
  }

  /** Entering the key of a region in the cache is meeting that region, for the first time. */
  lemma Entered(pl: Plan, cache: set<U32>, visited: set<U32>, o: U32)
    requires CacheAgrees(pl, cache, visited) && o in pl.objects
    requires CacheKey(pl.native, o) !in cache
    ensures CacheAgrees(pl, cache + {CacheKey(pl.native, o)}, visited + {o}) && o !in visited
  {
  }

  /** Once the root has been worked through, every region of the plan has been met. */
  lemma EverythingMet(pl: Plan, d0: multiset<Cell>, d1: multiset<Cell>, v1: set<U32>)
    requires WellFormed(pl)
    requires Progress(pl, Root, Limit(RegionOf(pl, Root)), d0, {}, d1, v1)
    ensures v1 == pl.objects.Keys
  {
    assert Closed(pl, v1);
  }

  /** The region of a blocked reference is not among those met from the root. */
  lemma BlockedIsNeverMet(pl: Plan, o: U32)
    requires WellFormed(pl) && Blocked(pl, o)
    ensures o !in pl.objects
  {
    var s := set x | x in pl.objects && !Blocked(pl, x);
    forall w | w == Root || (w.Object? && w.offset in s) ensures AllRefsIn(pl, RegionOf(pl, w), s) {
      assert GoodRegion(pl, w);
    }
    assert Closed(pl, s);
  }

  /** From `d0` on, the words of `w` of rank below `n` have been reversed once more, and no other. */
  ghost predicate TableUpTo(pl: Plan, w: Owner, n: int, d0: multiset<Cell>, d1: multiset<Cell>) {
    forall c :: d1[c] == d0[c] + One(IsCell(pl, c) && Before(c, w, n))
  }

  lemma TableHeadDone(pl: Plan, w: Owner, d0: multiset<Cell>)
    requires RegionOf(pl, w).Table?
    ensures TableUpTo(pl, w, 0, d0, d0 + multiset{CellAt(pl, w, Head)})
  {
    forall c | IsCell(pl, c) && Before(c, w, 0) ensures c == CellAt(pl, w, Head) {
    }
  }

  /** The field of rank `n` is the next one to be reversed. */
  lemma FieldDone(pl: Plan, w: Owner, n: int, d0: multiset<Cell>, d1: multiset<Cell>)
    requires RegionOf(pl, w).Table? && 0 <= n <= RegionOf(pl, w).count
    requires TableUpTo(pl, w, n, d0, d1) && forall c :: c in d0 ==> c.owner != w
    ensures CellAt(pl, w, Field(n)) !in d1
    ensures TableUpTo(pl, w, n + 1, d0, d1 + multiset{CellAt(pl, w, Field(n))})
  {
    var cell := CellAt(pl, w, Field(n));
    assert d1[cell] == 0;
    forall c | IsCell(pl, c) && c.owner == w && Rank(c.slot) == n ensures c == cell {
    }
    assert IsCell(pl, cell);
  }

  /** The words of these owners have been reversed, and no others. */
  ghost predicate Sections(pl: Plan, ws: set<Owner>, d: multiset<Cell>) {
    forall c :: d[c] == One(IsCell(pl, c) && c.owner in ws)
  }

  lemma HeaderDone(pl: Plan, d: multiset<Cell>)
    requires d == multiset{CellAt(pl, FileHeader, Field(0)), CellAt(pl, FileHeader, Field(1)),
      CellAt(pl, FileHeader, Field(2)), CellAt(pl, FileHeader, Field(3)), CellAt(pl, FileHeader, Field(4))}
    ensures Sections(pl, {FileHeader}, d)
  {
    forall c ensures d[c] == One(IsCell(pl, c) && c.owner in {FileHeader}) {
      if IsCell(pl, c) && c.owner == FileHeader {
        assert c.slot == Field(c.slot.i);
      }
    }
  }

  lemma HeaderIn(pl: Plan, ws: set<Owner>, d: multiset<Cell>)
    requires Sections(pl, ws, d) && FileHeader in ws
    ensures forall i :: 0 <= i < 5 ==> CellAt(pl, FileHeader, Field(i)) in d
  {
    forall i | 0 <= i < 5 ensures CellAt(pl, FileHeader, Field(i)) in d {
      assert IsCell(pl, CellAt(pl, FileHeader, Field(i)));
    }
  }

  lemma SectionDone(pl: Plan, w: Owner, ws: set<Owner>, d0: multiset<Cell>, d1: multiset<Cell>)
    requires Sections(pl, ws, d0) && w !in ws
    requires TableUpTo(pl, w, Limit(RegionOf(pl, w)), d0, d1)
    ensures Sections(pl, ws + {w}, d1)
  {
    forall c ensures d1[c] == One(IsCell(pl, c) && c.owner in ws + {w}) {
      if IsCell(pl, c) {
        RankBelowLimit(pl, c);
      }
    }
  }

  lemma SectionSkipped(pl: Plan, w: Owner, ws: set<Owner>, d: multiset<Cell>)
    requires Sections(pl, ws, d)
    ensures RegionOf(pl, w).Nothing? ==> Sections(pl, ws + {w}, d)
  {
  }

  /** The header, the two tables, the root and the data regions make up all the words of the plan. */
  lemma EverythingSwapped(pl: Plan, d0: multiset<Cell>, d1: multiset<Cell>)
    requires Sections(pl, {FileHeader, KeyTable, StringTable}, d0)
    requires Progress(pl, Root, Limit(RegionOf(pl, Root)), d0, {}, d1, pl.objects.Keys)
    ensures forall c :: d1[c] == One(IsCell(pl, c))
  {
    forall c ensures d1[c] == One(IsCell(pl, c)) {
      if IsCell(pl, c) {
        RankBelowLimit(pl, c);
      }
    }
  }
}
