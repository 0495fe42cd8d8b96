/** Swapping a well-formed file twice gives it back, and every field keeps its meaning in between. */
module ByamlRoundTrip {
  import opened Words
  import opened ByamlLayout
  import opened ByamlProgress
  import opened ByamlFiles

  /** The plan of the swapped file: the same words in the other byte order. */
  function Flipped(pl: Plan): Plan {
    Plan(Mirrored(pl), !pl.native, pl.objects, pl.cells, pl.unknown)
  }

  /** No reference is taken, in either byte order, for a table or the root. */
  ghost predicate Clear(pl: Plan) {
    forall w: Owner, i ::
      HasEntry(RegionOf(pl, w), i) && EntryTag(pl, RegionOf(pl, w), i).Reference? ==>
        var o := EntryWord(pl, RegionOf(pl, w), i); o !in Tops(pl) && Swap32(o) !in Tops(pl)
  }

  lemma MirroredAt(pl: Plan, c: Cell, p: int)
    requires Covered(pl, c) && c !in pl.unknown && c.start <= p < c.start + c.len
    ensures At(Mirrored(pl), p) == At(pl.orig, 2 * c.start + c.len - 1 - p)
  {
  }

  /** A 32-bit field stands for the same number in the swapped file. */
  lemma SameNumber32(pl: Plan, c: Cell)
    requires Covered(pl, c) && c.len == 4 && c !in pl.unknown
    ensures Read4(Mirrored(pl), !pl.native, c.start) == Read4(pl.orig, pl.native, c.start)
  {
    MirroredAt(pl, c, c.start);
    MirroredAt(pl, c, c.start + 1);
    MirroredAt(pl, c, c.start + 2);
    MirroredAt(pl, c, c.start + 3);
  }

  lemma SameNumber24(pl: Plan, c: Cell)
    requires Covered(pl, c) && c.len == 3 && c !in pl.unknown
    ensures Read3(Mirrored(pl), !pl.native, c.start) == Read3(pl.orig, pl.native, c.start)
  {
    MirroredAt(pl, c, c.start);
    MirroredAt(pl, c, c.start + 1);
    MirroredAt(pl, c, c.start + 2);
  }

  lemma SameByte(pl: Plan, p: int)
    requires Fixed(pl, p)
    ensures At(Mirrored(pl), p) == At(pl.orig, p)
  {
  }

  lemma SameOffsets(pl: Plan)
    requires WellFormed(pl)
    ensures KeyOffset(Flipped(pl)) == KeyOffset(pl) && StringOffset(Flipped(pl)) == StringOffset(pl)
    ensures RootOffset(Flipped(pl)) == RootOffset(pl)
  {
    SlotCovered(pl, FileHeader, Field(2));
    SlotCovered(pl, FileHeader, Field(3));
    SlotCovered(pl, FileHeader, Field(4));
    SameNumber32(pl, CellAt(pl, FileHeader, Field(2)));
    SameNumber32(pl, CellAt(pl, FileHeader, Field(3)));
    SameNumber32(pl, CellAt(pl, FileHeader, Field(4)));
  }

  lemma SameCount(pl: Plan, w: Owner)
    requires WellFormed(pl) && (RegionOf(pl, w).Container? || RegionOf(pl, w).Table?)
    ensures var p := RegionOf(pl, w).base + 1; Read3(Mirrored(pl), !pl.native, p) == Read3(pl.orig, pl.native, p)
  {
    SlotCovered(pl, w, Head);
    SameNumber24(pl, CellAt(pl, w, Head));
  }

  lemma SameTop(pl: Plan, offset: U32)
    requires WellFormed(pl) && offset in Tops(pl)
    ensures At(Mirrored(pl), Number32(offset)) == At(pl.orig, Number32(offset))
  {
    SameByte(pl, Number32(offset));
  }

  lemma SameForm(pl: Plan, w: Owner)
    requires WellFormed(pl)
    ensures RegionOf(pl, w).Container? ==>
        var base := RegionOf(pl, w).base; At(Mirrored(pl), base) == At(pl.orig, base)
  {
    assert GoodRegion(pl, w);
    if RegionOf(pl, w).Container? {
      SameByte(pl, RegionOf(pl, w).base);
    }
  }

  lemma TablesByParts(a: Plan, b: Plan, w: Owner)
    requires w.KeyTable? || w.StringTable?
    requires KeyOffset(a) == KeyOffset(b) && StringOffset(a) == StringOffset(b)
    requires var offset := if w.KeyTable? then KeyOffset(a) else StringOffset(a);
      offset != ZERO ==> At(a.orig, Number32(offset)) == At(b.orig, Number32(offset))
    requires RegionOf(a, w).Table? ==> var p := RegionOf(a, w).base + 1;
      Read3(a.orig, a.native, p) == Read3(b.orig, b.native, p)
    ensures RegionOf(b, w) == RegionOf(a, w)
  {
  }

  lemma RootByParts(a: Plan, b: Plan)
    requires KeyOffset(a) == KeyOffset(b) && StringOffset(a) == StringOffset(b) && RootOffset(a) == RootOffset(b)
    requires RootOffset(a) != ZERO ==> At(a.orig, Number32(RootOffset(a))) == At(b.orig, Number32(RootOffset(a)))
    requires RegionOf(a, Root).Container? ==> var p := RegionOf(a, Root).base + 1;
      Read3(a.orig, a.native, p) == Read3(b.orig, b.native, p)
    ensures RegionOf(b, Root) == RegionOf(a, Root)
  {
  }

  lemma SameTables(pl: Plan, w: Owner)
    requires WellFormed(pl) && (w.KeyTable? || w.StringTable?)
    ensures RegionOf(Flipped(pl), w) == RegionOf(pl, w)
  {
    SameOffsets(pl);
    if RegionOf(pl, w).Table? {
      SameCount(pl, w);
    }
    var offset := if w.KeyTable? then KeyOffset(pl) else StringOffset(pl);
    if offset != ZERO {
      SameTop(pl, offset);
    }
    TablesByParts(pl, Flipped(pl), w);
  }

  lemma SameRootType(pl: Plan)
    requires WellFormed(pl)
    ensures RootOffset(pl) != ZERO ==>
      At(pl.orig, Number32(RootOffset(pl))) == At(Flipped(pl).orig, Number32(RootOffset(pl)))
  {
    if RootOffset(pl) != ZERO {
      SameTop(pl, RootOffset(pl));
    }
  }

  lemma SameRootCount(pl: Plan)
    requires WellFormed(pl)
    ensures RegionOf(pl, Root).Container? ==> var p := RegionOf(pl, Root).base + 1;
      Read3(pl.orig, pl.native, p) == Read3(Flipped(pl).orig, Flipped(pl).native, p)
  {
    if RegionOf(pl, Root).Container? {
      SameCount(pl, Root);
    }
  }

  lemma SameRoot(pl: Plan)
    requires WellFormed(pl)
    ensures RegionOf(Flipped(pl), Root) == RegionOf(pl, Root)
  {
    SameOffsets(pl);
    SameRootType(pl);
    SameRootCount(pl);
    RootByParts(pl, Flipped(pl));
  }

  lemma ObjectByParts(a: Plan, b: Plan, w: Owner)
    requires w.Object? && a.objects == b.objects
    requires RegionOf(a, w).Container? ==> var p := RegionOf(a, w).base;
      At(a.orig, p) == At(b.orig, p) && Read3(a.orig, a.native, p + 1) == Read3(b.orig, b.native, p + 1)
    ensures RegionOf(b, w) == RegionOf(a, w)
  {
  }

  lemma SameObject(pl: Plan, w: Owner)
    requires WellFormed(pl) && w.Object?
    ensures RegionOf(Flipped(pl), w) == RegionOf(pl, w)
  {
    SameForm(pl, w);
    if RegionOf(pl, w).Container? {
      SameCount(pl, w);
    }
    ObjectByParts(pl, Flipped(pl), w);
  }

  /** Every region lies where it lay, with the same entries. */
  lemma SameRegion(pl: Plan, w: Owner)
    requires WellFormed(pl)
    ensures RegionOf(Flipped(pl), w) == RegionOf(pl, w)
  {
    match w
    case FileHeader =>
    case KeyTable => SameTables(pl, w);
    case StringTable => SameTables(pl, w);
    case Root => SameRoot(pl);
    case Object(_) => SameObject(pl, w);
  }

  lemma SameEntry(pl: Plan, w: Owner, i: int)
    requires WellFormed(pl) && HasEntry(RegionOf(pl, w), i)
    ensures EntryTag(Flipped(pl), RegionOf(pl, w), i) == EntryTag(pl, RegionOf(pl, w), i)
    ensures !EntryTag(pl, RegionOf(pl, w), i).Unknown? ==>
      EntryWord(Flipped(pl), RegionOf(pl, w), i) == EntryWord(pl, RegionOf(pl, w), i)
  {
    assert GoodRegion(pl, w) && KnowsUnknown(pl, w);
    SameByte(pl, TagPosition(RegionOf(pl, w), i));
    SlotCovered(pl, w, Value(i));
    if !EntryTag(pl, RegionOf(pl, w), i).Unknown? {
      SameNumber32(pl, CellAt(pl, w, Value(i)));
    }
  }

  lemma SameGoodRegion(pl: Plan, w: Owner)
    requires WellFormed(pl) && Clear(pl)
    ensures GoodRegion(Flipped(pl), w)
  {
    SameRegion(pl, w);
    SameOffsets(pl);
    var r := RegionOf(pl, w);
    assert GoodRegion(pl, w);
    forall s | HasSlot(r, s) ensures Covered(Flipped(pl), CellAt(Flipped(pl), w, s)) {
      assert Covered(pl, CellAt(pl, w, s));
    }
    forall i | HasEntry(r, i) ensures GoodEntry(Flipped(pl), r, i) && Fixed(Flipped(pl), TagPosition(r, i)) {
      SameEntry(pl, w, i);
      assert GoodEntry(pl, r, i);
    }
  }

  lemma SameUnknown(pl: Plan, w: Owner)
    requires WellFormed(pl)
    ensures KnowsUnknown(Flipped(pl), w)
  {
    SameRegion(pl, w);
    assert KnowsUnknown(pl, w);
    forall i | HasEntry(RegionOf(pl, w), i)
      ensures EntryTag(Flipped(pl), RegionOf(pl, w), i) == EntryTag(pl, RegionOf(pl, w), i)
    {
      SameEntry(pl, w, i);
    }
  }

  /** A set that the swapped file never leads out of is one that the file never leads out of. */
  lemma SameRefs(pl: Plan, w: Owner, s: set<U32>)
    requires WellFormed(pl) && Clear(pl) && AllRefsIn(Flipped(pl), RegionOf(Flipped(pl), w), s)
    ensures AllRefsIn(pl, RegionOf(pl, w), s)
  {
    SameRegion(pl, w);
    SameOffsets(pl);
    var r := RegionOf(pl, w);
    forall i | HasEntry(r, i) && EntryTag(pl, r, i).Reference? ensures EntryWord(pl, r, i) in s {
      SameEntry(pl, w, i);
    }
  }

  lemma SameClosed(pl: Plan, s: set<U32>)
    requires WellFormed(pl) && Clear(pl) && Closed(Flipped(pl), s)
    ensures Closed(pl, s)
  {
    SameRefs(pl, Root, s);
    forall o | o in s ensures AllRefsIn(pl, RegionOf(pl, Object(o)), s) {
      SameRefs(pl, Object(o), s);
    }
  }

  lemma FlippedMagic(pl: Plan)
    requires HasMagic(pl) && OnlyValuesUnknown(pl) && Covered(pl, CellAt(pl, FileHeader, Field(0)))
    ensures HasMagic(Flipped(pl))
  {
    MirroredAt(pl, CellAt(pl, FileHeader, Field(0)), 0);
    MirroredAt(pl, CellAt(pl, FileHeader, Field(0)), 1);
  }

  lemma FlippedPlaced(pl: Plan)
    requires WellFormed(pl)
    ensures Placed(Flipped(pl))
  {
    forall p | p in pl.cells ensures IsCell(Flipped(pl), pl.cells[p]) {
      SameRegion(pl, pl.cells[p].owner);
    }
  }

  /** The swapped file is well-formed, with the same plan, in the other byte order. */
  lemma FlippedWellFormed(pl: Plan)
    requires WellFormed(pl) && Clear(pl)
    ensures WellFormed(Flipped(pl))
  {
    SameOffsets(pl);
    SlotCovered(pl, FileHeader, Field(0));
    FlippedMagic(pl);
    FlippedPlaced(pl);
    forall w: Owner ensures GoodRegion(Flipped(pl), w) && KnowsUnknown(Flipped(pl), w) {
      SameGoodRegion(pl, w);
      SameUnknown(pl, w);
    }
    forall s: set<U32> | Closed(Flipped(pl), s) ensures pl.objects.Keys <= s {
      SameClosed(pl, s);
    }
  }

  /** Swapping a byte twice gives it back, or zero if the value it belongs to is erased. */
  lemma ByteTwice(pl: Plan, p: int)
    requires WellFormed(pl) && 0 <= p < |pl.orig|
    ensures MirroredByte(Flipped(pl), p) == if p in pl.cells && pl.cells[p] in pl.unknown then 0 else pl.orig[p]
  {
    if p in pl.cells {
      var c := pl.cells[p];
      CellsCovered(pl);
      if c !in pl.unknown {
        MirroredAt(pl, c, 2 * c.start + c.len - 1 - p);
      }
    }
  }

  /** Every value whose type is not known is zero. */
  ghost predicate UnknownAreZero(pl: Plan) {
    forall w: Owner, i :: HasEntry(RegionOf(pl, w), i) && EntryTag(pl, RegionOf(pl, w), i).Unknown? ==>
      EntryWord(pl, RegionOf(pl, w), i) == ZERO
  }

  /** Every byte of an erased value is zero. */
  ghost predicate ErasedAreZero(f: seq<Byte>, pl: Plan) {
    forall p :: p in pl.cells && pl.cells[p] in pl.unknown ==> At(f, p) == 0
  }

  /** An erased byte is one of the four bytes of the value of an entry. */
  lemma ErasedIsEntry(pl: Plan, p: int)
    requires WellFormed(pl) && p in pl.cells && pl.cells[p] in pl.unknown
    ensures pl.cells[p].slot.Value?
    ensures var r, i := RegionOf(pl, pl.cells[p].owner), pl.cells[p].slot.i;
      HasEntry(r, i) && EntryTag(pl, r, i).Unknown? && SlotStart(r, Value(i)) <= p < SlotStart(r, Value(i)) + 4
  {
    var c := pl.cells[p];
    assert IsCell(pl, c) && KnowsUnknown(pl, c.owner);
    assert c == CellAt(pl, c.owner, Value(c.slot.i));
  }

  lemma ErasedWord(pl: Plan, w: Owner, i: int)
    requires WellFormed(pl) && HasEntry(RegionOf(pl, w), i) && EntryTag(pl, RegionOf(pl, w), i).Unknown?
    ensures var start := SlotStart(RegionOf(pl, w), Value(i));
      forall p :: start <= p < start + 4 ==> p in pl.cells && pl.cells[p] in pl.unknown
  {
    assert KnowsUnknown(pl, w);
    SlotCovered(pl, w, Value(i));
  }

  lemma ZeroBytes(pl: Plan)
    requires WellFormed(pl) && UnknownAreZero(pl)
    ensures ErasedAreZero(pl.orig, pl)
  {
    forall p | p in pl.cells && pl.cells[p] in pl.unknown ensures At(pl.orig, p) == 0 {
      ErasedIsEntry(pl, p);
      assert EntryWord(pl, RegionOf(pl, pl.cells[p].owner), pl.cells[p].slot.i) == ZERO;
    }
  }

  lemma ZeroWord(pl: Plan, w: Owner, i: int)
    requires WellFormed(pl) && HasEntry(RegionOf(pl, w), i) && EntryTag(pl, RegionOf(pl, w), i).Unknown?
    requires ErasedAreZero(pl.orig, pl)
    ensures EntryWord(pl, RegionOf(pl, w), i) == ZERO
  {
    ErasedWord(pl, w, i);
  }

  lemma ZeroWords(pl: Plan)
    requires WellFormed(pl)
    ensures UnknownAreZero(pl) <==> ErasedAreZero(pl.orig, pl)
  {
    if UnknownAreZero(pl) {
      ZeroBytes(pl);
    }
    if ErasedAreZero(pl.orig, pl) {
      forall w: Owner, i | HasEntry(RegionOf(pl, w), i) && EntryTag(pl, RegionOf(pl, w), i).Unknown?
        ensures EntryWord(pl, RegionOf(pl, w), i) == ZERO
      {
        ZeroWord(pl, w, i);
      }
    }
  }

  /** Swapping the swapped file gives every byte back exactly if every value whose type is not known was zero. */
  lemma MirroredTwice(pl: Plan)
    requires WellFormed(pl)
    ensures Mirrored(Flipped(pl)) == pl.orig <==> UnknownAreZero(pl)
  {
    ZeroWords(pl);
    forall p | 0 <= p < |pl.orig|
      ensures Mirrored(Flipped(pl))[p] == if p in pl.cells && pl.cells[p] in pl.unknown then 0 else pl.orig[p]
    {
      ByteTwice(pl, p);
    }
    if Mirrored(Flipped(pl)) == pl.orig {
      forall p | p in pl.cells && pl.cells[p] in pl.unknown ensures At(pl.orig, p) == 0 {
        CellsCovered(pl);
        assert Mirrored(Flipped(pl))[p] == 0;
      }
    }
  }

  lemma CellsCovered(pl: Plan)
    requires WellFormed(pl)
    ensures forall p :: p in pl.cells ==> Covered(pl, pl.cells[p])
  {
    forall p | p in pl.cells ensures Covered(pl, pl.cells[p]) {
      assert GoodRegion(pl, pl.cells[p].owner);
    }
  }

  /** A reference of a region that is met is followed exactly when it is not blocked. */
  lemma FollowedUnlessBlocked(pl: Plan, w: Owner, i: int)
    requires WellFormed(pl) && HasEntry(RegionOf(pl, w), i) && EntryTag(pl, RegionOf(pl, w), i).Reference?
    ensures EntryWord(pl, RegionOf(pl, w), i) in pl.objects <==> !Blocked(pl, EntryWord(pl, RegionOf(pl, w), i))
  {
    assert GoodRegion(pl, w) && GoodEntry(pl, RegionOf(pl, w), i);
    if Blocked(pl, EntryWord(pl, RegionOf(pl, w), i)) {
      BlockedIsNeverMet(pl, EntryWord(pl, RegionOf(pl, w), i));
    }
  }

  /** Swapping a file to the other byte order and back, from either byte order, restores every byte exactly if
      every value whose type is not known was zero. */
  method SwapThereAndBack(f: ByamlFile, ghost pl: Plan)
    requires WellFormed(pl) && Clear(pl) && f.file[..] == pl.orig
    modifies f, f.file
    ensures f.file[..] == old(f.file[..]) <==> UnknownAreZero(pl)
  {
    f.SwapByamlEndian(pl);
    FlippedWellFormed(pl);
    f.SwapByamlEndian(Flipped(pl));
    MirroredTwice(pl);
  }

  // ---------------------------------------------------------------------------------------------
  // Files with blocked references

  predicate ErasedAt(pl: Plan, p: int) {
    p in pl.cells && pl.cells[p] in pl.unknown
  }

  /** A byte that the second pass erases was zero; of any other, its mirror in the first pass, if not erased,
      is what its mirror in the second one was. */
  predicate MirrorsAgreeAt(pl: Plan, pl2: Plan, p: int) {
    if ErasedAt(pl2, p) then At(pl.orig, p) == 0 else MirroredByte(pl, p) == At(pl.orig, MirrorOf(pl2, p))
  }

  ghost predicate MirrorsAgree(pl: Plan, pl2: Plan) {
    forall p :: 0 <= p < |pl.orig| ==> MirrorsAgreeAt(pl, pl2, p)
  }

  lemma MirrorOfMirror(pl: Plan, p: int)
    requires WellFormed(pl) && 0 <= p < |pl.orig|
    ensures 0 <= MirrorOf(pl, p) < |pl.orig| && MirrorOf(pl, MirrorOf(pl, p)) == p
    ensures ErasedAt(pl, MirrorOf(pl, p)) == ErasedAt(pl, p)
  {
    if p in pl.cells {
      CellsCovered(pl);
      assert Covered(pl, pl.cells[p]);
    }
  }

  /** The byte at `p` after both passes, if the second one goes by the plan `pl2`. */
  lemma ByteBack(pl: Plan, pl2: Plan, p: int)
    requires WellFormed(pl) && WellFormed(pl2) && pl2.orig == Mirrored(pl) && 0 <= p < |pl.orig|
    ensures 0 <= MirrorOf(pl2, p) < |pl.orig|
    ensures Mirrored(pl2)[p] == if ErasedAt(pl2, p) then 0 else MirroredByte(pl, MirrorOf(pl2, p))
  {
    MirrorOfMirror(pl2, p);
  }

  lemma AgreeingRestored(pl: Plan, pl2: Plan, p: int)
    requires WellFormed(pl) && WellFormed(pl2) && pl2.orig == Mirrored(pl) && MirrorsAgree(pl, pl2)
    requires 0 <= p < |pl.orig|
    ensures Mirrored(pl2)[p] == pl.orig[p]
  {
    ByteBack(pl, pl2, p);
    MirrorOfMirror(pl2, p);
    assert MirrorsAgreeAt(pl, pl2, p) && MirrorsAgreeAt(pl, pl2, MirrorOf(pl2, p));
  }

  lemma RestoredAgree(pl: Plan, pl2: Plan, p: int)
    requires WellFormed(pl) && WellFormed(pl2) && pl2.orig == Mirrored(pl) && Mirrored(pl2) == pl.orig
    requires 0 <= p < |pl.orig|
    ensures MirrorsAgreeAt(pl, pl2, p)
  {
    MirrorOfMirror(pl2, p);
    ByteBack(pl, pl2, p);
    ByteBack(pl, pl2, MirrorOf(pl2, p));
  }

  /** Whatever references are blocked in either pass, two passes restore a file exactly if the mirrors of each
      byte in the two passes agree. */
  lemma RestoredExactly(pl: Plan, pl2: Plan)
    requires WellFormed(pl) && WellFormed(pl2) && pl2.orig == Mirrored(pl)
    ensures Mirrored(pl2) == pl.orig <==> MirrorsAgree(pl, pl2)
  {
    if MirrorsAgree(pl, pl2) {
      forall p | 0 <= p < |pl.orig| ensures Mirrored(pl2)[p] == pl.orig[p] {
        AgreeingRestored(pl, pl2, p);
      }
      assert Mirrored(pl2) == pl.orig;
    }
    if Mirrored(pl2) == pl.orig {
      forall p | 0 <= p < |pl.orig| ensures MirrorsAgreeAt(pl, pl2, p) {
        RestoredAgree(pl, pl2, p);
      }
    }
  }

  /** A word that reads the same in both byte orders. */
  ghost predicate Palindrome(f: seq<Byte>, c: Cell) {
    forall p :: c.start <= p < c.start + c.len ==> At(f, p) == At(f, 2 * c.start + c.len - 1 - p)
  }

  /** Words of the two plans that share a byte have the same extent. */
  ghost predicate SameExtents(pl: Plan, pl2: Plan) {
    forall p :: p in pl.cells && p in pl2.cells ==>
      pl.cells[p].start == pl2.cells[p].start && pl.cells[p].len == pl2.cells[p].len
  }

  /** Each word of `a` that `b` leaves alone is a palindrome. */
  ghost predicate OwnArePalindromes(f: seq<Byte>, a: Plan, b: Plan) {
    forall p :: p in a.cells && p !in b.cells ==> Palindrome(f, a.cells[p])
  }

  lemma SharedWord(a: Plan, b: Plan, q: int, p: int)
    requires WellFormed(a) && WellFormed(b) && SameExtents(a, b)
    ensures q in a.cells && q in b.cells && a.cells[q].start <= p < a.cells[q].start + a.cells[q].len ==> p in b.cells
  {
    CellsCovered(b);
  }

  /** A word of one plan that misses the other at one byte misses it at all. */
  lemma WholeWordMisses(a: Plan, b: Plan, p: int, q: int)
    requires WellFormed(a) && WellFormed(b) && SameExtents(a, b) && p in a.cells && p !in b.cells
    requires a.cells[p].start <= q < a.cells[p].start + a.cells[p].len
    ensures q in a.cells && a.cells[q] == a.cells[p] && q !in b.cells && 0 <= q < |a.orig|
  {
    CellsCovered(a);
    CellsCovered(b);
    assert Covered(a, a.cells[p]);
    SharedWord(a, b, q, p);
  }

  /** For each byte, the bytes at its place mirrored in either plan are the same. */
  ghost predicate SameMirrors(f: seq<Byte>, a: Plan, b: Plan) {
    forall p :: 0 <= p < |f| ==> At(f, MirrorOf(a, p)) == At(f, MirrorOf(b, p))
  }

  lemma OwnPalindromes(f: seq<Byte>, a: Plan, b: Plan)
    requires WellFormed(a) && WellFormed(b) && SameExtents(a, b) && |a.orig| == |f| && SameMirrors(f, a, b)
    ensures OwnArePalindromes(f, a, b)
  {
    forall p | p in a.cells && p !in b.cells ensures Palindrome(f, a.cells[p]) {
      var c := a.cells[p];
      forall q | c.start <= q < c.start + c.len ensures At(f, q) == At(f, 2 * c.start + c.len - 1 - q) {
        WholeWordMisses(a, b, p, q);
        assert At(f, MirrorOf(a, q)) == At(f, MirrorOf(b, q));
      }
    }
  }

  lemma InItsWord(pl: Plan, p: int)
    requires Placed(pl)
    ensures p in pl.cells ==> pl.cells[p].start <= p < pl.cells[p].start + pl.cells[p].len
  {
  }

  lemma PalindromeMirror(f: seq<Byte>, a: Plan, b: Plan, p: int)
    requires p in a.cells && a.cells[p].start <= p < a.cells[p].start + a.cells[p].len
    requires Palindrome(f, a.cells[p]) && p !in b.cells
    ensures At(f, MirrorOf(a, p)) == At(f, MirrorOf(b, p))
  {
  }

  lemma PalindromesMirror(f: seq<Byte>, a: Plan, b: Plan)
    requires Placed(a) && Placed(b) && SameExtents(a, b)
    requires OwnArePalindromes(f, a, b) && OwnArePalindromes(f, b, a)
    ensures SameMirrors(f, a, b)
  {
    forall p | 0 <= p < |f| ensures At(f, MirrorOf(a, p)) == At(f, MirrorOf(b, p)) {
      if p in a.cells && p !in b.cells {
        InItsWord(a, p);
        PalindromeMirror(f, a, b, p);
      } else if p in b.cells && p !in a.cells {
        InItsWord(b, p);
        PalindromeMirror(f, b, a, p);
      } else {
        assert MirrorOf(a, p) == MirrorOf(b, p);
      }
    }
  }

  /** If the mirrors agree then every erased byte was zero. */
  lemma AgreeingZero(pl: Plan, pl2: Plan, p: int)
    requires WellFormed(pl) && WellFormed(pl2) && |pl2.orig| == |pl.orig| && SameExtents(pl, pl2)
    requires MirrorsAgree(pl, pl2) && 0 <= p < |pl.orig| && (ErasedAt(pl, p) || ErasedAt(pl2, p))
    ensures At(pl.orig, p) == 0
  {
    var q := MirrorOf(pl2, p);
    MirrorOfMirror(pl2, p);
    MirrorOfMirror(pl, p);
    assert p in pl.cells && p in pl2.cells ==> q == MirrorOf(pl, p);
    assert MirrorsAgreeAt(pl, pl2, p) && MirrorsAgreeAt(pl, pl2, q);
  }

  lemma AgreeingMirror(pl: Plan, pl2: Plan, p: int)
    requires WellFormed(pl) && WellFormed(pl2) && |pl2.orig| == |pl.orig| && SameExtents(pl, pl2)
    requires MirrorsAgree(pl, pl2) && 0 <= p < |pl.orig|
    ensures At(pl.orig, MirrorOf(pl, p)) == At(pl.orig, MirrorOf(pl2, p))
  {
    MirrorOfMirror(pl, p);
    MirrorOfMirror(pl2, p);
    assert MirrorsAgreeAt(pl, pl2, p);
    if ErasedAt(pl2, p) {
      AgreeingZero(pl, pl2, p);
      AgreeingZero(pl, pl2, MirrorOf(pl2, p));
      if p !in pl.cells {
        assert MirrorOf(pl, p) == p;
      } else {
        assert MirrorOf(pl, p) == MirrorOf(pl2, p);
      }
    } else if ErasedAt(pl, p) {
      AgreeingZero(pl, pl2, MirrorOf(pl, p));
    }
  }

  lemma ZeroMirrorsAgree(pl: Plan, pl2: Plan, p: int)
    requires WellFormed(pl) && WellFormed(pl2) && |pl2.orig| == |pl.orig| && SameMirrors(pl.orig, pl, pl2)
    requires ErasedAreZero(pl.orig, pl) && ErasedAreZero(pl.orig, pl2) && 0 <= p < |pl.orig|
    ensures MirrorsAgreeAt(pl, pl2, p)
  {
    MirrorOfMirror(pl, p);
    assert At(pl.orig, MirrorOf(pl, p)) == At(pl.orig, MirrorOf(pl2, p));
    assert ErasedAt(pl, MirrorOf(pl, p)) ==> At(pl.orig, MirrorOf(pl, p)) == 0;
  }

  /** What two passes have to leave alone: words that only one of them swaps are palindromes, and values that
      one of them erases are zero. */
  ghost predicate Restorable(pl: Plan, pl2: Plan) {
    && OwnArePalindromes(pl.orig, pl, pl2) && OwnArePalindromes(pl.orig, pl2, pl)
    && ErasedAreZero(pl.orig, pl) && ErasedAreZero(pl.orig, pl2)
  }

  lemma AgreeingRestorable(pl: Plan, pl2: Plan)
    requires WellFormed(pl) && WellFormed(pl2) && |pl2.orig| == |pl.orig| && SameExtents(pl, pl2)
    requires MirrorsAgree(pl, pl2)
    ensures Restorable(pl, pl2)
  {
    forall p | 0 <= p < |pl.orig| ensures At(pl.orig, MirrorOf(pl, p)) == At(pl.orig, MirrorOf(pl2, p)) {
      AgreeingMirror(pl, pl2, p);
    }
    OwnPalindromes(pl.orig, pl, pl2);
    OwnPalindromes(pl.orig, pl2, pl);
    CellsCovered(pl);
    CellsCovered(pl2);
    forall p | ErasedAt(pl, p) || ErasedAt(pl2, p) ensures At(pl.orig, p) == 0 {
      if 0 <= p < |pl.orig| {
        AgreeingZero(pl, pl2, p);
      }
    }
  }

  /** If words of the two passes that share a byte have the same extent, then two passes restore a file exactly
      if every word that only one of them swaps is a palindrome, and every value that is erased was zero. */
  lemma RestoredByPalindromes(pl: Plan, pl2: Plan)
    requires WellFormed(pl) && WellFormed(pl2) && pl2.orig == Mirrored(pl) && SameExtents(pl, pl2)
    ensures Mirrored(pl2) == pl.orig <==> Restorable(pl, pl2)
  {
    RestoredExactly(pl, pl2);
    if MirrorsAgree(pl, pl2) {
      AgreeingRestorable(pl, pl2);
    }
    if Restorable(pl, pl2) {
      PalindromesMirror(pl.orig, pl, pl2);
      forall p | 0 <= p < |pl.orig| ensures MirrorsAgreeAt(pl, pl2, p) {
        ZeroMirrorsAgree(pl, pl2, p);
      }
    }
  }

  /** Swapping any well-formed file twice, with whatever references are blocked, restores it exactly if the
      mirrors agree; and if words that share a byte have the same extent, exactly if it is restorable. */
  method SwapTwice(f: ByamlFile, ghost pl: Plan, ghost pl2: Plan)
    requires WellFormed(pl) && WellFormed(pl2) && pl2.orig == Mirrored(pl) && f.file[..] == pl.orig
    modifies f, f.file
    ensures f.file[..] == old(f.file[..]) <==> MirrorsAgree(pl, pl2)
    ensures SameExtents(pl, pl2) ==> (f.file[..] == old(f.file[..]) <==> Restorable(pl, pl2))
  {
    f.SwapByamlEndian(pl);
    f.SwapByamlEndian(pl2);
    RestoredExactly(pl, pl2);
    if SameExtents(pl, pl2) {
      RestoredByPalindromes(pl, pl2);
    }
  }
}
