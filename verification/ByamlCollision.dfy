/** Files whose root at 0x10000 is an array of one element, by the type byte of that element. With the type of
    binary data the element is a reference to 0x100, and the swap leaves that data out, because the offset as
    stored reads as 0x10000 too. With a type that is not known the element is erased. */
module ByamlCollision {
  import opened Words
  import opened ByamlLayout
  import opened ByamlRoundTrip

  const SIZE := 0x1000c

  function ByteAt(t: Byte, p: int): Byte {
    if p == 0 then MAGIC_LOW
    else if p == 1 then MAGIC_HIGH
    else if p == 2 then 3
    else if p == 14 then 1
    else if p == 0x100 then 5
    else if p == 0x10000 then 0xc0
    else if p == 0x10001 then 1
    else if p == 0x10004 then t
    else if p == 0x10009 then 1
    else 0
  }

  /** The word that a byte of the header or of the root belongs to. */
  function WordAt(p: int): Cell {
    if p < 2 then Cell(0, 2, FileHeader, Field(0))
    else if p < 4 then Cell(2, 2, FileHeader, Field(1))
    else if p < 8 then Cell(4, 4, FileHeader, Field(2))
    else if p < 12 then Cell(8, 4, FileHeader, Field(3))
    else if p < 16 then Cell(12, 4, FileHeader, Field(4))
    else if p < 0x10004 then Cell(0x10001, 3, Root, Head)
    else Cell(0x10008, 4, Root, Value(0))
  }

  predicate InWord(p: int) {
    0 <= p < 16 || 0x10001 <= p < 0x10004 || 0x10008 <= p < 0x1000c
  }

  /** The word of the element. */
  const ELEMENT := Cell(0x10008, 4, Root, Value(0))

  function Example(t: Byte): Plan {
    Plan(seq(SIZE, p => ByteAt(t, p)), true, map[], map p | 0 <= p < SIZE && InWord(p) :: WordAt(p),
         if TagOf(t).Unknown? then {ELEMENT} else {})
  }

  lemma ExampleOffsets(t: Byte)
    ensures KeyOffset(Example(t)) == ZERO && StringOffset(Example(t)) == ZERO
    ensures RootOffset(Example(t)) == U32(0, 0, 1, 0) && Tops(Example(t)) == {U32(0, 0, 1, 0)}
  {
  }

  lemma ExampleCells(t: Byte, p: int)
    ensures p in Example(t).cells <==> InWord(p)
    ensures InWord(p) ==> Example(t).cells[p] == WordAt(p)
  {
  }

  /** The two words of the root and the five of the header are the ones the bytes are assigned to. */
  lemma ExampleCovered(t: Byte, c: Cell)
    requires c in {Cell(0, 2, FileHeader, Field(0)), Cell(2, 2, FileHeader, Field(1)),
      Cell(4, 4, FileHeader, Field(2)), Cell(8, 4, FileHeader, Field(3)), Cell(12, 4, FileHeader, Field(4)),
      Cell(0x10001, 3, Root, Head), Cell(0x10008, 4, Root, Value(0))}
    ensures Covered(Example(t), c)
  {
    forall p | c.start <= p < c.start + c.len ensures p in Example(t).cells && Example(t).cells[p] == c {
      ExampleCells(t, p);
    }
  }

  const ROOT := Container(0x10000, 1, Listed)

  ghost predicate HeaderAndRoot(pl: Plan, w: Owner) {
    RegionOf(pl, w) == if w == FileHeader then Header else if w == Root then ROOT else Nothing
  }

  lemma ExampleRegions(t: Byte, w: Owner)
    ensures HeaderAndRoot(Example(t), w)
  {
    ExampleOffsets(t);
  }

  lemma SevenWords(pl: Plan, w: Owner, s: Slot)
    requires HeaderAndRoot(pl, w) && HasSlot(RegionOf(pl, w), s)
    ensures CellAt(pl, w, s) in {Cell(0, 2, FileHeader, Field(0)), Cell(2, 2, FileHeader, Field(1)),
      Cell(4, 4, FileHeader, Field(2)), Cell(8, 4, FileHeader, Field(3)), Cell(12, 4, FileHeader, Field(4)),
      Cell(0x10001, 3, Root, Head), Cell(0x10008, 4, Root, Value(0))}
  {
    assert s.Field? ==> s == Field(0) || s == Field(1) || s == Field(2) || s == Field(3) || s == Field(4);
  }

  lemma ExampleSlots(t: Byte, w: Owner, s: Slot)
    ensures HasSlot(RegionOf(Example(t), w), s) ==> Covered(Example(t), CellAt(Example(t), w, s))
  {
    ExampleRegions(t, w);
    if HasSlot(RegionOf(Example(t), w), s) {
      SevenWords(Example(t), w, s);
      ExampleCovered(t, CellAt(Example(t), w, s));
    }
  }

  lemma GoodByParts(pl: Plan, w: Owner)
    requires HeaderAndRoot(pl, w)
    requires Fixed(pl, 0x10000) && Fixed(pl, 0x10004)
    requires Blocked(pl, EntryWord(pl, ROOT, 0))
    requires forall s :: HasSlot(RegionOf(pl, w), s) ==> Covered(pl, CellAt(pl, w, s))
    ensures GoodRegion(pl, w)
  {
  }

  lemma ExampleEntry(t: Byte)
    ensures EntryTag(Example(t), ROOT, 0) == TagOf(t) && EntryWord(Example(t), ROOT, 0) == U32(0, 1, 0, 0)
    ensures Blocked(Example(t), U32(0, 1, 0, 0))
  {
    ExampleOffsets(t);
  }

  lemma KnowsByParts(pl: Plan, w: Owner)
    requires HeaderAndRoot(pl, w) && (ELEMENT in pl.unknown <==> EntryTag(pl, ROOT, 0).Unknown?)
    ensures KnowsUnknown(pl, w)
  {
  }

  lemma ExampleFixed(t: Byte)
    ensures Fixed(Example(t), 0x10000) && Fixed(Example(t), 0x10004)
  {
    ExampleCells(t, 0x10000);
    ExampleCells(t, 0x10004);
  }

  lemma ExampleGood(t: Byte, w: Owner)
    ensures GoodRegion(Example(t), w)
  {
    ExampleRegions(t, w);
    ExampleEntry(t);
    ExampleFixed(t);
    forall s | HasSlot(RegionOf(Example(t), w), s) ensures Covered(Example(t), CellAt(Example(t), w, s)) {
      ExampleSlots(t, w, s);
    }
    GoodByParts(Example(t), w);
  }

  lemma ExampleKnows(t: Byte, w: Owner)
    ensures KnowsUnknown(Example(t), w)
  {
    ExampleRegions(t, w);
    ExampleEntry(t);
    KnowsByParts(Example(t), w);
  }

  /** The words that bytes are assigned to are words of the header or of the root. */
  lemma WordIsCell(pl: Plan, p: int)
    requires InWord(p) && HeaderAndRoot(pl, FileHeader) && HeaderAndRoot(pl, Root)
    ensures IsCell(pl, WordAt(p)) && WordAt(p).start <= p < WordAt(p).start + WordAt(p).len
  {
  }

  lemma ExamplePlaced(t: Byte)
    ensures Placed(Example(t))
  {
    ExampleRegions(t, FileHeader);
    ExampleRegions(t, Root);
    forall p | p in Example(t).cells
      ensures var c := Example(t).cells[p]; IsCell(Example(t), c) && c.start <= p < c.start + c.len
    {
      ExampleCells(t, p);
      WordIsCell(Example(t), p);
    }
  }

  lemma ExampleWellFormed(t: Byte)
    ensures WellFormed(Example(t))
  {
    ExampleOffsets(t);
    ExamplePlaced(t);
    ExampleCells(t, 0x10000);
    forall w: Owner ensures GoodRegion(Example(t), w) && KnowsUnknown(Example(t), w) {
      ExampleGood(t, w);
      ExampleKnows(t, w);
    }
  }

  /** The type byte of a reference to binary data. */
  const BINARY: Byte := 0xa1

  /** The file is well-formed, the reference is blocked, and the length of the binary data reads the same
      before and after the swap, although its byte order has changed. */
  lemma CollisionExample()
    ensures WellFormed(Example(BINARY))
    ensures HasEntry(RegionOf(Example(BINARY), Root), 0)
    ensures EntryTag(Example(BINARY), RegionOf(Example(BINARY), Root), 0) == Reference(BinaryKind)
    ensures Blocked(Example(BINARY), EntryWord(Example(BINARY), RegionOf(Example(BINARY), Root), 0))
    ensures forall p :: 0x100 <= p < 0x104 ==>
      MirroredByte(Example(BINARY), p) == At(Example(BINARY).orig, p) == ByteAt(BINARY, p)
  {
    ExampleWellFormed(BINARY);
    ExampleRegions(BINARY, Root);
    ExampleEntry(BINARY);
    forall p | 0x100 <= p < 0x104
      ensures MirroredByte(Example(BINARY), p) == At(Example(BINARY).orig, p) == ByteAt(BINARY, p)
    {
      LengthUnswapped(p);
    }
  }

  lemma LengthUnswapped(p: int)
    requires 0x100 <= p < 0x104
    ensures MirroredByte(Example(BINARY), p) == At(Example(BINARY).orig, p) == ByteAt(BINARY, p)
  {
    ExampleCells(BINARY, p);
  }

  lemma NotZeroByParts(pl: Plan)
    requires HeaderAndRoot(pl, Root) && EntryTag(pl, ROOT, 0).Unknown? && EntryWord(pl, ROOT, 0) != ZERO
    ensures !UnknownAreZero(pl)
  {
    assert HasEntry(RegionOf(pl, Root), 0);
  }

  /** With a type that is not known, such as the null type 0xff, the element is erased: the file is well-formed, and
      swapping it twice does not restore it. */
  lemma ErasedExample(t: Byte)
    requires TagOf(t).Unknown?
    ensures WellFormed(Example(t)) && Mirrored(Flipped(Example(t))) != Example(t).orig
  {
    ExampleWellFormed(t);
    ExampleNotZero(t);
    MirroredTwice(Example(t));
  }

  lemma ExampleNotZero(t: Byte)
    requires TagOf(t).Unknown?
    ensures !UnknownAreZero(Example(t))
  {
    ExampleRegions(t, Root);
    ExampleEntry(t);
    NotZeroByParts(Example(t));
  }

  // ---------------------------------------------------------------------------------------------
  // The way back

  const TARGET := U32(0, 1, 0, 0)
  const LENGTH := Cell(0x100, 4, Object(TARGET), Field(0))

  /** The plan of the swapped file: in the other byte order the reference is not blocked, and the length of
      the binary data is one more word. */
  function Back(): Plan {
    Plan(Mirrored(Example(BINARY)), false, map[TARGET := BinaryKind],
         map p | 0 <= p < SIZE && (InWord(p) || 0x100 <= p < 0x104) :: if InWord(p) then WordAt(p) else LENGTH,
         {})
  }

  lemma BackCells(p: int)
    ensures p in Back().cells <==> InWord(p) || 0x100 <= p < 0x104
    ensures p in Back().cells ==> Back().cells[p] == if InWord(p) then WordAt(p) else LENGTH
  {
  }

  lemma BackOffsets()
    ensures KeyOffset(Back()) == ZERO && StringOffset(Back()) == ZERO
    ensures RootOffset(Back()) == U32(0, 0, 1, 0) && Tops(Back()) == {U32(0, 0, 1, 0)}
  {
    ExampleWellFormed(BINARY);
    ExampleOffsets(BINARY);
    SameOffsets(Example(BINARY));
  }

  /** The regions of the swapped file are those of the file, and the binary data. */
  ghost predicate AndData(pl: Plan, w: Owner) {
    if w == Object(TARGET) then RegionOf(pl, w) == Blob(0x100, BinaryKind) else HeaderAndRoot(pl, w)
  }

  lemma RegionsByParts(pl: Plan, w: Owner)
    requires KeyOffset(pl) == ZERO && StringOffset(pl) == ZERO && RegionOf(pl, Root) == ROOT
    requires pl.objects == map[TARGET := BinaryKind]
    ensures AndData(pl, w)
  {
  }

  lemma SameFileSameRoot(a: Plan, b: Plan)
    requires a.orig == b.orig && a.native == b.native
    ensures RegionOf(a, Root) == RegionOf(b, Root)
  {
  }

  lemma BackRegions(w: Owner)
    ensures AndData(Back(), w)
  {
    ExampleWellFormed(BINARY);
    ExampleRegions(BINARY, Root);
    SameRoot(Example(BINARY));
    SameFileSameRoot(Back(), Flipped(Example(BINARY)));
    BackOffsets();
    RegionsByParts(Back(), w);
  }

  lemma BackCovered(c: Cell)
    requires c in {Cell(0, 2, FileHeader, Field(0)), Cell(2, 2, FileHeader, Field(1)),
      Cell(4, 4, FileHeader, Field(2)), Cell(8, 4, FileHeader, Field(3)), Cell(12, 4, FileHeader, Field(4)),
      Cell(0x10001, 3, Root, Head), Cell(0x10008, 4, Root, Value(0)), LENGTH}
    ensures Covered(Back(), c)
  {
    forall p | c.start <= p < c.start + c.len ensures p in Back().cells && Back().cells[p] == c {
      BackCells(p);
    }
  }

  lemma BackSlots(w: Owner, s: Slot)
    requires HasSlot(RegionOf(Back(), w), s)
    ensures Covered(Back(), CellAt(Back(), w, s))
  {
    BackRegions(w);
    if w != Object(TARGET) {
      SevenWords(Back(), w, s);
    }
    BackCovered(CellAt(Back(), w, s));
  }

  lemma BackEntry()
    ensures EntryTag(Back(), ROOT, 0) == Reference(BinaryKind) && EntryWord(Back(), ROOT, 0) == TARGET
    ensures !Blocked(Back(), TARGET)
  {
    ExampleWellFormed(BINARY);
    ExampleRegions(BINARY, Root);
    ExampleEntry(BINARY);
    SameEntry(Example(BINARY), Root, 0);
    BackOffsets();
  }

  lemma GoodOnTheWayBack(pl: Plan, w: Owner)
    requires AndData(pl, w) && Fixed(pl, 0x10000) && Fixed(pl, 0x10004)
    requires EntryTag(pl, ROOT, 0) == Reference(BinaryKind) && EntryWord(pl, ROOT, 0) == TARGET
    requires TARGET in pl.objects && pl.objects[TARGET] == BinaryKind
    requires forall s :: HasSlot(RegionOf(pl, w), s) ==> Covered(pl, CellAt(pl, w, s))
    ensures GoodRegion(pl, w)
  {
  }

  lemma BackFixed()
    ensures Fixed(Back(), 0x10000) && Fixed(Back(), 0x10004)
  {
    BackCells(0x10000);
    BackCells(0x10004);
  }

  lemma BackGood(w: Owner)
    ensures GoodRegion(Back(), w)
  {
    BackRegions(w);
    BackEntry();
    BackFixed();
    forall s | HasSlot(RegionOf(Back(), w), s) ensures Covered(Back(), CellAt(Back(), w, s)) {
      BackSlots(w, s);
    }
    GoodOnTheWayBack(Back(), w);
  }

  lemma KnownOnTheWayBack(pl: Plan, w: Owner)
    requires AndData(pl, w) && pl.unknown == {} && !EntryTag(pl, ROOT, 0).Unknown?
    ensures KnowsUnknown(pl, w)
  {
  }

  lemma BackKnows(w: Owner)
    ensures KnowsUnknown(Back(), w)
  {
    BackRegions(w);
    BackEntry();
    KnownOnTheWayBack(Back(), w);
  }

  lemma LengthIsCell(pl: Plan)
    requires AndData(pl, Object(TARGET))
    ensures IsCell(pl, LENGTH)
  {
  }

  lemma BackPlacedAt(p: int)
    requires p in Back().cells
    ensures var c := Back().cells[p]; IsCell(Back(), c) && c.start <= p < c.start + c.len
  {
    BackCells(p);
    if InWord(p) {
      BackRegions(FileHeader);
      BackRegions(Root);
      WordIsCell(Back(), p);
    } else {
      BackRegions(Object(TARGET));
      LengthIsCell(Back());
    }
  }

  lemma BackPlaced()
    ensures Placed(Back())
  {
    forall p | p in Back().cells
      ensures var c := Back().cells[p]; IsCell(Back(), c) && c.start <= p < c.start + c.len
    {
      BackPlacedAt(p);
    }
  }

  lemma TargetIsMet(pl: Plan, s: set<U32>)
    requires AndData(pl, Root) && EntryTag(pl, ROOT, 0).Reference? && EntryWord(pl, ROOT, 0) == TARGET
    requires !Blocked(pl, TARGET) && Closed(pl, s) && pl.objects == map[TARGET := BinaryKind]
    ensures pl.objects.Keys <= s
  {
    assert HasEntry(ROOT, 0);
  }

  lemma BackClosed(s: set<U32>)
    requires Closed(Back(), s)
    ensures Back().objects.Keys <= s
  {
    BackRegions(Root);
    BackEntry();
    TargetIsMet(Back(), s);
  }

  lemma BackMagic()
    ensures HasMagic(Back()) && 16 <= |Back().orig|
  {
    ExampleWellFormed(BINARY);
    ExampleCovered(BINARY, Cell(0, 2, FileHeader, Field(0)));
    FlippedMagic(Example(BINARY));
  }

  lemma WellFormedByParts(pl: Plan)
    requires 16 <= |pl.orig| && HasMagic(pl) && Placed(pl) && Fixed(pl, 0x10000)
    requires Tops(pl) == {U32(0, 0, 1, 0)} && pl.objects == map[TARGET := BinaryKind]
    requires forall w: Owner :: GoodRegion(pl, w)
    requires (forall w: Owner :: KnowsUnknown(pl, w)) && OnlyValuesUnknown(pl)
    requires forall s: set<U32> :: Closed(pl, s) ==> pl.objects.Keys <= s
    ensures WellFormed(pl)
  {
  }

  lemma BackWellFormed()
    ensures WellFormed(Back())
  {
    BackMagic();
    BackOffsets();
    BackPlaced();
    BackFixed();
    forall w: Owner ensures GoodRegion(Back(), w) && KnowsUnknown(Back(), w) {
      BackGood(w);
      BackKnows(w);
    }
    forall s: set<U32> | Closed(Back(), s) ensures Back().objects.Keys <= s {
      BackClosed(s);
    }
    WellFormedByParts(Back());
  }

  lemma LengthSwapped()
    ensures MirroredByte(Back(), 0x100) == At(Mirrored(Example(BINARY)), 0x103)
  {
    BackCells(0x100);
  }

  lemma LengthAfter()
    ensures |Mirrored(Back())| == SIZE && Mirrored(Back())[0x100] == 0
  {
    LengthUnswapped(0x103);
    LengthSwapped();
    MirroredIs(Example(BINARY), 0x103);
    MirroredIs(Back(), 0x100);
  }

  lemma MirroredIs(pl: Plan, p: int)
    requires 0 <= p < |pl.orig|
    ensures Mirrored(pl)[p] == At(Mirrored(pl), p) == MirroredByte(pl, p)
  {
  }

  lemma LengthBefore()
    ensures |Example(BINARY).orig| == SIZE && Example(BINARY).orig[0x100] == 5
  {
  }

  /** The way back reverses the length of the binary data, which the way there left as it was: swapping the
      file twice does not restore it. */
  lemma NotRestoredExample()
    ensures WellFormed(Example(BINARY)) && WellFormed(Back()) && Back().orig == Mirrored(Example(BINARY))
    ensures Mirrored(Back()) != Example(BINARY).orig
  {
    ExampleWellFormed(BINARY);
    BackWellFormed();
    LengthBefore();
    LengthAfter();
  }
}
