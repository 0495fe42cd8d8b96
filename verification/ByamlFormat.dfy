/** What the format itself says of a file, over its type bytes and offsets: which words there are, which are
    reversed when its byte order is changed, and which values are erased. */
module ByamlFormat {
  import opened Words
  import opened ByamlLayout
  import opened ByamlProgress

  // ---------------------------------------------------------------------------------------------
  // Type bytes

  predicate IsContainer(t: Byte) {
    0x20 <= t <= 0x3f || t == 0xc0 || t == 0xc1 || t == 0xc4 || t == 0xc8
  }

  /** Lengths, lengths with alignments, and numbers of eight bytes are kept elsewhere in the file. */
  predicate IsKeptElsewhere(t: Byte) {
    t == 0xa1 || t == 0xa2 || 0xd4 <= t <= 0xd6
  }

  /** Strings by their index, truth values, and numbers of four bytes. */
  predicate IsNumber(t: Byte) {
    t == 0xa0 || 0xd0 <= t <= 0xd3
  }

  /** The containers whose entries are looked at. */
  predicate HasEntries(t: Byte) {
    t == 0x20 || t == 0x21 || t == 0x30 || t == 0x31 || t == 0xc0 || t == 0xc1 || t == 0xc4 || t == 0xc8
  }

  /** Where the type byte, the key of so many bytes, the value and the remap index of an entry lie. */
  datatype Places = Places(tag: int, key: int, keyLen: int, value: int, remap: Option<int>)

  /** The places of entry `i` of a container at `b` that holds `n` entries, by its type byte. */
  function PlacesOf(t: Byte, b: int, n: int, i: int): Places {
    var padded := n + (4 - n % 4) % 4;
    if t == 0x20 then Places(b + 4 + 8 * n + i, b + 4 + 8 * i, 4, b + 8 + 8 * i, None)
    else if t == 0x30 then
      Places(b + 4 + 8 * n + i, b + 4 + 8 * i, 4, b + 8 + 8 * i, Some(b + 4 + 8 * n + padded + 4 * i))
    else if t == 0x21 then Places(b + 4 + 12 * n + i, b + 4 + 12 * i, 8, b + 12 + 12 * i, None)
    else if t == 0x31 then
      Places(b + 4 + 12 * n + i, b + 4 + 12 * i, 8, b + 12 + 12 * i, Some(b + 4 + 12 * n + padded + 4 * i))
    else if t == 0xc1 then Places(b + 7 + 8 * i, b + 4 + 8 * i, 3, b + 8 + 8 * i, None)
    else if t == 0xc4 then Places(b + 7 + 8 * i, b + 4 + 8 * i, 3, b + 8 + 8 * i, Some(b + 4 + 8 * n + 4 * i))
    else if t == 0xc0 then Places(b + 4 + i, 0, 0, b + 4 + padded + 4 * i, None)
    else Places(b + 4, 0, 0, b + 8 + 4 * i, None)
  }

  // ---------------------------------------------------------------------------------------------
  // Which containers there are

  function Offset(f: seq<Byte>, native: bool, p: int): int {
    Number32(Read4(f, native, p))
  }

  function Count(f: seq<Byte>, native: bool, b: int): int {
    Number24(Read3(f, native, b + 1))
  }

  /** Offsets and counts in native order have their lowest byte first, and in the other order their highest. */
  lemma LowestFirst(f: seq<Byte>, native: bool, p: int)
    ensures var b0, b1, b2, b3 := At(f, p) as int, At(f, p + 1) as int, At(f, p + 2) as int, At(f, p + 3) as int;
      && Offset(f, native, p) == (if native then b0 + 0x100 * b1 + 0x1_0000 * b2 + 0x100_0000 * b3
                                  else b3 + 0x100 * b2 + 0x1_0000 * b1 + 0x100_0000 * b0)
      && Count(f, native, p) == (if native then b1 + 0x100 * b2 + 0x1_0000 * b3
                                 else b3 + 0x100 * b2 + 0x1_0000 * b1)
  {
  }

  /** The places of entry `i` of the container at `b`. */
  function EntryAt(f: seq<Byte>, native: bool, b: int, i: int): Places {
    PlacesOf(At(f, b), b, Count(f, native, b), i)
  }

  predicate IsEntry(f: seq<Byte>, native: bool, b: int, i: int) {
    HasEntries(At(f, b)) && 0 <= i < Count(f, native, b)
  }

  /** Read as the swapped file would store it, the offset at `p` is one of the header, so that what it leads to is
      passed over. */
  predicate Taken(f: seq<Byte>, native: bool, p: int) {
    var x := Number32(U32(At(f, p + 3), At(f, p + 2), At(f, p + 1), At(f, p)));
    x != 0 && (x == Offset(f, native, 4) || x == Offset(f, native, 8) || x == Offset(f, native, 12))
  }

  /** The root is a container, and neither of the tables. */
  predicate IsRoot(f: seq<Byte>, native: bool, b: int) {
    && b == Offset(f, native, 12) != 0 && b != Offset(f, native, 4) && b != Offset(f, native, 8)
    && (0x20 <= At(f, b) <= 0x2f || 0xc0 <= At(f, b) <= 0xcf)
  }

  /** Entry `i` of the container at `b` leads to `o`. */
  predicate Leads(f: seq<Byte>, native: bool, b: int, i: int, o: int) {
    && IsEntry(f, native, b, i)
    && var e := EntryAt(f, native, b, i);
       && (IsContainer(At(f, e.tag)) || IsKeptElsewhere(At(f, e.tag)))
       && !Taken(f, native, e.value) && o == Offset(f, native, e.value)
  }

  /** Entry `i` of the container at `b` leads to a container at `o`. */
  predicate LeadsDown(f: seq<Byte>, native: bool, b: int, i: int, o: int) {
    Leads(f, native, b, i, o) && IsContainer(At(f, EntryAt(f, native, b, i).tag))
  }

  /** A way down from the root, over entries of one container after the other, to the container at `b`. */
  datatype Path = AtRoot(b: int) | Below(front: Path, i: int, b: int)

  predicate Reached(f: seq<Byte>, native: bool, path: Path) {
    match path
    case AtRoot(b) => IsRoot(f, native, b)
    case Below(front, i, b) => Reached(f, native, front) && LeadsDown(f, native, front.b, i, b)
  }

  // ---------------------------------------------------------------------------------------------
  // Which words there are

  predicate HeaderWord(p: int, len: int) {
    (p == 0 && len == 2) || (p == 2 && len == 2) || ((p == 4 || p == 8 || p == 12) && len == 4)
  }

  predicate WordOfTable(f: seq<Byte>, native: bool, b: int, i: int, p: int) {
    0 <= i <= Count(f, native, b) && p == b + 4 + 4 * i
  }

  /** A word of the table that the header points to at `at`: its count, or one of its offsets. */
  ghost predicate TableWord(f: seq<Byte>, native: bool, at: int, p: int, len: int) {
    var b := Offset(f, native, at);
    && b != 0 && At(f, b) == 0xc2
    && ((p == b + 1 && len == 3) || (len == 4 && exists i :: WordOfTable(f, native, b, i, p)))
  }

  /** A word of entry `i` of the container at `b`, or of what it leads to if that is no container. */
  predicate WordOfEntry(f: seq<Byte>, native: bool, b: int, i: int, p: int, len: int) {
    && IsEntry(f, native, b, i)
    && var e := EntryAt(f, native, b, i);
       var t, o := At(f, e.tag), Offset(f, native, e.value);
       || (e.keyLen > 0 && p == e.key && len == e.keyLen)
       || (e.remap.Some? && p == e.remap.value && len == 4)
       || (p == e.value && len == 4 && (IsContainer(t) || IsKeptElsewhere(t) || IsNumber(t)))
       || (p == o && len == 4 && (t == 0xa1 || t == 0xa2) && !Taken(f, native, e.value))
       || (p == o + 4 && len == 4 && t == 0xa2 && !Taken(f, native, e.value))
       || (p == o && len == 8 && 0xd4 <= t <= 0xd6 && !Taken(f, native, e.value))
  }

  ghost predicate WordOfContainer(f: seq<Byte>, native: bool, b: int, p: int, len: int) {
    (p == b + 1 && len == 3) || exists i :: WordOfEntry(f, native, b, i, p, len)
  }

  /** The format has a word of `len` bytes at `p`. */
  ghost predicate IsWord(f: seq<Byte>, native: bool, p: int, len: int) {
    || HeaderWord(p, len)
    || TableWord(f, native, 4, p, len)
    || (Offset(f, native, 8) != Offset(f, native, 4) && TableWord(f, native, 8, p, len))
    || exists path :: Reached(f, native, path) && WordOfContainer(f, native, path.b, p, len)
  }

  /** Entry `i` of the container at `b` has a value at `p` whose type byte is none that is known. */
  predicate UnknownValue(f: seq<Byte>, native: bool, b: int, i: int, p: int) {
    && IsEntry(f, native, b, i)
    && var e := EntryAt(f, native, b, i);
       var t := At(f, e.tag);
       p == e.value && !IsContainer(t) && !IsKeptElsewhere(t) && !IsNumber(t)
  }

  ghost predicate IsErased(f: seq<Byte>, native: bool, p: int) {
    exists path, i :: Reached(f, native, path) && UnknownValue(f, native, path.b, i, p)
  }

  // ---------------------------------------------------------------------------------------------
  // What a pass makes of them

  predicate Backwards(f: seq<Byte>, g: seq<Byte>, p: int, len: int) {
    && 0 <= p && p + len <= |f| == |g|
    && forall k :: p <= k < p + len ==> g[k] == f[2 * p + len - 1 - k]
  }

  ghost predicate WordsReversed(f: seq<Byte>, native: bool, g: seq<Byte>) {
    forall p, len | IsWord(f, native, p, len) :: Backwards(f, g, p, len)
  }

  ghost predicate UnknownErased(f: seq<Byte>, native: bool, g: seq<Byte>) {
    forall p | IsErased(f, native, p) ::
      0 <= p && p + 4 <= |g| && g[p] == 0 && g[p + 1] == 0 && g[p + 2] == 0 && g[p + 3] == 0
  }

  ghost predicate RestKept(f: seq<Byte>, native: bool, g: seq<Byte>) {
    && |g| == |f|
    && forall x | 0 <= x < |g| && g[x] != f[x] ::
         (exists p, len :: IsWord(f, native, p, len) && p <= x < p + len)
         || (exists p :: IsErased(f, native, p) && p <= x < p + 4)
  }

  /** In `g` each word of `f` is reversed, each value of unknown type is zero, and all else is as it is in `f`. */
  ghost predicate OrderChanged(f: seq<Byte>, native: bool, g: seq<Byte>) {
    WordsReversed(f, native, g) && UnknownErased(f, native, g) && RestKept(f, native, g)
  }

  // ---------------------------------------------------------------------------------------------
  // The plan has these words

  lemma PaddedIsRounded(n: int)
    requires 0 <= n
    ensures n + (4 - n % 4) % 4 == Rounded(n)
  {
  }

  /** The slots of an entry lie where the format has them. */
  lemma EntryPlaces(t: Byte, b: int, n: int, i: int)
    requires 0 <= n
    ensures var r := Container(b, n, FormOf(t)); HasEntry(r, i) <==> HasEntries(t) && 0 <= i < n
    ensures HasEntries(t) && 0 <= i < n ==>
        var r, e := Container(b, n, FormOf(t)), PlacesOf(t, b, n, i);
        && TagPosition(r, i) == e.tag
        && HasSlot(r, Value(i)) && SlotStart(r, Value(i)) == e.value && SlotLen(r, Value(i)) == 4
        && (HasSlot(r, Key(i)) <==> e.keyLen > 0)
        && (e.keyLen > 0 ==> SlotStart(r, Key(i)) == e.key && SlotLen(r, Key(i)) == e.keyLen)
        && (HasSlot(r, Remap(i)) <==> e.remap.Some?)
        && (e.remap.Some? ==> SlotStart(r, Remap(i)) == e.remap.value && SlotLen(r, Remap(i)) == 4)
  {
    PaddedIsRounded(n);
  }

  lemma TypesAgree(t: Byte)
    ensures TagOf(t) == Reference(ContainerKind) <==> IsContainer(t)
    ensures TagOf(t).Reference? <==> IsContainer(t) || IsKeptElsewhere(t)
    ensures TagOf(t) == Reference(BinaryKind) <==> t == 0xa1
    ensures TagOf(t) == Reference(AlignedBinaryKind) <==> t == 0xa2
    ensures TagOf(t) == Reference(WideKind) <==> 0xd4 <= t <= 0xd6
    ensures TagOf(t).Unknown? <==> !IsContainer(t) && !IsKeptElsewhere(t) && !IsNumber(t)
  {
  }

  lemma CellCovered(pl: Plan, c: Cell)
    requires WellFormed(pl) && IsCell(pl, c)
    ensures Covered(pl, c)
  {
    assert GoodRegion(pl, c.owner);
  }

  lemma CoveredBackwards(pl: Plan, c: Cell)
    requires Covered(pl, c) && c !in pl.unknown
    ensures Backwards(pl.orig, Mirrored(pl), c.start, c.len)
  {
  }

  /** A word of the plan is reversed by its pass, unless it is erased. */
  lemma CellBackwards(pl: Plan, c: Cell)
    requires WellFormed(pl) && IsCell(pl, c) && c !in pl.unknown
    ensures Backwards(pl.orig, Mirrored(pl), c.start, c.len)
  {
    CellCovered(pl, c);
    CoveredBackwards(pl, c);
  }

  lemma CoveredErased(pl: Plan, c: Cell)
    requires Covered(pl, c) && c in pl.unknown
    ensures forall k :: c.start <= k < c.start + c.len ==> Mirrored(pl)[k] == 0
  {
  }

  lemma CellErased(pl: Plan, c: Cell)
    requires WellFormed(pl) && IsCell(pl, c) && c in pl.unknown
    ensures 0 <= c.start && c.start + c.len <= |pl.orig|
    ensures forall k :: c.start <= k < c.start + c.len ==> Mirrored(pl)[k] == 0
  {
    CellCovered(pl, c);
    CoveredErased(pl, c);
  }

  /** The region of an owner is the container at `b`. */
  predicate Holds(pl: Plan, w: Owner, b: int) {
    (w.Root? || w.Object?) && RegionOf(pl, w) == ContainerAt(pl.orig, pl.native, b)
  }

  lemma RootHeld(pl: Plan, b: int)
    requires IsRoot(pl.orig, pl.native, b)
    ensures Holds(pl, Root, b)
  {
  }

  lemma ObjectHeld(pl: Plan, o: U32)
    requires o in pl.objects && pl.objects[o] == ContainerKind
    ensures Holds(pl, Object(o), Number32(o))
  {
  }

  lemma NotTakenNotBlocked(pl: Plan, p: int)
    ensures Blocked(pl, Read4(pl.orig, pl.native, p)) <==> Taken(pl.orig, pl.native, p)
  {
    var key := CacheKey(pl.native, Read4(pl.orig, pl.native, p));
    assert key == U32(At(pl.orig, p + 3), At(pl.orig, p + 2), At(pl.orig, p + 1), At(pl.orig, p));
    SameWord(key, KeyOffset(pl));
    SameWord(key, StringOffset(pl));
    SameWord(key, RootOffset(pl));
  }

  lemma SameWord(x: U32, y: U32)
    ensures Number32(x) == Number32(y) <==> x == y
  {
    if Number32(x) == Number32(y) {
      LowByte(x.b0, x.b1 + 0x100 * (x.b2 + 0x100 * x.b3), y.b0, y.b1 + 0x100 * (y.b2 + 0x100 * y.b3));
      LowByte(x.b1, x.b2 + 0x100 * x.b3, y.b1, y.b2 + 0x100 * y.b3);
      LowByte(x.b2, x.b3, y.b2, y.b3);
    }
  }

  lemma LowByte(a: Byte, m: int, b: Byte, n: int)
    requires a + 0x100 * m == b + 0x100 * n
    ensures a == b && m == n
  {
  }

  /** Entry `i` of the container at `b`, as the plan has it. */
  lemma HeldEntry(pl: Plan, w: Owner, b: int, i: int)
    requires Holds(pl, w, b)
    ensures HasEntry(RegionOf(pl, w), i) <==> IsEntry(pl.orig, pl.native, b, i)
    ensures IsEntry(pl.orig, pl.native, b, i) ==>
        var e := EntryAt(pl.orig, pl.native, b, i);
        && EntryTag(pl, RegionOf(pl, w), i) == TagOf(At(pl.orig, e.tag))
        && EntryWord(pl, RegionOf(pl, w), i) == Read4(pl.orig, pl.native, e.value)
        && IsCell(pl, Cell(e.value, 4, w, Value(i))) && CellAt(pl, w, Value(i)) == Cell(e.value, 4, w, Value(i))
        && (e.keyLen > 0 ==> IsCell(pl, Cell(e.key, e.keyLen, w, Key(i))))
        && (e.remap.Some? ==> IsCell(pl, Cell(e.remap.value, 4, w, Remap(i))))
  {
    EntryPlaces(At(pl.orig, b), b, Count(pl.orig, pl.native, b), i);
  }

  /** What an entry leads to is a region of the plan. */
  lemma HeldLeads(pl: Plan, w: Owner, b: int, i: int, o: int) returns (x: U32)
    requires WellFormed(pl) && Holds(pl, w, b) && Leads(pl.orig, pl.native, b, i, o)
    ensures Number32(x) == o && x in pl.objects
    ensures TagOf(At(pl.orig, EntryAt(pl.orig, pl.native, b, i).tag)) == Reference(pl.objects[x])
  {
    var e := EntryAt(pl.orig, pl.native, b, i);
    x := Read4(pl.orig, pl.native, e.value);
    HeldEntry(pl, w, b, i);
    TypesAgree(At(pl.orig, e.tag));
    NotTakenNotBlocked(pl, e.value);
    assert GoodRegion(pl, w);
    assert GoodEntry(pl, RegionOf(pl, w), i);
  }

  /** Every container on the way down is a region of the plan. */
  lemma {:induction false} ReachedHeld(pl: Plan, path: Path) returns (w: Owner)
    requires WellFormed(pl) && Reached(pl.orig, pl.native, path)
    ensures Holds(pl, w, path.b)
  {
    match path
    case AtRoot(b) =>
      w := Root;
      RootHeld(pl, b);
    case Below(front, i, b) =>
      var v := ReachedHeld(pl, front);
      var x := HeldLeadsDown(pl, v, front.b, i, b);
      w := Object(x);
      ObjectHeld(pl, x);
  }

  lemma HeldLeadsDown(pl: Plan, w: Owner, b: int, i: int, o: int) returns (x: U32)
    requires WellFormed(pl) && Holds(pl, w, b) && LeadsDown(pl.orig, pl.native, b, i, o)
    ensures Number32(x) == o && x in pl.objects && pl.objects[x] == ContainerKind
  {
    x := HeldLeads(pl, w, b, i, o);
    TypesAgree(At(pl.orig, EntryAt(pl.orig, pl.native, b, i).tag));
  }

  lemma NotUnknown(pl: Plan, c: Cell)
    requires WellFormed(pl) && !c.slot.Value?
    ensures c !in pl.unknown
  {
  }

  lemma HeaderBackwards(pl: Plan, p: int, len: int)
    requires WellFormed(pl) && HeaderWord(p, len)
    ensures Backwards(pl.orig, Mirrored(pl), p, len)
  {
    var i := if p == 0 then 0 else if p == 2 then 1 else p / 4 + 1;
    NotUnknown(pl, Cell(p, len, FileHeader, Field(i)));
    CellBackwards(pl, Cell(p, len, FileHeader, Field(i)));
  }

  lemma KeyTableHeld(pl: Plan)
    requires var b := Offset(pl.orig, pl.native, 4); b != 0 && At(pl.orig, b) == 0xc2
    ensures var b := Offset(pl.orig, pl.native, 4);
      RegionOf(pl, KeyTable) == Table(b, Count(pl.orig, pl.native, b))
  {
  }

  lemma StringTableHeld(pl: Plan)
    requires var b := Offset(pl.orig, pl.native, 8); b != 0 && At(pl.orig, b) == 0xc2
    requires Offset(pl.orig, pl.native, 8) != Offset(pl.orig, pl.native, 4)
    ensures var b := Offset(pl.orig, pl.native, 8);
      RegionOf(pl, StringTable) == Table(b, Count(pl.orig, pl.native, b))
  {
  }

  lemma TableBackwards(pl: Plan, w: Owner, at: int, p: int, len: int)
    requires WellFormed(pl)
    requires var b := Offset(pl.orig, pl.native, at); RegionOf(pl, w) == Table(b, Count(pl.orig, pl.native, b))
    requires TableWord(pl.orig, pl.native, at, p, len)
    ensures Backwards(pl.orig, Mirrored(pl), p, len)
  {
    var b := Offset(pl.orig, pl.native, at);
    var s := Head;
    if !(p == b + 1 && len == 3) {
      var i :| WordOfTable(pl.orig, pl.native, b, i, p);
      s := Field(i);
    }
    NotUnknown(pl, Cell(p, len, w, s));
    CellBackwards(pl, Cell(p, len, w, s));
  }

  /** The words of a region that is no container. */
  lemma BlobWords(pl: Plan, x: U32)
    requires x in pl.objects && !pl.objects[x].ContainerKind?
    ensures IsCell(pl, Cell(Number32(x), if pl.objects[x].WideKind? then 8 else 4, Object(x), Field(0)))
    ensures pl.objects[x].AlignedBinaryKind? ==> IsCell(pl, Cell(Number32(x) + 4, 4, Object(x), Field(1)))
  {
  }

  /** A word of a region that is no container is reversed. */
  lemma LeafBackwards(pl: Plan, x: U32, t: Byte, p: int, len: int)
    requires WellFormed(pl) && x in pl.objects && TagOf(t) == Reference(pl.objects[x])
    requires || (p == Number32(x) && len == 4 && (t == 0xa1 || t == 0xa2))
             || (p == Number32(x) + 4 && len == 4 && t == 0xa2)
             || (p == Number32(x) && len == 8 && 0xd4 <= t <= 0xd6)
    ensures Backwards(pl.orig, Mirrored(pl), p, len)
  {
    TypesAgree(t);
    BlobWords(pl, x);
    var c := Cell(p, len, Object(x), if p == Number32(x) then Field(0) else Field(1));
    NotUnknown(pl, c);
    CellBackwards(pl, c);
  }

  lemma EntryBackwards(pl: Plan, w: Owner, b: int, i: int, p: int, len: int)
    requires WellFormed(pl) && Holds(pl, w, b) && WordOfEntry(pl.orig, pl.native, b, i, p, len)
    ensures Backwards(pl.orig, Mirrored(pl), p, len)
  {
    var e := EntryAt(pl.orig, pl.native, b, i);
    var t := At(pl.orig, e.tag);
    HeldEntry(pl, w, b, i);
    if e.keyLen > 0 && p == e.key && len == e.keyLen {
      NotUnknown(pl, Cell(p, len, w, Key(i)));
      CellBackwards(pl, Cell(p, len, w, Key(i)));
    } else if e.remap.Some? && p == e.remap.value && len == 4 {
      NotUnknown(pl, Cell(p, len, w, Remap(i)));
      CellBackwards(pl, Cell(p, len, w, Remap(i)));
    } else if p == e.value && len == 4 && (IsContainer(t) || IsKeptElsewhere(t) || IsNumber(t)) {
      TypesAgree(t);
      assert KnowsUnknown(pl, w);
      CellBackwards(pl, Cell(p, len, w, Value(i)));
    } else {
      var x := HeldLeads(pl, w, b, i, Offset(pl.orig, pl.native, e.value));
      LeafBackwards(pl, x, t, p, len);
    }
  }

  lemma HeadHeld(pl: Plan, w: Owner, b: int)
    requires Holds(pl, w, b)
    ensures IsCell(pl, Cell(b + 1, 3, w, Head))
  {
  }

  lemma ContainerBackwards(pl: Plan, w: Owner, b: int, p: int, len: int)
    requires WellFormed(pl) && Holds(pl, w, b) && WordOfContainer(pl.orig, pl.native, b, p, len)
    ensures Backwards(pl.orig, Mirrored(pl), p, len)
  {
    if p == b + 1 && len == 3 {
      HeadHeld(pl, w, b);
      NotUnknown(pl, Cell(p, len, w, Head));
      CellBackwards(pl, Cell(p, len, w, Head));
    } else {
      var i :| WordOfEntry(pl.orig, pl.native, b, i, p, len);
      EntryBackwards(pl, w, b, i, p, len);
    }
  }

  /** Every word that the format has is reversed. */
  lemma WordBackwards(pl: Plan, p: int, len: int)
    requires WellFormed(pl) && IsWord(pl.orig, pl.native, p, len)
    ensures Backwards(pl.orig, Mirrored(pl), p, len)
  {
    if HeaderWord(p, len) {
      HeaderBackwards(pl, p, len);
    } else if TableWord(pl.orig, pl.native, 4, p, len) {
      KeyTableHeld(pl);
      TableBackwards(pl, KeyTable, 4, p, len);
    } else if Offset(pl.orig, pl.native, 8) != Offset(pl.orig, pl.native, 4)
              && TableWord(pl.orig, pl.native, 8, p, len) {
      StringTableHeld(pl);
      TableBackwards(pl, StringTable, 8, p, len);
    } else {
      var path :| Reached(pl.orig, pl.native, path) && WordOfContainer(pl.orig, pl.native, path.b, p, len);
      var w := ReachedHeld(pl, path);
      ContainerBackwards(pl, w, path.b, p, len);
    }
  }

  /** Every value of unknown type is erased. */
  lemma ValueErased(pl: Plan, p: int)
    requires WellFormed(pl) && IsErased(pl.orig, pl.native, p)
    ensures 0 <= p && p + 4 <= |pl.orig| && forall k :: p <= k < p + 4 ==> Mirrored(pl)[k] == 0
  {
    var path, i :| Reached(pl.orig, pl.native, path) && UnknownValue(pl.orig, pl.native, path.b, i, p);
    var w := ReachedHeld(pl, path);
    HeldEntry(pl, w, path.b, i);
    TypesAgree(At(pl.orig, EntryAt(pl.orig, pl.native, path.b, i).tag));
    assert KnowsUnknown(pl, w);
    CellErased(pl, Cell(p, 4, w, Value(i)));
  }

  // ---------------------------------------------------------------------------------------------
  // The plan has no other words

  /** Entry `i` of the container at the end of a path leads to `o`. */
  ghost predicate MetBy(pl: Plan, path: Path, i: int, o: U32) {
    Reached(pl.orig, pl.native, path) && Leads(pl.orig, pl.native, path.b, i, Number32(o))
  }

  ghost predicate Met(pl: Plan, o: U32) {
    exists path, i :: MetBy(pl, path, i, o)
  }

  lemma OffsetsDiffer(pl: Plan)
    ensures RootOffset(pl) == KeyOffset(pl) <==> Offset(pl.orig, pl.native, 12) == Offset(pl.orig, pl.native, 4)
    ensures RootOffset(pl) == StringOffset(pl) <==> Offset(pl.orig, pl.native, 12) == Offset(pl.orig, pl.native, 8)
    ensures StringOffset(pl) == KeyOffset(pl) <==> Offset(pl.orig, pl.native, 8) == Offset(pl.orig, pl.native, 4)
  {
    SameWord(RootOffset(pl), KeyOffset(pl));
    SameWord(RootOffset(pl), StringOffset(pl));
    SameWord(StringOffset(pl), KeyOffset(pl));
  }

  lemma RootParts(pl: Plan)
    requires RegionOf(pl, Root).Container?
    ensures RootOffset(pl) !in {ZERO, KeyOffset(pl), StringOffset(pl)}
    ensures var b := Offset(pl.orig, pl.native, 12);
      IsContainerType(At(pl.orig, b)) && RegionOf(pl, Root) == ContainerAt(pl.orig, pl.native, b)
  {
  }

  /** The root region of the plan is the root of the format. */
  lemma RootIs(pl: Plan) returns (b: int)
    requires RegionOf(pl, Root).Container?
    ensures IsRoot(pl.orig, pl.native, b) && Holds(pl, Root, b)
  {
    b := Offset(pl.orig, pl.native, 12);
    RootParts(pl);
    OffsetsDiffer(pl);
  }

  /** What kind of region an entry leads to, by its type byte. */
  lemma MetKind(pl: Plan, path: Path, i: int, o: U32)
    requires WellFormed(pl) && o in pl.objects && MetBy(pl, path, i, o)
    ensures TagOf(At(pl.orig, EntryAt(pl.orig, pl.native, path.b, i).tag)) == Reference(pl.objects[o])
  {
    var w := ReachedHeld(pl, path);
    var x := HeldLeads(pl, w, path.b, i, Number32(o));
    SameWord(x, o);
  }

  /** A container of the plan that has been met is at the end of a path. */
  lemma MetPath(pl: Plan, o: U32) returns (path: Path)
    requires WellFormed(pl) && o in pl.objects && pl.objects[o].ContainerKind? && Met(pl, o)
    ensures Reached(pl.orig, pl.native, path) && path.b == Number32(o)
  {
    var front, i :| MetBy(pl, front, i, o);
    MetKind(pl, front, i, o);
    TypesAgree(At(pl.orig, EntryAt(pl.orig, pl.native, front.b, i).tag));
    assert LeadsDown(pl.orig, pl.native, front.b, i, Number32(o));
    path := Below(front, i, Number32(o));
  }

  /** What the container at the end of a path leads to has been met. */
  lemma RefsMet(pl: Plan, w: Owner, path: Path, s: set<U32>)
    requires WellFormed(pl) && Reached(pl.orig, pl.native, path) && Holds(pl, w, path.b)
    requires forall o :: o in pl.objects && Met(pl, o) ==> o in s
    ensures AllRefsIn(pl, RegionOf(pl, w), s)
  {
    var r, b := RegionOf(pl, w), path.b;
    forall i | HasEntry(r, i) && EntryTag(pl, r, i).Reference?
      ensures Blocked(pl, EntryWord(pl, r, i)) || EntryWord(pl, r, i) in s
    {
      EntryMeets(pl, w, path, i);
    }
  }

  lemma EntryMeets(pl: Plan, w: Owner, path: Path, i: int)
    requires WellFormed(pl) && Reached(pl.orig, pl.native, path) && Holds(pl, w, path.b)
    requires HasEntry(RegionOf(pl, w), i) && EntryTag(pl, RegionOf(pl, w), i).Reference?
    ensures var x := EntryWord(pl, RegionOf(pl, w), i); Blocked(pl, x) || (x in pl.objects && Met(pl, x))
  {
    var b := path.b;
    var e := EntryAt(pl.orig, pl.native, b, i);
    HeldEntry(pl, w, b, i);
    TypesAgree(At(pl.orig, e.tag));
    NotTakenNotBlocked(pl, e.value);
    assert GoodRegion(pl, w);
    assert GoodEntry(pl, RegionOf(pl, w), i);
    var x := Read4(pl.orig, pl.native, e.value);
    if !Blocked(pl, x) {
      assert MetBy(pl, path, i, x);
    }
  }

  lemma RootRefsMet(pl: Plan, s: set<U32>)
    requires WellFormed(pl) && forall o :: o in pl.objects && Met(pl, o) ==> o in s
    ensures AllRefsIn(pl, RegionOf(pl, Root), s)
  {
    if RegionOf(pl, Root).Container? {
      var b := RootIs(pl);
      RefsMet(pl, Root, AtRoot(b), s);
    }
  }

  lemma ObjectRefsMet(pl: Plan, o: U32, s: set<U32>)
    requires WellFormed(pl) && o in pl.objects && Met(pl, o)
    requires forall o :: o in pl.objects && Met(pl, o) ==> o in s
    ensures AllRefsIn(pl, RegionOf(pl, Object(o)), s)
  {
    if pl.objects[o].ContainerKind? {
      var path := MetPath(pl, o);
      ObjectHeld(pl, o);
      RefsMet(pl, Object(o), path, s);
    } else {
      BlobHasNoRefs(pl, o, s);
    }
  }

  lemma BlobHasNoRefs(pl: Plan, o: U32, s: set<U32>)
    requires o in pl.objects && !pl.objects[o].ContainerKind?
    ensures AllRefsIn(pl, RegionOf(pl, Object(o)), s)
  {
  }

  /** The plan has no regions but those that the format leads to. */
  lemma AllMet(pl: Plan)
    requires WellFormed(pl)
    ensures forall o :: o in pl.objects ==> Met(pl, o)
  {
    var s := set o | o in pl.objects && Met(pl, o);
    RootRefsMet(pl, s);
    forall o | o in s ensures AllRefsIn(pl, RegionOf(pl, Object(o)), s) {
      ObjectRefsMet(pl, o, s);
    }
    assert Closed(pl, s);
  }

  /** The format has the word, or has it as a value that is erased. */
  ghost predicate Known(pl: Plan, c: Cell) {
    if c in pl.unknown then c.len == 4 && IsErased(pl.orig, pl.native, c.start)
    else IsWord(pl.orig, pl.native, c.start, c.len)
  }

  /** A word of an entry lies where the format has the key, the value or the remap index. */
  lemma HeldSlot(pl: Plan, w: Owner, b: int, c: Cell)
    requires Holds(pl, w, b) && IsCell(pl, c) && c.owner == w && !c.slot.Head?
    ensures HasEntry(RegionOf(pl, w), c.slot.i) && IsEntry(pl.orig, pl.native, b, c.slot.i)
    ensures var e := EntryAt(pl.orig, pl.native, b, c.slot.i);
      || (c.slot.Key? && 0 < e.keyLen == c.len && c.start == e.key)
      || (c.slot.Value? && c.len == 4 && c.start == e.value)
      || (c.slot.Remap? && c.len == 4 && e.remap == Some(c.start))
  {
    EntryPlaces(At(pl.orig, b), b, Count(pl.orig, pl.native, b), c.slot.i);
  }

  lemma HeldKnown(pl: Plan, w: Owner, path: Path, c: Cell)
    requires WellFormed(pl) && Reached(pl.orig, pl.native, path) && Holds(pl, w, path.b)
    requires IsCell(pl, c) && c.owner == w
    ensures Known(pl, c)
  {
    if c.slot.Head? {
      NotUnknown(pl, c);
      HeadCell(pl, w, path.b, c);
      HeadWordIs(pl.orig, pl.native, path);
    } else {
      HeldSlot(pl, w, path.b, c);
      if c.slot.Value? {
        ValueKnown(pl, w, path, c);
      } else {
        NotUnknown(pl, c);
        ContainerWordIs(pl.orig, pl.native, path, c.slot.i, c.start, c.len);
      }
    }
  }

  lemma HeadCell(pl: Plan, w: Owner, b: int, c: Cell)
    requires Holds(pl, w, b) && IsCell(pl, c) && c.owner == w && c.slot.Head?
    ensures c.start == b + 1 && c.len == 3
  {
  }

  lemma HeadWordIs(f: seq<Byte>, native: bool, path: Path)
    requires Reached(f, native, path)
    ensures IsWord(f, native, path.b + 1, 3)
  {
    assert WordOfContainer(f, native, path.b, path.b + 1, 3);
  }

  lemma ValueKnown(pl: Plan, w: Owner, path: Path, c: Cell)
    requires WellFormed(pl) && Reached(pl.orig, pl.native, path) && Holds(pl, w, path.b)
    requires IsCell(pl, c) && c.owner == w && c.slot.Value? && c.len == 4
    requires IsEntry(pl.orig, pl.native, path.b, c.slot.i)
    requires c.start == EntryAt(pl.orig, pl.native, path.b, c.slot.i).value
    ensures Known(pl, c)
  {
    var i := c.slot.i;
    UnknownByType(pl, w, path.b, c);
    if c in pl.unknown {
      assert UnknownValue(pl.orig, pl.native, path.b, i, c.start);
    } else {
      ContainerWordIs(pl.orig, pl.native, path, i, c.start, c.len);
    }
  }

  /** A value is erased exactly if its type byte is none of those that are known. */
  lemma UnknownByType(pl: Plan, w: Owner, b: int, c: Cell)
    requires WellFormed(pl) && Holds(pl, w, b) && IsCell(pl, c) && c.owner == w && c.slot.Value?
    ensures var t := At(pl.orig, EntryAt(pl.orig, pl.native, b, c.slot.i).tag);
      c in pl.unknown <==> !IsContainer(t) && !IsKeptElsewhere(t) && !IsNumber(t)
  {
    HeldEntry(pl, w, b, c.slot.i);
    HeldSlot(pl, w, b, c);
    TypesAgree(At(pl.orig, EntryAt(pl.orig, pl.native, b, c.slot.i).tag));
    assert KnowsUnknown(pl, w);
  }

  lemma BlobCell(pl: Plan, o: U32, c: Cell)
    requires o in pl.objects && !pl.objects[o].ContainerKind? && IsCell(pl, c) && c.owner == Object(o)
    ensures !c.slot.Value?
    ensures (c.start == Number32(o) && c.len == if pl.objects[o].WideKind? then 8 else 4)
            || (pl.objects[o].AlignedBinaryKind? && c.start == Number32(o) + 4 && c.len == 4)
  {
  }

  lemma ContainerWordIs(f: seq<Byte>, native: bool, path: Path, i: int, p: int, len: int)
    requires Reached(f, native, path) && WordOfEntry(f, native, path.b, i, p, len)
    ensures IsWord(f, native, p, len)
  {
    assert WordOfContainer(f, native, path.b, p, len);
  }

  lemma LeafKnown(pl: Plan, o: U32, c: Cell)
    requires WellFormed(pl) && o in pl.objects && !pl.objects[o].ContainerKind? && Met(pl, o)
    requires IsCell(pl, c) && c.owner == Object(o)
    ensures Known(pl, c)
  {
    var path, i :| MetBy(pl, path, i, o);
    MetKind(pl, path, i, o);
    TypesAgree(At(pl.orig, EntryAt(pl.orig, pl.native, path.b, i).tag));
    BlobCell(pl, o, c);
    NotUnknown(pl, c);
    ContainerWordIs(pl.orig, pl.native, path, i, c.start, c.len);
  }

  lemma KeyTableParts(pl: Plan)
    requires !RegionOf(pl, KeyTable).Nothing?
    ensures var b := Offset(pl.orig, pl.native, 4);
      b != 0 && At(pl.orig, b) == 0xc2 && RegionOf(pl, KeyTable) == Table(b, Count(pl.orig, pl.native, b))
  {
  }

  lemma StringTableAt(pl: Plan)
    requires !RegionOf(pl, StringTable).Nothing?
    ensures StringOffset(pl) != ZERO && StringOffset(pl) != KeyOffset(pl)
    ensures RegionOf(pl, StringTable) == TableAt(pl.orig, pl.native, Offset(pl.orig, pl.native, 8))
  {
  }

  lemma StringTableParts(pl: Plan)
    requires !RegionOf(pl, StringTable).Nothing?
    ensures StringOffset(pl) != KeyOffset(pl)
    ensures var b := Offset(pl.orig, pl.native, 8);
      b != 0 && At(pl.orig, b) == 0xc2 && RegionOf(pl, StringTable) == Table(b, Count(pl.orig, pl.native, b))
  {
    StringTableAt(pl);
  }

  lemma TableCell(pl: Plan, c: Cell, b: int)
    requires IsCell(pl, c) && RegionOf(pl, c.owner) == Table(b, Count(pl.orig, pl.native, b))
    ensures !c.slot.Value?
    ensures (c.start == b + 1 && c.len == 3)
            || (c.len == 4 && c.slot.Field? && WordOfTable(pl.orig, pl.native, b, c.slot.i, c.start))
  {
  }

  lemma KeyTableKnown(pl: Plan, c: Cell)
    requires WellFormed(pl) && IsCell(pl, c) && c.owner.KeyTable?
    ensures Known(pl, c)
  {
    KeyTableParts(pl);
    TableCell(pl, c, Offset(pl.orig, pl.native, 4));
    NotUnknown(pl, c);
    assert TableWord(pl.orig, pl.native, 4, c.start, c.len);
  }

  lemma StringTableKnown(pl: Plan, c: Cell)
    requires WellFormed(pl) && IsCell(pl, c) && c.owner.StringTable?
    ensures Known(pl, c)
  {
    StringTableParts(pl);
    TableCell(pl, c, Offset(pl.orig, pl.native, 8));
    NotUnknown(pl, c);
    OffsetsDiffer(pl);
    assert TableWord(pl.orig, pl.native, 8, c.start, c.len);
  }

  /** Every word of the plan is one that the format has. */
  lemma CellKnown(pl: Plan, c: Cell)
    requires WellFormed(pl) && IsCell(pl, c)
    ensures Known(pl, c)
  {
    match c.owner
    case FileHeader =>
      NotUnknown(pl, c);
      assert HeaderWord(c.start, c.len);
    case KeyTable => KeyTableKnown(pl, c);
    case StringTable => StringTableKnown(pl, c);
    case Root =>
      var b := RootIs(pl);
      HeldKnown(pl, Root, AtRoot(b), c);
    case Object(o) =>
      AllMet(pl);
      if pl.objects[o].ContainerKind? {
        var path := MetPath(pl, o);
        ObjectHeld(pl, o);
        HeldKnown(pl, c.owner, path, c);
      } else {
        LeafKnown(pl, o, c);
      }
  }

  lemma ChangedIsKnown(pl: Plan, x: int)
    requires WellFormed(pl) && 0 <= x < |pl.orig| && Mirrored(pl)[x] != pl.orig[x]
    ensures (exists p, len :: IsWord(pl.orig, pl.native, p, len) && p <= x < p + len)
            || (exists p :: IsErased(pl.orig, pl.native, p) && p <= x < p + 4)
  {
    assert x in pl.cells;
    var c := pl.cells[x];
    CellKnown(pl, c);
  }

  lemma PassReverses(pl: Plan)
    requires WellFormed(pl)
    ensures WordsReversed(pl.orig, pl.native, Mirrored(pl))
  {
    forall p, len | IsWord(pl.orig, pl.native, p, len) ensures Backwards(pl.orig, Mirrored(pl), p, len) {
      WordBackwards(pl, p, len);
    }
  }

  lemma PassErases(pl: Plan)
    requires WellFormed(pl)
    ensures UnknownErased(pl.orig, pl.native, Mirrored(pl))
  {
    forall p | IsErased(pl.orig, pl.native, p)
      ensures 0 <= p && p + 4 <= |pl.orig| && forall k :: p <= k < p + 4 ==> Mirrored(pl)[k] == 0
    {
      ValueErased(pl, p);
    }
  }

  lemma PassKeepsRest(pl: Plan)
    requires WellFormed(pl)
    ensures RestKept(pl.orig, pl.native, Mirrored(pl))
  {
    forall x | 0 <= x < |pl.orig| && Mirrored(pl)[x] != pl.orig[x]
      ensures (exists p, len :: IsWord(pl.orig, pl.native, p, len) && p <= x < p + len)
              || (exists p :: IsErased(pl.orig, pl.native, p) && p <= x < p + 4)
    {
      ChangedIsKnown(pl, x);
    }
  }

  /** A pass over a well-formed file reverses every word that the format has, erases every value of unknown type,
      and changes nothing else. */
  lemma PassChangesOrder(pl: Plan)
    requires WellFormed(pl)
    ensures OrderChanged(pl.orig, pl.native, Mirrored(pl))
  {
    PassReverses(pl);
    PassErases(pl);
    PassKeepsRest(pl);
  }
}
