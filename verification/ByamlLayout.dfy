/** The words of a binary YAML file and what the endian swapper must do to them. A file is a sequence of
    bytes; its plan says which bytes belong to which word, and which regions the root refers to. */
module ByamlLayout {
  import opened Words

  const KEY_TABLE := 0xc2

  /** A file in native byte order starts with these two bytes, one in the other order with their swap. */
  const MAGIC_LOW: Byte := 0x59
  const MAGIC_HIGH: Byte := 0x42

  // ---------------------------------------------------------------------------------------------
  // Words

  function At(f: seq<Byte>, p: int): Byte {
    if 0 <= p < |f| then f[p] else 0
  }

  /** Unsigned integers of 24 and 32 bits, as their bytes from the least significant one on. */
  datatype U24 = U24(b0: Byte, b1: Byte, b2: Byte)
  datatype U32 = U32(b0: Byte, b1: Byte, b2: Byte, b3: Byte)

  const ZERO := U32(0, 0, 0, 0)

  function Number24(x: U24): (n: int)
    ensures 0 <= n < 0x100_0000
  {
    x.b0 + 0x100 * x.b1 + 0x1_0000 * x.b2
  }

  function Number32(x: U32): (n: int)
    ensures 0 <= n < 0x1_0000_0000
    ensures n == 0 <==> x == ZERO
  {
    x.b0 + 0x100 * x.b1 + 0x1_0000 * x.b2 + 0x100_0000 * x.b3
  }

  function Swap24(x: U24): U24 {
    U24(x.b2, x.b1, x.b0)
  }

  function Swap32(x: U32): U32 {
    U32(x.b3, x.b2, x.b1, x.b0)
  }

  /** The number a field stands for in a file whose byte order is native, or not. */
  function Read3(f: seq<Byte>, native: bool, p: int): U24 {
    if native then U24(At(f, p), At(f, p + 1), At(f, p + 2))
    else U24(At(f, p + 2), At(f, p + 1), At(f, p))
  }

  function Read4(f: seq<Byte>, native: bool, p: int): U32 {
    if native then U32(At(f, p), At(f, p + 1), At(f, p + 2), At(f, p + 3))
    else U32(At(f, p + 3), At(f, p + 2), At(f, p + 1), At(f, p))
  }

  // ---------------------------------------------------------------------------------------------
  // Types

  datatype Kind = ContainerKind | BinaryKind | AlignedBinaryKind | WideKind

  datatype Tag = Reference(kind: Kind) | Plain | Unknown

  /** What a data word means, by its type byte: the offset of a region, a value, or nothing known. */
  function TagOf(t: Byte): Tag {
    if 0x20 <= t <= 0x3f || t == 0xc0 || t == 0xc1 || t == 0xc4 || t == 0xc8 then Reference(ContainerKind)
    else if t == 0xa1 then Reference(BinaryKind)
    else if t == 0xa2 then Reference(AlignedBinaryKind)
    else if 0xd4 <= t <= 0xd6 then Reference(WideKind)
    else if t == 0xa0 || 0xd0 <= t <= 0xd3 then Plain
    else Unknown
  }

  /** How a container lays its entries out, by its own type byte. Only its head is known of a bare one. */
  datatype Form = Hash(words: int, remap: bool) | Dictionary(remap: bool) | Listed | Uniform | Bare

  function FormOf(t: Byte): Form {
    if 0x20 <= t <= 0x3f then
      if t == 0x20 || t == 0x30 then Hash(1, t == 0x30)
      else if t == 0x21 || t == 0x31 then Hash(2, t == 0x31)
      else Bare
    else if t == 0xc1 then Dictionary(false)
    else if t == 0xc4 then Dictionary(true)
    else if t == 0xc0 then Listed
    else if t == 0xc8 then Uniform
    else Bare
  }

  predicate IsContainerType(t: Byte) {
    0xc0 <= t <= 0xcf || 0x20 <= t <= 0x2f
  }

  // ---------------------------------------------------------------------------------------------
  // Regions and their words

  datatype Owner = FileHeader | KeyTable | StringTable | Root | Object(offset: U32)

  datatype Region =
    | Nothing
    | Header
    | Table(base: int, count: int)
    | Container(base: int, count: int, form: Form)
    | Blob(base: int, kind: Kind)

  datatype Slot = Head | Field(i: int) | Key(i: int) | Value(i: int) | Remap(i: int)

  /** One word of the file that the swapper reverses. */
  datatype Cell = Cell(start: int, len: int, owner: Owner, slot: Slot)

  function Rounded(n: int): int {
    (n + 3) / 4 * 4
  }

  predicate HasRemap(form: Form) {
    (form.Hash? && form.remap) || (form.Dictionary? && form.remap)
  }

  predicate HasSlot(r: Region, s: Slot) {
    match r
    case Nothing => false
    case Header => s.Field? && 0 <= s.i < 5
    case Table(_, n) => s == Head || (s.Field? && 0 <= s.i <= n)
    case Container(_, n, form) =>
      || s == Head
      || (s.Key? && 0 <= s.i < n && (form.Hash? || form.Dictionary?))
      || (s.Value? && 0 <= s.i < n && !form.Bare?)
      || (s.Remap? && 0 <= s.i < n && HasRemap(form))
    case Blob(_, kind) => s == Field(0) || (s == Field(1) && kind.AlignedBinaryKind?)
  }

  /** Where pair `i` of a hash array starts; its type bytes start where the pairs end. */
  function PairStart(base: int, words: int, i: int): int {
    base + 4 + (4 * words + 4) * i
  }

  function EntryStart(base: int, count: int, form: Form, s: Slot): int {
    match form
    case Hash(words, _) =>
      if s.Key? then PairStart(base, words, s.i)
      else if s.Value? then PairStart(base, words, s.i) + 4 * words
      else if s.Remap? then PairStart(base, words, count) + Rounded(count) + 4 * s.i
      else base
    case Dictionary(_) =>
      if s.Key? then base + 4 + 8 * s.i
      else if s.Value? then base + 4 + 8 * s.i + 4
      else if s.Remap? then base + 4 + 8 * count + 4 * s.i
      else base
    case Listed => if s.Value? then base + 4 + Rounded(count) + 4 * s.i else base
    case Uniform => if s.Value? then base + 4 + 4 + 4 * s.i else base
    case Bare => base
  }

  function SlotStart(r: Region, s: Slot): int {
    match r
    case Nothing => 0
    case Header => if !s.Field? then 0 else if s.i < 2 then 2 * s.i else 4 * s.i - 4
    case Table(base, _) => if s.Field? then base + 4 + 4 * s.i else base + 1
    case Container(base, count, form) => if s.Head? then base + 1 else EntryStart(base, count, form, s)
    case Blob(base, _) => if s.Field? then base + 4 * s.i else base
  }

  function SlotLen(r: Region, s: Slot): (n: int)
    ensures HasSlot(r, s) && (r.Container? && r.form.Hash? ==> 1 <= r.form.words <= 2) ==> n in {2, 3, 4, 8}
  {
    if s.Head? then 3
    else if r.Header? && s.Field? && s.i < 2 then 2
    else if r.Blob? && r.kind.WideKind? then 8
    else if r.Container? && s.Key? then (match r.form case Hash(words, _) => 4 * words case _ => 3)
    else 4
  }

  /** The position of the type byte of the `i`th entry of a container. */
  function TagPosition(r: Region, i: int): int
    requires r.Container?
  {
    match r.form
    case Hash(words, _) => PairStart(r.base, words, r.count) + i
    case Dictionary(_) => r.base + 4 + 8 * i + 3
    case Listed => r.base + 4 + i
    case Uniform => r.base + 4
    case Bare => r.base
  }

  // ---------------------------------------------------------------------------------------------
  // Plans

  /** A file, its byte order, the regions its root leads to, the word that each byte belongs to, and the values
      whose type is not known. */
  datatype Plan = Plan(orig: seq<Byte>, native: bool, objects: map<U32, Kind>, cells: map<int, Cell>,
                       unknown: set<Cell>)

  function ContainerAt(f: seq<Byte>, native: bool, base: int): Region {
    Container(base, Number24(Read3(f, native, base + 1)), FormOf(At(f, base)))
  }

  function KeyOffset(pl: Plan): U32 { Read4(pl.orig, pl.native, 4) }
  function StringOffset(pl: Plan): U32 { Read4(pl.orig, pl.native, 8) }
  function RootOffset(pl: Plan): U32 { Read4(pl.orig, pl.native, 12) }

  /** The offsets cached before any data word is looked at. */
  function Tops(pl: Plan): set<U32> {
    {KeyOffset(pl), StringOffset(pl), RootOffset(pl)} - {ZERO}
  }

  function TableAt(f: seq<Byte>, native: bool, base: int): Region {
    if At(f, base) == KEY_TABLE then Table(base, Number24(Read3(f, native, base + 1))) else Nothing
  }

  /** The region of an owner. A section met before under another name is passed over. */
  function RegionOf(pl: Plan, w: Owner): Region {
    match w
    case FileHeader => Header
    case KeyTable => if KeyOffset(pl) == ZERO then Nothing else TableAt(pl.orig, pl.native, Number32(KeyOffset(pl)))
    case StringTable =>
      if StringOffset(pl) in {ZERO, KeyOffset(pl)} then Nothing
      else TableAt(pl.orig, pl.native, Number32(StringOffset(pl)))
    case Root =>
      if RootOffset(pl) in {ZERO, KeyOffset(pl), StringOffset(pl)}
        || !IsContainerType(At(pl.orig, Number32(RootOffset(pl))))
      then Nothing
      else ContainerAt(pl.orig, pl.native, Number32(RootOffset(pl)))
    case Object(o) =>
      if o !in pl.objects then Nothing
      else if pl.objects[o].ContainerKind? then ContainerAt(pl.orig, pl.native, Number32(o))
      else Blob(Number32(o), pl.objects[o])
  }

  function CellAt(pl: Plan, w: Owner, s: Slot): Cell {
    Cell(SlotStart(RegionOf(pl, w), s), SlotLen(RegionOf(pl, w), s), w, s)
  }

  /** Whether a word is one that the swapper has to reverse. */
  predicate IsCell(pl: Plan, c: Cell) {
    HasSlot(RegionOf(pl, c.owner), c.slot) && c == CellAt(pl, c.owner, c.slot)
  }

  function EntryTag(pl: Plan, r: Region, i: int): Tag
    requires r.Container?
  {
    TagOf(At(pl.orig, TagPosition(r, i)))
  }

  function EntryWord(pl: Plan, r: Region, i: int): U32 {
    Read4(pl.orig, pl.native, SlotStart(r, Value(i)))
  }

  /** The number under which the offset of a data region is cached: the word as it will be stored. */
  function CacheKey(native: bool, offset: U32): U32 {
    if native then Swap32(offset) else offset
  }

  /** A data region whose cache key is taken by a table or the root is never looked at. */
  predicate Blocked(pl: Plan, offset: U32) {
    CacheKey(pl.native, offset) in Tops(pl)
  }

  /** Whether a container has an entry with this index. */
  predicate HasEntry(r: Region, i: int) {
    r.Container? && !r.form.Bare? && 0 <= i < r.count
  }

  /** The first `n` references of a region lead into `s`, unless they are blocked. */
  ghost predicate RefsIn(pl: Plan, r: Region, n: int, s: set<U32>) {
    forall i :: i < n && HasEntry(r, i) && EntryTag(pl, r, i).Reference? ==>
        Blocked(pl, EntryWord(pl, r, i)) || EntryWord(pl, r, i) in s
  }

  ghost predicate AllRefsIn(pl: Plan, r: Region, s: set<U32>) {
    r.Container? ==> RefsIn(pl, r, r.count, s)
  }

  /** A set of regions that the root and its own members never lead out of. */
  ghost predicate Closed(pl: Plan, s: set<U32>) {
    && AllRefsIn(pl, RegionOf(pl, Root), s)
    && forall o :: o in s ==> AllRefsIn(pl, RegionOf(pl, Object(o)), s)
  }

  /** A word lies in the file, and its bytes belong to it and to no other word. */
  ghost predicate Covered(pl: Plan, c: Cell) {
    && 0 <= c.start && c.start + c.len <= |pl.orig|
    && forall p :: c.start <= p < c.start + c.len ==> p in pl.cells && pl.cells[p] == c
  }

  /** A byte of the file that is part of no word. */
  predicate Fixed(pl: Plan, p: int) {
    0 <= p < |pl.orig| && p !in pl.cells
  }

  ghost predicate FixedTags(pl: Plan, r: Region) {
    r.Container? ==> Fixed(pl, r.base) && forall i :: HasEntry(r, i) ==> Fixed(pl, TagPosition(r, i))
  }

  /** A reference leads to a known region of its kind. */
  ghost predicate GoodEntry(pl: Plan, r: Region, i: int)
    requires r.Container?
  {
    match EntryTag(pl, r, i)
    case Reference(kind) =>
      var o := EntryWord(pl, r, i);
      Blocked(pl, o) || (o in pl.objects && pl.objects[o] == kind)
    case _ => true
  }

  ghost predicate GoodRegion(pl: Plan, w: Owner) {
    var r := RegionOf(pl, w);
    && FixedTags(pl, r)
    && (forall s :: HasSlot(r, s) ==> Covered(pl, CellAt(pl, w, s)))
    && (forall i :: HasEntry(r, i) ==> GoodEntry(pl, r, i))
  }

  /** Bytes are assigned to words of the plan that span them. */
  ghost predicate Placed(pl: Plan) {
    forall p :: p in pl.cells ==> var c := pl.cells[p]; IsCell(pl, c) && c.start <= p < c.start + c.len
  }

  /** The unknown values of a region are those of its entries whose type is not known. */
  ghost predicate KnowsUnknown(pl: Plan, w: Owner) {
    var r := RegionOf(pl, w);
    forall i :: HasEntry(r, i) ==> (CellAt(pl, w, Value(i)) in pl.unknown <==> EntryTag(pl, r, i).Unknown?)
  }

  /** Only values of entries are of unknown types. */
  ghost predicate OnlyValuesUnknown(pl: Plan) {
    forall c :: c in pl.unknown ==> c.slot.Value?
  }

  predicate HasMagic(pl: Plan) {
    && At(pl.orig, 0) == (if pl.native then MAGIC_LOW else MAGIC_HIGH)
    && At(pl.orig, 1) == (if pl.native then MAGIC_HIGH else MAGIC_LOW)
  }

  /** A well-formed file: its regions are disjoint, and the plan's regions are those that the root leads to,
      the tables and the root themselves not among them. */
  ghost predicate WellFormed(pl: Plan) {
    && 16 <= |pl.orig| && HasMagic(pl)
    && (forall t :: t in Tops(pl) ==> Fixed(pl, Number32(t)))
    && Placed(pl) && OnlyValuesUnknown(pl)
    && (forall w: Owner :: GoodRegion(pl, w))
    && (forall w: Owner :: KnowsUnknown(pl, w))
    && (forall o :: o in pl.objects ==> o !in Tops(pl))
    && (forall s: set<U32> :: Closed(pl, s) ==> pl.objects.Keys <= s)
  }

  /** Where the byte at `p` comes from when its word is reversed. */
  function MirrorOf(pl: Plan, p: int): int {
    if p in pl.cells then 2 * pl.cells[p].start + pl.cells[p].len - 1 - p else p
  }

  /** The byte at `p` once its word has been swapped: reversed, or zero if its type is not known. */
  function MirroredByte(pl: Plan, p: int): Byte {
    if p in pl.cells && pl.cells[p] in pl.unknown then 0 else At(pl.orig, MirrorOf(pl, p))
  }

  /** The byte at `p` once the words in `done` have been swapped. */
  function ByteAfter(pl: Plan, done: multiset<Cell>, p: int): Byte {
    if p in pl.cells && pl.cells[p] in done then MirroredByte(pl, p) else At(pl.orig, p)
  }

  /** The file with every word swapped. */
  function Mirrored(pl: Plan): seq<Byte> {
    seq(|pl.orig|, p => MirroredByte(pl, p))
  }
}
