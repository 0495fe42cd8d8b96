/** Relocation of a resource file: every pointer slot that the relocation table lists is turned from an
    offset into an address. A slot is the byte offset from the file header of a word of eight bytes. */
module Relocation {
  import opened Words

  datatype Section = Section(basePointer: int, regionOffset: int, baseEntry: nat, entryCount: nat)

  datatype Entry = Entry(regionOffset: nat, arrayCount: nat, relocationCount: nat, arrayStride: nat)

  /** What an offset of this section is relative to: the file, unless the section lies elsewhere. */
  function FileBase(file: int, s: Section): int {
    if s.basePointer == 0 then file else s.basePointer - s.regionOffset
  }

  /** The word of a slot once it has been relocated: zero means no pointer and stays. */
  function Moved(x: int, base: int): int {
    if x != 0 then (base + x) % WORD64 else 0
  }

  // ---------------------------------------------------------------------------------------------
  // The slots, in the order in which they are visited

  datatype Visit = Visit(slot: int, base: int)

  function ArrayVisits(base: int, start: int, n: nat): seq<Visit> {
    if n == 0 then [] else ArrayVisits(base, start, n - 1) + [Visit(start + 8 * (n - 1), base)]
  }

  /** Where the array `a` of an entry starts: behind the slots and the gap of each array before. */
  function ArrayStart(e: Entry, a: nat): int {
    if a == 0 then e.regionOffset else ArrayStart(e, a - 1) + e.relocationCount * 8 + e.arrayStride * 8
  }

  function EntryVisits(base: int, e: Entry, arrays: nat): seq<Visit> {
    if arrays == 0 then []
    else EntryVisits(base, e, arrays - 1) + ArrayVisits(base, ArrayStart(e, arrays - 1), e.relocationCount)
  }

  function SectionVisits(base: int, s: Section, entries: seq<Entry>, n: nat): seq<Visit>
    requires s.baseEntry + n <= |entries|
  {
    if n == 0 then []
    else
      var e := entries[s.baseEntry + n - 1];
      SectionVisits(base, s, entries, n - 1) + EntryVisits(base, e, e.arrayCount)
  }

  predicate GoodSections(sections: seq<Section>, entries: seq<Entry>) {
    forall i :: 0 <= i < |sections| ==> sections[i].baseEntry + sections[i].entryCount <= |entries|
  }

  function TableVisits(file: int, sections: seq<Section>, entries: seq<Entry>, n: nat): seq<Visit>
    requires n <= |sections| && GoodSections(sections, entries)
  {
    if n == 0 then []
    else
      var s := sections[n - 1];
      TableVisits(file, sections, entries, n - 1) + SectionVisits(FileBase(file, s), s, entries, s.entryCount)
  }

  // ---------------------------------------------------------------------------------------------
  // Which slots these are

  /** Slot `k` of array `a` of entry `j` of section `i`. */
  datatype Place = Place(i: nat, j: nat, a: nat, k: nat)

  ghost predicate Listed(sections: seq<Section>, entries: seq<Entry>, p: Place)
    requires GoodSections(sections, entries)
  {
    && p.i < |sections| && p.j < sections[p.i].entryCount
    && p.a < entries[sections[p.i].baseEntry + p.j].arrayCount
    && p.k < entries[sections[p.i].baseEntry + p.j].relocationCount
  }

  function SlotOf(sections: seq<Section>, entries: seq<Entry>, p: Place): int
    requires GoodSections(sections, entries) && p.i < |sections| && p.j < sections[p.i].entryCount
  {
    var e := entries[sections[p.i].baseEntry + p.j];
    e.regionOffset + p.a * (e.relocationCount * 8 + e.arrayStride * 8) + 8 * p.k
  }

  ghost predicate SlotHas(base: int, start: int, k: int, v: Visit) {
    v == Visit(start + 8 * k, base)
  }

  ghost predicate ArrayHas(base: int, e: Entry, a: nat, v: Visit) {
    v in ArrayVisits(base, ArrayStart(e, a), e.relocationCount)
  }

  ghost predicate EntryHas(base: int, s: Section, entries: seq<Entry>, j: nat, v: Visit)
    requires s.baseEntry + j < |entries|
  {
    var e := entries[s.baseEntry + j]; v in EntryVisits(base, e, e.arrayCount)
  }

  ghost predicate SectionHas(file: int, s: Section, entries: seq<Entry>, v: Visit)
    requires s.baseEntry + s.entryCount <= |entries|
  {
    v in SectionVisits(FileBase(file, s), s, entries, s.entryCount)
  }

  lemma {:induction false} InArray(base: int, start: int, n: nat, v: Visit)
    ensures v in ArrayVisits(base, start, n) <==> exists k :: 0 <= k < n && SlotHas(base, start, k, v)
    decreases n
  {
    if n > 0 {
      InArray(base, start, n - 1, v);
      assert v == Visit(start + 8 * (n - 1), base) <==> SlotHas(base, start, n - 1, v);
    }
  }

  lemma {:induction false} ArrayStartIs(e: Entry, a: nat)
    ensures ArrayStart(e, a) == e.regionOffset + a * (e.relocationCount * 8 + e.arrayStride * 8)
    decreases a
  {
    if a > 0 {
      ArrayStartIs(e, a - 1);
      var gap := e.relocationCount * 8 + e.arrayStride * 8;
      assert a * gap == (a - 1) * gap + gap;
    }
  }

  lemma {:induction false} InEntry(base: int, e: Entry, arrays: nat, v: Visit)
    ensures v in EntryVisits(base, e, arrays) <==> exists a: nat :: a < arrays && ArrayHas(base, e, a, v)
    decreases arrays
  {
    if arrays > 0 {
      InEntry(base, e, arrays - 1, v);
      assert ArrayHas(base, e, arrays - 1, v) <==>
          v in ArrayVisits(base, ArrayStart(e, arrays - 1), e.relocationCount);
    }
  }

  lemma {:induction false} InSection(base: int, s: Section, entries: seq<Entry>, n: nat, v: Visit)
    requires s.baseEntry + n <= |entries|
    ensures v in SectionVisits(base, s, entries, n) <==>
        exists j: nat :: j < n && EntryHas(base, s, entries, j, v)
    decreases n
  {
    if n > 0 {
      InSection(base, s, entries, n - 1, v);
      var e := entries[s.baseEntry + n - 1];
      assert EntryHas(base, s, entries, n - 1, v) <==> v in EntryVisits(base, e, e.arrayCount);
    }
  }

  lemma {:induction false} InTable(file: int, sections: seq<Section>, entries: seq<Entry>, n: nat, v: Visit)
    requires n <= |sections| && GoodSections(sections, entries)
    ensures v in TableVisits(file, sections, entries, n) <==>
        exists i: nat :: i < n && SectionHas(file, sections[i], entries, v)
    decreases n
  {
    if n > 0 {
      InTable(file, sections, entries, n - 1, v);
      var s := sections[n - 1];
      assert SectionHas(file, s, entries, v) <==>
          v in SectionVisits(FileBase(file, s), s, entries, s.entryCount);
    }
  }

  lemma SlotOfEntry(base: int, e: Entry, arrays: nat, v: Visit) returns (a: nat, k: nat)
    requires v in EntryVisits(base, e, arrays)
    ensures a < arrays && k < e.relocationCount
    ensures v == Visit(e.regionOffset + a * (e.relocationCount * 8 + e.arrayStride * 8) + 8 * k, base)
  {
    InEntry(base, e, arrays, v);
    a :| a < arrays && ArrayHas(base, e, a, v);
    InArray(base, ArrayStart(e, a), e.relocationCount, v);
    k :| k < e.relocationCount && SlotHas(base, ArrayStart(e, a), k, v);
    ArrayStartIs(e, a);
  }

  lemma PlaceInSection(file: int, sections: seq<Section>, entries: seq<Entry>, i: nat, n: nat, v: Visit)
    returns (p: Place)
    requires GoodSections(sections, entries) && i < |sections| && n <= sections[i].entryCount
    requires v in SectionVisits(FileBase(file, sections[i]), sections[i], entries, n)
    ensures Listed(sections, entries, p) && p.i == i && p.j < n
    ensures v == Visit(SlotOf(sections, entries, p), FileBase(file, sections[i]))
  {
    var base := FileBase(file, sections[i]);
    InSection(base, sections[i], entries, n, v);
    var j: nat :| j < n && EntryHas(base, sections[i], entries, j, v);
    var e := entries[sections[i].baseEntry + j];
    var a, k := SlotOfEntry(base, e, e.arrayCount, v);
    p := Place(i, j, a, k);
  }

  lemma PlaceInTable(file: int, sections: seq<Section>, entries: seq<Entry>, n: nat, v: Visit) returns (p: Place)
    requires GoodSections(sections, entries) && n <= |sections| && v in TableVisits(file, sections, entries, n)
    ensures Listed(sections, entries, p) && p.i < n
    ensures v == Visit(SlotOf(sections, entries, p), FileBase(file, sections[p.i]))
  {
    InTable(file, sections, entries, n, v);
    var i: nat :| i < n && SectionHas(file, sections[i], entries, v);
    p := PlaceInSection(file, sections, entries, i, sections[i].entryCount, v);
  }

  /** Every slot that is visited is one that the table lists, with the base of its section. */
  lemma ListedWhenVisited(file: int, sections: seq<Section>, entries: seq<Entry>, v: Visit) returns (p: Place)
    requires GoodSections(sections, entries) && v in TableVisits(file, sections, entries, |sections|)
    ensures Listed(sections, entries, p)
    ensures v == Visit(SlotOf(sections, entries, p), FileBase(file, sections[p.i]))
  {
    p := PlaceInTable(file, sections, entries, |sections|, v);
  }

  lemma SlotInEntry(base: int, e: Entry, a: nat, k: nat, v: Visit)
    requires a < e.arrayCount && k < e.relocationCount
    requires v == Visit(e.regionOffset + a * (e.relocationCount * 8 + e.arrayStride * 8) + 8 * k, base)
    ensures v in EntryVisits(base, e, e.arrayCount)
  {
    ArrayStartIs(e, a);
    InArray(base, ArrayStart(e, a), e.relocationCount, v);
    assert SlotHas(base, ArrayStart(e, a), k, v);
    InEntry(base, e, e.arrayCount, v);
    assert ArrayHas(base, e, a, v);
  }

  /** Every slot that the table lists is visited, with the base of its section. */
  lemma VisitedWhenListed(file: int, sections: seq<Section>, entries: seq<Entry>, p: Place)
    requires GoodSections(sections, entries) && Listed(sections, entries, p)
    ensures Visit(SlotOf(sections, entries, p), FileBase(file, sections[p.i])) in
            TableVisits(file, sections, entries, |sections|)
  {
    var s, base := sections[p.i], FileBase(file, sections[p.i]);
    var v := Visit(SlotOf(sections, entries, p), base);
    SlotInEntry(base, entries[s.baseEntry + p.j], p.a, p.k, v);
    InSection(base, s, entries, s.entryCount, v);
    assert EntryHas(base, s, entries, p.j, v);
    InTable(file, sections, entries, |sections|, v);
    assert SectionHas(file, sections[p.i], entries, v);
  }

  // ---------------------------------------------------------------------------------------------
  // Relocating them

  /** The number that bytes stand for, the least significant one first. */
  function Number(bytes: seq<Byte>): int {
    if bytes == [] then 0 else bytes[0] + 0x100 * Number(bytes[1..])
  }

  /** The lowest `n` bytes of a number. */
  function Bytes(x: nat, n: nat): (bytes: seq<Byte>)
    ensures |bytes| == n
  {
    if n == 0 then [] else [x % 0x100] + Bytes(x / 0x100, n - 1)
  }

  function Pow256(n: nat): int {
    if n == 0 then 1 else 0x100 * Pow256(n - 1)
  }

  lemma {:induction false} NumberBelow(bytes: seq<Byte>)
    ensures 0 <= Number(bytes) < Pow256(|bytes|)
  {
    if bytes != [] {
      NumberBelow(bytes[1..]);
    }
  }

  lemma {:induction false} NumberOfBytes(x: nat, n: nat)
    requires x < Pow256(n)
    ensures Number(Bytes(x, n)) == x
    decreases n
  {
    if n > 0 {
      NumberOfBytes(x / 0x100, n - 1);
      assert Bytes(x, n)[1..] == Bytes(x / 0x100, n - 1);
    }
  }

  lemma WordIsPow256()
    ensures Pow256(8) == WORD64
  {
    assert Pow256(4) == 0x1_0000_0000;
  }

  /** The slot lies in a file of `size` bytes. */
  predicate InFile(size: int, slot: int) {
    0 <= slot && slot + 8 <= size
  }

  function Get(f: seq<Byte>, slot: int): (x: int)
    requires InFile(|f|, slot)
    ensures 0 <= x < WORD64
  {
    NumberBelow(f[slot..slot + 8]);
    WordIsPow256();
    Number(f[slot..slot + 8])
  }

  function Put(f: seq<Byte>, slot: int, x: nat): (g: seq<Byte>)
    requires InFile(|f|, slot)
    ensures |g| == |f|
  {
    f[..slot] + Bytes(x, 8) + f[slot + 8..]
  }

  /** A word that is put into a slot is read back from it, and words that do not overlap it stay. */
  lemma PutGet(f: seq<Byte>, slot: int, x: nat, other: int)
    requires InFile(|f|, slot) && x < WORD64 && InFile(|f|, other)
    ensures other == slot ==> Get(Put(f, slot, x), other) == x
    ensures Apart(slot, other) ==> Get(Put(f, slot, x), other) == Get(f, other)
  {
    var g := Put(f, slot, x);
    if other == slot {
      assert g[slot..slot + 8] == Bytes(x, 8);
      WordIsPow256();
      NumberOfBytes(x, 8);
    } else if Apart(slot, other) {
      forall p | other <= p < other + 8 ensures g[p] == f[p] {
      }
      assert g[other..other + 8] == f[other..other + 8];
    }
  }

  /** The words of two slots share no byte. */
  predicate Apart(a: int, b: int) {
    a + 8 <= b || b + 8 <= a
  }

  /** Whether a byte belongs to the word of a slot. */
  predicate Spans(slot: int, p: int) {
    slot <= p < slot + 8
  }

  predicate HasSlots(size: int, visits: seq<Visit>) {
    forall v :: v in visits ==> InFile(size, v.slot)
  }

  /** The file once the slots have been visited one after the other. */
  function Applied(f: seq<Byte>, visits: seq<Visit>): (g: seq<Byte>)
    ensures |g| == |f|
  {
    if visits == [] then f
    else
      var v := visits[|visits| - 1];
      var before := Applied(f, visits[..|visits| - 1]);
      if InFile(|f|, v.slot) then Put(before, v.slot, Moved(Get(before, v.slot), v.base)) else before
  }

  lemma {:induction false} AppliedAppend(f: seq<Byte>, a: seq<Visit>, b: seq<Visit>)
    ensures Applied(f, a + b) == Applied(Applied(f, a), b)
    decreases |b|
  {
    if b == [] {
      assert a + b == a;
    } else {
      var c := b[..|b| - 1];
      assert (a + b)[..|a + b| - 1] == a + c;
      AppliedAppend(f, a, c);
    }
  }

  /** No two slots that are visited overlap. */
  predicate Disjoint(visits: seq<Visit>) {
    forall i, j :: 0 <= i < j < |visits| ==> Apart(visits[i].slot, visits[j].slot)
  }

  /** A word that overlaps no slot visited is what it was. */
  lemma {:induction false} AppliedElsewhere(f: seq<Byte>, visits: seq<Visit>, slot: int)
    requires HasSlots(|f|, visits) && InFile(|f|, slot)
    requires forall i :: 0 <= i < |visits| ==> Apart(visits[i].slot, slot)
    ensures Get(Applied(f, visits), slot) == Get(f, slot)
    decreases |visits|
  {
    if visits != [] {
      var front, v := visits[..|visits| - 1], visits[|visits| - 1];
      AppliedElsewhere(f, front, slot);
      PutGet(Applied(f, front), v.slot, Moved(Get(Applied(f, front), v.slot), v.base), slot);
    }
  }

  /** A byte in no slot visited is what it was. */
  lemma {:induction false} AppliedOutside(f: seq<Byte>, visits: seq<Visit>, p: int)
    requires HasSlots(|f|, visits) && 0 <= p < |f|
    requires forall i :: 0 <= i < |visits| ==> !Spans(visits[i].slot, p)
    ensures Applied(f, visits)[p] == f[p]
    decreases |visits|
  {
    if visits != [] {
      AppliedOutside(f, visits[..|visits| - 1], p);
    }
  }

  /** If no two slots overlap, each slot visited is relocated once. */
  lemma {:induction false} AppliedPointwise(f: seq<Byte>, visits: seq<Visit>, i: int)
    requires HasSlots(|f|, visits) && Disjoint(visits) && 0 <= i < |visits|
    ensures InFile(|f|, visits[i].slot)
    ensures Get(Applied(f, visits), visits[i].slot) == Moved(Get(f, visits[i].slot), visits[i].base)
    decreases |visits|
  {
    var front, v := visits[..|visits| - 1], visits[|visits| - 1];
    assert v in visits && visits[i] in visits;
    if i < |visits| - 1 {
      AppliedPointwise(f, front, i);
    } else {
      AppliedElsewhere(f, front, v.slot);
    }
    PutGet(Applied(f, front), v.slot, Moved(Get(Applied(f, front), v.slot), v.base), visits[i].slot);
  }

  /** The size of the file header, and the byte of it whose lowest bit marks a file as relocated. */
  const FILE_HEADER: int := 0x20
  const MARK: int := 0x14

  predicate IsRelocated(f: seq<Byte>)
    requires |f| >= FILE_HEADER
  {
    f[MARK] % 2 == 1
  }

  /** The file with the mark set, the other bits of its field being kept. */
  function Marked(f: seq<Byte>): (g: seq<Byte>)
    requires |f| >= FILE_HEADER
    ensures |g| == |f| && IsRelocated(g)
  {
    f[MARK := f[MARK] - f[MARK] % 2 + 1]
  }

  /** The file once every slot of the table has been visited and the file has been marked. */
  function Relocated(f: seq<Byte>, file: int, sections: seq<Section>, entries: seq<Entry>): seq<Byte>
    requires |f| >= FILE_HEADER && GoodSections(sections, entries)
  {
    Marked(Applied(f, TableVisits(file, sections, entries, |sections|)))
  }

  /** No two slots that the table lists overlap. */
  ghost predicate SlotsApart(sections: seq<Section>, entries: seq<Entry>)
    requires GoodSections(sections, entries)
  {
    forall p, q | Listed(sections, entries, p) && Listed(sections, entries, q) && p != q ::
      Apart(SlotOf(sections, entries, p), SlotOf(sections, entries, q))
  }

  lemma DisjointJoined(a: seq<Visit>, b: seq<Visit>)
    requires Disjoint(a) && Disjoint(b)
    requires forall u, v :: u in a && v in b ==> Apart(u.slot, v.slot)
    ensures Disjoint(a + b)
  {
    forall i, j | 0 <= i < j < |a + b| ensures Apart((a + b)[i].slot, (a + b)[j].slot) {
      if i < |a| <= j {
        assert (a + b)[i] in a && (a + b)[j] in b;
      }
    }
  }

  /** The slots of one array lie in a row. */
  lemma {:induction false} ArrayDisjoint(base: int, start: int, n: nat)
    ensures Disjoint(ArrayVisits(base, start, n))
    decreases n
  {
    if n > 0 {
      ArrayDisjoint(base, start, n - 1);
      forall u | u in ArrayVisits(base, start, n - 1) ensures Apart(u.slot, start + 8 * (n - 1)) {
        InArray(base, start, n - 1, u);
        var k :| 0 <= k < n - 1 && SlotHas(base, start, k, u);
      }
      DisjointJoined(ArrayVisits(base, start, n - 1), [Visit(start + 8 * (n - 1), base)]);
    }
  }

  lemma AcrossArrays(base: int, sections: seq<Section>, entries: seq<Entry>, i: nat, j: nat, last: nat,
                     u: Visit, v: Visit)
    requires GoodSections(sections, entries) && SlotsApart(sections, entries)
    requires i < |sections| && j < sections[i].entryCount
    requires last < entries[sections[i].baseEntry + j].arrayCount
    requires var e := entries[sections[i].baseEntry + j];
      u in EntryVisits(base, e, last) && v in ArrayVisits(base, ArrayStart(e, last), e.relocationCount)
    ensures Apart(u.slot, v.slot)
  {
    var e := entries[sections[i].baseEntry + j];
    var a, k := SlotOfEntry(base, e, last, u);
    InArray(base, ArrayStart(e, last), e.relocationCount, v);
    var k' :| 0 <= k' < e.relocationCount && SlotHas(base, ArrayStart(e, last), k', v);
    ArrayStartIs(e, last);
    assert Listed(sections, entries, Place(i, j, a, k)) && Listed(sections, entries, Place(i, j, last, k'));
  }

  lemma {:induction false} EntryDisjoint(base: int, sections: seq<Section>, entries: seq<Entry>, i: nat, j: nat,
                                         arrays: nat)
    requires GoodSections(sections, entries) && SlotsApart(sections, entries)
    requires i < |sections| && j < sections[i].entryCount
    requires arrays <= entries[sections[i].baseEntry + j].arrayCount
    ensures Disjoint(EntryVisits(base, entries[sections[i].baseEntry + j], arrays))
    decreases arrays
  {
    if arrays > 0 {
      var e, last := entries[sections[i].baseEntry + j], arrays - 1;
      EntryDisjoint(base, sections, entries, i, j, last);
      ArrayDisjoint(base, ArrayStart(e, last), e.relocationCount);
      forall u, v | u in EntryVisits(base, e, last) && v in ArrayVisits(base, ArrayStart(e, last), e.relocationCount)
        ensures Apart(u.slot, v.slot)
      {
        AcrossArrays(base, sections, entries, i, j, last, u, v);
      }
      DisjointJoined(EntryVisits(base, e, last), ArrayVisits(base, ArrayStart(e, last), e.relocationCount));
    }
  }

  lemma AcrossEntries(file: int, sections: seq<Section>, entries: seq<Entry>, i: nat, last: nat, u: Visit, v: Visit)
    requires GoodSections(sections, entries) && SlotsApart(sections, entries)
    requires i < |sections| && last < sections[i].entryCount
    requires var s, base, e := sections[i], FileBase(file, sections[i]), entries[sections[i].baseEntry + last];
      u in SectionVisits(base, s, entries, last) && v in EntryVisits(base, e, e.arrayCount)
    ensures Apart(u.slot, v.slot)
  {
    var base, e := FileBase(file, sections[i]), entries[sections[i].baseEntry + last];
    var p := PlaceInSection(file, sections, entries, i, last, u);
    var a, k := SlotOfEntry(base, e, e.arrayCount, v);
    assert Listed(sections, entries, Place(i, last, a, k));
  }

  lemma {:induction false} SectionDisjoint(file: int, sections: seq<Section>, entries: seq<Entry>, i: nat, n: nat)
    requires GoodSections(sections, entries) && SlotsApart(sections, entries)
    requires i < |sections| && n <= sections[i].entryCount
    ensures Disjoint(SectionVisits(FileBase(file, sections[i]), sections[i], entries, n))
    decreases n
  {
    if n > 0 {
      var s, base, last := sections[i], FileBase(file, sections[i]), n - 1;
      var e := entries[s.baseEntry + last];
      SectionDisjoint(file, sections, entries, i, last);
      EntryDisjoint(base, sections, entries, i, last, e.arrayCount);
      forall u, v | u in SectionVisits(base, s, entries, last) && v in EntryVisits(base, e, e.arrayCount)
        ensures Apart(u.slot, v.slot)
      {
        AcrossEntries(file, sections, entries, i, last, u, v);
      }
      DisjointJoined(SectionVisits(base, s, entries, last), EntryVisits(base, e, e.arrayCount));
    }
  }

  /** If no two slots that the table lists overlap, no slot is visited twice, and no two visited overlap. */
  lemma {:induction false} TableDisjoint(file: int, sections: seq<Section>, entries: seq<Entry>, n: nat)
    requires GoodSections(sections, entries) && SlotsApart(sections, entries) && n <= |sections|
    ensures Disjoint(TableVisits(file, sections, entries, n))
    decreases n
  {
    if n > 0 {
      var s, last := sections[n - 1], n - 1;
      var visits := SectionVisits(FileBase(file, s), s, entries, s.entryCount);
      TableDisjoint(file, sections, entries, last);
      SectionDisjoint(file, sections, entries, last, s.entryCount);
      forall u, v | u in TableVisits(file, sections, entries, last) && v in visits ensures Apart(u.slot, v.slot) {
        var p := PlaceInTable(file, sections, entries, last, u);
        var q := PlaceInSection(file, sections, entries, last, s.entryCount, v);
      }
      DisjointJoined(TableVisits(file, sections, entries, last), visits);
    }
  }

  /** The eight bytes of a slot as a number, the first byte being the lowest. */
  function WordAt(f: seq<Byte>, slot: int): int
    requires InFile(|f|, slot)
  {
    var b := seq(8, k requires 0 <= k < 8 => f[slot + k] as int);
    b[0] + 0x100 * b[1] + 0x1_0000 * b[2] + 0x100_0000 * b[3]
    + 0x1_0000_0000 * (b[4] + 0x100 * b[5] + 0x1_0000 * b[6] + 0x100_0000 * b[7])
  }

  lemma FourBytes(b: seq<Byte>)
    requires |b| >= 4
    ensures Number(b) == b[0] as int + 0x100 * (b[1] as int) + 0x1_0000 * (b[2] as int) + 0x100_0000 * (b[3] as int)
                         + 0x1_0000_0000 * Number(b[4..])
  {
    assert b[1..][1..] == b[2..] && b[2..][1..] == b[3..] && b[3..][1..] == b[4..];
  }

  lemma GetIsWordAt(f: seq<Byte>, slot: int)
    requires InFile(|f|, slot)
    ensures Get(f, slot) == WordAt(f, slot)
  {
    var b := f[slot..slot + 8];
    FourBytes(b);
    FourBytes(b[4..]);
    assert b[4..][4..] == [];
  }

  /** A listed slot that holds zero keeps it, and any other gains the file's address, or if its section has a
      base pointer that pointer less the section's region offset. */
  ghost predicate GainsBase(f: seq<Byte>, after: seq<Byte>, file: int, s: Section, slot: int)
    requires InFile(|f|, slot) && |after| == |f|
  {
    && (WordAt(f, slot) == 0 ==> WordAt(after, slot) == 0)
    && (WordAt(f, slot) != 0 && s.basePointer == 0 ==>
          WordAt(after, slot) == (file + WordAt(f, slot)) % WORD64)
    && (WordAt(f, slot) != 0 && s.basePointer != 0 ==>
          WordAt(after, slot) == (s.basePointer - s.regionOffset + WordAt(f, slot)) % WORD64)
  }

  /** If the slots of a table overlap nowhere, and not with the mark, every listed slot gains the base of its
      section once, unless it is zero, the lowest bit of the mark is set, and no other bit of a byte that
      belongs to no listed slot changes. */
  lemma RelocatedOnce(f: seq<Byte>, file: int, sections: seq<Section>, entries: seq<Entry>)
    requires |f| >= 0x20 && GoodSections(sections, entries) && SlotsApart(sections, entries)
    requires forall p | Listed(sections, entries, p) ::
        InFile(|f|, SlotOf(sections, entries, p)) && !Spans(SlotOf(sections, entries, p), 0x14)
    ensures var after := Relocated(f, file, sections, entries);
      && |after| == |f| && after[0x14] % 2 == 1 && after[0x14] / 2 == f[0x14] / 2
      && (forall p | Listed(sections, entries, p) ::
            GainsBase(f, after, file, sections[p.i], SlotOf(sections, entries, p)))
      && (forall x | 0 <= x < |f| && x != 0x14 && after[x] != f[x] ::
            exists p :: Listed(sections, entries, p) && Spans(SlotOf(sections, entries, p), x))
  {
    var visits := TableVisits(file, sections, entries, |sections|);
    var after := Relocated(f, file, sections, entries);
    TableDisjoint(file, sections, entries, |sections|);
    forall v | v in visits ensures InFile(|f|, v.slot) && !Spans(v.slot, MARK) {
      var p := ListedWhenVisited(file, sections, entries, v);
    }
    AppliedOutside(f, visits, MARK);
    forall p | Listed(sections, entries, p)
      ensures GainsBase(f, after, file, sections[p.i], SlotOf(sections, entries, p))
    {
      VisitedWhenListed(file, sections, entries, p);
      SlotGains(f, visits, file, sections[p.i], SlotOf(sections, entries, p));
    }
    forall x | 0 <= x < |f| && x != MARK && after[x] != f[x]
      ensures exists p :: Listed(sections, entries, p) && Spans(SlotOf(sections, entries, p), x)
    {
      if forall y :: 0 <= y < |visits| ==> !Spans(visits[y].slot, x) {
        AppliedOutside(f, visits, x);
      } else {
        var y :| 0 <= y < |visits| && Spans(visits[y].slot, x);
        var p := ListedWhenVisited(file, sections, entries, visits[y]);
      }
    }
  }

  lemma MovedGains(f: seq<Byte>, after: seq<Byte>, file: int, s: Section, slot: int)
    requires InFile(|f|, slot) && |after| == |f|
    requires WordAt(after, slot) == Moved(WordAt(f, slot), FileBase(file, s))
    ensures GainsBase(f, after, file, s, slot)
  {
  }

  lemma SlotGains(f: seq<Byte>, visits: seq<Visit>, file: int, s: Section, slot: int)
    requires |f| >= FILE_HEADER && HasSlots(|f|, visits) && Disjoint(visits)
    requires Visit(slot, FileBase(file, s)) in visits && InFile(|f|, slot) && !Spans(slot, MARK)
    ensures GainsBase(f, Marked(Applied(f, visits)), file, s, slot)
  {
    var after := Marked(Applied(f, visits));
    assert Get(after, slot) == Moved(Get(f, slot), FileBase(file, s)) by {
      var x :| 0 <= x < |visits| && visits[x] == Visit(slot, FileBase(file, s));
      AppliedPointwise(f, visits, x);
      MarkApart(Applied(f, visits), slot);
    }
    GetIsWordAt(f, slot);
    GetIsWordAt(after, slot);
    MovedGains(f, after, file, s, slot);
  }

  lemma MarkApart(f: seq<Byte>, slot: int)
    requires |f| >= FILE_HEADER && InFile(|f|, slot) && !Spans(slot, MARK)
    ensures Get(Marked(f), slot) == Get(f, slot)
  {
    assert Marked(f)[slot..slot + 8] == f[slot..slot + 8];
  }

  /** No slot reaches into the bytes from `start` to `end`. */
  predicate ClearOf(visits: seq<Visit>, start: int, end: int) {
    forall i :: 0 <= i < |visits| ==> visits[i].slot + 8 <= start || end <= visits[i].slot
  }

  /** A stretch of the file that no slot visited reaches into is what it was, so a table that lies there
      reads the same all the way through. */
  lemma TableStays(f: seq<Byte>, visits: seq<Visit>, start: int, end: int)
    requires HasSlots(|f|, visits) && 0 <= start <= end <= |f| && ClearOf(visits, start, end)
    ensures Applied(f, visits)[start..end] == f[start..end]
  {
    forall p | start <= p < end ensures Applied(f, visits)[p] == f[p] {
      AppliedOutside(f, visits, p);
    }
  }

  // ---------------------------------------------------------------------------------------------
  // The loops

  class RelocationTable {
    const file: int
    const sections: seq<Section>
    const entries: seq<Entry>
    /** The file, and where the table itself lies in it. */
    const bytes: array<Byte>
    const tableStart: int
    const tableEnd: int

    constructor (file: int, sections: seq<Section>, entries: seq<Entry>, bytes: array<Byte>,
                 tableStart: int, tableEnd: int)
      ensures this.file == file && this.sections == sections && this.entries == entries
      ensures this.bytes == bytes && this.tableStart == tableStart && this.tableEnd == tableEnd
    {
      this.file, this.sections, this.entries := file, sections, entries;
      this.bytes, this.tableStart, this.tableEnd := bytes, tableStart, tableEnd;
    }

    /** Writes the bytes of a word into a slot. */
    method Write(slot: int, x: nat)
      requires InFile(bytes.Length, slot)
      modifies bytes
      ensures bytes[..] == Put(old(bytes[..]), slot, x)
    {
      var word := Bytes(x, 8);
      forall k | 0 <= k < 8 {
        bytes[slot + k] := word[k];
      }
    }

    /** Relocates one slot. */
    method RelocateSlot(base: int, slot: int, ghost before: seq<Byte>, ghost visits: seq<Visit>)
      requires InFile(bytes.Length, slot) && bytes[..] == Applied(before, visits)
      modifies bytes
      ensures bytes[..] == Applied(before, visits + [Visit(slot, base)])
    {
      var x := Get(bytes[..], slot);
      Write(slot, if x != 0 then (base + x) % WORD64 else 0);
      ghost var all := visits + [Visit(slot, base)];
      assert all[..|all| - 1] == visits;
    }

    /** Relocates slot `n` of an array of `count` slots. */
    method RelocateNext(base: int, start: int, slot: int, ghost before: seq<Byte>, ghost n: nat, ghost count: nat,
                        ghost visits: seq<Visit>) returns (ghost more: seq<Visit>)
      requires HasSlots(|before|, ArrayVisits(base, start, count)) && n < count && slot == start + 8 * n
      requires visits == ArrayVisits(base, start, n) && bytes[..] == Applied(before, visits)
      modifies bytes
      ensures more == ArrayVisits(base, start, n + 1) && bytes[..] == Applied(before, more)
    {
      InArray(base, start, count, Visit(slot, base));
      assert SlotHas(base, start, n, Visit(slot, base));
      RelocateSlot(base, slot, before, visits);
      more := visits + [Visit(slot, base)];
    }

    /** Relocates four slots in a row. */
    method RelocateFour(base: int, start: int, slot: int, ghost before: seq<Byte>, ghost n: nat, ghost count: nat,
                        ghost visits: seq<Visit>) returns (ghost more: seq<Visit>)
      requires HasSlots(|before|, ArrayVisits(base, start, count)) && n + 4 <= count && slot == start + 8 * n
      requires visits == ArrayVisits(base, start, n) && bytes[..] == Applied(before, visits)
      modifies bytes
      ensures more == ArrayVisits(base, start, n + 4) && bytes[..] == Applied(before, more)
    {
      more := RelocateNext(base, start, slot, before, n, count, visits);
      more := RelocateNext(base, start, slot + 8, before, n + 1, count, more);
      more := RelocateNext(base, start, slot + 16, before, n + 2, count, more);
      more := RelocateNext(base, start, slot + 24, before, n + 3, count, more);
    }

    /** Relocates the `count` slots of one array, four at a time and then one at a time. */
    method RelocateArray(base: int, start: int, count: nat)
      requires HasSlots(bytes.Length, ArrayVisits(base, start, count))
      modifies bytes
      ensures bytes[..] == Applied(old(bytes[..]), ArrayVisits(base, start, count))
    {
      ghost var before := bytes[..];
      var mask := count % 4;
      ghost var visits;
      var slot;
      slot, visits := RelocateFours(base, start, count, mask, before);
      RelocateRest(base, start, slot, count, mask, before, visits);
    }

    /** Relocates all slots of an array but the last `mask`, four at a time. */
    method RelocateFours(base: int, start: int, count: nat, mask: nat, ghost before: seq<Byte>)
      returns (slot: int, ghost visits: seq<Visit>)
      requires HasSlots(|before|, ArrayVisits(base, start, count)) && bytes[..] == before && mask == count % 4
      modifies bytes
      ensures slot == start + 8 * (count - mask)
      ensures visits == ArrayVisits(base, start, count - mask) && bytes[..] == Applied(before, visits)
    {
      slot, visits := start, [];
      ghost var n: nat, rounds: nat := 0, count / 4;
      if 3 < count {
        var index := mask - count;
        while index < 0
          invariant index == -4 * rounds && n == count - mask + index && slot == start + 8 * n
          invariant visits == ArrayVisits(base, start, n) && bytes[..] == Applied(before, visits)
          decreases rounds
        {
          visits := RelocateFour(base, start, slot, before, n, count, visits);
          slot := slot + 32;
          n, rounds := n + 4, rounds - 1;
          index := index + 4;
        }
      }
      assert n == count - mask;
    }

    /** Relocates the last `mask` slots of an array, one at a time. */
    method RelocateRest(base: int, start: int, from: int, count: nat, mask: nat, ghost before: seq<Byte>,
                        ghost done: seq<Visit>)
      requires HasSlots(|before|, ArrayVisits(base, start, count)) && mask <= count
      requires from == start + 8 * (count - mask)
      requires done == ArrayVisits(base, start, count - mask) && bytes[..] == Applied(before, done)
      modifies bytes
      ensures bytes[..] == Applied(before, ArrayVisits(base, start, count))
    {
      var slot := from;
      ghost var n: nat, visits := count - mask, done;
      if mask != 0 {
        var index: int := 0 - mask;
        while index < 0
          invariant index == n - count && n <= count && slot == start + 8 * n
          invariant visits == ArrayVisits(base, start, n) && bytes[..] == Applied(before, visits)
          decreases -index
        {
          visits := RelocateNext(base, start, slot, before, n, count, visits);
          slot := slot + 8;
          n := n + 1;
          index := index + 1;
        }
      }
      assert n == count;
    }

    /** Relocates array `a` of an entry. */
    method RelocateArrayAt(base: int, e: Entry, a: nat, start: int, ghost before: seq<Byte>)
      requires a < e.arrayCount && HasSlots(|before|, EntryVisits(base, e, e.arrayCount))
      requires start == ArrayStart(e, a) && bytes[..] == Applied(before, EntryVisits(base, e, a))
      modifies bytes
      ensures bytes[..] == Applied(before, EntryVisits(base, e, a + 1))
    {
      ArrayIncluded(base, e, a);
      RelocateArray(base, start, e.relocationCount);
      AppliedAppend(before, EntryVisits(base, e, a), ArrayVisits(base, start, e.relocationCount));
    }

    /** Relocates the arrays of one entry. */
    method RelocateEntry(base: int, e: Entry)
      requires HasSlots(bytes.Length, EntryVisits(base, e, e.arrayCount))
      modifies bytes
      ensures bytes[..] == Applied(old(bytes[..]), EntryVisits(base, e, e.arrayCount))
    {
      var start := e.regionOffset;
      ghost var before := bytes[..];
      for a := 0 to e.arrayCount
        invariant start == ArrayStart(e, a)
        invariant bytes[..] == Applied(before, EntryVisits(base, e, a))
      {
        RelocateArrayAt(base, e, a, start, before);
        start := start + e.relocationCount * 8 + e.arrayStride * 8;
      }
    }

    /** Relocates the entries of one section. */
    method RelocateSection(s: Section)
      requires s.baseEntry + s.entryCount <= |entries|
      requires HasSlots(bytes.Length, SectionVisits(FileBase(file, s), s, entries, s.entryCount))
      modifies bytes
      ensures bytes[..] == Applied(old(bytes[..]), SectionVisits(FileBase(file, s), s, entries, s.entryCount))
    {
      var base := if s.basePointer == 0 then file else s.basePointer - s.regionOffset;
      var index := s.baseEntry;
      ghost var before, j: nat := bytes[..], 0;
      while index < s.entryCount + s.baseEntry
        invariant index == s.baseEntry + j && j <= s.entryCount
        invariant bytes[..] == Applied(before, SectionVisits(base, s, entries, j))
      {
        RelocateEntryAt(base, s, index, before, j);
        index, j := index + 1, j + 1;
      }
    }

    /** Relocates entry `j` of a section. */
    method RelocateEntryAt(base: int, s: Section, index: nat, ghost before: seq<Byte>, ghost j: nat)
      requires s.baseEntry + s.entryCount <= |entries| && j < s.entryCount && index == s.baseEntry + j
      requires HasSlots(|before|, SectionVisits(base, s, entries, s.entryCount))
      requires bytes[..] == Applied(before, SectionVisits(base, s, entries, j))
      modifies bytes
      ensures bytes[..] == Applied(before, SectionVisits(base, s, entries, j + 1))
    {
      var e := entries[index];
      EntryIncluded(base, s, entries, j);
      RelocateEntry(base, e);
      AppliedAppend(before, SectionVisits(base, s, entries, j), EntryVisits(base, e, e.arrayCount));
    }

    /** Relocates section `i` of the table. */
    method RelocateSectionAt(i: nat, ghost before: seq<Byte>)
      requires GoodSections(sections, entries) && i < |sections|
      requires HasSlots(|before|, TableVisits(file, sections, entries, |sections|))
      requires bytes[..] == Applied(before, TableVisits(file, sections, entries, i))
      modifies bytes
      ensures bytes[..] == Applied(before, TableVisits(file, sections, entries, i + 1))
    {
      var s := sections[i];
      SectionIncluded(file, sections, entries, i);
      RelocateSection(s);
      AppliedAppend(before, TableVisits(file, sections, entries, i),
        SectionVisits(FileBase(file, s), s, entries, s.entryCount));
    }

    /** Marks the file as relocated, in its header. */
    method SetRelocated()
      requires bytes.Length >= FILE_HEADER
      modifies bytes
      ensures bytes[..] == Marked(old(bytes[..]))
    {
      bytes[MARK] := bytes[MARK] - bytes[MARK] % 2 + 1;
    }

    /** Relocates the whole file and marks it as relocated. The table, if no slot reaches into it, stays. */
    method Relocate()
      requires GoodSections(sections, entries) && FILE_HEADER <= tableStart <= tableEnd <= bytes.Length
      requires var visits := TableVisits(file, sections, entries, |sections|);
        HasSlots(bytes.Length, visits) && ClearOf(visits, tableStart, tableEnd)
      modifies bytes
      ensures bytes[..] == Relocated(old(bytes[..]), file, sections, entries)
      ensures bytes[tableStart..tableEnd] == old(bytes[tableStart..tableEnd])
    {
      ghost var before := bytes[..];
      if |sections| == 0 {
        SetRelocated();
        return;
      }
      for i := 0 to |sections|
        invariant bytes[..] == Applied(before, TableVisits(file, sections, entries, i))
      {
        RelocateSectionAt(i, before);
      }
      SetRelocated();
      TableStays(before, TableVisits(file, sections, entries, |sections|), tableStart, tableEnd);
      assert bytes[tableStart..tableEnd] == bytes[..][tableStart..tableEnd];
      assert before[tableStart..tableEnd] == old(bytes[tableStart..tableEnd]);
    }
  }

  lemma ArrayIncluded(base: int, e: Entry, a: nat)
    requires a < e.arrayCount
    ensures forall v :: v in ArrayVisits(base, ArrayStart(e, a), e.relocationCount) ==>
        v in EntryVisits(base, e, e.arrayCount)
  {
    forall v | v in ArrayVisits(base, ArrayStart(e, a), e.relocationCount)
      ensures v in EntryVisits(base, e, e.arrayCount)
    {
      InEntry(base, e, e.arrayCount, v);
      assert ArrayHas(base, e, a, v);
    }
  }

  lemma EntryIncluded(base: int, s: Section, entries: seq<Entry>, j: nat)
    requires j < s.entryCount && s.baseEntry + s.entryCount <= |entries|
    ensures var e := entries[s.baseEntry + j];
      forall v :: v in EntryVisits(base, e, e.arrayCount) ==> v in SectionVisits(base, s, entries, s.entryCount)
  {
    var e := entries[s.baseEntry + j];
    forall v | v in EntryVisits(base, e, e.arrayCount) ensures v in SectionVisits(base, s, entries, s.entryCount) {
      InSection(base, s, entries, s.entryCount, v);
      assert EntryHas(base, s, entries, j, v);
    }
  }

  lemma SectionIncluded(file: int, sections: seq<Section>, entries: seq<Entry>, i: nat)
    requires i < |sections| && GoodSections(sections, entries)
    ensures var s := sections[i];
      forall v :: v in SectionVisits(FileBase(file, s), s, entries, s.entryCount) ==>
        v in TableVisits(file, sections, entries, |sections|)
  {
    var s := sections[i];
    forall v | v in SectionVisits(FileBase(file, s), s, entries, s.entryCount)
      ensures v in TableVisits(file, sections, entries, |sections|)
    {
      InTable(file, sections, entries, |sections|, v);
      assert SectionHas(file, sections[i], entries, v);
    }
  }
}
