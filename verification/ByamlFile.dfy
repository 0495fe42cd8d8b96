/** The in-place endian swapper of binary YAML files. */
module ByamlFiles {
  import opened Words
  import opened ByamlLayout
  import opened ByamlProgress
  import ByamlFormat

  /** A file with the bytes of one word reversed. */
  ghost predicate Reversed(f0: seq<Byte>, f1: seq<Byte>, start: int, len: int)
    requires 0 <= start && start + len <= |f0|
  {
    && |f1| == |f0|
    && forall q :: 0 <= q < |f0| ==> f1[q] == f0[if start <= q < start + len then 2 * start + len - 1 - q else q]
  }

  lemma SlotCovered(pl: Plan, w: Owner, s: Slot)
    requires WellFormed(pl) && HasSlot(RegionOf(pl, w), s)
    ensures Covered(pl, CellAt(pl, w, s))
  {
    assert GoodRegion(pl, w);
  }

  /** Reversing the bytes of one more word, and no other, reverses that word in the sense of the plan. */
  lemma WordReversed(pl: Plan, d: multiset<Cell>, c: Cell, f0: seq<Byte>, f1: seq<Byte>)
    requires Placed(pl) && Covered(pl, c) && c !in d && c !in pl.unknown && |f0| == |pl.orig|
    requires forall q :: 0 <= q < |f0| ==> f0[q] == ByteAfter(pl, d, q)
    requires Reversed(f0, f1, c.start, c.len)
    ensures forall q :: 0 <= q < |f0| ==> f1[q] == ByteAfter(pl, d + multiset{c}, q)
  {
    forall q | 0 <= q < |f0| ensures f1[q] == ByteAfter(pl, d + multiset{c}, q) {
      if c.start <= q < c.start + c.len {
        assert f0[2 * c.start + c.len - 1 - q] == ByteAfter(pl, d, 2 * c.start + c.len - 1 - q);
      }
    }
  }

  /** A file with the bytes of one word set to zero. */
  ghost predicate Zeroed(f0: seq<Byte>, f1: seq<Byte>, start: int, len: int)
    requires 0 <= start && start + len <= |f0|
  {
    && |f1| == |f0|
    && forall q :: 0 <= q < |f0| ==> f1[q] == if start <= q < start + len then 0 else f0[q]
  }

  /** Erasing one more word, and no other, swaps that word in the sense of the plan if its type is not known. */
  lemma WordErased(pl: Plan, d: multiset<Cell>, c: Cell, f0: seq<Byte>, f1: seq<Byte>)
    requires Placed(pl) && Covered(pl, c) && c !in d && c in pl.unknown && |f0| == |pl.orig|
    requires forall q :: 0 <= q < |f0| ==> f0[q] == ByteAfter(pl, d, q)
    requires Zeroed(f0, f1, c.start, c.len)
    ensures forall q :: 0 <= q < |f0| ==> f1[q] == ByteAfter(pl, d + multiset{c}, q)
  {
  }

  /** Where the words and the type byte of entry `i` of a dictionary lie. */
  lemma DictionaryEntryAt(r: Region, i: int)
    requires r.Container? && r.form.Dictionary? && 0 <= i < r.count
    ensures HasEntry(r, i) && HasSlot(r, Key(i)) && HasSlot(r, Value(i))
    ensures SlotStart(r, Key(i)) == r.base + 4 + 8 * i && SlotLen(r, Key(i)) == 3
    ensures SlotStart(r, Value(i)) == r.base + 4 + 8 * i + 4 && TagPosition(r, i) == r.base + 4 + 8 * i + 3
    ensures SlotStart(r, Remap(i)) == r.base + 4 + 8 * r.count + 4 * i
    ensures HasRemap(r.form) == r.form.remap
  {
  }

  /** Where the words and the type byte of entry `i` of a hash array lie. */
  lemma HashEntryAt(r: Region, i: int)
    requires r.Container? && r.form.Hash? && 1 <= r.form.words <= 2 && 0 <= i < r.count
    ensures HasEntry(r, i) && HasSlot(r, Key(i)) && HasSlot(r, Value(i))
    ensures SlotStart(r, Key(i)) == PairStart(r.base, r.form.words, i) && SlotLen(r, Key(i)) == 4 * r.form.words
    ensures SlotStart(r, Value(i)) == PairStart(r.base, r.form.words, i) + 4 * r.form.words
    ensures TagPosition(r, i) == PairStart(r.base, r.form.words, r.count) + i
    ensures SlotStart(r, Remap(i)) == PairStart(r.base, r.form.words, r.count) + Rounded(r.count) + 4 * i
    ensures HasRemap(r.form) == r.form.remap
  {
  }

  /** What holds of an entry of a region: its type byte is fixed, and its value is a word of its own, which is
      unknown exactly if its type is. */
  lemma EntryFacts(pl: Plan, w: Owner, i: int)
    requires WellFormed(pl) && HasEntry(RegionOf(pl, w), i)
    ensures HasSlot(RegionOf(pl, w), Value(i)) && Covered(pl, CellAt(pl, w, Value(i)))
    ensures CellAt(pl, w, Value(i)).start == SlotStart(RegionOf(pl, w), Value(i)) && CellAt(pl, w, Value(i)).len == 4
    ensures Fixed(pl, TagPosition(RegionOf(pl, w), i)) && GoodEntry(pl, RegionOf(pl, w), i)
    ensures CellAt(pl, w, Value(i)) in pl.unknown <==> EntryTag(pl, RegionOf(pl, w), i).Unknown?
  {
    assert GoodRegion(pl, w) && KnowsUnknown(pl, w);
  }

  /** Swapping what a word of a region leads to leaves the word as it was. */
  lemma NotReached(pl: Plan, c: Cell, d0: multiset<Cell>, v0: set<U32>, d1: multiset<Cell>, v1: set<U32>)
    requires Advanced(pl, d0, v0, d1, v1) && c !in d0 && (c.owner.Object? ==> c.owner.offset in v0)
    ensures c !in d1
  {
    assert d1[c] == 0;
  }

  class ByamlFile {
    const file: array<Byte>
    /** The offsets, as stored, of the regions that have been looked at. */
    var bigDataCache: set<U32>
    /** How often each word has been reversed. */
    ghost var swaps: multiset<Cell>
    /** The data regions that have been looked at. */
    ghost var visited: set<U32>

    constructor (file: array<Byte>)
      ensures this.file == file && bigDataCache == {} && swaps == multiset{} && visited == {}
    {
      this.file := file;
      bigDataCache := {};
      swaps := multiset{};
      visited := {};
    }

    /** Exactly the words in `swaps` are swapped; every other byte is the original one. */
    ghost predicate Faithful(pl: Plan)
      reads this, file
    {
      file.Length == |pl.orig| && forall p :: 0 <= p < file.Length ==> file[p] == ByteAfter(pl, swaps, p)
    }

    /** The header and the tables are done, and data regions are being worked through. */
    ghost predicate Ready(pl: Plan)
      reads this, file
    {
      && Faithful(pl) && CacheAgrees(pl, bigDataCache, visited) && OnlyMet(swaps, visited)
      && CellAt(pl, FileHeader, Field(0)) in swaps
    }

    function ReadU24(p: int): U24
      requires 0 <= p && p + 3 <= file.Length
      reads file
    {
      U24(file[p], file[p + 1], file[p + 2])
    }

    function ReadU32(p: int): U32
      requires 0 <= p && p + 4 <= file.Length
      reads file
    {
      U32(file[p], file[p + 1], file[p + 2], file[p + 3])
    }

    /** Whether the magic, as it is now, is in the other byte order. */
    predicate IsReverseEndian()
      requires file.Length >= 2
      reads file
    {
      file[0] == MAGIC_HIGH && file[1] == MAGIC_LOW
    }

    /** Reverses the bytes of an integer of one of the four widths that occur. */
    method SwapEndian(p: int, n: int)
      requires 0 <= p && p + n <= file.Length && n in {2, 3, 4, 8}
      modifies file
      ensures Reversed(old(file[..]), file[..], p, n)
    {
      if n == 2 {
        file[p], file[p + 1] := file[p + 1], file[p];
      } else if n == 3 {
        file[p], file[p + 2] := file[p + 2], file[p];
      } else if n == 4 {
        file[p], file[p + 1], file[p + 2], file[p + 3] := file[p + 3], file[p + 2], file[p + 1], file[p];
      } else {
        file[p], file[p + 1], file[p + 2], file[p + 3], file[p + 4], file[p + 5], file[p + 6], file[p + 7] :=
          file[p + 7], file[p + 6], file[p + 5], file[p + 4], file[p + 3], file[p + 2], file[p + 1], file[p];
      }
    }

    /** Reverses a word that has not been reversed before. */
    method SwapWord(ghost pl: Plan, ghost c: Cell, p: int, n: int)
      requires Placed(pl) && Faithful(pl) && Covered(pl, c) && c !in swaps && c !in pl.unknown
      requires c.start == p && c.len == n && n in {2, 3, 4, 8}
      modifies file, this`swaps
      ensures Faithful(pl) && swaps == old(swaps) + multiset{c}
    {
      ghost var f0 := file[..];
      SwapEndian(p, n);
      swaps := swaps + multiset{c};
      WordReversed(pl, old(swaps), c, f0, file[..]);
    }

    /** Storing the swapped value of an integer where it was read reverses its bytes. */
    method WriteU32(p: int, x: U32)
      requires 0 <= p && p + 4 <= file.Length
      modifies file
      ensures x == old(U32(file[p + 3], file[p + 2], file[p + 1], file[p])) ==> Reversed(old(file[..]), file[..], p, 4)
      ensures x == ZERO ==> Zeroed(old(file[..]), file[..], p, 4)
    {
      file[p], file[p + 1], file[p + 2], file[p + 3] := x.b0, x.b1, x.b2, x.b3;
    }

    method StoreWord(ghost pl: Plan, ghost c: Cell, p: int, x: U32)
      requires Placed(pl) && Faithful(pl) && Covered(pl, c) && c !in swaps && c.start == p && c.len == 4
      requires x == if c in pl.unknown then ZERO else Swap32(ReadU32(p))
      modifies file, this`swaps
      ensures Faithful(pl) && swaps == old(swaps) + multiset{c}
    {
      ghost var f0 := file[..];
      WriteU32(p, x);
      swaps := swaps + multiset{c};
      if c in pl.unknown {
        WordErased(pl, old(swaps), c, f0, file[..]);
      } else {
        WordReversed(pl, old(swaps), c, f0, file[..]);
      }
    }

    lemma ByteNow(pl: Plan, c: Cell, q: int)
      requires Faithful(pl) && Covered(pl, c) && c.start <= q < c.start + c.len
      requires c in swaps ==> c !in pl.unknown
      ensures file[q] == At(pl.orig, if c in swaps then 2 * c.start + c.len - 1 - q else q)
    {
      assert file[q] == ByteAfter(pl, swaps, q);
    }

    /** A word already reversed reads, swapped once more in a native file, as the number it stands for. */
    lemma ReadSwapped(pl: Plan, c: Cell)
      requires Faithful(pl) && Covered(pl, c) && c in swaps && c.len == 4 && c !in pl.unknown
      ensures var x := ReadU32(c.start);
        Read4(pl.orig, pl.native, c.start) == if pl.native then Swap32(x) else x
    {
      ByteNow(pl, c, c.start);
      ByteNow(pl, c, c.start + 1);
      ByteNow(pl, c, c.start + 2);
      ByteNow(pl, c, c.start + 3);
    }

    lemma ReadSwapped24(pl: Plan, c: Cell)
      requires Faithful(pl) && Covered(pl, c) && c in swaps && c.len == 3 && c !in pl.unknown
      ensures var x := ReadU24(c.start);
        Read3(pl.orig, pl.native, c.start) == if pl.native then Swap24(x) else x
    {
      ByteNow(pl, c, c.start);
      ByteNow(pl, c, c.start + 1);
      ByteNow(pl, c, c.start + 2);
    }

    /** A word not swapped yet reads as in the original file. */
    lemma ReadsOriginal(pl: Plan, c: Cell)
      requires Faithful(pl) && Covered(pl, c) && c !in swaps && c.len == 4
      ensures var p := c.start;
        ReadU32(p) == U32(At(pl.orig, p), At(pl.orig, p + 1), At(pl.orig, p + 2), At(pl.orig, p + 3))
    {
      ByteNow(pl, c, c.start);
      ByteNow(pl, c, c.start + 1);
      ByteNow(pl, c, c.start + 2);
      ByteNow(pl, c, c.start + 3);
    }

    /** A word not reversed yet has the cache key of the number it stands for as its swapped value. */
    lemma ReadAhead(pl: Plan, c: Cell)
      requires Faithful(pl) && Covered(pl, c) && c !in swaps && c.len == 4
      ensures CacheKey(pl.native, Swap32(ReadU32(c.start))) == Read4(pl.orig, pl.native, c.start)
      ensures ReadU32(c.start) == ZERO <==> Read4(pl.orig, pl.native, c.start) == ZERO
    {
      var p := c.start;
      ByteNow(pl, c, p);
      ByteNow(pl, c, p + 1);
      ByteNow(pl, c, p + 2);
      ByteNow(pl, c, p + 3);
    }

    lemma FixedByte(pl: Plan, q: int)
      requires Faithful(pl) && Fixed(pl, q)
      ensures file[q] == At(pl.orig, q)
    {
    }

    /** The type byte of a section is never swapped. */
    lemma TopByte(pl: Plan, offset: U32)
      requires Faithful(pl) && WellFormed(pl) && offset in Tops(pl)
      ensures Number32(offset) < file.Length && file[Number32(offset)] == At(pl.orig, Number32(offset))
    {
      FixedByte(pl, Number32(offset));
    }

    lemma MagicNow(pl: Plan)
      requires HasMagic(pl) && Faithful(pl) && OnlyValuesUnknown(pl)
      requires Covered(pl, CellAt(pl, FileHeader, Field(0))) && CellAt(pl, FileHeader, Field(0)) in swaps
      ensures file.Length >= 2 && IsReverseEndian() == pl.native
    {
      ByteNow(pl, CellAt(pl, FileHeader, Field(0)), 0);
      ByteNow(pl, CellAt(pl, FileHeader, Field(0)), 1);
    }

    /** Once the magic has been reversed it tells the byte order that the file had. */
    lemma OrderKnown(pl: Plan)
      requires WellFormed(pl) && Faithful(pl) && CellAt(pl, FileHeader, Field(0)) in swaps
      ensures IsReverseEndian() == pl.native
    {
      SlotCovered(pl, FileHeader, Field(0));
      MagicNow(pl);
    }

    // -------------------------------------------------------------------------------------------
    // Data regions

    /** Remembers a key, unless it is remembered already. */
    method Cache(data: U32) returns (isNew: bool)
      modifies this`bigDataCache
      ensures isNew <==> data !in old(bigDataCache)
      ensures bigDataCache == old(bigDataCache) + {data}
    {
      if data in bigDataCache {
        return false;
      }
      bigDataCache := bigDataCache + {data};
      return true;
    }

    /** Reverses the word in a slot of a region that is being worked through. */
    method SwapSlot(ghost pl: Plan, ghost w: Owner, ghost s: Slot, p: int, n: int)
      requires WellFormed(pl) && Ready(pl) && HasSlot(RegionOf(pl, w), s) && !s.Value? && CellAt(pl, w, s) !in swaps
      requires w.Object? ==> w.offset in visited
      requires p == SlotStart(RegionOf(pl, w), s) && n == SlotLen(RegionOf(pl, w), s) && n in {2, 3, 4, 8}
      modifies file, this`swaps
      ensures Ready(pl) && swaps == old(swaps) + multiset{CellAt(pl, w, s)}
    {
      SlotCovered(pl, w, s);
      SwapWord(pl, CellAt(pl, w, s), p, n);
    }

    /** Swaps a data word. The region it refers to, if any, is swapped unless its key is cached. */
    method SwapEndianData(ghost pl: Plan, t: Byte, data: U32, ghost o: U32) returns (r: U32)
      requires WellFormed(pl) && Ready(pl) && o == CacheKey(pl.native, Swap32(data))
      requires TagOf(t).Reference? ==> Blocked(pl, o) || (o in pl.objects && pl.objects[o] == TagOf(t).kind)
      modifies file, this`bigDataCache, this`swaps, this`visited
      ensures Ready(pl) && Advanced(pl, old(swaps), old(visited), swaps, visited)
      ensures TagOf(t).Reference? ==> Blocked(pl, o) || o in visited
      ensures var known := ByamlFormat.IsContainer(t) || ByamlFormat.IsKeptElsewhere(t) || ByamlFormat.IsNumber(t);
        r == if known then Swap32(data) else ZERO
      decreases pl.objects.Keys - visited, 0
    {
      var swapped := Swap32(data);
      if TagOf(t).Plain? {
        return swapped;
      }
      if TagOf(t).Unknown? {
        return ZERO;
      }
      ghost var cache, d0, v0 := bigDataCache, swaps, visited;
      var isNew := Cache(swapped);
      if isNew {
        Entered(pl, cache, v0, o);
        visited := visited + {o};
        SwapEndianForBigData(pl, TagOf(t).kind, swapped, o);
        RegionDone(pl, o, d0, v0, swaps, visited);
      } else {
        assert bigDataCache == cache;
      }
      return swapped;
    }

    /** Swaps the data region at an offset, given as its cache key. */
    method SwapEndianForBigData(ghost pl: Plan, kind: Kind, data: U32, ghost o: U32)
      requires WellFormed(pl) && Ready(pl) && o in visited && pl.objects[o] == kind && data == CacheKey(pl.native, o)
      requires Untouched(Object(o), swaps, visited)
      modifies file, this`bigDataCache, this`swaps, this`visited
      ensures Ready(pl)
      ensures Progress(pl, Object(o), Limit(RegionOf(pl, Object(o))), old(swaps), old(visited), swaps, visited)
      decreases pl.objects.Keys - visited, 5
    {
      ghost var w := Object(o);
      ghost var d0, v0 := swaps, visited;
      OrderKnown(pl);
      var offset := Number32(if !IsReverseEndian() then data else Swap32(data));
      if kind.ContainerKind? {
        SwapEndianDataContainer(pl, w, offset);
        return;
      }
      if kind.AlignedBinaryKind? {
        SwapSlot(pl, w, Field(1), offset + 4, 4);
      }
      SwapSlot(pl, w, Field(0), offset, if kind.WideKind? then 8 else 4);
      BlobDone(pl, w, d0, v0, swaps);
    }

    /** Swaps the head of a container and then its contents, by the form that its type byte tells. */
    method SwapEndianDataContainer(ghost pl: Plan, ghost w: Owner, base: int)
      requires WellFormed(pl) && Ready(pl) && RegionOf(pl, w).Container? && RegionOf(pl, w).base == base
      requires Untouched(w, swaps, visited)
      modifies file, this`bigDataCache, this`swaps, this`visited
      ensures Ready(pl)
      ensures Progress(pl, w, RegionOf(pl, w).count, old(swaps), old(visited), swaps, visited)
      decreases pl.objects.Keys - visited, 4
    {
      ghost var d0, v0 := swaps, visited;
      SwapSlot(pl, w, Head, base + 1, 3);
      HeadDone(pl, w, d0, v0);
      assert GoodRegion(pl, w);
      FixedByte(pl, base);
      var t := file[base];
      match FormOf(t)
      case Hash(words, remap) => SwapEndianHashArray(pl, w, base, words, remap, d0, v0);
      case Dictionary(remap) => SwapEndianDictionary(pl, w, base, remap, d0, v0);
      case Listed => SwapEndianArray(pl, w, base, false, d0, v0);
      case Uniform => SwapEndianArray(pl, w, base, true, d0, v0);
      case Bare => BareDone(pl, w, d0, v0, swaps, visited);
    }

    lemma HeadRead(pl: Plan, w: Owner)
      requires Covered(pl, CellAt(pl, w, Head)) && Faithful(pl) && CellAt(pl, w, Head) in swaps && OnlyValuesUnknown(pl)
      requires var r := RegionOf(pl, w); r.Container? || r.Table?
      ensures var p := RegionOf(pl, w).base + 1;
        && 0 <= p && p + 3 <= file.Length
        && RegionOf(pl, w).count == Number24(if pl.native then Swap24(ReadU24(p)) else ReadU24(p))
    {
      ReadSwapped24(pl, CellAt(pl, w, Head));
    }

    /** The number of entries of a container or table, once its head has been reversed. */
    method ReadCount(ghost pl: Plan, ghost w: Owner, base: int) returns (count: int)
      requires WellFormed(pl) && Faithful(pl) && CellAt(pl, FileHeader, Field(0)) in swaps
      requires var r := RegionOf(pl, w); (r.Container? || r.Table?) && r.base == base
      requires CellAt(pl, w, Head) in swaps
      ensures count == RegionOf(pl, w).count
    {
      OrderKnown(pl);
      SlotCovered(pl, w, Head);
      HeadRead(pl, w);
      var count24 := ReadU24(base + 1);
      count := Number24(if !IsReverseEndian() then count24 else Swap24(count24));
    }

    /** Swaps the value of an entry in place, and before that what it refers to. */
    method SwapEndianEntry(ghost pl: Plan, ghost w: Owner, ghost i: int, t: int, p: int)
      returns (ghost d2: multiset<Cell>)
      requires WellFormed(pl) && Ready(pl) && HasEntry(RegionOf(pl, w), i) && CellAt(pl, w, Value(i)) !in swaps
      requires w.Object? ==> w.offset in visited
      requires t == TagPosition(RegionOf(pl, w), i) && p == SlotStart(RegionOf(pl, w), Value(i))
      modifies file, this`bigDataCache, this`swaps, this`visited
      ensures Ready(pl) && Advanced(pl, old(swaps), old(visited), d2, visited)
      ensures swaps == d2 + multiset{CellAt(pl, w, Value(i))}
      ensures EntryMet(pl, RegionOf(pl, w), i, visited)
      decreases pl.objects.Keys - visited, 1
    {
      ghost var c := CellAt(pl, w, Value(i));
      EntryFacts(pl, w, i);
      FixedByte(pl, t);
      ReadAhead(pl, c);
      ReadsOriginal(pl, c);
      ghost var o := EntryWord(pl, RegionOf(pl, w), i);
      ghost var d0, v0 := swaps, visited;
      var r := SwapEndianData(pl, file[t], ReadU32(p), o);
      d2 := swaps;
      NotReached(pl, c, d0, v0, swaps, visited);
      ReadsOriginal(pl, c);
      StoreWord(pl, c, p, r);
    }

    /** Swaps the remap index of an entry, if the container has them. */
    method SwapRemap(ghost pl: Plan, ghost w: Owner, ghost i: int, remap: bool, p: int)
      requires WellFormed(pl) && Ready(pl) && HasEntry(RegionOf(pl, w), i) && CellAt(pl, w, Remap(i)) !in swaps
      requires w.Object? ==> w.offset in visited
      requires remap == HasRemap(RegionOf(pl, w).form) && (remap ==> p == SlotStart(RegionOf(pl, w), Remap(i)))
      modifies file, this`swaps
      ensures Ready(pl)
      ensures swaps == AddIf(old(swaps), HasSlot(RegionOf(pl, w), Remap(i)), CellAt(pl, w, Remap(i)))
    {
      if remap {
        SwapSlot(pl, w, Remap(i), p, 4);
      }
    }

    method SwapEndianHashArray(ghost pl: Plan, ghost w: Owner, base: int, words: int, remap: bool,
        ghost d0: multiset<Cell>, ghost v0: set<U32>)
      requires WellFormed(pl) && Ready(pl) && RegionOf(pl, w).Container? && RegionOf(pl, w).base == base
      requires RegionOf(pl, w).form == Hash(words, remap) && 1 <= words <= 2
      requires Untouched(w, d0, v0) && Progress(pl, w, 0, d0, v0, swaps, visited)
      requires CellAt(pl, w, Head) in swaps
      modifies file, this`bigDataCache, this`swaps, this`visited
      ensures Ready(pl) && Progress(pl, w, RegionOf(pl, w).count, d0, v0, swaps, visited)
      decreases pl.objects.Keys - visited, 3
    {
      var count := ReadCount(pl, w, base);
      var i := 0;
      while i < count
        invariant 0 <= i <= count && Ready(pl)
        invariant Progress(pl, w, i, d0, v0, swaps, visited)
        invariant old(visited) <= visited
      {
        SwapEndianHashEntry(pl, w, base, words, remap, count, i, d0, v0);
        i := i + 1;
      }
    }

    /** One hash with its value, and its remap index if the array has one. */
    method SwapEndianHashEntry(ghost pl: Plan, ghost w: Owner, base: int, words: int, remap: bool, count: int, i: int,
        ghost d0: multiset<Cell>, ghost v0: set<U32>)
      requires WellFormed(pl) && Ready(pl) && RegionOf(pl, w).Container? && RegionOf(pl, w).base == base
      requires RegionOf(pl, w).form == Hash(words, remap) && 1 <= words <= 2
      requires Untouched(w, d0, v0) && Progress(pl, w, i, d0, v0, swaps, visited)
      requires 0 <= i < count == RegionOf(pl, w).count
      modifies file, this`bigDataCache, this`swaps, this`visited
      ensures Ready(pl) && Progress(pl, w, i + 1, d0, v0, swaps, visited) && old(visited) <= visited
      decreases pl.objects.Keys - visited, 2
    {
      ghost var d1, v1 := swaps, visited;
      EntryAhead(pl, w, i, d0, v0, d1, v1);
      HashEntryAt(RegionOf(pl, w), i);
      var pair, types := PairStart(base, words, i), PairStart(base, words, count);
      SwapSlot(pl, w, Key(i), pair, 4 * words);
      ghost var d2 := swaps;
      ghost var d3 := SwapEndianEntry(pl, w, i, types + i, pair + 4 * words);
      RemapAhead(pl, w, i, d2, v1, d3, visited);
      SwapRemap(pl, w, i, remap, types + Rounded(count) + 4 * i);
      EntryDone(pl, w, i, d0, v0, d1, v1, d2, d3, visited, swaps);
    }

    method SwapEndianDictionary(ghost pl: Plan, ghost w: Owner, base: int, remap: bool,
        ghost d0: multiset<Cell>, ghost v0: set<U32>)
      requires WellFormed(pl) && Ready(pl) && RegionOf(pl, w).Container? && RegionOf(pl, w).base == base
      requires RegionOf(pl, w).form == Dictionary(remap)
      requires Untouched(w, d0, v0) && Progress(pl, w, 0, d0, v0, swaps, visited)
      requires CellAt(pl, w, Head) in swaps
      modifies file, this`bigDataCache, this`swaps, this`visited
      ensures Ready(pl) && Progress(pl, w, RegionOf(pl, w).count, d0, v0, swaps, visited)
      decreases pl.objects.Keys - visited, 3
    {
      var count := ReadCount(pl, w, base);
      var i := 0;
      while i < count
        invariant 0 <= i <= count && Ready(pl)
        invariant Progress(pl, w, i, d0, v0, swaps, visited)
        invariant old(visited) <= visited
      {
        SwapEndianDictionaryEntry(pl, w, base, remap, count, i, d0, v0);
        i := i + 1;
      }
    }

    /** One pair of key index and value, and its remap index if the dictionary has one. */
    method SwapEndianDictionaryEntry(ghost pl: Plan, ghost w: Owner, base: int, remap: bool, count: int, i: int,
        ghost d0: multiset<Cell>, ghost v0: set<U32>)
      requires WellFormed(pl) && Ready(pl) && RegionOf(pl, w).Container? && RegionOf(pl, w).base == base
      requires RegionOf(pl, w).form == Dictionary(remap)
      requires Untouched(w, d0, v0) && Progress(pl, w, i, d0, v0, swaps, visited)
      requires 0 <= i < count == RegionOf(pl, w).count
      modifies file, this`bigDataCache, this`swaps, this`visited
      ensures Ready(pl) && Progress(pl, w, i + 1, d0, v0, swaps, visited) && old(visited) <= visited
      decreases pl.objects.Keys - visited, 2
    {
      ghost var d1, v1 := swaps, visited;
      EntryAhead(pl, w, i, d0, v0, d1, v1);
      DictionaryEntryAt(RegionOf(pl, w), i);
      SwapSlot(pl, w, Key(i), base + 4 + 8 * i, 3);
      ghost var d2 := swaps;
      ghost var d3 := SwapEndianEntry(pl, w, i, base + 4 + 8 * i + 3, base + 4 + 8 * i + 4);
      RemapAhead(pl, w, i, d2, v1, d3, visited);
      SwapRemap(pl, w, i, remap, base + 4 + 8 * count + 4 * i);
      EntryDone(pl, w, i, d0, v0, d1, v1, d2, d3, visited, swaps);
    }

    method SwapEndianArray(ghost pl: Plan, ghost w: Owner, base: int, uniform: bool,
        ghost d0: multiset<Cell>, ghost v0: set<U32>)
      requires WellFormed(pl) && Ready(pl) && RegionOf(pl, w).Container? && RegionOf(pl, w).base == base
      requires RegionOf(pl, w).form == (if uniform then Uniform else Listed)
      requires Untouched(w, d0, v0) && Progress(pl, w, 0, d0, v0, swaps, visited)
      requires CellAt(pl, w, Head) in swaps
      modifies file, this`bigDataCache, this`swaps, this`visited
      ensures Ready(pl) && Progress(pl, w, RegionOf(pl, w).count, d0, v0, swaps, visited)
      decreases pl.objects.Keys - visited, 3
    {
      var count := ReadCount(pl, w, base);
      var i := 0;
      while i < count
        invariant 0 <= i <= count && Ready(pl)
        invariant Progress(pl, w, i, d0, v0, swaps, visited)
        invariant old(visited) <= visited
      {
        SwapEndianArrayEntry(pl, w, base, uniform, count, i, d0, v0);
        i := i + 1;
      }
    }

    /** One element, by its own type byte or by the one for all elements. */
    method SwapEndianArrayEntry(ghost pl: Plan, ghost w: Owner, base: int, uniform: bool, count: int, i: int,
        ghost d0: multiset<Cell>, ghost v0: set<U32>)
      requires WellFormed(pl) && Ready(pl) && RegionOf(pl, w).Container? && RegionOf(pl, w).base == base
      requires RegionOf(pl, w).form == (if uniform then Uniform else Listed)
      requires Untouched(w, d0, v0) && Progress(pl, w, i, d0, v0, swaps, visited)
      requires 0 <= i < count == RegionOf(pl, w).count
      modifies file, this`bigDataCache, this`swaps, this`visited
      ensures Ready(pl) && Progress(pl, w, i + 1, d0, v0, swaps, visited) && old(visited) <= visited
      decreases pl.objects.Keys - visited, 2
    {
      ghost var d1, v1 := swaps, visited;
      EntryAhead(pl, w, i, d0, v0, d1, v1);
      var t := base + 4 + if uniform then 0 else i;
      var values := base + 4 + if uniform then 4 else Rounded(count);
      ghost var d3 := SwapEndianEntry(pl, w, i, t, values + 4 * i);
      EntryDone(pl, w, i, d0, v0, d1, v1, d1, d3, visited, swaps);
    }

    // -------------------------------------------------------------------------------------------
    // Sections

    /** Swaps the key table or the string table, unless it is absent or its offset is cached. */
    method SwapTableEndian(ghost pl: Plan, ghost w: Owner, offset: U32, ghost ws: set<Owner>)
      requires WellFormed(pl) && Faithful(pl) && Sections(pl, ws, swaps) && FileHeader in ws
      requires w !in ws && !w.Object? && (offset == ZERO || offset in Tops(pl))
      requires RegionOf(pl, w) ==
        if offset == ZERO || offset in bigDataCache then Nothing
        else TableAt(pl.orig, pl.native, Number32(offset))
      modifies file, this`bigDataCache, this`swaps
      ensures Faithful(pl) && Sections(pl, ws + {w}, swaps)
      ensures bigDataCache == old(bigDataCache) + ({offset} - {ZERO})
    {
      SectionSkipped(pl, w, ws, swaps);
      if offset == ZERO {
        return;
      }
      var isNew := Cache(offset);
      if !isNew {
        return;
      }
      var base := Number32(offset);
      TopByte(pl, offset);
      if file[base] != KEY_TABLE {
        return;
      }
      SwapTableWords(pl, w, base, ws);
    }

    /** Swaps the head of a table. */
    method SwapTableHead(ghost pl: Plan, ghost w: Owner, base: int) returns (count: int)
      requires WellFormed(pl) && Faithful(pl) && CellAt(pl, FileHeader, Field(0)) in swaps
      requires (forall c :: c in swaps ==> c.owner != w) && RegionOf(pl, w).Table? && RegionOf(pl, w).base == base
      modifies file, this`swaps
      ensures Faithful(pl) && TableUpTo(pl, w, 0, old(swaps), swaps)
      ensures count == RegionOf(pl, w).count
    {
      ghost var d0 := swaps;
      SlotCovered(pl, w, Head);
      SwapWord(pl, CellAt(pl, w, Head), base + 1, 3);
      TableHeadDone(pl, w, d0);
      count := ReadCount(pl, w, base);
    }

    method SwapTableWord(ghost pl: Plan, ghost w: Owner, ghost i: int, p: int, ghost d0: multiset<Cell>)
      requires WellFormed(pl) && Faithful(pl) && RegionOf(pl, w).Table? && 0 <= i <= RegionOf(pl, w).count
      requires (forall c :: c in d0 ==> c.owner != w) && TableUpTo(pl, w, i, d0, swaps)
      requires p == RegionOf(pl, w).base + 4 + 4 * i
      modifies file, this`swaps
      ensures Faithful(pl) && TableUpTo(pl, w, i + 1, d0, swaps)
    {
      SlotCovered(pl, w, Field(i));
      FieldDone(pl, w, i, d0, swaps);
      SwapWord(pl, CellAt(pl, w, Field(i)), p, 4);
    }

    /** Swaps the head of a table and its offsets, of which there is one more than it has strings. */
    method SwapTableWords(ghost pl: Plan, ghost w: Owner, base: int, ghost ws: set<Owner>)
      requires WellFormed(pl) && Faithful(pl) && Sections(pl, ws, swaps) && FileHeader in ws && w !in ws
      requires RegionOf(pl, w).Table? && RegionOf(pl, w).base == base
      modifies file, this`swaps
      ensures Faithful(pl) && Sections(pl, ws + {w}, swaps)
    {
      ghost var d0 := swaps;
      HeaderIn(pl, ws, d0);
      var count := SwapTableHead(pl, w, base);
      var i := 0;
      while i < count + 1
        invariant 0 <= i <= count + 1 && Faithful(pl)
        invariant TableUpTo(pl, w, i, d0, swaps)
      {
        SwapTableWord(pl, w, i, base + 4 + 4 * i, d0);
        i := i + 1;
      }
      SectionDone(pl, w, ws, d0, swaps);
    }

    /** Swaps the root container, and from there every data region. */
    method SwapRootContainerEndian(ghost pl: Plan, offset: U32)
      requires WellFormed(pl) && Faithful(pl) && CellAt(pl, FileHeader, Field(0)) in swaps
      requires Untouched(Root, swaps, {}) && OnlyMet(swaps, {})
      requires visited == {} && offset == RootOffset(pl)
      requires bigDataCache == {KeyOffset(pl), StringOffset(pl)} - {ZERO}
      modifies file, this`bigDataCache, this`swaps, this`visited
      ensures Faithful(pl)
      ensures Progress(pl, Root, Limit(RegionOf(pl, Root)), old(swaps), {}, swaps, visited)
    {
      if offset == ZERO {
        return;
      }
      var isNew := Cache(offset);
      if !isNew {
        return;
      }
      var base := Number32(offset);
      TopByte(pl, offset);
      if !IsContainerType(file[base]) {
        return;
      }
      assert bigDataCache == Tops(pl);
      SwapEndianDataContainer(pl, Root, base);
    }

    lemma OffsetNow(pl: Plan, i: int)
      requires Faithful(pl) && OnlyValuesUnknown(pl) && 2 <= i < 5 && CellAt(pl, FileHeader, Field(i)) in swaps
      requires Covered(pl, CellAt(pl, FileHeader, Field(i)))
      ensures file.Length >= 4 * i
      ensures var x := ReadU32(4 * i - 4);
        Read4(pl.orig, pl.native, 4 * i - 4) == if pl.native then Swap32(x) else x
    {
      ReadSwapped(pl, CellAt(pl, FileHeader, Field(i)));
    }

    /** A section offset of the header, once the header has been reversed. */
    method ReadOffset(ghost pl: Plan, ghost i: int, p: int) returns (offset: U32)
      requires WellFormed(pl) && Faithful(pl) && 2 <= i < 5 && p == 4 * i - 4
      requires CellAt(pl, FileHeader, Field(0)) in swaps && CellAt(pl, FileHeader, Field(i)) in swaps
      ensures offset == Read4(pl.orig, pl.native, p)
    {
      OrderKnown(pl);
      SlotCovered(pl, FileHeader, Field(i));
      OffsetNow(pl, i);
      var x := ReadU32(p);
      offset := if !IsReverseEndian() then x else Swap32(x);
    }

    method SwapHeaderField(ghost pl: Plan, ghost i: int, p: int, n: int)
      requires WellFormed(pl) && Faithful(pl) && 0 <= i < 5 && CellAt(pl, FileHeader, Field(i)) !in swaps
      requires p == SlotStart(Header, Field(i)) && n == SlotLen(Header, Field(i))
      modifies file, this`swaps
      ensures Faithful(pl) && swaps == old(swaps) + multiset{CellAt(pl, FileHeader, Field(i))}
    {
      SlotCovered(pl, FileHeader, Field(i));
      SwapWord(pl, CellAt(pl, FileHeader, Field(i)), p, n);
    }

    /** Swaps the magic, the version and the three section offsets. */
    method SwapHeader(ghost pl: Plan)
      requires WellFormed(pl) && Faithful(pl) && swaps == multiset{}
      modifies file, this`swaps
      ensures Faithful(pl) && Sections(pl, {FileHeader}, swaps)
    {
      SwapHeaderField(pl, 0, 0, 2);
      SwapHeaderField(pl, 1, 2, 2);
      SwapHeaderField(pl, 2, 4, 4);
      SwapHeaderField(pl, 3, 8, 4);
      SwapHeaderField(pl, 4, 12, 4);
      HeaderDone(pl, swaps);
    }

    /** Swaps the two tables, in the order in which their offsets are cached. */
    method SwapTables(ghost pl: Plan)
      requires WellFormed(pl) && Faithful(pl) && Sections(pl, {FileHeader}, swaps) && bigDataCache == {}
      modifies file, this`bigDataCache, this`swaps
      ensures Faithful(pl) && Sections(pl, {FileHeader, KeyTable, StringTable}, swaps)
      ensures bigDataCache == {KeyOffset(pl), StringOffset(pl)} - {ZERO}
    {
      HeaderIn(pl, {FileHeader}, swaps);
      var keyOffset := ReadOffset(pl, 2, 4);
      SwapTableEndian(pl, KeyTable, keyOffset, {FileHeader});

      HeaderIn(pl, {FileHeader, KeyTable}, swaps);
      var stringOffset := ReadOffset(pl, 3, 8);
      SwapTableEndian(pl, StringTable, stringOffset, {FileHeader, KeyTable});
    }

    /** Swaps the root and all that it leads to, the last section of a file. */
    method SwapData(ghost pl: Plan)
      requires WellFormed(pl) && Faithful(pl) && Sections(pl, {FileHeader, KeyTable, StringTable}, swaps)
      requires bigDataCache == {KeyOffset(pl), StringOffset(pl)} - {ZERO} && visited == {}
      modifies file, this`bigDataCache, this`swaps, this`visited
      ensures file[..] == Mirrored(pl)
      ensures forall c :: swaps[c] == One(IsCell(pl, c))
    {
      HeaderIn(pl, {FileHeader, KeyTable, StringTable}, swaps);
      var rootOffset := ReadOffset(pl, 4, 12);
      ghost var d0 := swaps;
      SwapRootContainerEndian(pl, rootOffset);
      AllReversed(pl, d0);
    }

    /** Swaps a whole file in place: each word of each region that the root leads to is reversed once,
        and no other byte changes. Told by the format alone: each word that it has is reversed, and each value
        of unknown type is erased. */
    method SwapByamlEndian(ghost pl: Plan)
      requires WellFormed(pl) && file[..] == pl.orig
      modifies file, this`bigDataCache, this`swaps, this`visited
      ensures file[..] == Mirrored(pl)
      ensures forall c :: swaps[c] == One(IsCell(pl, c))
      ensures ByamlFormat.OrderChanged(old(file[..]), old(file[0]) == 0x59, file[..])
    {
      bigDataCache, swaps, visited := {}, multiset{}, {};
      SwapHeader(pl);
      SwapTables(pl);
      SwapData(pl);
      bigDataCache := {};
      ByamlFormat.PassChangesOrder(pl);
    }

    lemma AllReversed(pl: Plan, d0: multiset<Cell>)
      requires WellFormed(pl) && Faithful(pl) && Sections(pl, {FileHeader, KeyTable, StringTable}, d0)
      requires Progress(pl, Root, Limit(RegionOf(pl, Root)), d0, {}, swaps, visited)
      ensures file[..] == Mirrored(pl) && forall c :: swaps[c] == One(IsCell(pl, c))
    {
      EverythingMet(pl, d0, swaps, visited);
      EverythingSwapped(pl, d0, swaps);
      forall p | 0 <= p < file.Length ensures file[p] == MirroredByte(pl, p) {
        assert file[p] == ByteAfter(pl, swaps, p);
      }
    }
  }
}
