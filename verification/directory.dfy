/** One image file directory (IFD), read by `TIFF._ifdread`: a 2-byte entry
    count followed by that many 12-byte entries, collected into a dict. */
module Directory {
  import opened Results
  import opened Bytes
  import opened FieldTypes

  /** Bytes in one directory entry: tag (2), type (2), count (4), value/offset (4). */
  const EntrySize := 12

  /** The third member of the stored triple: the value itself when it fits
      in the entry, otherwise the offset where it lives. */
  datatype Slot = Inline(value: Value) | Pointer(offset: nat)

  /** `(type, vc, off)` as stored in the dict. */
  datatype Entry = Entry(typ: nat, count: nat, slot: Slot)

  datatype Field = Field(tag: nat, entry: Entry)

  /** A Python dict from tag to entry, kept in first-insertion order, which
      is the order `for tag in ifd` visits. */
  type Ifd = seq<Field>

  predicate HasTag(ifd: Ifd, tag: nat)
  {
    exists i :: 0 <= i < |ifd| && ifd[i].tag == tag
  }

  predicate UniqueTags(ifd: Ifd)
  {
    forall i, j :: 0 <= i < j < |ifd| ==> ifd[i].tag != ifd[j].tag
  }

  /** `ifd[tag]` when `tag in ifd`. */
  function Lookup(ifd: Ifd, tag: nat): (r: Option<Entry>)
    ensures r.None? <==> !HasTag(ifd, tag)
    ensures r.Some? ==> exists i :: 0 <= i < |ifd| && ifd[i] == Field(tag, r.value)
    ensures UniqueTags(ifd) ==> forall i :: 0 <= i < |ifd| && ifd[i].tag == tag ==> r == Some(ifd[i].entry)
  {
    if ifd == [] then None
    else if ifd[0].tag == tag then Some(ifd[0].entry)
    else
      var r := Lookup(ifd[1..], tag);
      assert forall i :: 1 <= i < |ifd| ==> ifd[i] == ifd[1..][i - 1];
      r
  }

  /** `ifd[tag] = entry`: a present tag keeps its position and takes the
      new entry; a new tag goes to the end. */
  function Insert(ifd: Ifd, f: Field): (r: Ifd)
    ensures UniqueTags(ifd) ==> UniqueTags(r)
    ensures HasTag(ifd, f.tag) ==> |r| == |ifd| && forall i :: 0 <= i < |r| ==> r[i].tag == ifd[i].tag
    ensures !HasTag(ifd, f.tag) ==> r == ifd + [f]
  {
    if ifd == [] then [f]
    else if ifd[0].tag == f.tag then [f] + ifd[1..]
    else
      var tail := ifd[1..];
      var rest := Insert(tail, f);
      var r := [ifd[0]] + rest;
      assert forall i :: 1 <= i < |ifd| ==> ifd[i] == tail[i - 1];
      assert forall i :: 1 <= i < |r| ==> r[i] == rest[i - 1];
      assert HasTag(ifd, f.tag) <==> HasTag(tail, f.tag);
      r
  }

  /** After `ifd[f.tag] = f.entry`, that tag maps to the new entry and every
      other tag to what it mapped to before. */
  lemma {:induction false} InsertLookup(ifd: Ifd, f: Field, t: nat)
    ensures Lookup(Insert(ifd, f), t) == if t == f.tag then Some(f.entry) else Lookup(ifd, t)
  {
    if ifd != [] && ifd[0].tag != f.tag {
      InsertLookup(ifd[1..], f, t);
    }
  }

  /** The dict built by inserting `fs` in order. */
  function BuildDict(fs: seq<Field>): (r: Ifd)
    ensures UniqueTags(r) && |r| <= |fs|
  {
    if fs == [] then [] else Insert(BuildDict(fs[..|fs| - 1]), fs[|fs| - 1])
  }

  /** The entry of the last field in `fs` carrying tag `t`, if any. */
  function LastFor(fs: seq<Field>, t: nat): (r: Option<Entry>)
    ensures r.None? <==> forall j :: 0 <= j < |fs| ==> fs[j].tag != t
    ensures r.Some? ==> exists j :: (0 <= j < |fs| && fs[j] == Field(t, r.value) &&
      forall k :: j < k < |fs| ==> fs[k].tag != t)
  {
    if fs == [] then None
    else
      var init := fs[..|fs| - 1];
      assert forall j :: 0 <= j < |init| ==> init[j] == fs[j];
      if fs[|fs| - 1].tag == t then Some(fs[|fs| - 1].entry) else LastFor(init, t)
  }

  /** Inserting `fs` in order leaves each tag mapped to its last entry. */
  lemma {:induction false} BuildDictLookup(fs: seq<Field>, t: nat)
    ensures Lookup(BuildDict(fs), t) == LastFor(fs, t)
  {
    if fs != [] {
      BuildDictLookup(fs[..|fs| - 1], t);
      InsertLookup(BuildDict(fs[..|fs| - 1]), fs[|fs| - 1], t);
    }
  }

  /** A later entry with the same tag replaces an earlier one: whatever a
      tag maps to came from the last entry carrying that tag. */
  lemma BuildDictLastWins(fs: seq<Field>, t: nat, en: Entry)
    ensures Lookup(BuildDict(fs), t) == Some(en) <==>
      exists j :: 0 <= j < |fs| && fs[j] == Field(t, en) && forall k :: j < k < |fs| ==> fs[k].tag != t
  {
    BuildDictLookup(fs, t);
  }

  /** A tag is present exactly when some entry carries it. */
  lemma BuildDictHasTag(fs: seq<Field>, t: nat)
    ensures HasTag(BuildDict(fs), t) <==> exists j :: 0 <= j < |fs| && fs[j].tag == t
  {
    BuildDictLookup(fs, t);
  }

  /** Whether `_ifdread` decodes an entry in place: its type is in the table
      and its `width * count` bytes fit in the 4-byte slot. */
  predicate Inlined(typ: nat, count: nat)
  {
    TypeOf(typ).Some? && TypeOf(typ).value.width * count <= 4
  }

  /** The slot boundary: four BYTEs or two SHORTs sit in the slot, five
      BYTEs or one RATIONAL do not. */
  lemma InlineBoundary()
    ensures Inlined(1, 4) && Inlined(3, 2) && Inlined(4, 1)
    ensures !Inlined(1, 5) && !Inlined(3, 3) && !Inlined(5, 1)
    ensures forall c: nat :: !Inlined(13, c)
  {
  }

  /** The value slot of an entry from the bytes after its 8-byte header, 4
      or fewer. A value that fits is decoded in place: a numeric one must be
      complete, an ASCII or UNDEFINED one is just cut short. Otherwise the
      slot is a 4-byte offset, which must be complete. */
  function ParseSlot(e: Endian, typ: nat, count: nat, bs: seq<byte>): (r: Result<Slot>)
    requires |bs| <= 4
    ensures r.Err? ==> r.error == ShortRead
    ensures |bs| == 4 ==> r.Ok?
    ensures r.Ok? <==>
      if Inlined(typ, count) then TypeOf(typ).value.format.None? || TypeOf(typ).value.width * count <= |bs|
      else |bs| == 4
    ensures r.Ok? ==> (r.value.Inline? <==> Inlined(typ, count))
    ensures r.Ok? && r.value.Inline? && TypeOf(typ).value.format.None? ==>
      r.value.value == Bytes(bs[..if count <= |bs| then count else |bs|])
    ensures r.Ok? && r.value.Pointer? ==> r.value.offset < Pow256(4)
    ensures r.Ok? && r.value.Inline? ==>
      match TypeOf(typ).value.format
      case Some(f) => r.value.value.Numbers? && |r.value.value.ns| == |f| * count
      case None => r.value.value.Bytes? && |r.value.value.bs| <= count
  {
    if Inlined(typ, count) then
      var t := TypeOf(typ).value;
      var size := t.width * count;
      var raw := bs[..if size <= |bs| then size else |bs|];
      if t.format.Some? then
        RepeatSize(t.format.value, count);
        var v :- Decode(e, t, count, raw);
        Ok(Inline(v))
      else
        Ok(Inline(Bytes(raw)))
    else if |bs| < 4 then Err(ShortRead)
    else Ok(Pointer(DecodeUnsigned(e, bs)))
  }

  /** A slot cut short by the end of the file: an in-place ASCII value
      keeps the bytes there, an in-place SHORT pair fails, and so does an
      offset. */
  lemma TruncatedSlotExamples(e: Endian)
    ensures ParseSlot(e, Ascii, 3, [65, 66]) == Ok(Inline(Bytes([65, 66])))
    ensures ParseSlot(e, 3, 2, [1, 2]) == Err(ShortRead)
    ensures ParseSlot(e, 4, 2, [1, 2, 3]) == Err(ShortRead)
  {
    assert [65, 66][..2] == [65, 66];
  }

  /** One entry from the bytes `fh.read(12)` returned, 12 or fewer: tag,
      type and count, then the slot. Fewer than 8 bytes is a short read. */
  function ParseEntry(e: Endian, d: seq<byte>): (r: Result<Field>)
    requires |d| <= EntrySize
    ensures r.Err? ==> r.error == ShortRead
    ensures |d| == EntrySize ==> r.Ok?
    ensures r.Ok? ==> |d| >= 8
    ensures r.Ok? ==> r.value.tag < Pow256(2) && r.value.entry.typ < Pow256(2) && r.value.entry.count < Pow256(4)
    ensures r.Ok? ==> (r.value.entry.slot.Inline? <==> Inlined(r.value.entry.typ, r.value.entry.count))
    ensures |d| >= 8 ==>
      var tag := DecodeUnsigned(e, d[0..2]);
      var typ := DecodeUnsigned(e, d[2..4]);
      var count := DecodeUnsigned(e, d[4..8]);
      var slot := ParseSlot(e, typ, count, d[8..]);
      r == if slot.Err? then Err(slot.error) else Ok(Field(tag, Entry(typ, count, slot.value)))
  {
    if |d| < 8 then Err(ShortRead)
    else
      var tag := DecodeUnsigned(e, d[0..2]);
      var typ := DecodeUnsigned(e, d[2..4]);
      var count := DecodeUnsigned(e, d[4..8]);
      var slot :- ParseSlot(e, typ, count, d[8..]);
      Ok(Field(tag, Entry(typ, count, slot)))
  }

  /** The entry at `pos`: `fh.read(12)` there, then `ParseEntry`. It always
      succeeds when 12 bytes remain, and never when fewer than 8 do. */
  function ReadEntry(data: seq<byte>, e: Endian, pos: nat): (r: Result<Field>)
    ensures r.Err? ==> r.error == ShortRead
    ensures pos + EntrySize <= |data| ==> r.Ok?
    ensures r.Ok? ==> pos + 8 <= |data|
    ensures r.Ok? ==> r.value.tag < Pow256(2) && r.value.entry.typ < Pow256(2) && r.value.entry.count < Pow256(4)
    ensures r.Ok? ==> (r.value.entry.slot.Inline? <==> Inlined(r.value.entry.typ, r.value.entry.count))
  {
    ParseEntry(e, Read(data, pos, EntrySize))
  }

  /** How an entry is taken apart: tag, type and count from its first 8
      bytes, the slot from what is left of its 12, which near the end of
      the file is fewer than 4 bytes. */
  lemma ReadEntryBytes(data: seq<byte>, e: Endian, pos: nat)
    requires pos + 8 <= |data|
    ensures var end := if pos + EntrySize <= |data| then pos + EntrySize else |data|;
      var tag := DecodeUnsigned(e, data[pos..pos + 2]);
      var typ := DecodeUnsigned(e, data[pos + 2..pos + 4]);
      var count := DecodeUnsigned(e, data[pos + 4..pos + 8]);
      var slot := ParseSlot(e, typ, count, data[pos + 8..end]);
      ReadEntry(data, e, pos) == if slot.Err? then Err(slot.error) else Ok(Field(tag, Entry(typ, count, slot.value)))
  {
    var d := Read(data, pos, EntrySize);
    var end := if pos + EntrySize <= |data| then pos + EntrySize else |data|;
    assert d == data[pos..end];
    assert d[0..2] == data[pos..pos + 2] && d[2..4] == data[pos + 2..pos + 4];
    assert d[4..8] == data[pos + 4..pos + 8] && d[8..] == data[pos + 8..end];
  }

  /** The 12 bytes a writer emits for one entry with the given 4-byte slot. */
  function EncodeEntry(e: Endian, tag: nat, typ: nat, count: nat, slot: seq<byte>): (bs: seq<byte>)
    requires tag < Pow256(2) && typ < Pow256(2) && count < Pow256(4) && |slot| == 4
    ensures |bs| == EntrySize
  {
    EncodeUnsigned(e, tag, 2) + EncodeUnsigned(e, typ, 2) + EncodeUnsigned(e, count, 4) + slot
  }

  /** The header fields of an encoded entry decode to the ones written. */
  lemma EntryHeader(e: Endian, tag: nat, typ: nat, count: nat, slot: seq<byte>)
    requires tag < Pow256(2) && typ < Pow256(2) && count < Pow256(4) && |slot| == 4
    ensures var d := EncodeEntry(e, tag, typ, count, slot);
      && DecodeUnsigned(e, d[0..2]) == tag
      && DecodeUnsigned(e, d[2..4]) == typ
      && DecodeUnsigned(e, d[4..8]) == count
      && d[8..] == slot
  {
    var d := EncodeEntry(e, tag, typ, count, slot);
    var a := EncodeUnsigned(e, tag, 2);
    var b := EncodeUnsigned(e, typ, 2);
    var c := EncodeUnsigned(e, count, 4);
    assert d == a + b + c + slot;
    assert d[0..2] == a && d[2..4] == b && d[4..8] == c && d[8..] == slot;
  }

  /** An encoded entry parses back to its header and to what its slot parses to. */
  lemma EncodedEntry(e: Endian, tag: nat, typ: nat, count: nat, slot: seq<byte>)
    requires tag < Pow256(2) && typ < Pow256(2) && count < Pow256(4) && |slot| == 4
    ensures ParseSlot(e, typ, count, slot).Ok?
    ensures ParseEntry(e, EncodeEntry(e, tag, typ, count, slot))
      == Ok(Field(tag, Entry(typ, count, ParseSlot(e, typ, count, slot).value)))
  {
    EntryHeader(e, tag, typ, count, slot);
  }

  /** A slot too small for its value parses back as the offset written. */
  lemma PointerSlotRoundTrip(e: Endian, typ: nat, count: nat, offset: nat)
    requires offset < Pow256(4) && !Inlined(typ, count)
    ensures ParseSlot(e, typ, count, EncodeUnsigned(e, offset, 4)) == Ok(Pointer(offset))
  {
  }

  /** An in-place numeric slot parses back as the numbers packed into it,
      whatever padding follows them. */
  lemma NumericSlotRoundTrip(e: Endian, typ: nat, count: nat, ns: seq<Number>, pad: seq<byte>)
    requires Inlined(typ, count) && TypeOf(typ).value.format.Some?
    requires var f := Repeat(TypeOf(typ).value.format.value, count);
      |ns| == |f| && forall k :: 0 <= k < |f| ==> Fits(f[k], ns[k])
    requires |Pack(e, Repeat(TypeOf(typ).value.format.value, count), ns)| + |pad| == 4
    ensures ParseSlot(e, typ, count, Pack(e, Repeat(TypeOf(typ).value.format.value, count), ns) + pad)
      == Ok(Inline(Numbers(ns)))
  {
    var t := TypeOf(typ).value;
    var packed := Pack(e, Repeat(t.format.value, count), ns);
    var bs := packed + pad;
    var size := t.width * count;
    assert |packed| == size by {
      RepeatSize(t.format.value, count);
    }
    assert bs[..size] == packed;
    DecodePack(e, t, count, ns);
  }

  /** An in-place ASCII or UNDEFINED slot parses back as the bytes written. */
  lemma RawSlotRoundTrip(e: Endian, typ: nat, bs: seq<byte>, pad: seq<byte>)
    requires (typ == Ascii || typ == 7) && |bs| + |pad| == 4
    ensures ParseSlot(e, typ, |bs|, bs + pad) == Ok(Inline(Bytes(bs)))
  {
    assert (bs + pad)[..|bs|] == bs;
  }

  /** An entry whose value does not fit in place parses back as the offset written. */
  lemma PointerEntryRoundTrip(e: Endian, tag: nat, typ: nat, count: nat, offset: nat)
    requires tag < Pow256(2) && typ < Pow256(2) && count < Pow256(4) && offset < Pow256(4)
    requires !Inlined(typ, count)
    ensures ParseEntry(e, EncodeEntry(e, tag, typ, count, EncodeUnsigned(e, offset, 4)))
      == Ok(Field(tag, Entry(typ, count, Pointer(offset))))
  {
    EncodedEntry(e, tag, typ, count, EncodeUnsigned(e, offset, 4));
    PointerSlotRoundTrip(e, typ, count, offset);
  }

  /** An in-place numeric entry parses back as the numbers packed into its
      slot, whatever padding follows them. */
  lemma NumericEntryRoundTrip(e: Endian, tag: nat, typ: nat, count: nat, ns: seq<Number>, pad: seq<byte>)
    requires tag < Pow256(2) && typ < Pow256(2) && count < Pow256(4)
    requires Inlined(typ, count) && TypeOf(typ).value.format.Some?
    requires var f := Repeat(TypeOf(typ).value.format.value, count);
      |ns| == |f| && forall k :: 0 <= k < |f| ==> Fits(f[k], ns[k])
    requires |Pack(e, Repeat(TypeOf(typ).value.format.value, count), ns)| + |pad| == 4
    ensures ParseEntry(e, EncodeEntry(e, tag, typ, count, Pack(e, Repeat(TypeOf(typ).value.format.value, count), ns) + pad))
      == Ok(Field(tag, Entry(typ, count, Inline(Numbers(ns)))))
  {
    var slot := Pack(e, Repeat(TypeOf(typ).value.format.value, count), ns) + pad;
    EncodedEntry(e, tag, typ, count, slot);
    NumericSlotRoundTrip(e, typ, count, ns, pad);
  }

  /** An in-place ASCII or UNDEFINED entry parses back as the bytes written. */
  lemma RawEntryRoundTrip(e: Endian, tag: nat, typ: nat, bs: seq<byte>, pad: seq<byte>)
    requires tag < Pow256(2) && (typ == Ascii || typ == 7)
    requires |bs| + |pad| == 4
    ensures ParseEntry(e, EncodeEntry(e, tag, typ, |bs|, bs + pad)) == Ok(Field(tag, Entry(typ, |bs|, Inline(Bytes(bs)))))
  {
    EncodedEntry(e, tag, typ, |bs|, bs + pad);
    RawSlotRoundTrip(e, typ, bs, pad);
  }

  /** Position of the `i`-th entry of the directory at `offset`. */
  function EntryPos(offset: nat, i: nat): nat
  {
    offset + 2 + EntrySize * i
  }

  /** The first `count` entries of the directory at `offset`, in file
      order. Every failure is the same short read, so which entry fails
      first does not show in the result. */
  function ReadEntries(data: seq<byte>, e: Endian, offset: nat, count: nat): (r: Result<seq<Field>>)
    ensures r.Ok? <==> forall i :: 0 <= i < count ==> ReadEntry(data, e, EntryPos(offset, i)).Ok?
    ensures r.Ok? ==> (|r.value| == count &&
      forall i :: 0 <= i < count ==> ReadEntry(data, e, EntryPos(offset, i)) == Ok(r.value[i]))
    ensures r.Err? ==> r.error == ShortRead
  {
    if count == 0 then Ok([])
    else
      var init :- ReadEntries(data, e, offset, count - 1);
      var f :- ReadEntry(data, e, EntryPos(offset, count - 1));
      var r := init + [f];
      assert forall i :: 0 <= i < count - 1 ==> r[i] == init[i];
      Ok(r)
  }

  /** What `_ifdread` returns, and where the file position is afterwards. */
  datatype DirRead = DirRead(ifd: Ifd, end: nat)

  /** Number of entries the directory at `offset` declares. */
  function EntryCount(data: seq<byte>, e: Endian, offset: nat): nat
    requires offset + 2 <= |data|
  {
    DecodeUnsigned(e, data[offset..offset + 2])
  }

  /** `_ifdread(offset)`: reads the count, then every entry, into a dict.
      Exactly `2 + 12 * count` bytes are consumed. */
  function ReadIfd(data: seq<byte>, e: Endian, offset: nat): (r: Result<DirRead>)
    ensures r.Ok? <==> (offset + 2 <= |data| &&
      forall i :: 0 <= i < EntryCount(data, e, offset) ==> ReadEntry(data, e, EntryPos(offset, i)).Ok?)
    ensures r.Err? ==> r.error == ShortRead
    ensures r.Ok? ==> r.value.end == EntryPos(offset, EntryCount(data, e, offset))
    ensures r.Ok? ==> UniqueTags(r.value.ifd) && |r.value.ifd| <= EntryCount(data, e, offset)
  {
    var count :- ReadUnsigned(data, e, offset, 2);
    assert count == EntryCount(data, e, offset);
    var fields :- ReadEntries(data, e, offset, count);
    Ok(DirRead(BuildDict(fields), EntryPos(offset, count)))
  }

  /** The fields of a directory read from the file are its entries, in order. */
  lemma ReadIfdFields(data: seq<byte>, e: Endian, offset: nat)
    requires ReadIfd(data, e, offset).Ok?
    ensures var fields := ReadEntries(data, e, offset, EntryCount(data, e, offset));
      && fields.Ok?
      && ReadIfd(data, e, offset).value.ifd == BuildDict(fields.value)
  {
  }

  /** What a tag maps to is the last entry on file carrying it. */
  lemma ReadIfdLookupLast(data: seq<byte>, e: Endian, offset: nat, t: nat, en: Entry)
    requires ReadIfd(data, e, offset).Ok?
    requires Lookup(ReadIfd(data, e, offset).value.ifd, t) == Some(en)
    ensures var n := EntryCount(data, e, offset);
      exists i :: 0 <= i < n && ReadEntry(data, e, EntryPos(offset, i)) == Ok(Field(t, en)) &&
        forall k :: i < k < n ==> ReadEntry(data, e, EntryPos(offset, k)).value.tag != t
  {
    var n := EntryCount(data, e, offset);
    ReadIfdFields(data, e, offset);
    var fields := ReadEntries(data, e, offset, n).value;
    BuildDictLastWins(fields, t, en);
    var j :| 0 <= j < |fields| && fields[j] == Field(t, en) && forall k :: j < k < |fields| ==> fields[k].tag != t;
    assert ReadEntry(data, e, EntryPos(offset, j)) == Ok(Field(t, en));
    forall k | j < k < n ensures ReadEntry(data, e, EntryPos(offset, k)).value.tag != t {
      assert ReadEntry(data, e, EntryPos(offset, k)) == Ok(fields[k]);
    }
  }

  /** The last entry on file carrying a tag is what the tag maps to. */
  lemma ReadIfdLastLookup(data: seq<byte>, e: Endian, offset: nat, t: nat, en: Entry, i: nat)
    requires ReadIfd(data, e, offset).Ok?
    requires var n := EntryCount(data, e, offset);
      && i < n && ReadEntry(data, e, EntryPos(offset, i)) == Ok(Field(t, en))
      && forall k :: i < k < n ==> ReadEntry(data, e, EntryPos(offset, k)).value.tag != t
    ensures Lookup(ReadIfd(data, e, offset).value.ifd, t) == Some(en)
  {
    var n := EntryCount(data, e, offset);
    ReadIfdFields(data, e, offset);
    var fields := ReadEntries(data, e, offset, n).value;
    assert fields[i] == Field(t, en);
    forall k | i < k < |fields| ensures fields[k].tag != t {
      assert ReadEntry(data, e, EntryPos(offset, k)) == Ok(fields[k]);
    }
    BuildDictLastWins(fields, t, en);
  }

  /** A tag maps to an entry exactly when the last entry carrying that tag
      in the directory on file is that entry. */
  lemma ReadIfdLookup(data: seq<byte>, e: Endian, offset: nat, t: nat, en: Entry)
    requires ReadIfd(data, e, offset).Ok?
    ensures var n := EntryCount(data, e, offset);
      Lookup(ReadIfd(data, e, offset).value.ifd, t) == Some(en) <==>
      exists i :: 0 <= i < n && ReadEntry(data, e, EntryPos(offset, i)) == Ok(Field(t, en)) &&
        forall k :: i < k < n ==> ReadEntry(data, e, EntryPos(offset, k)).value.tag != t
  {
    var n := EntryCount(data, e, offset);
    if Lookup(ReadIfd(data, e, offset).value.ifd, t) == Some(en) {
      ReadIfdLookupLast(data, e, offset, t, en);
    }
    forall i | 0 <= i < n && ReadEntry(data, e, EntryPos(offset, i)) == Ok(Field(t, en)) &&
        (forall k :: i < k < n ==> ReadEntry(data, e, EntryPos(offset, k)).value.tag != t)
      ensures Lookup(ReadIfd(data, e, offset).value.ifd, t) == Some(en)
    {
      ReadIfdLastLookup(data, e, offset, t, en, i);
    }
  }
}
