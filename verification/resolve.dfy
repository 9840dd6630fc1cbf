/** Value resolution, `TIFF.ifdget`: look a tag up, follow its offset when
    the value is not stored in place, unpack it, and trim ASCII. */
module Resolve {
  import opened Results
  import opened Bytes
  import opened FieldTypes
  import opened Directory

  /** The value a slot stands for: the in-place value itself, or the
      `width * count` bytes read at the offset and decoded. An offset read
      that hits the end of the file yields fewer bytes, which only numeric
      types reject. */
  function Fetch(data: seq<byte>, e: Endian, t: FieldType, count: nat, slot: Slot): Result<Value>
  {
    match slot
    case Inline(v) => Ok(v)
    case Pointer(o) => Decode(e, t, count, Read(data, o, t.width * count))
  }

  /** `ifdget(ifd, tag)`: `None` for an absent tag or a type outside the
      table; otherwise the value, with trailing NULs removed for ASCII. */
  function Get(data: seq<byte>, e: Endian, ifd: Ifd, tag: nat): (r: Result<Option<Value>>)
    ensures (r.Ok? && r.value.None?) <==> (Lookup(ifd, tag).None? || TypeOf(Lookup(ifd, tag).value.typ).None?)
    ensures r.Ok? && r.value.Some? && Lookup(ifd, tag).value.typ == Ascii ==>
      r.value.value.Bytes? && (|r.value.value.bs| == 0 || r.value.value.bs[|r.value.value.bs| - 1] != 0)
    ensures r.Err? ==> r.error == ShortRead || r.error == NoStrip
  {
    match Lookup(ifd, tag)
    case None => Ok(None)
    case Some(en) =>
      match TypeOf(en.typ)
      case None => Ok(None)
      case Some(t) =>
        var v :- Fetch(data, e, t, en.count, en.slot);
        if en.typ == Ascii then
          match v
          case Bytes(b) => Ok(Some(Bytes(StripTrailingNul(b))))
          case Numbers(_) => Err(NoStrip)
        else Ok(Some(v))
  }

  /** A numeric entry stored at an offset resolves exactly when its
      `width * count` bytes lie inside the file, and then to the numbers
      that pack back into those bytes. */
  lemma ResolveNumericPointer(data: seq<byte>, e: Endian, ifd: Ifd, tag: nat)
    requires Lookup(ifd, tag).Some? && Lookup(ifd, tag).value.slot.Pointer?
    requires TypeOf(Lookup(ifd, tag).value.typ).Some? && TypeOf(Lookup(ifd, tag).value.typ).value.format.Some?
    requires !Inlined(Lookup(ifd, tag).value.typ, Lookup(ifd, tag).value.count)
    ensures var en := Lookup(ifd, tag).value;
      var t := TypeOf(en.typ).value;
      var o := en.slot.offset;
      var size := t.width * en.count;
      var f := Repeat(t.format.value, en.count);
      var r := Get(data, e, ifd, tag);
      && (r.Ok? <==> o + size <= |data|)
      && (r.Ok? ==> r.value.Some? && r.value.value.Numbers? && |r.value.value.ns| == |f| &&
                    Pack(e, f, r.value.value.ns) == data[o..o + size])
  {
    var en := Lookup(ifd, tag).value;
    var t := TypeOf(en.typ).value;
    var o := en.slot.offset;
    var size := t.width * en.count;
    var f := Repeat(t.format.value, en.count);
    RepeatSize(t.format.value, en.count);
    var raw := Read(data, o, size);
    if o + size <= |data| {
      assert raw == data[o..o + size];
      PackUnpack(e, f, raw);
    } else {
      assert |raw| < size;
    }
  }

  /** ASCII and UNDEFINED stored at an offset never fail: they resolve to
      the bytes available there, cut short by the end of the file, and for
      ASCII without its trailing NULs. */
  lemma ResolveRawPointer(data: seq<byte>, e: Endian, ifd: Ifd, tag: nat)
    requires Lookup(ifd, tag).Some? && Lookup(ifd, tag).value.slot.Pointer?
    requires Lookup(ifd, tag).value.typ == Ascii || Lookup(ifd, tag).value.typ == 7
    ensures var en := Lookup(ifd, tag).value;
      var raw := Read(data, en.slot.offset, en.count);
      var r := Get(data, e, ifd, tag);
      && r.Ok? && r.value.Some? && r.value.value.Bytes?
      && (en.typ == 7 ==> r.value.value.bs == raw)
      && (en.typ == Ascii ==> (r.value.value.bs <= raw &&
            forall i :: |r.value.value.bs| <= i < |raw| ==> raw[i] == 0))
  {
  }

  /** An in-place value resolves to itself, except that ASCII loses its
      trailing NULs. */
  lemma ResolveInline(data: seq<byte>, e: Endian, ifd: Ifd, tag: nat)
    requires Lookup(ifd, tag).Some? && Lookup(ifd, tag).value.slot.Inline?
    requires TypeOf(Lookup(ifd, tag).value.typ).Some?
    requires Lookup(ifd, tag).value.typ == Ascii ==> Lookup(ifd, tag).value.slot.value.Bytes?
    ensures var en := Lookup(ifd, tag).value;
      var v := en.slot.value;
      var r := Get(data, e, ifd, tag);
      && r.Ok? && r.value.Some?
      && (en.typ != Ascii ==> r.value.value == v)
      && (en.typ == Ascii ==> (r.value.value.Bytes? && r.value.value.bs <= v.bs &&
            forall i :: |r.value.value.bs| <= i < |v.bs| ==> v.bs[i] == 0))
  {
  }
}
