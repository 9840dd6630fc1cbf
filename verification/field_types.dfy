/** The TIFF field-type table (`TIFF.types`) and `struct.unpack` over the
    format letters it uses. */
module FieldTypes {
  import opened Results
  import opened Bytes

  /** The `struct` format letters of the table: B b H h I i f d. */
  datatype Scalar = UByte | SByte | UShort | SShort | ULong | SLong | Float | Double

  /** One unpacked element. A FLOAT or DOUBLE is kept as its raw bit
      pattern, a word that is never equal to an integer. */
  datatype Number = Int(i: int) | FloatBits(bits: nat)

  /** A resolved value: a tuple of numbers, or a byte string. */
  datatype Value = Numbers(ns: seq<Number>) | Bytes(bs: seq<byte>)

  /** A table row: element width in bytes and the unpack format of one
      element; `None` for ASCII and UNDEFINED, which stay raw bytes. */
  datatype FieldType = FieldType(width: nat, format: Option<seq<Scalar>>)

  /** ASCII, the only type whose resolved value loses its trailing NULs. */
  const Ascii := 2

  function ScalarSize(s: Scalar): nat
  {
    match s
    case UByte | SByte => 1
    case UShort | SShort => 2
    case ULong | SLong | Float => 4
    case Double => 8
  }

  function IsSigned(s: Scalar): bool
  {
    s == SByte || s == SShort || s == SLong
  }

  /** `struct.calcsize` with standard sizes. */
  function FormatSize(f: seq<Scalar>): nat
  {
    if f == [] then 0 else ScalarSize(f[0]) + FormatSize(f[1..])
  }

  /** `fmt * vc`: the format repeated once per element. */
  function Repeat(f: seq<Scalar>, n: nat): (r: seq<Scalar>)
    ensures |r| == |f| * n
  {
    if n == 0 then [] else
      var rest := Repeat(f, n - 1);
      assert |f| * n == |f| + |f| * (n - 1);
      f + rest
  }

  lemma {:induction false} RepeatSize(f: seq<Scalar>, n: nat)
    ensures FormatSize(Repeat(f, n)) == FormatSize(f) * n
  {
    if n > 0 {
      RepeatSize(f, n - 1);
      ConcatSize(f, Repeat(f, n - 1));
      assert FormatSize(f) * n == FormatSize(f) + FormatSize(f) * (n - 1);
    }
  }

  lemma {:induction false} ConcatSize(f: seq<Scalar>, g: seq<Scalar>)
    ensures FormatSize(f + g) == FormatSize(f) + FormatSize(g)
  {
    if f != [] {
      assert (f + g)[0] == f[0];
      assert (f + g)[1..] == f[1..] + g;
      ConcatSize(f[1..], g);
      assert FormatSize(f + g) == ScalarSize(f[0]) + FormatSize(f[1..] + g);
    } else {
      assert f + g == g;
    }
  }

  /** The type table, with code 13 (IFD) commented out of it as written. */
  function TypeOf(code: int): (t: Option<FieldType>)
    ensures t.Some? <==> 1 <= code <= 12
    ensures t.Some? ==> t.value.width > 0
    ensures t.Some? && t.value.format.Some? ==> FormatSize(t.value.format.value) == t.value.width
    ensures t.Some? && t.value.format.None? <==> code == Ascii || code == 7
  {
    match code
    case 1 => Some(FieldType(1, Some([UByte])))
    case 2 => Some(FieldType(1, None))
    case 3 => Some(FieldType(2, Some([UShort])))
    case 4 => Some(FieldType(4, Some([ULong])))
    case 5 => Some(FieldType(8, Some([ULong, ULong])))
    case 6 => Some(FieldType(1, Some([SByte])))
    case 7 => Some(FieldType(1, None))
    case 8 => Some(FieldType(2, Some([SShort])))
    case 9 => Some(FieldType(4, Some([SLong])))
    case 10 => Some(FieldType(8, Some([SLong, SLong])))
    case 11 => Some(FieldType(4, Some([Float])))
    case 12 => Some(FieldType(8, Some([Double])))
    case _ => None
  }

  /** `x` is a value that format letter `s` can produce. */
  predicate Fits(s: Scalar, x: Number)
  {
    match s
    case Float | Double => x.FloatBits? && x.bits < Pow256(ScalarSize(s))
    case _ =>
      x.Int? &&
      if IsSigned(s) then -(Pow256(ScalarSize(s)) / 2) <= x.i < Pow256(ScalarSize(s)) / 2
      else 0 <= x.i < Pow256(ScalarSize(s))
  }

  /** One element of `struct.unpack`: the field's bytes read in the file's
      byte order, as an unsigned, two's-complement or IEEE bit pattern. */
  function DecodeScalar(e: Endian, s: Scalar, bs: seq<byte>): (x: Number)
    requires |bs| == ScalarSize(s)
    ensures Fits(s, x)
    ensures x.Int? && x.i >= 0 ==> x.i == DecodeUnsigned(e, bs)
    ensures x.Int? && x.i < 0 ==> x.i + Pow256(|bs|) == DecodeUnsigned(e, bs)
    ensures x.FloatBits? ==> x.bits == DecodeUnsigned(e, bs)
  {
    match s
    case UByte | UShort | ULong => Int(DecodeUnsigned(e, bs))
    case SByte | SShort | SLong => Int(DecodeSigned(e, bs))
    case Float | Double => FloatBits(DecodeUnsigned(e, bs))
  }

  function EncodeScalar(e: Endian, s: Scalar, x: Number): (bs: seq<byte>)
    requires Fits(s, x)
    ensures |bs| == ScalarSize(s)
    ensures DecodeScalar(e, s, bs) == x
  {
    match s
    case UByte | UShort | ULong => EncodeUnsigned(e, x.i, ScalarSize(s))
    case SByte | SShort | SLong => EncodeSigned(e, x.i, ScalarSize(s))
    case Float | Double => EncodeUnsigned(e, x.bits, ScalarSize(s))
  }

  function DecodeScalars(e: Endian, f: seq<Scalar>, bs: seq<byte>): (xs: seq<Number>)
    requires |bs| == FormatSize(f)
    ensures |xs| == |f|
    ensures forall k :: 0 <= k < |f| ==> Fits(f[k], xs[k])
  {
    if f == [] then []
    else
      var n := ScalarSize(f[0]);
      [DecodeScalar(e, f[0], bs[..n])] + DecodeScalars(e, f[1..], bs[n..])
  }

  /** `struct.unpack(endian + f, bs)`: fails unless `bs` has exactly the
      size the format asks for, and then yields one number per letter. */
  function Unpack(e: Endian, f: seq<Scalar>, bs: seq<byte>): (r: Result<seq<Number>>)
    ensures r.Ok? <==> |bs| == FormatSize(f)
    ensures r.Err? ==> r.error == ShortRead
    ensures r.Ok? ==> |r.value| == |f| && forall k :: 0 <= k < |f| ==> Fits(f[k], r.value[k])
  {
    if |bs| != FormatSize(f) then Err(ShortRead) else Ok(DecodeScalars(e, f, bs))
  }

  /** `struct.pack(endian + f, *xs)`, the inverse of `Unpack`. */
  function Pack(e: Endian, f: seq<Scalar>, xs: seq<Number>): (bs: seq<byte>)
    requires |xs| == |f| && forall k :: 0 <= k < |f| ==> Fits(f[k], xs[k])
    ensures |bs| == FormatSize(f)
  {
    if f == [] then [] else EncodeScalar(e, f[0], xs[0]) + Pack(e, f[1..], xs[1..])
  }

  /** `DecodeScalars` takes the first element off the front of the bytes. */
  lemma DecodeScalarsCons(e: Endian, f: seq<Scalar>, head: seq<byte>, tail: seq<byte>)
    requires f != [] && |head| == ScalarSize(f[0]) && |tail| == FormatSize(f[1..])
    ensures DecodeScalars(e, f, head + tail) == [DecodeScalar(e, f[0], head)] + DecodeScalars(e, f[1..], tail)
  {
    var bs := head + tail;
    assert bs[..|head|] == head;
    assert bs[|head|..] == tail;
  }

  /** Unpacking what was packed gives the same numbers back. */
  lemma {:induction false} UnpackPack(e: Endian, f: seq<Scalar>, xs: seq<Number>)
    requires |xs| == |f| && forall k :: 0 <= k < |f| ==> Fits(f[k], xs[k])
    ensures Unpack(e, f, Pack(e, f, xs)) == Ok(xs)
  {
    if f != [] {
      var head := EncodeScalar(e, f[0], xs[0]);
      var tail := Pack(e, f[1..], xs[1..]);
      assert Pack(e, f, xs) == head + tail;
      UnpackPack(e, f[1..], xs[1..]);
      DecodeScalarsCons(e, f, head, tail);
      assert xs == [xs[0]] + xs[1..];
    }
  }

  /** Field values follow the file's byte order: a SHORT 5 is `05 00` in a
      little-endian file and `00 05` in a big-endian one. */
  lemma UnpackByteOrderExamples()
    ensures Unpack(Little, [UShort], [5, 0]) == Ok([Int(5)])
    ensures Unpack(Big, [UShort], [0, 5]) == Ok([Int(5)])
    ensures Unpack(Little, [UShort], [0, 5]) == Ok([Int(1280)])
  {
    ByteOrderExamples();
    assert DecodeUnsigned(Little, [5, 0]) == 5;
    assert DecodeUnsigned(Big, [0, 5]) == 5;
    assert DecodeUnsigned(Little, [0, 5]) == 1280;
    assert DecodeScalar(Little, UShort, [5, 0]) == Int(5);
    assert DecodeScalar(Little, UShort, [0, 5]) == Int(1280);
    DecodeScalarsCons(Little, [UShort], [5, 0], []);
    DecodeScalarsCons(Big, [UShort], [0, 5], []);
    DecodeScalarsCons(Little, [UShort], [0, 5], []);
    assert [5, 0] + [] == [5, 0] && [0, 5] + [] == [0, 5];
    assert DecodeScalars(Little, [UShort], [5, 0]) == [Int(5)];
    assert DecodeScalars(Little, [UShort], [0, 5]) == [Int(1280)];
  }

  /** Re-encoding a decoded element gives the same bytes. */
  lemma EncodeDecodeScalar(e: Endian, s: Scalar, bs: seq<byte>)
    requires |bs| == ScalarSize(s)
    ensures EncodeScalar(e, s, DecodeScalar(e, s, bs)) == bs
  {
    match s
    case UByte => EncodeDecode(e, bs);
    case UShort => EncodeDecode(e, bs);
    case ULong => EncodeDecode(e, bs);
    case SByte => SignedEncodeDecode(e, bs);
    case SShort => SignedEncodeDecode(e, bs);
    case SLong => SignedEncodeDecode(e, bs);
    case Float => EncodeDecode(e, bs);
    case Double => EncodeDecode(e, bs);
  }

  /** Packing what was unpacked gives the same bytes back: unpacking loses nothing. */
  lemma {:induction false} PackUnpack(e: Endian, f: seq<Scalar>, bs: seq<byte>)
    requires Unpack(e, f, bs).Ok?
    ensures Pack(e, f, Unpack(e, f, bs).value) == bs
  {
    if f != [] {
      var n := ScalarSize(f[0]);
      var head, tail := bs[..n], bs[n..];
      assert bs == head + tail;
      var x := DecodeScalar(e, f[0], head);
      var rest := DecodeScalars(e, f[1..], tail);
      var xs := [x] + rest;
      DecodeScalarsCons(e, f, head, tail);
      assert Unpack(e, f, bs).value == xs;
      assert Unpack(e, f[1..], tail) == Ok(rest);
      assert xs[0] == x && xs[1..] == rest;
      EncodeDecodeScalar(e, f[0], head);
      PackUnpack(e, f[1..], tail);
      assert Pack(e, f, xs) == EncodeScalar(e, f[0], x) + Pack(e, f[1..], rest);
    }
  }

  /** Decoding raw field bytes with a table row (the `if fmt:` step of both
      the inline and the offset path): tuples for numeric types, the bytes
      themselves for ASCII and UNDEFINED. */
  function Decode(e: Endian, t: FieldType, count: nat, raw: seq<byte>): (r: Result<Value>)
    ensures t.format.None? ==> r == Ok(Bytes(raw))
    ensures t.format.Some? ==> (r.Ok? <==> |raw| == FormatSize(t.format.value) * count)
    ensures t.format.Some? && r.Ok? ==> r.value.Numbers? && |r.value.ns| == |t.format.value| * count
    ensures r.Err? ==> r.error == ShortRead
  {
    match t.format
    case None => Ok(Bytes(raw))
    case Some(f) =>
      RepeatSize(f, count);
      var ns :- Unpack(e, Repeat(f, count), raw);
      Ok(Numbers(ns))
  }

  /** Packed numbers of a numeric type decode back to themselves. */
  lemma DecodePack(e: Endian, t: FieldType, count: nat, ns: seq<Number>)
    requires t.format.Some?
    requires var f := Repeat(t.format.value, count);
      |ns| == |f| && forall k :: 0 <= k < |f| ==> Fits(f[k], ns[k])
    ensures Decode(e, t, count, Pack(e, Repeat(t.format.value, count), ns)) == Ok(Numbers(ns))
  {
    UnpackPack(e, Repeat(t.format.value, count), ns);
  }

  /** `_up1("H" or "I", fh.read(n))` after a seek to `pos`: an `n`-byte
      unsigned integer, or a short read when the file ends first. */
  function ReadUnsigned(data: seq<byte>, e: Endian, pos: nat, n: nat): (r: Result<nat>)
    requires n > 0
    ensures r.Ok? <==> pos + n <= |data|
    ensures r.Err? ==> r.error == ShortRead
    ensures r.Ok? ==> r.value < Pow256(n) && EncodeUnsigned(e, r.value, n) == data[pos..pos + n]
  {
    var w := Read(data, pos, n);
    if |w| != n then Err(ShortRead)
    else
      assert w == data[pos..pos + n];
      EncodeDecode(e, w);
      Ok(DecodeUnsigned(e, w))
  }
}
