/** The 8-byte file header read by `TIFF.__init__`: magic, byte order and
    the offset of the first directory. */
module Header {
  import opened Results
  import opened Bytes
  import opened FieldTypes

  /** `II*\0` (little-endian) or `MM\0*` (big-endian). */
  predicate Standard(d: seq<byte>)
  {
    d == [73, 73, 42, 0] || d == [77, 77, 0, 42]
  }

  /** The `good` list: the standard magics, plus Olympus ORF (`IIRO`) and
      Panasonic RW2 (`IIU\0`) when variants are allowed. */
  predicate Accepted(d: seq<byte>, allowVariants: bool)
  {
    Standard(d) || (allowVariants && (d == [73, 73, 82, 79] || d == [73, 73, 85, 0]))
  }

  /** What the constructor keeps: byte order, `variant` (bytes 2..4 with
      NULs stripped from both ends) and the first directory offset. */
  datatype Header = Header(endian: Endian, variant: seq<byte>, firstIfd: nat)

  /** Parses the header. The ORF test `self.variant == "RO"` compares bytes
      with a str and is always false, so the offset is never checked. */
  function ParseHeader(data: seq<byte>, allowVariants: bool): (r: Result<Header>)
    ensures r.Ok? <==> |data| >= 8 && Accepted(data[..4], allowVariants)
    ensures (|data| < 4 || !Accepted(data[..4], allowVariants)) ==> r == Err(NotTiff)
    ensures 4 <= |data| < 8 && Accepted(data[..4], allowVariants) ==> r == Err(ShortRead)
    ensures r.Ok? ==> (r.value.endian == Little <==> data[0] == 73)
    ensures r.Ok? ==> (r.value.endian == Big <==> data[0] == 77)
    ensures r.Ok? ==> r.value.firstIfd < Pow256(4)
    ensures r.Ok? ==> EncodeUnsigned(r.value.endian, r.value.firstIfd, 4) == data[4..8]
    ensures r.Ok? ==> (r.value.variant == [42] <==> Standard(data[..4]))
    ensures r.Ok? && data[..4] == [73, 73, 82, 79] ==> r.value.variant == [82, 79]
    ensures r.Ok? && data[..4] == [73, 73, 85, 0] ==> r.value.variant == [85]
  {
    var d := Read(data, 0, 4);
    if |d| < 4 || !Accepted(d, allowVariants) then Err(NotTiff)
    else
      assert d == data[..4];
      var variant := VariantOf(d);
      var endian := if d[0] == 77 then Big else Little;
      var first :- ReadUnsigned(data, endian, 4, 4);
      Ok(Header(endian, variant, first))
  }

  /** `d[2:4].strip(b"\0")` of an accepted magic. */
  function VariantOf(d: seq<byte>): (v: seq<byte>)
    requires Accepted(d, true)
    ensures v == StripNul(d[2..4])
    ensures v == [42] <==> Standard(d)
    ensures d == [73, 73, 82, 79] ==> v == [82, 79]
    ensures d == [73, 73, 85, 0] ==> v == [85]
  {
    VariantOfTail(d[2..4]);
    StripNul(d[2..4])
  }

  /** The header a little- or big-endian writer emits for a first
      directory at `firstIfd`. */
  function MakeHeader(e: Endian, firstIfd: nat): (bs: seq<byte>)
    requires firstIfd < Pow256(4)
    ensures |bs| == 8
  {
    (if e == Little then [73, 73, 42, 0] else [77, 77, 0, 42]) + EncodeUnsigned(e, firstIfd, 4)
  }

  /** A written header parses back to its byte order and offset, whatever follows it. */
  lemma HeaderRoundTrip(e: Endian, firstIfd: nat, rest: seq<byte>, allowVariants: bool)
    requires firstIfd < Pow256(4)
    ensures ParseHeader(MakeHeader(e, firstIfd) + rest, allowVariants) == Ok(Header(e, [42], firstIfd))
  {
    var magic: seq<byte> := if e == Little then [73, 73, 42, 0] else [77, 77, 0, 42];
    var w := EncodeUnsigned(e, firstIfd, 4);
    var data := magic + w + rest;
    assert MakeHeader(e, firstIfd) + rest == data;
    assert data[..4] == magic;
    assert data[4..8] == w;
    var r := ParseHeader(data, allowVariants);
    assert r.Ok?;
    assert r.value.endian == e;
    EncodeDecode(e, w);
    assert r.value.firstIfd == firstIfd;
    VariantNames();
  }

  /** A first directory at 8, as a little-endian writer puts it. */
  lemma LittleHeaderExample()
    ensures ParseHeader([73, 73, 42, 0, 8, 0, 0, 0], false) == Ok(Header(Little, [42], 8))
  {
    var w: seq<byte> := [8, 0, 0, 0];
    ByteOrderExamples();
    EncodeDecode(Little, w);
    assert EncodeUnsigned(Little, 8, 4) == w;
    var data: seq<byte> := [73, 73, 42, 0, 8, 0, 0, 0];
    assert [73, 73, 42, 0] + w == data;
    assert MakeHeader(Little, 8) + [] == data;
    HeaderRoundTrip(Little, 8, [], false);
  }

  /** A first directory at 8, as a big-endian writer puts it. */
  lemma BigHeaderExample()
    ensures ParseHeader([77, 77, 0, 42, 0, 0, 0, 8], false) == Ok(Header(Big, [42], 8))
  {
    var w: seq<byte> := [0, 0, 0, 8];
    ByteOrderExamples();
    EncodeDecode(Big, w);
    assert EncodeUnsigned(Big, 8, 4) == w;
    var data: seq<byte> := [77, 77, 0, 42, 0, 0, 0, 8];
    assert [77, 77, 0, 42] + w == data;
    assert MakeHeader(Big, 8) + [] == data;
    HeaderRoundTrip(Big, 8, [], false);
  }

  /** The `variant` each accepted magic yields: `*` for the standard
      magics, `RO` for ORF, `U` for RW2. */
  lemma VariantOfTail(t: seq<byte>)
    requires t == [42, 0] || t == [0, 42] || t == [82, 79] || t == [85, 0]
    ensures StripNul(t) == [42] <==> (t == [42, 0] || t == [0, 42])
    ensures t == [82, 79] ==> StripNul(t) == [82, 79]
    ensures t == [85, 0] ==> StripNul(t) == [85]
  {
    if t == [42, 0] {
      StripSecond(42);
    } else if t == [0, 42] {
      assert StripLeadingNul(t) == StripLeadingNul([42]) by {
        assert t[1..] == [42];
      }
      assert StripLeadingNul([42]) == [42];
      assert StripTrailingNul([42]) == [42];
    } else if t == [82, 79] {
      assert StripLeadingNul(t) == t;
      assert StripTrailingNul(t) == t;
    } else {
      StripSecond(85);
    }
  }

  /** `x\0` with `x` not NUL strips to `x`. */
  lemma StripSecond(x: byte)
    requires x != 0
    ensures StripNul([x, 0]) == [x]
  {
    var t: seq<byte> := [x, 0];
    assert StripLeadingNul(t) == t;
    assert t[..1] == [x];
    assert StripTrailingNul(t) == StripTrailingNul([x]);
    assert StripTrailingNul([x]) == [x];
  }

  /** The `variant` each accepted magic yields. */
  lemma VariantNames()
    ensures StripNul([42, 0]) == [42] && StripNul([0, 42]) == [42]
    ensures StripNul([82, 79]) == [82, 79] && StripNul([85, 0]) == [85]
  {
    VariantOfTail([42, 0]);
    VariantOfTail([0, 42]);
    VariantOfTail([82, 79]);
    VariantOfTail([85, 0]);
  }

  /** The ORF offset check never fires: an `IIRO` header is accepted with
      any first offset, 8 or not. */
  lemma OrfOffsetUnchecked(data: seq<byte>)
    requires |data| >= 8 && data[..4] == [73, 73, 82, 79]
    ensures ParseHeader(data, true).Ok?
    ensures ParseHeader(data, true).value.firstIfd == DecodeUnsigned(Little, data[4..8])
  {
    EncodeDecode(Little, data[4..8]);
  }
}
