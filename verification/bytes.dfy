/** Bytes of the file, positioned reads, and the integer codings used by
    `struct.unpack` with an explicit `<` or `>` byte order. */
module Bytes {

  /** One octet of the file. */
  type byte = b: int | 0 <= b < 256

  /** Byte order picked by the header: `II` is little-endian, `MM` big-endian. */
  datatype Endian = Little | Big

  /** `fh.seek(pos); fh.read(n)` on a file holding `data`: the bytes at
      `pos` onwards, at most `n` of them, fewer when the file ends first. */
  function Read(data: seq<byte>, pos: nat, n: nat): (r: seq<byte>)
    ensures |r| == (if pos + n <= |data| then n else if pos <= |data| then |data| - pos else 0)
    ensures forall i :: 0 <= i < |r| ==> pos + i < |data| && r[i] == data[pos + i]
  {
    var lo := if pos <= |data| then pos else |data|;
    var hi := if pos + n <= |data| then pos + n else |data|;
    data[lo..hi]
  }

  function Pow256(n: nat): (p: nat)
    ensures p > 0
  {
    if n == 0 then 1 else 256 * Pow256(n - 1)
  }

  /** Unsigned integer stored in `bs` in byte order `e`. */
  function DecodeUnsigned(e: Endian, bs: seq<byte>): (v: nat)
    ensures v < Pow256(|bs|)
  {
    if |bs| == 0 then 0
    else if e == Little then
      var rest := DecodeUnsigned(e, bs[1..]);
      assert rest <= Pow256(|bs| - 1) - 1;
      bs[0] + 256 * rest
    else
      var rest := DecodeUnsigned(e, bs[..|bs| - 1]);
      assert rest <= Pow256(|bs| - 1) - 1;
      rest * 256 + bs[|bs| - 1]
  }

  /** The `n`-byte encoding of `v` in byte order `e`; decoding it gives `v` back. */
  function EncodeUnsigned(e: Endian, v: nat, n: nat): (bs: seq<byte>)
    requires v < Pow256(n)
    ensures |bs| == n
    ensures DecodeUnsigned(e, bs) == v
  {
    if n == 0 then []
    else
      var low: byte := v % 256;
      var rest := EncodeUnsigned(e, v / 256, n - 1);
      if e == Little then
        var bs := [low] + rest;
        assert bs[1..] == rest;
        bs
      else
        var bs := rest + [low];
        assert bs[..|bs| - 1] == rest;
        bs
  }

  /** Decoding is injective: re-encoding a decoded value gives the same bytes. */
  lemma EncodeDecode(e: Endian, bs: seq<byte>)
    ensures EncodeUnsigned(e, DecodeUnsigned(e, bs), |bs|) == bs
  {
    if e == Little {
      EncodeDecodeLittle(bs);
    } else {
      EncodeDecodeBig(bs);
    }
  }

  lemma {:induction false} EncodeDecodeLittle(bs: seq<byte>)
    ensures EncodeUnsigned(Little, DecodeUnsigned(Little, bs), |bs|) == bs
  {
    if |bs| > 0 {
      var v := DecodeUnsigned(Little, bs);
      var rest := DecodeUnsigned(Little, bs[1..]);
      assert v == rest * 256 + bs[0];
      DivMod256(rest, bs[0]);
      EncodeDecodeLittle(bs[1..]);
      assert EncodeUnsigned(Little, v, |bs|) == [bs[0]] + EncodeUnsigned(Little, rest, |bs| - 1);
      assert bs == [bs[0]] + bs[1..];
    }
  }

  lemma {:induction false} EncodeDecodeBig(bs: seq<byte>)
    ensures EncodeUnsigned(Big, DecodeUnsigned(Big, bs), |bs|) == bs
  {
    if |bs| > 0 {
      var v := DecodeUnsigned(Big, bs);
      var init := bs[..|bs| - 1];
      var rest := DecodeUnsigned(Big, init);
      assert v == rest * 256 + bs[|bs| - 1];
      DivMod256(rest, bs[|bs| - 1]);
      EncodeDecodeBig(init);
      assert EncodeUnsigned(Big, v, |bs|) == EncodeUnsigned(Big, rest, |bs| - 1) + [bs[|bs| - 1]];
      assert bs == init + [bs[|bs| - 1]];
    }
  }

  /** The bytes in the opposite order. */
  function Reverse(bs: seq<byte>): (r: seq<byte>)
    ensures |r| == |bs| && forall i :: 0 <= i < |bs| ==> r[i] == bs[|bs| - 1 - i]
  {
    if bs == [] then [] else [bs[|bs| - 1]] + Reverse(bs[..|bs| - 1])
  }

  /** `>` reads the bytes most significant first: a big-endian field is
      the little-endian reading of the same bytes reversed. */
  lemma {:induction false} BigIsReversedLittle(bs: seq<byte>)
    ensures DecodeUnsigned(Big, bs) == DecodeUnsigned(Little, Reverse(bs))
  {
    if bs != [] {
      var init := bs[..|bs| - 1];
      var r := Reverse(bs);
      assert r == [bs[|bs| - 1]] + Reverse(init);
      assert r[1..] == Reverse(init);
      BigIsReversedLittle(init);
    }
  }

  /** `<` puts the least significant byte first, `>` last. */
  lemma ByteOrderExamples()
    ensures DecodeUnsigned(Little, [1, 0]) == 1 && DecodeUnsigned(Big, [1, 0]) == 256
    ensures DecodeUnsigned(Little, [8, 0, 0, 0]) == 8 && DecodeUnsigned(Big, [0, 0, 0, 8]) == 8
  {
    assert [1, 0][1..] == [0] && [1, 0][..1] == [1];
    assert [8, 0, 0, 0][1..] == [0, 0, 0];
    assert [0, 0, 0][1..] == [0, 0] && [0, 0][1..] == [0];
    assert [0, 0, 0, 8][..3] == [0, 0, 0];
    assert [0, 0, 0][..2] == [0, 0] && [0, 0][..1] == [0];
  }

  /** Two's-complement signed integer stored in `bs` in byte order `e`. */
  function DecodeSigned(e: Endian, bs: seq<byte>): (v: int)
    requires |bs| > 0
    ensures -(Pow256(|bs|) / 2) <= v < Pow256(|bs|) / 2
    ensures v >= 0 ==> v == DecodeUnsigned(e, bs)
    ensures v < 0 ==> v + Pow256(|bs|) == DecodeUnsigned(e, bs)
  {
    var u := DecodeUnsigned(e, bs);
    if u >= Pow256(|bs|) / 2 then u - Pow256(|bs|) else u
  }

  /** The `n`-byte two's-complement encoding of `v`. */
  function EncodeSigned(e: Endian, v: int, n: nat): (bs: seq<byte>)
    requires n > 0 && -(Pow256(n) / 2) <= v < Pow256(n) / 2
    ensures |bs| == n
    ensures DecodeSigned(e, bs) == v
  {
    EvenPow(n);
    if v >= 0 then EncodeUnsigned(e, v, n) else EncodeUnsigned(e, v + Pow256(n), n)
  }

  /** Re-encoding a decoded signed value gives the same bytes. */
  lemma SignedEncodeDecode(e: Endian, bs: seq<byte>)
    requires |bs| > 0
    ensures EncodeSigned(e, DecodeSigned(e, bs), |bs|) == bs
  {
    EncodeDecode(e, bs);
  }

  lemma DivMod256(q: nat, b: byte)
    ensures (q * 256 + b) % 256 == b && (q * 256 + b) / 256 == q
  {
  }

  lemma EvenPow(n: nat)
    requires n > 0
    ensures Pow256(n) == 2 * (Pow256(n) / 2)
  {
  }

  /** `bs.rstrip(b"\0")`: every trailing NUL removed, and nothing else. */
  function StripTrailingNul(bs: seq<byte>): (r: seq<byte>)
    ensures r <= bs
    ensures |r| == 0 || r[|r| - 1] != 0
    ensures forall i :: |r| <= i < |bs| ==> bs[i] == 0
  {
    if |bs| > 0 && bs[|bs| - 1] == 0 then StripTrailingNul(bs[..|bs| - 1]) else bs
  }

  /** `bs.lstrip(b"\0")`: every leading NUL removed, and nothing else. */
  function StripLeadingNul(bs: seq<byte>): (r: seq<byte>)
    ensures |r| <= |bs| && forall i :: 0 <= i < |r| ==> r[i] == bs[|bs| - |r| + i]
    ensures |r| == 0 || r[0] != 0
    ensures forall i :: 0 <= i < |bs| - |r| ==> bs[i] == 0
  {
    if |bs| > 0 && bs[0] == 0 then StripLeadingNul(bs[1..]) else bs
  }

  /** `bs.strip(b"\0")`: NULs removed from both ends. */
  function StripNul(bs: seq<byte>): seq<byte>
  {
    StripTrailingNul(StripLeadingNul(bs))
  }
}
