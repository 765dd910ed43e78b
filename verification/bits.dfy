/** The bit unpacker: a packed glyph bitmap expanded into one value per
    pixel, most significant bit of each byte first. */
module Bits {
  import opened Words

  predicate IsBit(x: int) {
    x == 0 || x == 1
  }

  predicate AllBits(s: seq<Byte>) {
    forall k :: 0 <= k < |s| ==> IsBit(s[k])
  }

  /** The body of `as_bits`' while loop with `times` rounds still to run:
      emit `b >= 128` as 0 or 1, then shift `b` left within 8 bits. */
  function ShiftOut(b: Byte, times: nat): (r: seq<Byte>)
    requires times <= 8
    ensures |r| == times
    ensures forall k :: 0 <= k < times ==> r[k] == BitOf(b, 7 - k)
    decreases times
  {
    if times == 0 then []
    else
      TopBitIsBit7(b);
      var rest := ShiftOut(Shl1(b), times - 1);
      assert forall j :: 0 <= j < times - 1 ==> rest[j] == BitOf(b, 6 - j) by {
        forall j | 0 <= j < times - 1
          ensures rest[j] == BitOf(b, 6 - j)
        {
          ShiftMovesBit(b, 6 - j);
        }
      }
      [TopBit(b)] + rest
  }

  /** `as_bits`: the eight bits of a byte, most significant first. */
  function AsBits(b: Byte): (r: seq<Byte>)
    ensures |r| == 8
    ensures AllBits(r)
    ensures forall k :: 0 <= k < 8 ==> r[k] == BitOf(b, 7 - k)
  {
    ShiftOut(b, 8)
  }

  /** `bits` spells out `bytes` in byte order, most significant bit of each
      byte first: bit `p` is bit `7 - p mod 8` of byte `p / 8`. */
  predicate Unpacks(bytes: seq<Byte>, bits: seq<Byte>) {
    |bits| == 8 * |bytes| &&
    forall p :: 0 <= p < |bits| ==> bits[p] == BitOf(bytes[p / 8], 7 - p % 8)
  }

  /** `unpack`: the bytes' bit sequences concatenated in byte order. */
  function Unpack(bytes: seq<Byte>): (r: seq<Byte>)
    ensures |r| == 8 * |bytes| && AllBits(r)
    ensures Unpacks(bytes, r)
  {
    if |bytes| == 0 then []
    else
      var head := AsBits(bytes[0]);
      var rest := Unpack(bytes[1..]);
      UnpacksCons(bytes, head, rest);
      head + rest
  }

  /** The bits of the first byte followed by the bits of the others spell
      out the whole byte string. */
  lemma UnpacksCons(bytes: seq<Byte>, head: seq<Byte>, rest: seq<Byte>)
    requires |bytes| > 0 && |head| == 8 && AllBits(head) && AllBits(rest)
    requires forall k :: 0 <= k < 8 ==> head[k] == BitOf(bytes[0], 7 - k)
    requires Unpacks(bytes[1..], rest)
    ensures AllBits(head + rest)
    ensures Unpacks(bytes, head + rest)
  {
    var r := head + rest;
    forall p | 0 <= p < |r|
      ensures IsBit(r[p]) && r[p] == BitOf(bytes[p / 8], 7 - p % 8)
    {
      if p < 8 {
        assert r[p] == head[p];
      } else {
        assert (p - 8) / 8 == p / 8 - 1 && (p - 8) % 8 == p % 8;
        assert r[p] == rest[p - 8];
      }
    }
  }

  /** Unpacking the concatenation of two byte strings unpacks each in turn. */
  lemma {:induction false} UnpackAppend(a: seq<Byte>, b: seq<Byte>)
    ensures Unpack(a + b) == Unpack(a) + Unpack(b)
  {
    if |a| == 0 {
      assert a + b == b;
    } else {
      assert (a + b)[1..] == a[1..] + b;
      UnpackAppend(a[1..], b);
    }
  }

  /** The value of a bit string read most significant bit first: each bit
      doubles what came before it and adds itself. */
  function Value(s: seq<Byte>): (r: nat)
    requires AllBits(s)
    ensures r < Pow2(|s|)
  {
    if |s| == 0 then 0
    else 2 * Value(s[..|s| - 1]) + s[|s| - 1]
  }

  /** Packing eight bits back into a byte. */
  function ByteOf(s: seq<Byte>): (b: Byte)
    requires |s| == 8 && AllBits(s)
  {
    assert Pow2(8) == 256;
    Value(s)
  }

  /** The first `m` bits of a byte, read back, are the byte shifted right by
      `8 - m`. */
  lemma {:induction false} PrefixValue(b: Byte, m: nat)
    requires m <= 8
    ensures AllBits(AsBits(b)[..m])
    ensures Value(AsBits(b)[..m]) == Halve(b, 8 - m)
  {
    var s := AsBits(b)[..m];
    if m == 0 {
      assert Pow2(8) == 256;
      HalveBelow(b, 8);
    } else {
      PrefixValue(b, m - 1);
      assert s[..m - 1] == AsBits(b)[..m - 1];
      assert s[m - 1] == BitOf(b, 8 - m);
      HalveStep(b, 8 - m);
    }
  }

  /** Read back, the eight bits of a byte give the byte. */
  lemma AsBitsRoundTrip(b: Byte)
    ensures ByteOf(AsBits(b)) == b
  {
    PrefixValue(b, 8);
    assert AsBits(b)[..8] == AsBits(b);
  }

  /** Equal-length bit strings with the same value are equal. */
  lemma {:induction false} ValueInjective(s: seq<Byte>, u: seq<Byte>)
    requires AllBits(s) && AllBits(u) && |s| == |u|
    requires Value(s) == Value(u)
    ensures s == u
  {
    if |s| > 0 {
      var n := |s| - 1;
      assert s[n] == u[n];
      ValueInjective(s[..n], u[..n]);
      assert s == s[..n] + [s[n]];
      assert u == u[..n] + [u[n]];
    }
  }

  /** Eight bits packed into a byte unpack to themselves. */
  lemma ByteOfRoundTrip(s: seq<Byte>)
    requires |s| == 8 && AllBits(s)
    ensures AsBits(ByteOf(s)) == s
  {
    AsBitsRoundTrip(ByteOf(s));
    ValueInjective(AsBits(ByteOf(s)), s);
  }

  /** The inverse of `Unpack`: each run of eight bits packed into a byte. */
  function Pack(bits: seq<Byte>): (r: seq<Byte>)
    requires |bits| % 8 == 0 && AllBits(bits)
    ensures |r| == |bits| / 8
  {
    if |bits| == 0 then []
    else [ByteOf(bits[..8])] + Pack(bits[8..])
  }

  /** Packing undoes unpacking: no byte is lost or reordered. */
  lemma {:induction false} PackUnpack(bytes: seq<Byte>)
    ensures Pack(Unpack(bytes)) == bytes
  {
    if |bytes| > 0 {
      var u := Unpack(bytes);
      assert u == AsBits(bytes[0]) + Unpack(bytes[1..]);
      assert u[..8] == AsBits(bytes[0]);
      assert u[8..] == Unpack(bytes[1..]);
      AsBitsRoundTrip(bytes[0]);
      PackUnpack(bytes[1..]);
    }
  }

  /** Unpacking undoes packing: every well-formed bit string is the image of
      some glyph. */
  lemma {:induction false} UnpackPack(bits: seq<Byte>)
    requires |bits| % 8 == 0 && AllBits(bits)
    ensures Unpack(Pack(bits)) == bits
  {
    if |bits| > 0 {
      var p := Pack(bits);
      assert p[1..] == Pack(bits[8..]);
      ByteOfRoundTrip(bits[..8]);
      UnpackPack(bits[8..]);
      assert bits == bits[..8] + bits[8..];
    }
  }

  /** The byte literal drawn by the renderer, `0b10000010`. */
  lemma DriverByte(b: Byte)
    requires b == 0x82
    ensures AsBits(b) == [1, 0, 0, 0, 0, 0, 1, 0]
    ensures Unpack([b]) == [1, 0, 0, 0, 0, 0, 1, 0]
  {
    HalveStep(b, 0);
    HalveStep(b, 1);
    HalveStep(b, 2);
    HalveStep(b, 3);
    HalveStep(b, 4);
    HalveStep(b, 5);
    HalveStep(b, 6);
    assert Halve(b, 7) == 1;
    var r := AsBits(b);
    assert r == [1, 0, 0, 0, 0, 0, 1, 0];
    assert Unpack([b]) == r + Unpack([]);
  }
}
