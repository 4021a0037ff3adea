/**
  Base 128 varints ("Base 128 Varints" in the Protocol Buffers Encoding specification) and the
  size arithmetic the generated ByteSize methods rest on.
 */
module Varint {

  type Byte = b: int | 0 <= b < 256

  const TWO_7: int := 0x80
  const TWO_14: int := 0x4000
  const TWO_21: int := 0x20_0000
  const TWO_28: int := 0x1000_0000
  const TWO_31: int := 0x8000_0000
  const TWO_32: int := 0x1_0000_0000
  const TWO_35: int := 0x8_0000_0000
  const TWO_42: int := 0x400_0000_0000
  const TWO_49: int := 0x2_0000_0000_0000
  const TWO_56: int := 0x100_0000_0000_0000
  const TWO_63: int := 0x8000_0000_0000_0000
  const TWO_64: int := 0x1_0000_0000_0000_0000

  // A reader gives up after this many bytes of one varint.
  const MAX_VARINT_BYTES: nat := 10

  datatype VarintRead = Malformed | Value(v: nat, rest: seq<Byte>)

  function EncodeVarint(v: nat): (bs: seq<Byte>)
    ensures |bs| >= 1
  {
    if v < 128 then [v] else [128 + v % 128] + EncodeVarint(v / 128)
  }

  /** Reads at most `room` bytes; the value is not yet cut to a machine width. */
  function DecodeVarint(bs: seq<Byte>, room: nat): (r: VarintRead)
    ensures r.Value? ==> |r.rest| < |bs|
  {
    if room == 0 || bs == [] then Malformed
    else if bs[0] < 128 then Value(bs[0], bs[1..])
    else
      match DecodeVarint(bs[1..], room - 1)
      case Malformed => Malformed
      case Value(v, rest) => Value(bs[0] - 128 + 128 * v, rest)
  }

  lemma OneByteVarint(bs: seq<Byte>)
    requires bs != [] && bs[0] < 128
    ensures ReadVarint64(bs) == Value(bs[0], bs[1..]) && ReadVarint32(bs) == Value(bs[0], bs[1..])
  {
    assert DecodeVarint(bs, MAX_VARINT_BYTES) == Value(bs[0], bs[1..]);
  }

  /** ReadVarint64: up to ten bytes, of which the low 64 bits are kept. */
  function ReadVarint64(bs: seq<Byte>): (r: VarintRead)
    ensures r.Value? ==> r.v < TWO_64 && |r.rest| < |bs|
  {
    match DecodeVarint(bs, MAX_VARINT_BYTES)
    case Malformed => Malformed
    case Value(v, rest) => Value(v % TWO_64, rest)
  }

  /** ReadVarint32: the same bytes, of which the low 32 bits are kept. */
  function ReadVarint32(bs: seq<Byte>): (r: VarintRead)
    ensures r.Value? ==> r.v < TWO_32 && |r.rest| < |bs|
  {
    match ReadVarint64(bs)
    case Malformed => Malformed
    case Value(v, rest) => Value(v % TWO_32, rest)
  }

  // --------------------------------------------------------------------- round trip and locality

  function Pow128(n: nat): (p: nat)
    ensures p >= 1
  {
    if n == 0 then 1 else 128 * Pow128(n - 1)
  }

  lemma {:induction false} DecodeEncoded(v: nat, room: nat, tail: seq<Byte>)
    requires room >= 1 && v < Pow128(room)
    ensures DecodeVarint(EncodeVarint(v) + tail, room) == Value(v, tail)
    ensures |EncodeVarint(v)| <= room
  {
    var bs := EncodeVarint(v) + tail;
    if v < 128 {
      assert bs[1..] == tail;
    } else {
      DecodeEncoded(v / 128, room - 1, tail);
      assert bs[1..] == EncodeVarint(v / 128) + tail;
    }
  }

  /** Every 64-bit value survives encoding and reading, whatever follows it in the input. */
  lemma {:induction false} VarintRoundTrip(v: nat, tail: seq<Byte>)
    requires v < TWO_64
    ensures ReadVarint64(EncodeVarint(v) + tail) == Value(v, tail)
    ensures ReadVarint32(EncodeVarint(v) + tail) == Value(v % TWO_32, tail)
    ensures |EncodeVarint(v)| <= MAX_VARINT_BYTES
  {
    PowersOf128();
    DecodeEncoded(v, 10, tail);
  }

  // ------------------------------------------------------------------------- what the bytes of a varint are

  /** A varint takes `n` bytes: the last of them, and no other, is below 128. */
  predicate IsVarint(bs: seq<Byte>, n: nat): (b: bool)
    ensures b ==> 1 <= n <= |bs|
  {
    1 <= n <= |bs| && bs[n - 1] < 128 && forall i :: 0 <= i < n - 1 ==> bs[i] >= 128
  }

  /** The low seven bits of each of the first `n` bytes, the first byte counting least. */
  function DigitSum(bs: seq<Byte>, n: nat): nat
    requires n <= |bs|
  {
    if n == 0 then 0 else DigitSum(bs, n - 1) + bs[n - 1] % 128 * Pow128(n - 1)
  }

  lemma {:induction false} DigitsAfterFirst(bs: seq<Byte>, n: nat)
    requires 1 <= n <= |bs|
    ensures DigitSum(bs, n) == bs[0] % 128 + 128 * DigitSum(bs[1..], n - 1)
  {
    if n == 1 {
      assert DigitSum(bs, 0) == 0 && DigitSum(bs[1..], 0) == 0;
    } else {
      DigitsAfterFirst(bs, n - 1);
      var d, p := bs[n - 1] % 128, Pow128(n - 2);
      assert bs[1..][n - 2] == bs[n - 1];
      assert d * (128 * p) == 128 * (d * p);
    }
  }

  lemma LongerByOne(bs: seq<Byte>, n: nat)
    requires bs != [] && bs[0] >= 128
    ensures IsVarint(bs, n + 1) <==> IsVarint(bs[1..], n)
  {
    if n > 0 && IsVarint(bs[1..], n) {
      assert forall i :: 0 < i < n ==> bs[i] == bs[1..][i - 1];
    }
    if IsVarint(bs, n + 1) {
      assert forall i :: 0 <= i < n - 1 ==> bs[1..][i] == bs[i + 1];
    }
  }

  lemma OneMoreDigit(first: Byte, more: seq<Byte>, n: nat)
    requires first >= 128 && IsVarint(more, n)
    ensures IsVarint([first] + more, n + 1) && ([first] + more)[n + 1..] == more[n..]
    ensures DigitSum([first] + more, n + 1) == first - 128 + 128 * DigitSum(more, n)
  {
    var bs := [first] + more;
    assert bs[1..] == more;
    LongerByOne(bs, n);
    DigitsAfterFirst(bs, n + 1);
  }

  lemma OneDigit(bs: seq<Byte>)
    requires bs != [] && bs[0] < 128
    ensures IsVarint(bs, 1) && DigitSum(bs, 1) == bs[0]
    ensures forall n :: IsVarint(bs, n) ==> n == 1
  {
    assert DigitSum(bs, 0) == 0 && Pow128(0) == 1;
  }

  /** The writer's bytes: one varint, in which the digits of the value stand, and no idle last byte. */
  lemma {:induction false} EncodedDigits(v: nat)
    ensures var bs := EncodeVarint(v);
            IsVarint(bs, |bs|) && DigitSum(bs, |bs|) == v && (|bs| > 1 ==> bs[|bs| - 1] != 0)
  {
    hide IsVarint, DigitSum;
    if v < 128 {
      OneDigit([v]);
    } else {
      EncodedDigits(v / 128);
      OneMoreDigit(128 + v % 128, EncodeVarint(v / 128), |EncodeVarint(v / 128)|);
    }
  }

  /** What a reader makes of any bytes, over-long varints included. */
  lemma {:induction false} DecodedDigits(bs: seq<Byte>, room: nat)
    ensures forall n :: 0 <= n <= room && IsVarint(bs, n) ==> DecodeVarint(bs, room) == Value(DigitSum(bs, n), bs[n..])
    ensures DecodeVarint(bs, room).Value? <==> exists n :: 0 <= n <= room && IsVarint(bs, n)
  {
    hide IsVarint, DigitSum;
    if room > 0 && bs != [] {
      if bs[0] < 128 {
        OneDigit(bs);
      } else {
        var more := bs[1..];
        assert bs == [bs[0]] + more;
        DecodedDigits(more, room - 1);
        forall n | 0 <= n <= room && IsVarint(bs, n)
          ensures DecodeVarint(bs, room) == Value(DigitSum(bs, n), bs[n..])
        {
          LongerByOne(bs, n - 1);
          OneMoreDigit(bs[0], more, n - 1);
        }
        if DecodeVarint(bs, room).Value? {
          var n :| 0 <= n <= room - 1 && IsVarint(more, n);
          LongerByOne(bs, n);
        }
      }
    }
  }

  /**
    The two readers on any bytes: a varint of at most ten bytes gives the low 64 or 32 bits of its digits,
    and anything else is malformed.
   */
  lemma ReadersTakeLowBits(bs: seq<Byte>)
    ensures forall n :: 0 <= n <= 10 && IsVarint(bs, n) ==>
      && ReadVarint64(bs) == Value(DigitSum(bs, n) % 0x1_0000_0000_0000_0000, bs[n..])
      && ReadVarint32(bs) == Value(DigitSum(bs, n) % 0x1_0000_0000, bs[n..])
    ensures (ReadVarint64(bs).Malformed? <==> forall n :: 0 <= n <= 10 ==> !IsVarint(bs, n))
        && (ReadVarint32(bs).Malformed? <==> ReadVarint64(bs).Malformed?)
  {
    hide DecodeVarint, IsVarint, DigitSum;
    DecodedDigits(bs, MAX_VARINT_BYTES);
    forall n | 0 <= n <= 10 && IsVarint(bs, n)
      ensures ReadVarint32(bs) == Value(DigitSum(bs, n) % TWO_32, bs[n..])
    {
      LowOfLow(DigitSum(bs, n));
    }
  }

  lemma LowOfLow(v: nat)
    ensures v % TWO_64 % TWO_32 == v % TWO_32
  {
    var q, r := v / TWO_64, v % TWO_64;
    assert v == (q * TWO_32 + r / TWO_32) * TWO_32 + r % TWO_32;
  }

  /** The example of the encoding's own description. */
  lemma ThreeHundred()
    ensures EncodeVarint(300) == [0xAC, 0x02] && ReadVarint64([0xAC, 0x02]) == Value(300, [])
  {
    assert EncodeVarint(2) == [2];
    assert [0xAC, 0x02][1..] == [0x02] && [0x02][1..] == [];
    assert DecodeVarint([0xAC, 0x02], MAX_VARINT_BYTES) == Value(0x2C + 128 * 2, []);
  }

  /** The bytes of `bs` before its suffix `rest`. */
  function Used(bs: seq<Byte>, rest: seq<Byte>): (used: seq<Byte>)
    requires |rest| <= |bs|
  {
    bs[..|bs| - |rest|]
  }

  lemma UsedSplits(bs: seq<Byte>, mid: seq<Byte>, rest: seq<Byte>, tail: seq<Byte>)
    requires |rest| <= |mid| <= |bs|
    requires bs == Used(bs, mid) + mid && mid == Used(mid, rest) + rest
    ensures bs == Used(bs, rest) + rest
    ensures Used(bs, rest) + tail == Used(bs, mid) + (Used(mid, rest) + tail)
  {
    assert bs == Used(bs, mid) + Used(mid, rest) + rest;
  }

  /** What a varint read returns depends only on the bytes it consumes. */
  lemma {:induction false} DecodeIsLocal(bs: seq<Byte>, room: nat, tail: seq<Byte>)
    requires DecodeVarint(bs, room).Value?
    ensures var r := DecodeVarint(bs, room);
            && bs == Used(bs, r.rest) + r.rest
            && DecodeVarint(Used(bs, r.rest) + tail, room) == Value(r.v, tail)
  {
    var r := DecodeVarint(bs, room);
    assert bs == [bs[0]] + bs[1..];
    if bs[0] < 128 {
      assert (Used(bs, r.rest) + tail)[1..] == tail;
    } else {
      DecodeIsLocal(bs[1..], room - 1, tail);
      UsedAfterFirst(bs, r.rest, tail);
    }
  }

  lemma UsedAfterFirst(bs: seq<Byte>, rest: seq<Byte>, tail: seq<Byte>)
    requires |rest| < |bs| && bs[1..] == Used(bs[1..], rest) + rest
    ensures bs == Used(bs, rest) + rest && (Used(bs, rest) + tail)[0] == bs[0]
    ensures (Used(bs, rest) + tail)[1..] == Used(bs[1..], rest) + tail
  {
    assert bs == [bs[0]] + bs[1..];
  }

  // ------------------------------------------------------------------------------ size functions

  /** UInt32Size and the length prefix: the threshold table of VarintSize32. */
  function VarintSize32(v: nat): (n: nat)
    requires v < TWO_32
    ensures 1 <= n <= 5
  {
    if v < TWO_7 then 1 else if v < TWO_14 then 2 else if v < TWO_21 then 3 else if v < TWO_28 then 4 else 5
  }

  /** VarintSize64, as a balanced comparison tree. */
  function VarintSize64(v: nat): (n: nat)
    requires v < TWO_64
    ensures 1 <= n <= 10
  {
    if v < TWO_35 then
      if v < TWO_7 then 1 else if v < TWO_14 then 2 else if v < TWO_21 then 3 else if v < TWO_28 then 4 else 5
    else
      if v < TWO_42 then 6 else if v < TWO_49 then 7 else if v < TWO_56 then 8 else if v < TWO_63 then 9 else 10
  }

  lemma {:induction false} EncodedLength(v: nat, n: nat)
    requires n >= 1 && v < Pow128(n)
    requires n >= 2 ==> v >= Pow128(n - 1)
    ensures |EncodeVarint(v)| == n
  {
    if n >= 2 {
      assert Pow128(n) == 128 * Pow128(n - 1);
      EncodedLength(v / 128, n - 1);
    } else {
      assert Pow128(0) == 1 && Pow128(1) == 128;
    }
  }

  /** Both threshold tables count exactly the bytes the writer emits. */
  lemma {:induction false} SizeTablesAreExact(v: nat)
    requires v < TWO_64
    ensures |EncodeVarint(v)| == VarintSize64(v)
    ensures v < TWO_32 ==> |EncodeVarint(v)| == VarintSize32(v)
  {
    PowersOf128();
    EncodedLength(v, VarintSize64(v));
  }

  lemma PowersOf128()
    ensures Pow128(0) == 1 && Pow128(1) == TWO_7 && Pow128(2) == TWO_14 && Pow128(3) == TWO_21
    ensures Pow128(4) == TWO_28 && Pow128(5) == TWO_35 && Pow128(6) == TWO_42 && Pow128(7) == TWO_49
    ensures Pow128(8) == TWO_56 && Pow128(9) == TWO_63 && Pow128(10) == 128 * TWO_63
  {
    assert Pow128(3) == 128 * Pow128(2);
    assert Pow128(4) == 128 * Pow128(3);
    assert Pow128(5) == 128 * Pow128(4);
    assert Pow128(6) == 128 * Pow128(5);
    assert Pow128(7) == 128 * Pow128(6);
    assert Pow128(8) == 128 * Pow128(7);
    assert Pow128(9) == 128 * Pow128(8);
    assert Pow128(10) == 128 * Pow128(9);
  }
}
