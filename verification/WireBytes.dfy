/**
  The wire format by its bytes: the key of each wire type, whole records, records that no field takes,
  and what a record that cannot be read to its end leaves behind.
 */
module WireBytes {
  import opened Varint
  import opened Wire
  import opened Codec
  import opened RoundTrip

  // --------------------------------------------------------------------------------------- whole records

  /** Every record starts with the varint of eight times its number plus its wire type; a group also ends with one. */
  lemma RecordBytes(num: nat, v: nat, bytes: seq<Byte>, recs: seq<Record>)
    ensures Encode(Number(num, v)) == EncodeVarint(8 * num) + EncodeVarint(v)
    ensures Encode(Fixed64(num, bytes)) == EncodeVarint(8 * num + 1) + bytes
    ensures Encode(Len(num, bytes)) == EncodeVarint(8 * num + 2) + (EncodeVarint(|bytes|) + bytes)
    ensures Encode(Group(num, recs)) == EncodeVarint(8 * num + 3) + (EncodeAll(recs) + EncodeVarint(8 * num + 4))
    ensures Encode(Fixed32(num, bytes)) == EncodeVarint(8 * num + 5) + bytes
  {
  }

  /** A key is read as the number and the wire type it is made of. */
  lemma KeyReads(num: nat, wt: nat, tail: seq<Byte>)
    requires wt < 8 && 0 < 8 * num + wt < TWO_32
    ensures ReadTag(EncodeVarint(8 * num + wt) + tail) == Tag(num, wt, tail)
  {
    TagRoundTrip(num, wt, tail);
  }

  /** The loop behind a key. */
  lemma ParseKey(env: Env, s: Schema, num: nat, wt: nat, tail: seq<Byte>, m: Msg)
    requires Shaped(s, m) && wt < 8 && 0 < 8 * num + wt < TWO_32
    ensures Parse(env, s, EncodeVarint(8 * num + wt) + tail, m) == AfterTag(env, s, num, wt, tail, m)
  {
    KeyReads(num, wt, tail);
  }

  lemma ParseNothing(env: Env, s: Schema, m: Msg)
    requires Shaped(s, m)
    ensures Parse(env, s, [], m) == Done(m, [], InputEnd)
  {
  }

  // --------------------------------------------------------------------- records that no field takes, byte by byte

  lemma OneRecord(env: Env, s: Schema, r: Record, bs: seq<Byte>, m: Msg)
    requires Shaped(s, m) && Storable(r) && Encode(r) == bs && !Accepts(s, r.num, WireType(r))
    ensures var o := Parse(env, s, bs, m);
            if GroupDepth(r) <= env.depth then o == Done(AddUnknown(m, r), [], InputEnd) else o.Fail?
  {
    ParseStep(env, s, r, [], m);
    assert Encode(r) + [] == bs;
    ParseNothing(env, s, AddUnknown(m, r));
  }

  /** 0x09 starts eight bytes, 0x0D four; no message modelled here interprets them. */
  lemma FixedWidthBytes(env: Env, s: Schema, bytes: seq<Byte>, m: Msg)
    requires Shaped(s, m)
    ensures |bytes| == 8 ==> Parse(env, s, [0x09] + bytes, m) == Done(AddUnknown(m, Fixed64(1, bytes)), [], InputEnd)
    ensures |bytes| == 4 ==> Parse(env, s, [0x0D] + bytes, m) == Done(AddUnknown(m, Fixed32(1, bytes)), [], InputEnd)
    ensures |bytes| < 8 ==> Parse(env, s, [0x09] + bytes, m) == Fail(m)
    ensures |bytes| < 4 ==> Parse(env, s, [0x0D] + bytes, m) == Fail(m)
  {
    hide Codec.Parse;
    assert EncodeVarint(0x09) == [0x09] && EncodeVarint(0x0D) == [0x0D];
    RecordBytes(1, 0, bytes, []);
    if |bytes| == 8 {
      OneRecord(env, s, Fixed64(1, bytes), [0x09] + bytes, m);
    }
    if |bytes| == 4 {
      OneRecord(env, s, Fixed32(1, bytes), [0x0D] + bytes, m);
    }
    ParseKey(env, s, 1, 1, bytes, m);
    ParseKey(env, s, 1, 5, bytes, m);
    if |bytes| < 8 {
      NoFixed(env, s, 1, bytes, m);
    }
  }

  lemma NoFixed(env: Env, s: Schema, num: nat, bytes: seq<Byte>, m: Msg)
    requires Shaped(s, m)
    ensures |bytes| < 8 ==> AfterTag(env, s, num, 1, bytes, m) == Fail(m)
    ensures |bytes| < 4 ==> AfterTag(env, s, num, 5, bytes, m) == Fail(m)
  {
    assert m.unknown + [] == m.unknown;
  }

  /** 0x0B starts a group and 0x0C ends it, within the recursion limit; alone 0x0C ends the loop. */
  lemma GroupBytes(env: Env, s: Schema, m: Msg)
    requires Shaped(s, m)
    ensures Parse(env, s, [0x0B, 0x0C], m) == if env.depth > 0 then Done(AddUnknown(m, Group(1, [])), [], InputEnd)
                                              else Fail(m)
    ensures Parse(env, s, [0x0C], m) == Done(m, [], EndGroupTag)
  {
    hide Codec.Parse;
    assert EncodeVarint(0x0B) == [0x0B] && EncodeVarint(0x0C) == [0x0C];
    RecordBytes(1, 0, [], []);
    var r := Group(1, []);
    assert Encode(r) == [0x0B, 0x0C];
    OneRecord(env, s, r, [0x0B, 0x0C], m);
    assert [0x0B] + [0x0C] == [0x0B, 0x0C] && [0x0C] + [] == [0x0C];
    ParseKey(env, s, 1, 3, [0x0C], m);
    ParseKey(env, s, 1, 4, [], m);
    assert m.unknown + [] == m.unknown;
  }

  /** Wire types 6 and 7 are none: 0x0E and 0x0F fail; a zero byte stops the loop without failing it. */
  lemma NoSuchWireType(env: Env, s: Schema, tail: seq<Byte>, m: Msg)
    requires Shaped(s, m)
    ensures Parse(env, s, [0x0E] + tail, m) == Fail(m) && Parse(env, s, [0x0F] + tail, m) == Fail(m)
    ensures Parse(env, s, [0x00] + tail, m) == Done(m, tail, ZeroTag)
  {
    assert EncodeVarint(0x0E) == [0x0E] && EncodeVarint(0x0F) == [0x0F];
    ParseKey(env, s, 1, 6, tail, m);
    ParseKey(env, s, 1, 7, tail, m);
    assert m.unknown + [] == m.unknown;
    OneByteVarint([0x00] + tail);
    assert ([0x00] + tail)[1..] == tail;
  }

  // ------------------------------------------------------------------------------- what a torn record leaves

  /** A length that `bytes` does not fill, or that no int holds. */
  predicate TooLong(n: nat, bytes: seq<Byte>) { n < TWO_32 && (|bytes| < n || n >= 0x8000_0000) }

  /** What ReadString keeps of it: the bytes that are there, or none when the length is negative as an int. */
  function Kept(n: nat, bytes: seq<Byte>): seq<Byte> { if n < 0x8000_0000 then bytes else [] }

  /** A length-delimited record of which only `bytes` are there. */
  function TornBytes(num: nat, n: nat, bytes: seq<Byte>): seq<Byte> {
    EncodeVarint(8 * num + 2) + (EncodeVarint(n) + bytes)
  }

  lemma TornPayload(depth: nat, num: nat, n: nat, bytes: seq<Byte>)
    requires TooLong(n, bytes)
    ensures var x := ReadPayload(depth, num, 2, EncodeVarint(n) + bytes);
            x.Got? && x.r.Cut? && Torn(x.r) == Len(num, Kept(n, bytes))
  {
    VarintRoundTrip(n, bytes);
    LenPayload(depth, num, EncodeVarint(n) + bytes);
  }

  /** A length-delimited record of no field whose payload is cut off fails and leaves the bytes that were there. */
  lemma TornRecordStays(env: Env, s: Schema, num: nat, n: nat, bytes: seq<Byte>, m: Msg)
    requires Shaped(s, m) && 8 * num + 2 < TWO_32 && TooLong(n, bytes) && !Accepts(s, num, 2)
    ensures Parse(env, s, TornBytes(num, n, bytes), m) == Fail(AddUnknown(m, Len(num, Kept(n, bytes))))
  {
    ParseKey(env, s, num, 2, EncodeVarint(n) + bytes, m);
    TornPayload(env.depth, num, n, bytes);
  }

  /** What has been read of a group, before what is still to be read of it. */
  function Behind(recs: seq<Record>, g: GroupRead): GroupRead {
    match g
    case Unclosed(left) => Unclosed(recs + left)
    case Closed(more, rest) => Closed(recs + more, rest)
  }

  lemma GroupReadsOn(depth: nat, num: nat, r: Record, tail: seq<Byte>)
    requires Storable(r) && GroupDepth(r) <= depth
    ensures ReadGroup(depth, num, Encode(r) + tail) == Behind([r], ReadGroup(depth, num, tail))
  {
    Assoc(EncodeTag(r.num, WireType(r)), EncodePayload(r), tail);
    TagRoundTrip(r.num, WireType(r), EncodePayload(r) + tail);
    PayloadRoundTrip(depth, r, tail);
  }

  /** Whole records at the head of a group are in it, whatever becomes of the rest. */
  lemma {:induction false} GroupKeepsWholeRecords(depth: nat, num: nat, recs: seq<Record>, tail: seq<Byte>)
    requires AllStorable(recs) && GroupsDepth(recs) <= depth
    ensures ReadGroup(depth, num, EncodeAll(recs) + tail) == Behind(recs, ReadGroup(depth, num, tail))
  {
    hide ReadGroup, Encode;
    if recs == [] {
      assert EncodeAll(recs) + tail == tail;
    } else {
      Assoc(Encode(recs[0]), EncodeAll(recs[1..]), tail);
      GroupReadsOn(depth, num, recs[0], EncodeAll(recs[1..]) + tail);
      GroupKeepsWholeRecords(depth, num, recs[1..], tail);
      assert [recs[0]] + recs[1..] == recs;
    }
  }

  /** How a group can end: by its own end key, or badly. */
  lemma GroupEnds(depth: nat, num: nat, other: nat, n: nat, bytes: seq<Byte>)
    requires 8 * other + 4 < TWO_32
    ensures ReadGroup(depth, num, []) == Unclosed([])
    ensures ReadGroup(depth, num, EncodeVarint(8 * other + 4) + bytes)
         == if other == num then Closed([], bytes) else Unclosed([])
    ensures TooLong(n, bytes) ==>
      ReadGroup(depth, num, TornBytes(other, n, bytes)) == Unclosed([Len(other, Kept(n, bytes))])
  {
    KeyReads(other, 4, bytes);
    if TooLong(n, bytes) {
      KeyReads(other, 2, EncodeVarint(n) + bytes);
      TornPayload(depth, other, n, bytes);
    }
  }

  /** A group inside that fails stays too, unless the recursion limit had kept it from starting. */
  lemma InnerGroupFails(depth: nat, num: nat, inner: nat, bs: seq<Byte>)
    requires 8 * inner + 3 < TWO_32 && (depth > 0 ==> ReadGroup(depth - 1, inner, bs).Unclosed?)
    ensures ReadGroup(depth, num, EncodeVarint(8 * inner + 3) + bs)
         == Unclosed(if depth == 0 then [] else [Group(inner, ReadGroup(depth - 1, inner, bs).left)])
  {
    KeyReads(inner, 3, bs);
    GroupPayload(depth, inner, bs);
  }

  lemma ParseGroup(env: Env, s: Schema, num: nat, bs: seq<Byte>, m: Msg)
    requires Shaped(s, m) && 8 * num + 3 < TWO_32 && !Accepts(s, num, 3) && env.depth > 0
    ensures var g := ReadGroup(env.depth - 1, num, bs);
            Parse(env, s, EncodeVarint(8 * num + 3) + bs, m)
            == if g.Unclosed? then Fail(AddUnknown(m, Group(num, g.left)))
               else Parse(env, s, g.rest, AddUnknown(m, Group(num, g.recs)))
  {
    ParseKey(env, s, num, 3, bs, m);
    GroupPayload(env.depth, num, bs);
  }

  lemma NoFieldIsAGroup(s: Schema, num: nat)
    ensures !Accepts(s, num, 3)
  {
  }

  /**
    A group that is cut off, or closed under another number, fails and stays in the unknown fields with the
    whole records it had, and with what there was of a last one.
   */
  lemma TornGroupStays(env: Env, s: Schema, num: nat, recs: seq<Record>, other: nat, n: nat, bytes: seq<Byte>, m: Msg)
    requires Shaped(s, m) && 8 * num + 3 < TWO_32 && 8 * other + 4 < TWO_32
    requires AllStorable(recs) && GroupsDepth(recs) < env.depth
    ensures Parse(env, s, EncodeVarint(8 * num + 3) + EncodeAll(recs), m) == Fail(AddUnknown(m, Group(num, recs)))
    ensures other != num ==>
      Parse(env, s, EncodeVarint(8 * num + 3) + (EncodeAll(recs) + (EncodeVarint(8 * other + 4) + bytes)), m)
      == Fail(AddUnknown(m, Group(num, recs)))
    ensures TooLong(n, bytes) ==>
      Parse(env, s, EncodeVarint(8 * num + 3) + (EncodeAll(recs) + TornBytes(other, n, bytes)), m)
      == Fail(AddUnknown(m, Group(num, recs + [Len(other, Kept(n, bytes))])))
  {
    hide Codec.Parse, ReadGroup, Codec.Accepts, EncodeAll, EncodeVarint, TooLong, Kept;
    NoFieldIsAGroup(s, num);
    var depth, end, torn := env.depth - 1, EncodeVarint(8 * other + 4) + bytes, TornBytes(other, n, bytes);
    GroupEnds(depth, num, other, n, bytes);
    GroupKeepsWholeRecords(depth, num, recs, []);
    GroupKeepsWholeRecords(depth, num, recs, end);
    GroupKeepsWholeRecords(depth, num, recs, torn);
    assert EncodeAll(recs) + [] == EncodeAll(recs) && recs + [] == recs;
    ParseGroup(env, s, num, EncodeAll(recs), m);
    ParseGroup(env, s, num, EncodeAll(recs) + end, m);
    ParseGroup(env, s, num, EncodeAll(recs) + torn, m);
  }
}
