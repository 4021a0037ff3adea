/**
  Records on the wire, read without knowing any message type ("Message Structure" and
  "Length-Delimited Records" in the Protocol Buffers Encoding specification), and the records an
  UnknownFieldSet stores.
 */
module Wire {
  import opened Varint

  /**
    One record. `Cut` is only ever read, never stored: its length prefix `n` reaches past the input,
    or is no length that an int holds.
   */
  datatype Record =
    | Number(num: nat, v: nat)
    | Fixed64(num: nat, bytes: seq<Byte>)
    | Len(num: nat, bytes: seq<Byte>)
    | Group(num: nat, recs: seq<Record>)
    | Fixed32(num: nat, bytes: seq<Byte>)
    | Cut(num: nat, n: nat, bytes: seq<Byte>)

  const VARINT: nat := 0
  const FIXED64: nat := 1
  const LENGTH_DELIMITED: nat := 2
  const START_GROUP: nat := 3
  const END_GROUP: nat := 4
  const FIXED32: nat := 5

  function WireType(r: Record): (wt: nat)
    ensures wt < 8 && wt != END_GROUP
  {
    match r
    case Number(_, _) => VARINT
    case Fixed64(_, _) => FIXED64
    case Len(_, _) => LENGTH_DELIMITED
    case Cut(_, _, _) => LENGTH_DELIMITED
    case Group(_, _) => START_GROUP
    case Fixed32(_, _) => FIXED32
  }

  // ------------------------------------------------------------------------------------- reading

  /** ReadTag: `NoTag` is the answer 0 given for a zero or malformed tag. */
  datatype TagRead = AtEnd | NoTag(rest: seq<Byte>) | Tag(num: nat, wt: nat, rest: seq<Byte>)

  function ReadTag(bs: seq<Byte>): (r: TagRead)
    ensures r.AtEnd? <==> bs == []
    ensures r.NoTag? ==> |r.rest| <= |bs|
    ensures r.Tag? ==> |r.rest| < |bs|
    ensures r.Tag? ==> r.wt < 8 && 0 < 8 * r.num + r.wt < TWO_32
  {
    if bs == [] then AtEnd
    else
      match ReadVarint32(bs)
      case Malformed => NoTag(bs)
      case Value(t, rest) => if t == 0 then NoTag(rest) else Tag(t / 8, t % 8, rest)
  }

  /** `left` is the record that a failed read leaves behind in the unknown field set, if it leaves any. */
  datatype Lexed = Bad(left: seq<Record>) | Got(r: Record, rest: seq<Byte>)

  /** The records of a group up to its end tag, or all that was read before that failed. */
  datatype GroupRead = Unclosed(left: seq<Record>) | Closed(recs: seq<Record>, rest: seq<Byte>)

  /** ReadString takes what there is before it fails, and nothing at all for a negative length. */
  function Torn(r: Record): Record
    requires r.Cut?
  {
    Len(r.num, if r.n < TWO_31 then r.bytes else [])
  }

  /** WireFormat::SkipField after its tag: `depth` is what is left of the recursion limit. */
  function ReadPayload(depth: nat, num: nat, wt: nat, bs: seq<Byte>): (x: Lexed)
    requires wt < 8
    ensures x.Got? ==> |x.rest| <= |bs|
    ensures x.Got? ==> x.r.num == num && WireType(x.r) == wt
    ensures x.Got? && x.r.Cut? ==> x.rest == [] && (x.r.n < TWO_31 ==> |x.r.bytes| < x.r.n)
    ensures x.Bad? && x.left != [] ==> wt == START_GROUP && |x.left| == 1 && x.left[0].Group? && x.left[0].num == num
    decreases |bs|, 1
  {
    if wt == VARINT then
      match ReadVarint64(bs)
      case Malformed => Bad([])
      case Value(v, rest) => Got(Number(num, v), rest)
    else if wt == FIXED64 then
      if |bs| < 8 then Bad([]) else Got(Fixed64(num, bs[..8]), bs[8..])
    else if wt == LENGTH_DELIMITED then
      match ReadVarint32(bs)
      case Malformed => Bad([])
      case Value(n, rest) =>
        if n < TWO_31 && n <= |rest| then Got(Len(num, rest[..n]), rest[n..]) else Got(Cut(num, n, rest), [])
    else if wt == START_GROUP then
      if depth == 0 then Bad([]) else
      match ReadGroup(depth - 1, num, bs)
      case Unclosed(left) => Bad([Group(num, left)])
      case Closed(recs, rest) => Got(Group(num, recs), rest)
    else if wt == FIXED32 then
      if |bs| < 4 then Bad([]) else Got(Fixed32(num, bs[..4]), bs[4..])
    else
      Bad([])
  }

  /** WireFormat::SkipMessage up to the end-group tag of group `num`. */
  function ReadGroup(depth: nat, num: nat, bs: seq<Byte>): (x: GroupRead)
    ensures x.Closed? ==> |x.rest| <= |bs|
    decreases |bs|, 0
  {
    match ReadTag(bs)
    case AtEnd => Unclosed([])
    case NoTag(_) => Unclosed([])
    case Tag(n, wt, rest) =>
      if wt == END_GROUP then
        if n == num then Closed([], rest) else Unclosed([])
      else
        match ReadPayload(depth, n, wt, rest)
        case Bad(left) => Unclosed(left)
        case Got(r, rest') =>
          if r.Cut? then Unclosed([Torn(r)]) else
          match ReadGroup(depth, num, rest')
          case Unclosed(left) => Unclosed([r] + left)
          case Closed(rs, rest'') => Closed([r] + rs, rest'')
  }

  // ------------------------------------------------------------------------------------- writing

  function EncodeTag(num: nat, wt: nat): seq<Byte> { EncodeVarint(8 * num + wt) }

  function EncodePayload(r: Record): seq<Byte>
    decreases r, 0
  {
    match r
    case Number(_, v) => EncodeVarint(v)
    case Fixed64(_, bytes) => bytes
    case Len(_, bytes) => EncodeVarint(|bytes|) + bytes
    case Group(num, recs) => EncodeAll(recs) + EncodeTag(num, END_GROUP)
    case Fixed32(_, bytes) => bytes
    case Cut(_, _, bytes) => bytes
  }

  function Encode(r: Record): seq<Byte>
    decreases r, 1
  {
    EncodeTag(r.num, WireType(r)) + EncodePayload(r)
  }

  function EncodeAll(rs: seq<Record>): seq<Byte> {
    if rs == [] then [] else Encode(rs[0]) + EncodeAll(rs[1..])
  }

  lemma Assoc(a: seq<Byte>, b: seq<Byte>, c: seq<Byte>)
    ensures a + b + c == a + (b + c)
  {
  }

  lemma Assoc5(a: seq<Byte>, b: seq<Byte>, c: seq<Byte>, d: seq<Byte>, e: seq<Byte>)
    ensures a + b + c + d + e == a + (b + (c + d + e))
  {
  }

  lemma {:induction false} EncodeAllAppends(a: seq<Record>, b: seq<Record>)
    ensures EncodeAll(a + b) == EncodeAll(a) + EncodeAll(b)
  {
    if a == [] {
      assert a + b == b;
    } else {
      var ab := a + b;
      assert ab[0] == a[0] && ab[1..] == a[1..] + b;
      EncodeAllAppends(a[1..], b);
      assert EncodeAll(ab) == Encode(a[0]) + (EncodeAll(a[1..]) + EncodeAll(b));
      Assoc(Encode(a[0]), EncodeAll(a[1..]), EncodeAll(b));
    }
  }

  // ------------------------------------------------------------------------------- what is stored

  /** A record an UnknownFieldSet can hold and its writer can write. */
  predicate Storable(r: Record) {
    && 0 < 8 * r.num + WireType(r) && 8 * r.num + 7 < TWO_32
    && match r
       case Number(_, v) => v < TWO_64
       case Fixed64(_, bytes) => |bytes| == 8
       case Len(_, bytes) => |bytes| < TWO_31
       case Group(_, recs) => forall i :: 0 <= i < |recs| ==> Storable(recs[i])
       case Fixed32(_, bytes) => |bytes| == 4
       case Cut(_, _, _) => false
  }

  predicate AllStorable(rs: seq<Record>) { forall i :: 0 <= i < |rs| ==> Storable(rs[i]) }

  function Max(a: nat, b: nat): nat { if a < b then b else a }

  /** How many groups are open at once while the record is read. */
  function GroupDepth(r: Record): nat {
    if r.Group? then 1 + GroupsDepth(r.recs) else 0
  }

  function GroupsDepth(rs: seq<Record>): nat {
    if rs == [] then 0 else Max(GroupDepth(rs[0]), GroupsDepth(rs[1..]))
  }

  lemma {:induction false} GroupsDepthBounds(rs: seq<Record>, d: nat)
    ensures GroupsDepth(rs) <= d <==> forall i :: 0 <= i < |rs| ==> GroupDepth(rs[i]) <= d
  {
    if rs != [] {
      GroupsDepthBounds(rs[1..], d);
      assert forall i :: 0 < i < |rs| ==> rs[i] == rs[1..][i - 1];
    }
  }

  // --------------------------------------------------------------------------------- reading back

  lemma TagRoundTrip(num: nat, wt: nat, tail: seq<Byte>)
    requires wt < 8 && 0 < 8 * num + wt < TWO_32
    ensures ReadTag(EncodeTag(num, wt) + tail) == Tag(num, wt, tail)
  {
    VarintRoundTrip(8 * num + wt, tail);
  }

  lemma LenRoundTrip(depth: nat, num: nat, bytes: seq<Byte>, tail: seq<Byte>)
    requires |bytes| < TWO_31
    ensures ReadPayload(depth, num, LENGTH_DELIMITED, EncodeVarint(|bytes|) + bytes + tail) == Got(Len(num, bytes), tail)
  {
    Assoc(EncodeVarint(|bytes|), bytes, tail);
    VarintRoundTrip(|bytes|, bytes + tail);
    assert (bytes + tail)[..|bytes|] == bytes && (bytes + tail)[|bytes|..] == tail;
  }

  lemma PlainRoundTrip(depth: nat, r: Record, tail: seq<Byte>)
    requires Storable(r) && !r.Group?
    ensures ReadPayload(depth, r.num, WireType(r), EncodePayload(r) + tail) == Got(r, tail)
  {
    match r
    case Number(_, v) => VarintRoundTrip(v, tail);
    case Len(num, bytes) => LenRoundTrip(depth, num, bytes, tail);
    case Fixed64(_, bytes) =>
      assert (bytes + tail)[..8] == bytes && (bytes + tail)[8..] == tail;
    case Fixed32(_, bytes) =>
      assert (bytes + tail)[..4] == bytes && (bytes + tail)[4..] == tail;
  }

  lemma GroupPayload(depth: nat, num: nat, bs: seq<Byte>)
    ensures AllStorable([]) && GroupsDepth([]) == 0
    ensures var x := ReadPayload(depth, num, START_GROUP, bs);
            if depth == 0 then x == Bad([])
            else
              var g := ReadGroup(depth - 1, num, bs);
              x == if g.Unclosed? then Bad([Group(num, g.left)]) else Got(Group(num, g.recs), g.rest)
  {
    hide ReadGroup;
  }

  /**
    A stored record is read back whole if its groups fit the recursion limit, and is refused
    otherwise; what follows it in the input does not matter.
   */
  lemma {:induction false} PayloadRoundTrip(depth: nat, r: Record, tail: seq<Byte>)
    requires Storable(r)
    ensures var x := ReadPayload(depth, r.num, WireType(r), EncodePayload(r) + tail);
            if GroupDepth(r) <= depth then x == Got(r, tail) else x.Bad?
    decreases r, 1
  {
    hide ReadPayload, ReadGroup, EncodePayload, EncodeAll;
    if r.Group? {
      GroupPayload(depth, r.num, EncodePayload(r) + tail);
      EncodedGroupPayload(r);
      if depth > 0 {
        GroupRoundTrip(depth - 1, r.num, r, r.recs, tail);
      }
    } else {
      PlainRoundTrip(depth, r, tail);
    }
  }

  lemma EncodedGroupPayload(r: Record)
    requires r.Group?
    ensures EncodePayload(r) == EncodeAll(r.recs) + EncodeTag(r.num, END_GROUP)
  {
  }

  lemma ReadGroupStep(depth: nat, num: nat, bs: seq<Byte>)
    requires ReadTag(bs).Tag? && ReadTag(bs).wt != END_GROUP
    ensures var t, x := ReadTag(bs), ReadGroup(depth, num, bs);
            var p := ReadPayload(depth, t.num, t.wt, t.rest);
            if p.Bad? || p.r.Cut? then x.Unclosed?
            else
              var more := ReadGroup(depth, num, p.rest);
              if more.Unclosed? then x.Unclosed? else x == Closed([p.r] + more.recs, more.rest)
  {
  }

  lemma EmptyGroupRoundTrip(depth: nat, num: nat, tail: seq<Byte>)
    requires 0 < 8 * num + END_GROUP < TWO_32
    ensures ReadGroup(depth, num, EncodeAll([]) + EncodeTag(num, END_GROUP) + tail) == Closed([], tail)
    ensures GroupsDepth([]) == 0
  {
    assert EncodeAll([]) + EncodeTag(num, END_GROUP) + tail == EncodeTag(num, END_GROUP) + tail;
    TagRoundTrip(num, END_GROUP, tail);
  }

  lemma FirstOfGroup(recs: seq<Record>, depth: nat)
    requires AllStorable(recs) && recs != []
    ensures Storable(recs[0]) && AllStorable(recs[1..])
    ensures WireType(recs[0]) != END_GROUP && 0 < 8 * recs[0].num + WireType(recs[0]) < TWO_32 && !recs[0].Cut?
    ensures GroupsDepth(recs) <= depth <==> GroupDepth(recs[0]) <= depth && GroupsDepth(recs[1..]) <= depth
  {
  }

  lemma EncodedGroup(recs: seq<Record>, end: seq<Byte>, tail: seq<Byte>)
    requires recs != []
    ensures EncodeAll(recs) + end + tail
         == EncodeTag(recs[0].num, WireType(recs[0])) + (EncodePayload(recs[0]) + (EncodeAll(recs[1..]) + end + tail))
  {
    var r := recs[0];
    Assoc5(EncodeTag(r.num, WireType(r)), EncodePayload(r), EncodeAll(recs[1..]), end, tail);
    Assoc(EncodeAll(recs[1..]), end, tail);
  }

  lemma {:induction false} GroupRoundTrip(depth: nat, num: nat, outer: Record, recs: seq<Record>, tail: seq<Byte>)
    requires AllStorable(recs) && 0 < 8 * num + END_GROUP < TWO_32
    requires outer.Group? && forall i :: 0 <= i < |recs| ==> recs[i] in outer.recs
    ensures var x := ReadGroup(depth, num, EncodeAll(recs) + EncodeTag(num, END_GROUP) + tail);
            if GroupsDepth(recs) <= depth then x == Closed(recs, tail) else x.Unclosed?
    decreases outer, 0, |recs|
  {
    hide *;
    var end := EncodeTag(num, END_GROUP);
    if recs == [] {
      EmptyGroupRoundTrip(depth, num, tail);
    } else {
      var r, more := recs[0], EncodeAll(recs[1..]) + end + tail;
      assert r in outer.recs;
      FirstOfGroup(recs, depth);
      EncodedGroup(recs, end, tail);
      TagRoundTrip(r.num, WireType(r), EncodePayload(r) + more);
      PayloadRoundTrip(depth, r, more);
      ReadGroupStep(depth, num, EncodeAll(recs) + end + tail);
      GroupRoundTrip(depth, num, outer, recs[1..], tail);
      assert [r] + recs[1..] == recs;
    }
  }

  /** A failed ReadString leaves what it got. */
  lemma TornIsStorable(r: Record)
    requires r.Cut? && 0 < 8 * r.num + LENGTH_DELIMITED && 8 * r.num + 7 < TWO_32
    requires r.n < TWO_31 ==> |r.bytes| < r.n
    ensures Storable(Torn(r)) && GroupDepth(Torn(r)) == 0
  {
  }

  /**
    Whatever is read can be stored, and so can what a failed read leaves behind; its groups fitted the
    recursion limit.
   */
  lemma {:induction false} ReadIsStorable(depth: nat, num: nat, wt: nat, bs: seq<Byte>)
    requires wt < 8 && 0 < 8 * num + wt < TWO_32
    ensures var x := ReadPayload(depth, num, wt, bs);
            if x.Bad? then AllStorable(x.left) && GroupsDepth(x.left) <= depth
            else if x.r.Cut? then Storable(Torn(x.r))
            else Storable(x.r) && GroupDepth(x.r) <= depth
    decreases |bs|, 1
  {
    hide ReadGroup, ReadPayload, Storable, GroupsDepth, GroupDepth;
    if wt == START_GROUP {
      GroupPayload(depth, num, bs);
      if depth > 0 {
        GroupIsStorable(depth - 1, num, bs);
        var g := ReadGroup(depth - 1, num, bs);
        OneGroup(num, if g.Closed? then g.recs else g.left, depth - 1);
      }
    } else {
      PlainReadIsStorable(depth, num, wt, bs);
    }
  }

  lemma OneGroup(num: nat, rs: seq<Record>, depth: nat)
    requires AllStorable(rs) && GroupsDepth(rs) <= depth && 0 < 8 * num + START_GROUP < TWO_32
    ensures Storable(Group(num, rs)) && AllStorable([Group(num, rs)])
    ensures GroupDepth(Group(num, rs)) <= depth + 1 && GroupsDepth([Group(num, rs)]) <= depth + 1
  {
    var r := Group(num, rs);
    assert [r][1..] == [];
    assert GroupsDepth([r]) == Max(GroupDepth(r), GroupsDepth([]));
  }

  lemma PlainReadIsStorable(depth: nat, num: nat, wt: nat, bs: seq<Byte>)
    requires wt < 8 && wt != START_GROUP && 0 < 8 * num + wt < TWO_32
    ensures var x := ReadPayload(depth, num, wt, bs);
            if x.Bad? then x.left == [] && GroupsDepth([]) == 0
            else if x.r.Cut? then Storable(Torn(x.r))
            else Storable(x.r) && GroupDepth(x.r) == 0
  {
    var x := ReadPayload(depth, num, wt, bs);
    if x.Got? && x.r.Cut? {
      TornIsStorable(x.r);
    }
  }

  lemma {:induction false} GroupIsStorable(depth: nat, num: nat, bs: seq<Byte>)
    ensures var x := ReadGroup(depth, num, bs);
            var rs := if x.Closed? then x.recs else x.left;
            AllStorable(rs) && GroupsDepth(rs) <= depth
    decreases |bs|, 0
  {
    var t := ReadTag(bs);
    if t.Tag? && t.wt != END_GROUP {
      ReadIsStorable(depth, t.num, t.wt, t.rest);
      var p := ReadPayload(depth, t.num, t.wt, t.rest);
      if p.Got? && p.r.Cut? {
        TornIsStorable(p.r);
      } else if p.Got? {
        GroupIsStorable(depth, num, p.rest);
      }
    }
  }

  // ------------------------------------------------------------------------------------- locality

  lemma {:induction false} TagIsLocal(bs: seq<Byte>, tail: seq<Byte>)
    requires ReadTag(bs).Tag?
    ensures var t := ReadTag(bs);
            bs == Used(bs, t.rest) + t.rest && ReadTag(Used(bs, t.rest) + tail) == Tag(t.num, t.wt, tail)
  {
    DecodeIsLocal(bs, MAX_VARINT_BYTES, tail);
  }

  lemma LenIsLocal(depth: nat, num: nat, bs: seq<Byte>, tail: seq<Byte>)
    requires ReadPayload(depth, num, LENGTH_DELIMITED, bs).Got? && !ReadPayload(depth, num, LENGTH_DELIMITED, bs).r.Cut?
    ensures var x := ReadPayload(depth, num, LENGTH_DELIMITED, bs);
            bs == Used(bs, x.rest) + x.rest
            && ReadPayload(depth, num, LENGTH_DELIMITED, Used(bs, x.rest) + tail) == Got(x.r, tail)
  {
    var n := ReadVarint32(bs);
    var body, after := n.rest[..n.v], n.rest[n.v..];
    assert n.rest == body + after && Used(n.rest, after) == body;
    DecodeIsLocal(bs, MAX_VARINT_BYTES, body + tail);
    UsedSplits(bs, n.rest, after, tail);
    assert (body + tail)[..n.v] == body && (body + tail)[n.v..] == tail;
  }

  /** What a complete record reads as depends only on the bytes it consumes. */
  lemma {:induction false} PayloadIsLocal(depth: nat, num: nat, wt: nat, bs: seq<Byte>, tail: seq<Byte>)
    requires wt < 8
    requires ReadPayload(depth, num, wt, bs).Got? && !ReadPayload(depth, num, wt, bs).r.Cut?
    ensures var x := ReadPayload(depth, num, wt, bs);
            bs == Used(bs, x.rest) + x.rest && ReadPayload(depth, num, wt, Used(bs, x.rest) + tail) == Got(x.r, tail)
    decreases |bs|, 1
  {
    var x := ReadPayload(depth, num, wt, bs);
    var used := Used(bs, x.rest) + tail;
    if wt == VARINT {
      DecodeIsLocal(bs, MAX_VARINT_BYTES, tail);
    } else if wt == LENGTH_DELIMITED {
      LenIsLocal(depth, num, bs, tail);
    } else if wt == START_GROUP {
      GroupIsLocal(depth - 1, num, bs, tail);
    } else if wt == FIXED64 {
      assert used[..8] == bs[..8] && used[8..] == tail && bs == bs[..8] + bs[8..];
    } else {
      assert used[..4] == bs[..4] && used[4..] == tail && bs == bs[..4] + bs[4..];
    }
  }

  lemma {:induction false} GroupIsLocal(depth: nat, num: nat, bs: seq<Byte>, tail: seq<Byte>)
    requires ReadGroup(depth, num, bs).Closed?
    ensures var x := ReadGroup(depth, num, bs);
            bs == Used(bs, x.rest) + x.rest && ReadGroup(depth, num, Used(bs, x.rest) + tail) == Closed(x.recs, tail)
    decreases |bs|, 0
  {
    var x := ReadGroup(depth, num, bs);
    var t := ReadTag(bs);
    if t.wt == END_GROUP {
      TagIsLocal(bs, tail);
    } else {
      var p := ReadPayload(depth, t.num, t.wt, t.rest);
      GroupIsLocal(depth, num, p.rest, tail);
      var tail1 := Used(p.rest, x.rest) + tail;
      PayloadIsLocal(depth, t.num, t.wt, t.rest, tail1);
      var tail2 := Used(t.rest, p.rest) + tail1;
      TagIsLocal(bs, tail2);
      UsedSplits(bs, t.rest, p.rest, tail1);
      UsedSplits(bs, p.rest, x.rest, tail);
    }
  }

  /** The next record of an input, tag and all; `Bad` also when no record starts there. */
  function NextRecord(depth: nat, bs: seq<Byte>): (x: Lexed)
    ensures x.Got? ==> |x.rest| < |bs|
  {
    var t := ReadTag(bs);
    if t.Tag? && t.wt != END_GROUP then ReadPayload(depth, t.num, t.wt, t.rest) else Bad([])
  }

  lemma NextIsLocal(depth: nat, bs: seq<Byte>, tail: seq<Byte>)
    requires NextRecord(depth, bs).Got? && !NextRecord(depth, bs).r.Cut?
    ensures var x := NextRecord(depth, bs);
            bs == Used(bs, x.rest) + x.rest && NextRecord(depth, Used(bs, x.rest) + tail) == Got(x.r, tail)
  {
    var x, t := NextRecord(depth, bs), ReadTag(bs);
    PayloadIsLocal(depth, t.num, t.wt, t.rest, tail);
    TagIsLocal(bs, Used(t.rest, x.rest) + tail);
    UsedSplits(bs, t.rest, x.rest, tail);
  }

  /** Appending to an input leaves its first record alone, unless that record was cut short. */
  lemma NextIgnoresMore(depth: nat, bs: seq<Byte>, more: seq<Byte>)
    requires NextRecord(depth, bs).Got? && !NextRecord(depth, bs).r.Cut?
    ensures NextRecord(depth, bs + more) == Got(NextRecord(depth, bs).r, NextRecord(depth, bs).rest + more)
  {
    var x := NextRecord(depth, bs);
    NextIsLocal(depth, bs, x.rest + more);
    Assoc(Used(bs, x.rest), x.rest, more);
  }

  /** The input is whole records up to its end: no length prefix reaches past it. */
  predicate EndsWhole(depth: nat, bs: seq<Byte>)
    decreases |bs|
  {
    bs == [] || (var x := NextRecord(depth, bs); x.Got? && !x.r.Cut? && EndsWhole(depth, x.rest))
  }

  lemma LenPayload(depth: nat, num: nat, bs: seq<Byte>)
    ensures var x, v := ReadPayload(depth, num, LENGTH_DELIMITED, bs), ReadVarint32(bs);
            if v.Malformed? then x == Bad([])
            else if v.v < TWO_31 && v.v <= |v.rest| then x == Got(Len(num, v.rest[..v.v]), v.rest[v.v..])
            else x == Got(Cut(num, v.v, v.rest), [])
  {
  }

  lemma VarintIgnoresMore(bs: seq<Byte>, more: seq<Byte>)
    requires ReadVarint32(bs).Value?
    ensures ReadVarint32(bs + more) == Value(ReadVarint32(bs).v, ReadVarint32(bs).rest + more)
  {
    var n := ReadVarint32(bs);
    DecodeIsLocal(bs, MAX_VARINT_BYTES, n.rest + more);
    Assoc(Used(bs, n.rest), n.rest, more);
  }

  /** A cut record takes from what is appended until its length is made up. */
  lemma CutTakesMore(depth: nat, bs: seq<Byte>, more: seq<Byte>)
    requires NextRecord(depth, bs).Got? && NextRecord(depth, bs).r.Cut?
    ensures NextRecord(depth, bs).rest == []
    ensures var x, y := NextRecord(depth, bs), NextRecord(depth, bs + more);
            && y.Got? && y.r.num == x.r.num && WireType(y.r) == LENGTH_DELIMITED
            && |y.rest| <= |more| && y.rest == more[|more| - |y.rest|..] && (more != [] ==> |y.rest| < |more|)
  {
    hide ReadPayload, ReadTag, ReadVarint32;
    var t := ReadTag(bs);
    TagIsLocal(bs, t.rest + more);
    Assoc(Used(bs, t.rest), t.rest, more);
    LenPayload(depth, t.num, t.rest);
    LenPayload(depth, t.num, t.rest + more);
    VarintIgnoresMore(t.rest, more);
    var n := ReadVarint32(t.rest);
    var payload := n.rest + more;
    if n.v < TWO_31 && n.v <= |payload| {
      assert payload[n.v..] == more[n.v - |n.rest|..];
    } else {
      assert more[|more|..] == [];
    }
  }

  // ---------------------------------------------------------------------------------------- sizes

  /** ComputeUnknownFieldsSize, record by record. */
  function RecordSize(r: Record): nat
    requires Storable(r)
  {
    var tag := VarintSize32(8 * r.num + WireType(r));
    match r
    case Number(_, v) => tag + VarintSize64(v)
    case Fixed64(_, _) => tag + 8
    case Len(_, bytes) => tag + VarintSize32(|bytes|) + |bytes|
    case Group(num, recs) => tag + UnknownSize(recs) + VarintSize32(8 * num + END_GROUP)
    case Fixed32(_, _) => tag + 4
  }

  function UnknownSize(rs: seq<Record>): nat
    requires AllStorable(rs)
  {
    if rs == [] then 0 else RecordSize(rs[0]) + UnknownSize(rs[1..])
  }

  lemma {:induction false} RecordSizeIsExact(r: Record)
    requires Storable(r)
    ensures RecordSize(r) == |Encode(r)|
    decreases r, 1
  {
    SizeTablesAreExact(8 * r.num + WireType(r));
    match r
    case Number(_, v) => SizeTablesAreExact(v);
    case Len(_, bytes) => SizeTablesAreExact(|bytes|);
    case Group(num, recs) =>
      UnknownSizeInside(r, recs);
      SizeTablesAreExact(8 * num + END_GROUP);
    case Fixed64(_, _) =>
    case Fixed32(_, _) =>
  }

  lemma {:induction false} UnknownSizeInside(outer: Record, rs: seq<Record>)
    requires AllStorable(rs)
    requires outer.Group? && forall i :: 0 <= i < |rs| ==> rs[i] in outer.recs
    ensures UnknownSize(rs) == |EncodeAll(rs)|
    decreases outer, 0, |rs|
  {
    if rs != [] {
      assert rs[0] in outer.recs;
      RecordSizeIsExact(rs[0]);
      UnknownSizeInside(outer, rs[1..]);
    }
  }

  lemma {:induction false} UnknownSizeIsExact(rs: seq<Record>)
    requires AllStorable(rs)
    ensures UnknownSize(rs) == |EncodeAll(rs)|
  {
    if rs != [] {
      RecordSizeIsExact(rs[0]);
      UnknownSizeIsExact(rs[1..]);
    }
  }
}
