/**
  WireFormatLite: the typed readers and writers the generated code calls. Each reader is stated
  against the plain parse loop: what that loop would do from this payload on, it does from where the
  reader stopped.
 */
module WireFormatLite {
  import opened Varint
  import opened Wire
  import opened Codec
  import opened RoundTrip
  import opened Stream

  // --------------------------------------------------------------------- the plain loop, case by case

  lemma ParseReadsTag(env: Env, s: Schema, bs: seq<Byte>, m: Msg)
    requires Shaped(s, m)
    ensures var t, o := Wire.ReadTag(bs), Parse(env, s, bs, m);
            if t.AtEnd? then o == Done(m, [], InputEnd)
            else if t.NoTag? then o == Done(m, t.rest, ZeroTag)
            else o == AfterTag(env, s, t.num, t.wt, t.rest, m)
  {
  }

  /** Having matched a one-byte tag is having read it. */
  lemma MatchedTag(env: Env, s: Schema, num: nat, wt: nat, bs: seq<Byte>, m: Msg)
    requires Shaped(s, m) && wt < 8 && bs != [] && bs[0] == 8 * num + wt && 0 < bs[0] < 128
    ensures Parse(env, s, bs, m) == AfterTag(env, s, num, wt, bs[1..], m)
  {
    OneByteVarint(bs);
    assert Wire.ReadTag(bs) == Tag(num, wt, bs[1..]);
  }

  lemma ScalarAfterTag(env: Env, s: Schema, num: nat, bs: seq<Byte>, m: Msg)
    requires Shaped(s, m) && 1 <= num <= |s.fields| && s.fields[num - 1].Optional?
    ensures AfterTag(env, s, num, VARINT, bs, m)
         == match Varint.ReadVarint64(bs)
            case Malformed => Fail(m)
            case Value(v, rest) => Parse(env, s, rest, Set(m, num - 1, Scalar(true, FromWire(s.fields[num - 1].k, v))))
  {
    var x := Varint.ReadVarint64(bs);
    if x.Value? {
      assert ReadPayload(env.depth, num, VARINT, bs) == Got(Number(num, x.v), x.rest);
      assert Apply(env, s, Number(num, x.v), m) == Ok(Set(m, num - 1, Scalar(true, FromWire(s.fields[num - 1].k, x.v))));
    } else {
      assert ReadPayload(env.depth, num, VARINT, bs) == Bad([]);
    }
  }

  lemma ElementAfterTag(env: Env, s: Schema, num: nat, bs: seq<Byte>, m: Msg)
    requires Shaped(s, m) && 1 <= num <= |s.fields| && s.fields[num - 1].Repeated? && m.vals[num - 1].Ints?
    ensures AfterTag(env, s, num, VARINT, bs, m)
         == match Varint.ReadVarint64(bs)
            case Malformed => Fail(m)
            case Value(v, rest) => Parse(env, s, rest, AddInts(m, num - 1, [FromWire(s.fields[num - 1].k, v)]))
  {
    var x := Varint.ReadVarint64(bs);
    if x.Value? {
      assert ReadPayload(env.depth, num, VARINT, bs) == Got(Number(num, x.v), x.rest);
      assert Apply(env, s, Number(num, x.v), m) == Ok(AddInts(m, num - 1, [FromWire(s.fields[num - 1].k, x.v)]));
    } else {
      assert ReadPayload(env.depth, num, VARINT, bs) == Bad([]);
    }
  }

  lemma PackedAfterTag(env: Env, s: Schema, num: nat, bs: seq<Byte>, m: Msg)
    requires Shaped(s, m) && 1 <= num <= |s.fields| && s.fields[num - 1].Repeated? && m.vals[num - 1].Ints?
    ensures AfterTag(env, s, num, LENGTH_DELIMITED, bs, m)
         == match Delimited(env.clamp, bs)
            case Refused => Fail(m)
            case Payload(bytes, rest) =>
              var (xs, whole) := ReadPacked(s.fields[num - 1].k, bytes);
              if whole then Parse(env, s, rest, AddInts(m, num - 1, xs)) else Fail(AddInts(m, num - 1, xs))
  {
    hide Codec.ReadPacked;
    LenPayload(env.depth, num, bs);
  }

  lemma MessageAfterTag(env: Env, s: Schema, num: nat, bs: seq<Byte>, m: Msg)
    requires Shaped(s, m) && 1 <= num <= |s.fields| && s.fields[num - 1].Nested? && m.vals[num - 1].Msgs?
    ensures AfterTag(env, s, num, LENGTH_DELIMITED, bs, m) == AfterMessage(env, s, num, Delimited(env.clamp, bs), m)
  {
  }

  function AfterMessage(env: Env, s: Schema, num: nat, d: Delimit, m: Msg): Outcome
    requires Shaped(s, m) && 1 <= num <= |s.fields| && s.fields[num - 1].Nested? && m.vals[num - 1].Msgs?
  {
    var sub := s.fields[num - 1].s;
    if d.Refused? || env.depth == 0 then Fail(AddMsg(m, num - 1, Fresh(sub)))
    else
      var inner := Parse(env.Deeper(), sub, d.bytes, Fresh(sub));
      var m' := AddMsg(m, num - 1, inner.m);
      if inner.Complete() then Parse(env, s, d.rest, m') else Fail(m')
  }

  /** The same, told by what the element became and whether it was read to its end. */
  function AfterElement(env: Env, s: Schema, num: nat, x: Msg, ok: bool, rest: seq<Byte>, m: Msg): Outcome
    requires Shaped(s, m) && 1 <= num <= |s.fields| && s.fields[num - 1].Nested? && m.vals[num - 1].Msgs?
  {
    var m' := AddMsg(m, num - 1, x);
    if ok then Parse(env, s, rest, m') else Fail(m')
  }

  lemma AfterElementMeans(env: Env, s: Schema, num: nat, x: Msg, ok: bool, rest: seq<Byte>, m: Msg)
    requires Shaped(s, m) && 1 <= num <= |s.fields| && s.fields[num - 1].Nested? && m.vals[num - 1].Msgs?
    ensures Shaped(s, AddMsg(m, num - 1, x))
    ensures AfterElement(env, s, num, x, ok, rest, m)
         == if ok then Parse(env, s, rest, AddMsg(m, num - 1, x)) else Fail(AddMsg(m, num - 1, x))
  {
  }

  lemma EndGroupAfterTag(env: Env, s: Schema, num: nat, bs: seq<Byte>, m: Msg)
    requires Shaped(s, m)
    ensures AfterTag(env, s, num, END_GROUP, bs, m) == Done(m, bs, EndGroupTag)
  {
  }

  lemma UnknownAfterTag(env: Env, s: Schema, num: nat, wt: nat, bs: seq<Byte>, m: Msg)
    requires Shaped(s, m) && wt < 8 && wt != END_GROUP && !Accepts(s, num, wt)
    ensures var x := ReadPayload(env.depth, num, wt, bs);
            AfterTag(env, s, num, wt, bs, m)
            == if x.Bad? then Fail(AddUnknowns(m, x.left))
               else if x.r.Cut? then Fail(AddUnknowns(m, [Torn(x.r)]))
               else Parse(env, s, x.rest, AddUnknowns(m, [x.r]))
  {
  }

  // ------------------------------------------------------------------------------------------ reading

  /** ReadPrimitive. A failed read leaves the field alone, so the message is as before. */
  method ReadPrimitive(input: CodedInputStream, k: Kind, ghost s: Schema, ghost num: nat, ghost m: Msg)
      returns (ok: bool, x: int)
    requires input.Valid() && Shaped(s, m) && 1 <= num <= |s.fields| && s.fields[num - 1] == Optional(k)
    modifies input`pos
    ensures input.Valid() && InRange(k, x)
    ensures ok ==> |input.Rest()| < |old(input.Rest())|
    ensures AfterTag(input.Environment(), s, num, VARINT, old(input.Rest()), m)
         == if ok then Parse(input.Environment(), s, input.Rest(), Set(m, num - 1, Scalar(true, x))) else Fail(m)
  {
    ScalarAfterTag(input.Environment(), s, num, input.Rest(), m);
    var v;
    ok, v := input.ReadVarint64();
    x := FromWire(k, if ok then v else 0);
  }

  /** The plain loop on one more element of the list it is in. */
  lemma AnotherElement(env: Env, s: Schema, num: nat, bs: seq<Byte>, m: Msg, xs: seq<int>)
    requires Shaped(s, m) && 1 <= num <= |s.fields| && s.fields[num - 1].Repeated? && m.vals[num - 1].Ints?
    requires bs != [] && bs[0] == 8 * num + VARINT < 128
    ensures Parse(env, s, bs, AddInts(m, num - 1, xs))
         == match Varint.ReadVarint64(bs[1..])
            case Malformed => Fail(AddInts(m, num - 1, xs))
            case Value(v, rest) => Parse(env, s, rest, AddInts(m, num - 1, xs + [FromWire(s.fields[num - 1].k, v)]))
  {
    var m' := AddInts(m, num - 1, xs);
    MatchedTag(env, s, num, VARINT, bs, m');
    ElementAfterTag(env, s, num, bs[1..], m');
    var x := Varint.ReadVarint64(bs[1..]);
    if x.Value? {
      AddedTwice(m, num - 1, xs, [FromWire(s.fields[num - 1].k, x.v)]);
    }
  }

  /**
    ReadRepeatedPrimitive: one element, then as many more as the list has room reserved for and the
    same tag is seen to precede.
   */
  method ReadRepeatedPrimitive(input: CodedInputStream, k: Kind, tag: Byte, ghost s: Schema, ghost num: nat, ghost m: Msg)
      returns (ok: bool, xs: seq<int>)
    requires input.Valid() && Shaped(s, m) && 1 <= num <= |s.fields| && s.fields[num - 1] == Repeated(k)
    requires m.vals[num - 1].Ints? && tag == 8 * num + VARINT < 128
    modifies input`pos
    ensures input.Valid() && AllInRange(k, xs)
    ensures ok ==> |input.Rest()| < |old(input.Rest())|
    ensures AfterTag(input.Environment(), s, num, VARINT, old(input.Rest()), m)
         == if ok then Parse(input.Environment(), s, input.Rest(), AddInts(m, num - 1, xs))
            else Fail(AddInts(m, num - 1, xs))
  {
    hide Codec.Parse, Codec.AfterTag;
    ghost var env := input.Environment();
    ElementAfterTag(env, s, num, input.Rest(), m);
    var v;
    ok, v := input.ReadVarint64();
    if !ok {
      NoElementsAdded(m, num - 1);
      return false, [];
    }
    xs := [FromWire(k, v)];
    var reserved: bool := *;
    while reserved
      invariant ok && input.Valid() && AllInRange(k, xs) && |input.Rest()| < |old(input.Rest())|
      invariant AfterTag(env, s, num, VARINT, old(input.Rest()), m)
          == Parse(env, s, input.Rest(), AddInts(m, num - 1, xs))
      decreases |input.Rest()|
    {
      ghost var at := input.Rest();
      var again := input.ExpectTag(tag);
      if !again {
        break;
      }
      AnotherElement(env, s, num, at, m, xs);
      ok, v := input.ReadVarint64();
      if !ok {
        break;
      }
      xs := xs + [FromWire(k, v)];
      reserved := *;
    }
  }

  /** ReadPackedPrimitive: elements up to the pushed limit; those read before a failure stay. */
  method ReadPackedPrimitive(input: CodedInputStream, k: Kind, ghost s: Schema, ghost num: nat, ghost m: Msg)
      returns (ok: bool, xs: seq<int>)
    requires input.Valid() && !input.legitimateEnd
    requires Shaped(s, m) && 1 <= num <= |s.fields| && s.fields[num - 1] == Repeated(k) && m.vals[num - 1].Ints?
    modifies input`pos, input`limit, input`legitimateEnd
    ensures input.Valid() && !input.legitimateEnd && AllInRange(k, xs)
    ensures ok ==> |input.Rest()| < |old(input.Rest())| && input.limit == old(input.limit)
    ensures AfterTag(input.Environment(), s, num, LENGTH_DELIMITED, old(input.Rest()), m)
         == if ok then Parse(input.Environment(), s, input.Rest(), AddInts(m, num - 1, xs))
            else Fail(AddInts(m, num - 1, xs))
  {
    ghost var env := input.Environment();
    PackedAfterTag(env, s, num, input.Rest(), m);
    var outer;
    xs := [];
    ok, outer := input.PushLength();
    if ok {
      ok, xs := ReadToLimit(input, k);
      if ok {
        input.PopLimit(outer);
      }
    } else {
      NoElementsAdded(m, num - 1);
    }
  }

  lemma PackedStep(k: Kind, xs: seq<int>, bs: seq<Byte>)
    requires bs != []
    ensures var x, more := Varint.ReadVarint64(bs), ReadPacked(k, bs);
            if x.Malformed? then (xs + more.0, more.1) == (xs, false)
            else (xs + more.0, more.1) == (xs + [FromWire(k, x.v)] + ReadPacked(k, x.rest).0, ReadPacked(k, x.rest).1)
  {
    assert xs + [] == xs;
    var x := Varint.ReadVarint64(bs);
    if x.Value? {
      assert xs + ([FromWire(k, x.v)] + ReadPacked(k, x.rest).0) == xs + [FromWire(k, x.v)] + ReadPacked(k, x.rest).0;
    }
  }

  /** Varints up to the pushed limit, appended as they are read. */
  method ReadToLimit(input: CodedInputStream, k: Kind) returns (ok: bool, xs: seq<int>)
    requires input.Valid()
    modifies input`pos
    ensures input.Valid() && (ok ==> input.pos == input.limit)
    ensures ReadPacked(k, old(input.Rest())) == (xs, ok)
  {
    xs := [];
    ghost var payload := ReadPacked(k, input.Rest());
    assert [] + payload.0 == payload.0;
    while input.pos < input.limit
      invariant input.Valid()
      invariant payload == (xs + ReadPacked(k, input.Rest()).0, ReadPacked(k, input.Rest()).1)
      decreases |input.Rest()|
    {
      PackedStep(k, xs, input.Rest());
      var v;
      ok, v := input.ReadVarint64();
      if !ok {
        return;
      }
      xs := xs + [FromWire(k, v)];
    }
    ok := true;
    assert input.Rest() == [] && xs + [] == xs;
  }

  /**
    SkipField at handle_uninterpreted: the record goes to the unknown fields as it is, and what was read of
    it goes there if it cannot be read to its end.
   */
  method ReadUnknown(input: CodedInputStream, num: nat, wt: nat, ghost s: Schema, ghost m: Msg)
      returns (ok: bool, kept: seq<Record>)
    requires input.Valid() && Shaped(s, m) && wt < 8 && wt != END_GROUP && !Accepts(s, num, wt)
    requires 0 < 8 * num + wt < TWO_32
    modifies input`pos
    ensures input.Valid() && AllForeign(s, kept) && |input.Rest()| <= |old(input.Rest())|
    ensures AfterTag(input.Environment(), s, num, wt, old(input.Rest()), m)
         == if ok then Parse(input.Environment(), s, input.Rest(), AddUnknowns(m, kept)) else Fail(AddUnknowns(m, kept))
  {
    UnknownAfterTag(input.Environment(), s, num, wt, input.Rest(), m);
    ReadIsStorable(input.depth, num, wt, input.Rest());
    ok, kept := input.SkipField(num, wt);
  }

  /** The first half of ReadMessageNoVirtual: the length, one level of recursion, the limit. */
  method BeginMessage(input: CodedInputStream) returns (ok: bool, outer: nat)
    requires input.Valid()
    modifies input`pos, input`limit, input`depth
    ensures input.Valid()
    ensures var d := Delimited(input.clamp, old(input.Rest()));
            if d.Refused? || old(input.depth) == 0 then !ok
            else ok && input.depth == old(input.depth) - 1 && input.Rest() == d.bytes
                 && input.limit <= outer == old(input.limit) && input.data[input.limit..outer] == d.rest
  {
    ok, outer := input.PushLength();
    if ok {
      if input.depth == 0 {
        ok := false;
      } else {
        input.depth := input.depth - 1;
      }
    }
  }

  /** The second half: PopLimit and DecrementRecursionDepth, once the whole payload was consumed. */
  method EndMessage(input: CodedInputStream, outer: nat)
    requires input.Valid() && input.pos == input.limit <= outer <= |input.data|
    modifies input`limit, input`depth, input`legitimateEnd
    ensures input.Valid() && input.limit == outer && input.depth == old(input.depth) + 1 && !input.legitimateEnd
    ensures input.Rest() == input.data[old(input.limit)..outer]
  {
    input.PopLimit(outer);
    input.depth := input.depth + 1;
  }

  // ------------------------------------------------------------------------------------------ writing

  /** Copies bytes to `at` and moves on; nothing else in the buffer changes. */
  method WriteRaw(bs: seq<Byte>, buf: array<Byte>, at: nat) returns (end: nat)
    requires at + |bs| <= buf.Length
    modifies buf
    ensures end == at + |bs|
    ensures buf[..end] == old(buf[..at]) + bs
    ensures buf[end..] == old(buf[end..])
  {
    end := at;
    for i := 0 to |bs|
      invariant end == at + i
      invariant buf[..end] == old(buf[..at]) + bs[..i]
      invariant forall j :: end <= j < buf.Length ==> buf[j] == old(buf[j])
    {
      buf[end] := bs[i];
      end := end + 1;
    }
    assert bs[..|bs|] == bs;
  }

  /** WriteUInt32ToArray, WriteInt32ToArray and WriteInt64ToArray: a tag and a varint. */
  method WriteToArray(num: nat, k: Kind, x: int, buf: array<Byte>, at: nat) returns (end: nat)
    requires InRange(k, x) && at + |Encode(Number(num, ToWire(k, x)))| <= buf.Length
    modifies buf
    ensures end == at + |Encode(Number(num, ToWire(k, x)))|
    ensures buf[..end] == old(buf[..at]) + Encode(Number(num, ToWire(k, x)))
    ensures buf[end..] == old(buf[end..])
  {
    end := WriteRaw(EncodeTag(num, VARINT), buf, at);
    label tagged:
    end := WriteRaw(EncodeVarint(ToWire(k, x)), buf, end);
    Assoc(old(buf[..at]), EncodeTag(num, VARINT), EncodeVarint(ToWire(k, x)));
    assert buf[end..] == old@tagged(buf[..])[end..] == old(buf[..])[end..];
  }
}
