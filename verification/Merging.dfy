/**
  Concatenating serialized messages merges them ("Last One Wins" in the Protocol Buffers Encoding
  specification), and what MergeFrom and CopyFrom satisfy as operations on values.
 */
module Merging {
  import opened Varint
  import opened Wire
  import opened Codec
  import opened RoundTrip

  // ------------------------------------------------------------------------- parsing on top of a value

  function MergeOutcome(s: Schema, a: Msg, o: Outcome): Outcome
    requires Shaped(s, a) && Shaped(s, o.m)
  {
    match o
    case Done(m, rest, end) => Done(Merge(s, a, m), rest, end)
    case Fail(m) => Fail(Merge(s, a, m))
  }

  lemma MergeSet(s: Schema, a: Msg, m: Msg, i: nat, v: Value, w: Value)
    requires Shaped(s, a) && Shaped(s, m) && i < |s.fields| && HasShape(s.fields[i], v) && HasShape(s.fields[i], w)
    requires MergeValue(a.vals[i], v) == w
    ensures Merge(s, a, Set(m, i, v)) == Set(Merge(s, a, m), i, w)
  {
    assert Merge(s, a, Set(m, i, v)).vals == Set(Merge(s, a, m), i, w).vals;
  }

  lemma MergeAddInts(s: Schema, a: Msg, m: Msg, i: nat, xs: seq<int>)
    requires Shaped(s, a) && Shaped(s, m) && i < |s.fields| && s.fields[i].Repeated?
    ensures a.vals[i].Ints? && m.vals[i].Ints?
    ensures Merge(s, a, AddInts(m, i, xs)) == AddInts(Merge(s, a, m), i, xs)
  {
    assert HasShape(s.fields[i], a.vals[i]) && HasShape(s.fields[i], m.vals[i]);
    assert a.vals[i].xs + (m.vals[i].xs + xs) == a.vals[i].xs + m.vals[i].xs + xs;
    MergeSet(s, a, m, i, Ints(m.vals[i].xs + xs), Ints(a.vals[i].xs + m.vals[i].xs + xs));
  }

  lemma MergeAddMsg(s: Schema, a: Msg, m: Msg, i: nat, x: Msg)
    requires Shaped(s, a) && Shaped(s, m) && i < |s.fields| && s.fields[i].Nested?
    ensures a.vals[i].Msgs? && m.vals[i].Msgs?
    ensures Merge(s, a, AddMsg(m, i, x)) == AddMsg(Merge(s, a, m), i, x)
  {
    assert HasShape(s.fields[i], a.vals[i]) && HasShape(s.fields[i], m.vals[i]);
    assert a.vals[i].ms + (m.vals[i].ms + [x]) == a.vals[i].ms + m.vals[i].ms + [x];
    MergeSet(s, a, m, i, Msgs(m.vals[i].ms + [x]), Msgs(a.vals[i].ms + m.vals[i].ms + [x]));
  }

  lemma ApplyUnderMerge(env: Env, s: Schema, r: Record, a: Msg, m: Msg)
    requires Shaped(s, a) && Shaped(s, m)
    ensures var plain := Apply(env, s, r, m);
            Apply(env, s, r, Merge(s, a, m)) == if plain.Ok? then Ok(Merge(s, a, plain.m)) else Err(Merge(s, a, plain.m))
  {
    if !Accepts(s, r.num, WireType(r)) {
      assert a.unknown + (m.unknown + [r]) == a.unknown + m.unknown + [r];
    } else {
      var i := r.num - 1;
      match s.fields[i]
      case Optional(k) =>
        var v := Scalar(true, FromWire(k, r.v % TWO_64));
        MergeSet(s, a, m, i, v, v);
      case Repeated(k) =>
        if r.Number? {
          MergeAddInts(s, a, m, i, [FromWire(k, r.v % TWO_64)]);
        } else {
          MergeAddInts(s, a, m, i, ReadPacked(k, r.bytes).0);
        }
      case Nested(sub) =>
        MergeAddMsg(s, a, m, i, Fresh(sub));
        if env.depth > 0 {
          MergeAddMsg(s, a, m, i, Parse(env.Deeper(), sub, r.bytes, Fresh(sub)).m);
        }
    }
  }

  /** Parsing into a message is parsing into a fresh one and merging, whatever the outcome. */
  lemma {:induction false} ParseUnderMerge(env: Env, s: Schema, bs: seq<Byte>, a: Msg, m: Msg)
    requires Shaped(s, a) && Shaped(s, m)
    ensures Parse(env, s, bs, Merge(s, a, m)) == MergeOutcome(s, a, Parse(env, s, bs, m))
    decreases |bs|
  {
    var t := ReadTag(bs);
    if t.Tag? && t.wt != END_GROUP {
      var p := ReadPayload(env.depth, t.num, t.wt, t.rest);
      if p.Got? {
        ApplyUnderMerge(env, s, p.r, a, m);
        ParseUnderMerge(env, s, p.rest, a, Apply(env, s, p.r, m).m);
      } else if Accepts(s, t.num, t.wt) && s.fields[t.num - 1].Nested? {
        MergeAddMsg(s, a, m, t.num - 1, Fresh(s.fields[t.num - 1].s));
      }
    }
  }

  lemma MergeFresh(s: Schema, a: Msg)
    requires Shaped(s, a)
    ensures Merge(s, a, Fresh(s)) == a
  {
    forall i | 0 <= i < |s.fields|
      ensures MergeValue(a.vals[i], Default(s.fields[i])) == a.vals[i]
    {
      assert HasShape(s.fields[i], a.vals[i]);
    }
    assert Merge(s, a, Fresh(s)).vals == a.vals;
    assert a.unknown + [] == a.unknown;
  }

  // ------------------------------------------------------------------------------- concatenated input

  lemma {:induction false} StrictParseEndsWhole(env: Env, s: Schema, bs: seq<Byte>, m: Msg)
    requires Shaped(s, m) && Parse(env, s, bs, m).Complete() && !env.clamp
    ensures EndsWhole(env.depth, bs)
    decreases |bs|
  {
    if bs != [] {
      CompleteNext(env, s, bs, m);
      var x := NextRecord(env.depth, bs);
      StrictParseEndsWhole(env, s, x.rest, Apply(env, s, x.r, m).m);
    }
  }

  /** Parsing a complete input and then more is parsing more into what the first gave. */
  lemma {:induction false} ParseThenMore(env: Env, s: Schema, b1: seq<Byte>, b2: seq<Byte>, m: Msg)
    requires Shaped(s, m) && Parse(env, s, b1, m).Complete() && EndsWhole(env.depth, b1)
    ensures Parse(env, s, b1 + b2, m) == Parse(env, s, b2, Parse(env, s, b1, m).m)
    decreases |b1|
  {
    if b1 == [] {
      assert b1 + b2 == b2;
    } else {
      var x := NextRecord(env.depth, b1);
      CompleteNext(env, s, b1, m);
      NextIgnoresMore(env.depth, b1, b2);
      ParseNext(env, s, b1 + b2, m);
      ParseThenMore(env, s, x.rest, b2, Apply(env, s, x.r, m).m);
    }
  }

  /** Two complete inputs in a row are one complete input, and it holds their merge. */
  lemma ConcatenationIsMerge(env: Env, s: Schema, b1: seq<Byte>, b2: seq<Byte>)
    requires Parse(env, s, b1, Fresh(s)).Complete() && Parse(env, s, b2, Fresh(s)).Complete()
    requires EndsWhole(env.depth, b1)
    ensures Parse(env, s, b1 + b2, Fresh(s))
         == Done(Merge(s, Parse(env, s, b1, Fresh(s)).m, Parse(env, s, b2, Fresh(s)).m), [], InputEnd)
  {
    var m1 := Parse(env, s, b1, Fresh(s)).m;
    ParseThenMore(env, s, b1, b2, Fresh(s));
    MergeFresh(s, m1);
    ParseUnderMerge(env, s, b2, m1, Fresh(s));
  }

  // A record of an unknown fixed-width field: the probe that tells a cut input from a whole one.
  const PROBE: seq<Byte> := [0x0D, 0, 0, 0, 0]

  lemma ProbeIsForeign(env: Env, s: Schema, m: Msg)
    requires Shaped(s, m)
    ensures Parse(env, s, PROBE, m) == Done(AddUnknown(m, Fixed32(1, [0, 0, 0, 0])), [], InputEnd)
  {
    var r := Fixed32(1, [0, 0, 0, 0]);
    assert EncodeVarint(13) == [13];
    assert Encode(r) + [] == PROBE;
    ParseStep(env, s, r, [], m);
  }

  lemma ZeroEndsTheLoop(env: Env, s: Schema, bs: seq<Byte>, m: Msg)
    requires Shaped(s, m) && bs != [] && bs[0] == 0
    ensures !Parse(env, s, bs, m).Complete()
  {
  }

  lemma AcceptedKeepsUnknown(env: Env, s: Schema, r: Record, m: Msg)
    requires Shaped(s, m) && Accepts(s, r.num, WireType(r))
    ensures Apply(env, s, r, m).m.unknown == m.unknown
  {
  }

  lemma CutKeepsUnknown(env: Env, s: Schema, bs: seq<Byte>, m: Msg)
    requires Shaped(s, m) && Parse(env, s, bs, m).Complete() && bs != []
    requires NextRecord(env.depth, bs).Got? && NextRecord(env.depth, bs).r.Cut?
    ensures Accepts(s, NextRecord(env.depth, bs).r.num, LENGTH_DELIMITED)
    ensures Parse(env, s, bs, m).m.unknown == m.unknown
  {
    var x := NextRecord(env.depth, bs);
    CutTakesMore(env.depth, bs, []);
    CompleteNext(env, s, bs, m);
    AcceptedKeepsUnknown(env, s, x.r, m);
  }

  /** A cut record at the end of the input swallows at least the head of what is appended to it. */
  lemma CutSwallowsMore(env: Env, s: Schema, bs: seq<Byte>, more: seq<Byte>, m: Msg)
    requires Shaped(s, m) && more != [] && forall k :: 0 < k < |more| ==> more[k] == 0
    requires NextRecord(env.depth, bs).Got? && NextRecord(env.depth, bs).r.Cut?
    requires Accepts(s, NextRecord(env.depth, bs).r.num, LENGTH_DELIMITED)
    ensures Parse(env, s, bs + more, m).Complete() ==> Parse(env, s, bs + more, m).m.unknown == m.unknown
  {
    CutTakesMore(env.depth, bs, more);
    var y := NextRecord(env.depth, bs + more);
    AcceptedKeepsUnknown(env, s, y.r, m);
    ParseNext(env, s, bs + more, m);
    if y.rest != [] {
      ZeroEndsTheLoop(env, s, y.rest, Apply(env, s, y.r, m).m);
    }
  }

  lemma {:induction false} CutInputDoesNotCompose(env: Env, s: Schema, bs: seq<Byte>, m: Msg)
    requires Shaped(s, m) && Parse(env, s, bs, m).Complete() && !EndsWhole(env.depth, bs)
    ensures Parse(env, s, bs + PROBE, m) != Parse(env, s, PROBE, Parse(env, s, bs, m).m)
    decreases |bs|
  {
    var x := NextRecord(env.depth, bs);
    CompleteNext(env, s, bs, m);
    if x.r.Cut? {
      CutKeepsUnknown(env, s, bs, m);
      CutSwallowsMore(env, s, bs, PROBE, m);
      ProbeIsForeign(env, s, Parse(env, s, bs, m).m);
    } else {
      var a := Apply(env, s, x.r, m);
      NextIgnoresMore(env.depth, bs, PROBE);
      ParseNext(env, s, bs + PROBE, m);
      CutInputDoesNotCompose(env, s, x.rest, a.m);
    }
  }

  /**
    A complete input may be continued by any other exactly when no length prefix in it reaches past
    its end, which a reader that clamps such prefixes accepts all the same.
   */
  lemma ComposesExactlyWhenWhole(env: Env, s: Schema, b1: seq<Byte>, m: Msg)
    requires Shaped(s, m) && Parse(env, s, b1, m).Complete()
    ensures (forall b2 :: Parse(env, s, b1 + b2, m) == Parse(env, s, b2, Parse(env, s, b1, m).m))
       <==> EndsWhole(env.depth, b1)
    ensures !env.clamp ==> EndsWhole(env.depth, b1)
  {
    if EndsWhole(env.depth, b1) {
      forall b2
        ensures Parse(env, s, b1 + b2, m) == Parse(env, s, b2, Parse(env, s, b1, m).m)
      {
        ParseThenMore(env, s, b1, b2, m);
      }
    } else {
      CutInputDoesNotCompose(env, s, b1, m);
    }
    if !env.clamp {
      StrictParseEndsWhole(env, s, b1, m);
    }
  }

  // ------------------------------------------------------------------------------------------ algebra

  lemma MergeIsAssociative(s: Schema, a: Msg, b: Msg, c: Msg)
    requires Shaped(s, a) && Shaped(s, b) && Shaped(s, c)
    ensures Merge(s, Merge(s, a, b), c) == Merge(s, a, Merge(s, b, c))
  {
    forall i | 0 <= i < |s.fields|
      ensures MergeValue(MergeValue(a.vals[i], b.vals[i]), c.vals[i])
          == MergeValue(a.vals[i], MergeValue(b.vals[i], c.vals[i]))
    {
      assert HasShape(s.fields[i], a.vals[i]) && HasShape(s.fields[i], b.vals[i]) && HasShape(s.fields[i], c.vals[i]);
      match s.fields[i]
      case Optional(_) =>
      case Repeated(_) =>
        assert a.vals[i].xs + b.vals[i].xs + c.vals[i].xs == a.vals[i].xs + (b.vals[i].xs + c.vals[i].xs);
      case Nested(_) =>
        assert a.vals[i].ms + b.vals[i].ms + c.vals[i].ms == a.vals[i].ms + (b.vals[i].ms + c.vals[i].ms);
    }
    assert Merge(s, Merge(s, a, b), c).vals == Merge(s, a, Merge(s, b, c)).vals;
    assert a.unknown + b.unknown + c.unknown == a.unknown + (b.unknown + c.unknown);
  }

  /** Clear then MergeFrom copies a message exactly when nothing hides behind its clear presence bits. */
  lemma CopyIsExactlyForDefaults(s: Schema, a: Msg)
    requires Shaped(s, a)
    ensures Merge(s, Fresh(s), a) == a
       <==> forall i :: 0 <= i < |s.fields| && a.vals[i].Scalar? && !a.vals[i].has ==> a.vals[i].v == 0
    ensures Valid(s, a) ==> Merge(s, Fresh(s), a) == a
  {
    var c := Merge(s, Fresh(s), a);
    forall i | 0 <= i < |s.fields|
      ensures c.vals[i] == a.vals[i] <==> (a.vals[i].Scalar? && !a.vals[i].has ==> a.vals[i].v == 0)
    {
      assert HasShape(s.fields[i], a.vals[i]);
      if a.vals[i].Ints? {
        assert [] + a.vals[i].xs == a.vals[i].xs;
      } else if a.vals[i].Msgs? {
        assert [] + a.vals[i].ms == a.vals[i].ms;
      }
    }
    assert [] + a.unknown == a.unknown;
    if forall i :: 0 <= i < |s.fields| && a.vals[i].Scalar? && !a.vals[i].has ==> a.vals[i].v == 0 {
      assert c.vals == a.vals;
    }
    if Valid(s, a) {
      assert forall i :: 0 <= i < |s.fields| ==> ValidValue(s.fields[i], a.vals[i]);
    }
  }

  /** On the wire too: the serialized forms of two messages in a row are their merge. */
  lemma SerializedConcatenationIsMerge(env: Env, s: Schema, a: Msg, b: Msg)
    requires OneByteTags(s) && Valid(s, a) && Valid(s, b) && Fits(s, a, env.depth) && Fits(s, b, env.depth)
    requires |Serialize(s, a)| < TWO_31 && |Serialize(s, b)| < TWO_31
    ensures Parse(env, s, Serialize(s, a) + Serialize(s, b), Fresh(s)) == Done(Merge(s, a, b), [], InputEnd)
  {
    ParseUndoesSerialize(env, s, a);
    AllRecordsRestored(env, s, a);
    AllRecordsAreStorable(s, a);
    ParseEncoded(env, s, AllRecords(s, a), Serialize(s, b), Fresh(s));
    ParseUndoesSerialize(env, s, b);
    MergeFresh(s, a);
    ParseUnderMerge(env, s, Serialize(s, b), a, Fresh(s));
  }
}
