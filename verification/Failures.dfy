/** What a parse that returns false leaves behind, to the last element. */
module Failures {
  import opened Varint
  import opened Wire
  import opened Codec
  import opened RoundTrip
  import opened Merging

  // -------------------------------------------------------------------------------- the failing record

  /** The loop fails on the first record of its input: it cannot be read, or not be taken in. */
  predicate Stops(env: Env, s: Schema, bs: seq<Byte>, m: Msg)
    requires Shaped(s, m)
  {
    var t := ReadTag(bs);
    t.Tag? && t.wt != END_GROUP &&
    var x := ReadPayload(env.depth, t.num, t.wt, t.rest);
    x.Bad? || Apply(env, s, x.r, m).Err?
  }

  /** What that record makes of the message. */
  function LeftBy(env: Env, s: Schema, bs: seq<Byte>, m: Msg): (m': Msg)
    requires Shaped(s, m) && Stops(env, s, bs, m)
    ensures Shaped(s, m')
  {
    var t := ReadTag(bs);
    match ReadPayload(env.depth, t.num, t.wt, t.rest)
    case Bad(left) => AfterBadRead(s, t.num, t.wt, left, m)
    case Got(r, _) => Apply(env, s, r, m).m
  }

  /** The first `k` bytes are whole records that parse to their end, and the record behind them fails. */
  predicate FailsAt(env: Env, s: Schema, bs: seq<Byte>, m: Msg, k: nat)
    requires Shaped(s, m)
  {
    && k <= |bs| && EndsWhole(env.depth, bs[..k]) && Parse(env, s, bs[..k], m).Complete()
    && Stops(env, s, bs[k..], Parse(env, s, bs[..k], m).m)
  }

  lemma StopFails(env: Env, s: Schema, bs: seq<Byte>, m: Msg)
    requires Shaped(s, m) && Stops(env, s, bs, m)
    ensures Parse(env, s, bs, m) == Fail(LeftBy(env, s, bs, m))
  {
    var t := ReadTag(bs);
    assert Parse(env, s, bs, m) == AfterTag(env, s, t.num, t.wt, t.rest, m);
  }

  lemma FailsThere(env: Env, s: Schema, bs: seq<Byte>, m: Msg, k: nat)
    requires Shaped(s, m) && FailsAt(env, s, bs, m, k)
    ensures k <= |bs| && Stops(env, s, bs[k..], Parse(env, s, bs[..k], m).m)
    ensures Parse(env, s, bs, m) == Fail(LeftBy(env, s, bs[k..], Parse(env, s, bs[..k], m).m))
  {
    assert bs == bs[..k] + bs[k..];
    ParseThenMore(env, s, bs[..k], bs[k..], m);
    StopFails(env, s, bs[k..], Parse(env, s, bs[..k], m).m);
  }

  lemma {:induction false} FailurePoint(env: Env, s: Schema, bs: seq<Byte>, m: Msg) returns (k: nat)
    requires Shaped(s, m) && Parse(env, s, bs, m).Fail?
    ensures FailsAt(env, s, bs, m, k)
    decreases |bs|
  {
    k := 0;
    assert bs[0..] == bs;
    if !Stops(env, s, bs, m) {
      var x := NextRecord(env.depth, bs);
      ParseNext(env, s, bs, m);
      var a := Apply(env, s, x.r, m);
      var j := FailurePoint(env, s, x.rest, a.m);
      if x.r.Cut? {
        CutTakesMore(env.depth, bs, []);
        assert false;
      }
      k := |bs| - |x.rest| + j;
      NextIsLocal(env.depth, bs, x.rest[..j]);
      assert bs == Used(bs, x.rest) + x.rest;
      assert bs[..k] == Used(bs, x.rest) + x.rest[..j] && bs[k..] == x.rest[j..];
      ParseNext(env, s, bs[..k], m);
    }
  }

  lemma {:induction false} EndsWholeSplits(depth: nat, b1: seq<Byte>, b2: seq<Byte>)
    requires EndsWhole(depth, b1) && EndsWhole(depth, b1 + b2)
    ensures EndsWhole(depth, b2)
    decreases |b1|
  {
    if b1 == [] {
      assert b1 + b2 == b2;
    } else {
      NextIgnoresMore(depth, b1, b2);
      EndsWholeSplits(depth, NextRecord(depth, b1).rest, b2);
    }
  }

  lemma NotFurther(env: Env, s: Schema, bs: seq<Byte>, m: Msg, k: nat, l: nat)
    requires Shaped(s, m) && FailsAt(env, s, bs, m, k) && FailsAt(env, s, bs, m, l)
    ensures l <= k
  {
    if k < l {
      var b1, b2, m' := bs[..k], bs[k..l], Parse(env, s, bs[..k], m).m;
      assert bs[..l] == b1 + b2 && bs[k..] == b2 + bs[l..];
      ParseThenMore(env, s, b1, b2, m);
      EndsWholeSplits(env.depth, b1, b2);
      CompleteNext(env, s, b2, m');
      NextIgnoresMore(env.depth, b2, bs[l..]);
      assert false;
    }
  }

  /** A parse fails exactly if some record does, and then at that record alone. */
  lemma FailsExactlyAtOneRecord(env: Env, s: Schema, bs: seq<Byte>, m: Msg)
    requires Shaped(s, m)
    ensures Parse(env, s, bs, m).Fail? <==> exists k :: FailsAt(env, s, bs, m, k)
    ensures forall k, l :: FailsAt(env, s, bs, m, k) && FailsAt(env, s, bs, m, l) ==> k == l
  {
    if Parse(env, s, bs, m).Fail? {
      var k := FailurePoint(env, s, bs, m);
    }
    forall k | FailsAt(env, s, bs, m, k)
      ensures Parse(env, s, bs, m).Fail?
    {
      FailsThere(env, s, bs, m, k);
    }
    forall k, l | FailsAt(env, s, bs, m, k) && FailsAt(env, s, bs, m, l)
      ensures k == l
    {
      NotFurther(env, s, bs, m, k, l);
      NotFurther(env, s, bs, m, l, k);
    }
  }

  // ------------------------------------------------------------------------------- how little it adds

  /**
    `b` is `a`, or `a` with one list extended at its end - a list of messages by one element - or `a`
    with one more unknown record.
   */
  predicate GrownOnce(s: Schema, a: Msg, b: Msg) {
    && Shaped(s, a) && Shaped(s, b) && a.unknown <= b.unknown && |b.unknown| <= |a.unknown| + 1
    && (forall i :: 0 <= i < |s.fields| ==> Grown(a.vals[i], b.vals[i]))
    && (forall i, j :: 0 <= i < |s.fields| && 0 <= j < |s.fields| && a.vals[i] != b.vals[i] && a.vals[j] != b.vals[j] ==> i == j)
    && (a.unknown != b.unknown ==> a.vals == b.vals)
  }

  predicate Grown(a: Value, b: Value) {
    match a
    case Scalar(_, _) => a == b
    case Ints(xs) => b.Ints? && xs <= b.xs
    case Msgs(ms) => b.Msgs? && ms <= b.ms && |b.ms| <= |ms| + 1
  }

  lemma SetGrows(s: Schema, m: Msg, i: nat, v: Value)
    requires Shaped(s, m) && i < |s.fields| && HasShape(s.fields[i], v) && Grown(m.vals[i], v)
    ensures GrownOnce(s, m, Set(m, i, v))
  {
  }

  lemma FailedRecordGrows(env: Env, s: Schema, r: Record, m: Msg)
    requires Shaped(s, m) && Apply(env, s, r, m).Err?
    ensures GrownOnce(s, m, Apply(env, s, r, m).m)
  {
    if Accepts(s, r.num, WireType(r)) {
      var i := r.num - 1;
      assert HasShape(s.fields[i], m.vals[i]);
      match s.fields[i]
      case Optional(_) =>
      case Repeated(k) =>
        SetGrows(s, m, i, Ints(m.vals[i].xs + ReadPacked(k, r.bytes).0));
      case Nested(sub) =>
        SetGrows(s, m, i, Msgs(m.vals[i].ms + [Fresh(sub)]));
        if env.depth > 0 {
          SetGrows(s, m, i, Msgs(m.vals[i].ms + [Parse(env.Deeper(), sub, r.bytes, Fresh(sub)).m]));
        }
    }
  }

  lemma FailedReadGrows(env: Env, s: Schema, bs: seq<Byte>, m: Msg)
    requires Shaped(s, m) && Stops(env, s, bs, m) && NextRecord(env.depth, bs).Bad?
    ensures GrownOnce(s, m, LeftBy(env, s, bs, m))
  {
    var t := ReadTag(bs);
    if Accepts(s, t.num, t.wt) && s.fields[t.num - 1].Nested? {
      var i := t.num - 1;
      assert HasShape(s.fields[i], m.vals[i]);
      SetGrows(s, m, i, Msgs(m.vals[i].ms + [Fresh(s.fields[i].s)]));
    }
  }

  /**
    A failed parse leaves what the whole records before the failing one give - the first `k` bytes, which
    parse completely - and on top of that exactly what the failing record adds before it fails: at most
    one list extended at its end, or one unknown record.
   */
  lemma FailedParse(env: Env, s: Schema, bs: seq<Byte>, m: Msg) returns (k: nat)
    requires Shaped(s, m) && Parse(env, s, bs, m).Fail?
    ensures FailsAt(env, s, bs, m, k)
    ensures Parse(env, s, bs, m) == Fail(LeftBy(env, s, bs[k..], Parse(env, s, bs[..k], m).m))
    ensures GrownOnce(s, Parse(env, s, bs[..k], m).m, Parse(env, s, bs, m).m)
  {
    k := FailurePoint(env, s, bs, m);
    FailsThere(env, s, bs, m, k);
    var m' := Parse(env, s, bs[..k], m).m;
    var x := NextRecord(env.depth, bs[k..]);
    if x.Got? {
      FailedRecordGrows(env, s, x.r, m');
    } else {
      FailedReadGrows(env, s, bs[k..], m');
    }
  }

  lemma ElementStays(env: Env, s: Schema, r: Record, m: Msg)
    requires Shaped(s, m) && env.depth > 0 && (r.Len? || (r.Cut? && env.clamp))
    requires Accepts(s, r.num, LENGTH_DELIMITED) && s.fields[r.num - 1].Nested?
    ensures m.vals[r.num - 1].Msgs?
    ensures var inner := Parse(env.Deeper(), s.fields[r.num - 1].s, r.bytes, Fresh(s.fields[r.num - 1].s));
            Apply(env, s, r, m).m == AddMsg(m, r.num - 1, inner.m) && (Apply(env, s, r, m).Ok? <==> inner.Complete())
  {
    hide Codec.Parse, Codec.Fresh, Codec.ReadPacked;
    assert HasShape(s.fields[r.num - 1], m.vals[r.num - 1]);
  }

  lemma LeftByRecord(env: Env, s: Schema, bs: seq<Byte>, m: Msg)
    requires Shaped(s, m) && Stops(env, s, bs, m) && NextRecord(env.depth, bs).Got?
    ensures var a := Apply(env, s, NextRecord(env.depth, bs).r, m); a.Err? && LeftBy(env, s, bs, m) == a.m
  {
  }

  /** A log, or any nested message, that fails halfway is in the list with what its own payload gave. */
  lemma FailedElement(env: Env, s: Schema, bs: seq<Byte>, m: Msg, k: nat, r: Record, m': Msg)
    requires Shaped(s, m) && FailsAt(env, s, bs, m, k) && env.depth > 0 && m' == Parse(env, s, bs[..k], m).m
    requires NextRecord(env.depth, bs[k..]).Got? && NextRecord(env.depth, bs[k..]).r == r
    requires (r.Len? || (r.Cut? && env.clamp)) && Accepts(s, r.num, LENGTH_DELIMITED) && s.fields[r.num - 1].Nested?
    ensures m'.vals[r.num - 1].Msgs?
    ensures var inner := Parse(env.Deeper(), s.fields[r.num - 1].s, r.bytes, Fresh(s.fields[r.num - 1].s));
            !inner.Complete() && Parse(env, s, bs, m) == Fail(AddMsg(m', r.num - 1, inner.m))
  {
    hide *;
    FailsThere(env, s, bs, m, k);
    LeftByRecord(env, s, bs[k..], m');
    ElementStays(env, s, r, m');
  }
}
