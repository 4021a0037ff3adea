/**
  Parsing undoes serializing, for every message of every field table: the same presence bits,
  scalars, lists in order, nested messages and unknown records come back, and every byte is consumed.
 */
module RoundTrip {
  import opened Varint
  import opened Wire
  import opened Codec

  /** The parse loop's effect on the message, one record after the other. */
  function ApplyAll(env: Env, s: Schema, rs: seq<Record>, m: Msg): (a: Applied)
    requires Shaped(s, m)
    ensures Shaped(s, a.m)
    decreases |rs|
  {
    if rs == [] then Ok(m)
    else
      var first := Apply(env, s, rs[0], m);
      if first.Err? then first else ApplyAll(env, s, rs[1..], first.m)
  }

  lemma {:induction false} ApplyAllAppends(env: Env, s: Schema, a: seq<Record>, b: seq<Record>, m: Msg)
    requires Shaped(s, m)
    ensures var first := ApplyAll(env, s, a, m);
            ApplyAll(env, s, a + b, m) == if first.Ok? then ApplyAll(env, s, b, first.m) else first
    decreases |a|
  {
    if a == [] {
      assert a + b == b;
    } else {
      var first := Apply(env, s, a[0], m);
      assert (a + b)[0] == a[0] && (a + b)[1..] == a[1..] + b;
      if first.Ok? {
        ApplyAllAppends(env, s, a[1..], b, first.m);
      }
    }
  }

  lemma ApplyBoth(env: Env, s: Schema, a: seq<Record>, b: seq<Record>, m: Msg, m1: Msg, m2: Msg)
    requires Shaped(s, m) && ApplyAll(env, s, a, m) == Ok(m1)
    requires Shaped(s, m1) && ApplyAll(env, s, b, m1) == Ok(m2)
    ensures ApplyAll(env, s, a + b, m) == Ok(m2)
  {
    ApplyAllAppends(env, s, a, b, m);
  }

  lemma ApplySnoc(env: Env, s: Schema, rs: seq<Record>, r: Record, m: Msg)
    requires Shaped(s, m)
    ensures var first := ApplyAll(env, s, rs, m);
            first.Ok? ==> ApplyAll(env, s, rs + [r], m) == Apply(env, s, r, first.m)
  {
    ApplyAllAppends(env, s, rs, [r], m);
    var first := ApplyAll(env, s, rs, m);
    if first.Ok? {
      ApplyOne(env, s, r, first.m);
    }
  }

  lemma ApplyOne(env: Env, s: Schema, r: Record, m: Msg)
    requires Shaped(s, m)
    ensures ApplyAll(env, s, [r], m) == Apply(env, s, r, m)
  {
    var a := Apply(env, s, r, m);
    assert [r][1..] == [];
    if a.Ok? {
      assert ApplyAll(env, s, [], a.m) == a;
    }
  }

  /** One encoded record at the head of the input takes the loop one step. */
  lemma ParseStep(env: Env, s: Schema, r: Record, tail: seq<Byte>, m: Msg)
    requires Shaped(s, m) && Storable(r)
    ensures var a := Apply(env, s, r, m);
            var o := Parse(env, s, Encode(r) + tail, m);
            if GroupDepth(r) > env.depth then o.Fail?
            else o == if a.Ok? then Parse(env, s, tail, a.m) else Fail(a.m)
  {
    Assoc(EncodeTag(r.num, WireType(r)), EncodePayload(r), tail);
    TagRoundTrip(r.num, WireType(r), EncodePayload(r) + tail);
    PayloadRoundTrip(env.depth, r, tail);
  }

  /** One step of the loop, on any input that starts with a record. */
  lemma ParseNext(env: Env, s: Schema, bs: seq<Byte>, m: Msg)
    requires Shaped(s, m) && NextRecord(env.depth, bs).Got?
    ensures var x := NextRecord(env.depth, bs);
            var a := Apply(env, s, x.r, m);
            Parse(env, s, bs, m) == if a.Ok? then Parse(env, s, x.rest, a.m) else Fail(a.m)
  {
    var t := ReadTag(bs);
    assert Parse(env, s, bs, m) == AfterTag(env, s, t.num, t.wt, t.rest, m);
  }

  /** A parse that reaches the end of its input got past every record on the way. */
  lemma CompleteNext(env: Env, s: Schema, bs: seq<Byte>, m: Msg)
    requires Shaped(s, m) && Parse(env, s, bs, m).Complete() && bs != []
    ensures NextRecord(env.depth, bs).Got?
    ensures var x := NextRecord(env.depth, bs);
            var a := Apply(env, s, x.r, m);
            a.Ok? && Parse(env, s, bs, m) == Parse(env, s, x.rest, a.m)
  {
    var t := ReadTag(bs);
    assert t.Tag?;
    assert Parse(env, s, bs, m) == AfterTag(env, s, t.num, t.wt, t.rest, m);
  }

  lemma {:induction false} ParseEncoded(env: Env, s: Schema, rs: seq<Record>, tail: seq<Byte>, m: Msg)
    requires Shaped(s, m) && AllStorable(rs)
    requires forall i :: 0 <= i < |rs| ==> GroupDepth(rs[i]) <= env.depth
    ensures var a := ApplyAll(env, s, rs, m);
            Parse(env, s, EncodeAll(rs) + tail, m) == if a.Ok? then Parse(env, s, tail, a.m) else Fail(a.m)
    decreases |rs|
  {
    if rs == [] {
      assert EncodeAll(rs) + tail == tail;
    } else {
      var first := Apply(env, s, rs[0], m);
      var more := EncodeAll(rs[1..]) + tail;
      Assoc(Encode(rs[0]), EncodeAll(rs[1..]), tail);
      ParseStep(env, s, rs[0], more, m);
      if first.Ok? {
        ParseEncoded(env, s, rs[1..], tail, first.m);
      }
    }
  }

  /** The same for an input that is nothing but encoded records. */
  lemma ParseAllEncoded(env: Env, s: Schema, rs: seq<Record>, m: Msg)
    requires Shaped(s, m) && AllStorable(rs)
    requires forall i :: 0 <= i < |rs| ==> GroupDepth(rs[i]) <= env.depth
    ensures var a := ApplyAll(env, s, rs, m);
            Parse(env, s, EncodeAll(rs), m) == if a.Ok? then Done(a.m, [], InputEnd) else Fail(a.m)
  {
    ParseEncoded(env, s, rs, [], m);
    assert EncodeAll(rs) + [] == EncodeAll(rs);
  }

  // ---------------------------------------------------------------------------- size of a record

  lemma {:induction false} RecordIsNoLonger(rs: seq<Record>, r: Record)
    requires r in rs
    ensures |Encode(r)| <= |EncodeAll(rs)|
  {
    if r != rs[0] {
      assert r in rs[1..];
      RecordIsNoLonger(rs[1..], r);
    }
  }

  lemma {:induction false} FieldRecordsAreRecords(s: Schema, m: Msg, n: nat, i: nat, r: Record)
    requires Valid(s, m) && i < n <= |s.fields|
    requires r in FieldRecords(i + 1, s.fields[i], m.vals[i])
    ensures r in Records(s, m, n)
    decreases n
  {
    if i + 1 < n {
      FieldRecordsAreRecords(s, m, n - 1, i, r);
    }
  }

  /** A nested message is shorter than the message around it. */
  lemma NestedIsShorter(s: Schema, m: Msg, i: nat, j: nat)
    requires Valid(s, m) && i < |s.fields| && s.fields[i].Nested? && j < |m.vals[i].ms|
    requires Valid(s.fields[i].s, m.vals[i].ms[j])
    ensures |Serialize(s.fields[i].s, m.vals[i].ms[j])| < |Serialize(s, m)|
    ensures Len(i + 1, Serialize(s.fields[i].s, m.vals[i].ms[j])) in AllRecords(s, m)
  {
    var sub := s.fields[i].s;
    assert ValidValue(s.fields[i], m.vals[i]);
    var r := Len(i + 1, Serialize(sub, m.vals[i].ms[j]));
    assert r == MsgRecords(i + 1, sub, m.vals[i].ms)[j];
    FieldRecordsAreRecords(s, m, |s.fields|, i, r);
    RecordIsNoLonger(AllRecords(s, m), r);
  }

  lemma {:induction false} RecordsAreStorable(s: Schema, m: Msg, n: nat)
    requires OneByteTags(s) && Valid(s, m) && n <= |s.fields| && |Serialize(s, m)| < TWO_31
    ensures forall i :: 0 <= i < |Records(s, m, n)| ==> Storable(Records(s, m, n)[i]) && !Records(s, m, n)[i].Group?
    decreases n
  {
    if n > 0 {
      RecordsAreStorable(s, m, n - 1);
      assert ValidValue(s.fields[n - 1], m.vals[n - 1]);
      if s.fields[n - 1].Nested? {
        var ms := m.vals[n - 1].ms;
        forall j | 0 <= j < |ms|
          ensures |Serialize(s.fields[n - 1].s, ms[j])| < TWO_31
        {
          NestedIsShorter(s, m, n - 1, j);
        }
      }
    }
  }

  lemma AllRecordsAreStorable(s: Schema, m: Msg)
    requires OneByteTags(s) && Valid(s, m) && |Serialize(s, m)| < TWO_31
    ensures AllStorable(AllRecords(s, m))
    ensures forall i :: 0 <= i < |AllRecords(s, m)| ==> GroupDepth(AllRecords(s, m)[i]) <= GroupsDepth(m.unknown)
  {
    RecordsAreStorable(s, m, |s.fields|);
    GroupsDepthBounds(m.unknown, GroupsDepth(m.unknown));
  }

  // ----------------------------------------------------------------------- restoring field by field

  /** The message with its first `n` fields restored. */
  function Restored(s: Schema, m: Msg, n: nat): (p: Msg)
    requires Shaped(s, m) && n <= |s.fields|
    ensures Shaped(s, p)
  {
    Msg(seq(|s.fields|, i requires 0 <= i < |s.fields| => if i < n then m.vals[i] else Default(s.fields[i])), [])
  }

  lemma IntRestored(env: Env, s: Schema, num: nat, x: int, m: Msg)
    requires Shaped(s, m) && 1 <= num <= |s.fields| && s.fields[num - 1].Repeated? && m.vals[num - 1].Ints?
    requires InRange(s.fields[num - 1].k, x)
    ensures Apply(env, s, Number(num, ToWire(s.fields[num - 1].k, x)), m) == Ok(AddInts(m, num - 1, [x]))
  {
    KindRoundTrip(s.fields[num - 1].k, x);
  }

  lemma NothingAdded(m: Msg, i: nat)
    requires i < |m.vals|
    ensures Set(m, i, m.vals[i]) == m
  {
    assert Set(m, i, m.vals[i]).vals == m.vals;
  }

  lemma NoElementsAdded(m: Msg, i: nat)
    requires i < |m.vals| && m.vals[i].Ints?
    ensures AddInts(m, i, []) == m
  {
    assert m.vals[i].xs + [] == m.vals[i].xs;
    NothingAdded(m, i);
  }

  lemma AddedTwice(m: Msg, i: nat, xs: seq<int>, ys: seq<int>)
    requires i < |m.vals| && m.vals[i].Ints?
    ensures AddInts(m, i, xs).vals[i].Ints?
    ensures AddInts(AddInts(m, i, xs), i, ys) == AddInts(m, i, xs + ys)
  {
    assert m.vals[i].xs + xs + ys == m.vals[i].xs + (xs + ys);
  }

  lemma {:induction false} IntsRestored(env: Env, s: Schema, num: nat, xs: seq<int>, m: Msg)
    requires Shaped(s, m) && 1 <= num <= |s.fields| && s.fields[num - 1].Repeated? && m.vals[num - 1].Ints?
    requires AllInRange(s.fields[num - 1].k, xs)
    ensures ApplyAll(env, s, IntRecords(num, s.fields[num - 1].k, xs), m) == Ok(AddInts(m, num - 1, xs))
    decreases |xs|
  {
    var k := s.fields[num - 1].k;
    if xs == [] {
      NoElementsAdded(m, num - 1);
    } else {
      var init, last := xs[..|xs| - 1], xs[|xs| - 1];
      IntsRestored(env, s, num, init, m);
      ApplySnoc(env, s, IntRecords(num, k, init), Number(num, ToWire(k, last)), m);
      IntRestored(env, s, num, last, AddInts(m, num - 1, init));
      AddedTwice(m, num - 1, init, [last]);
      assert init + [last] == xs;
    }
  }

  /** The record holds a nested message that reads back as `x`. */
  predicate Carries(env: Env, s: Schema, i: nat, r: Record, x: Msg) {
    && i < |s.fields| && s.fields[i].Nested? && r.Len? && r.num == i + 1
    && env.depth > 0
    && Parse(env.Deeper(), s.fields[i].s, r.bytes, Fresh(s.fields[i].s)) == Done(x, [], InputEnd)
  }

  lemma {:induction false} MsgsRestored(env: Env, s: Schema, i: nat, rs: seq<Record>, ms: seq<Msg>, m: Msg)
    requires Shaped(s, m) && i < |s.fields| && s.fields[i].Nested? && m.vals[i].Msgs? && |rs| == |ms|
    requires forall j :: 0 <= j < |ms| ==> Carries(env, s, i, rs[j], ms[j])
    ensures ApplyAll(env, s, rs, m) == Ok(Set(m, i, Msgs(m.vals[i].ms + ms)))
    decreases |ms|
  {
    var had := m.vals[i].ms;
    if ms == [] {
      assert had + ms == had;
      NothingAdded(m, i);
    } else {
      assert Carries(env, s, i, rs[0], ms[0]);
      var m' := AddMsg(m, i, ms[0]);
      MsgsRestored(env, s, i, rs[1..], ms[1..], m');
      assert had + [ms[0]] + ms[1..] == had + ms;
    }
  }

  lemma RestoredStep(s: Schema, m: Msg, n: nat)
    requires Shaped(s, m) && 0 < n <= |s.fields|
    ensures Set(Restored(s, m, n - 1), n - 1, m.vals[n - 1]) == Restored(s, m, n)
    ensures Restored(s, m, n - 1).vals[n - 1] == Default(s.fields[n - 1])
  {
    assert Set(Restored(s, m, n - 1), n - 1, m.vals[n - 1]).vals == Restored(s, m, n).vals;
  }

  lemma NoneRestored(s: Schema, m: Msg)
    requires Shaped(s, m)
    ensures Restored(s, m, 0) == Fresh(s)
  {
    assert Restored(s, m, 0).vals == Fresh(s).vals;
  }

  lemma NestedFieldRestored(env: Env, s: Schema, m: Msg, n: nat)
    requires OneByteTags(s) && Valid(s, m) && 0 < n <= |s.fields| && s.fields[n - 1].Nested?
    requires ValidValue(s.fields[n - 1], m.vals[n - 1])
    requires Fits(s, m, env.depth) && |Serialize(s, m)| < TWO_31
    ensures ApplyAll(env, s, FieldRecords(n, s.fields[n - 1], m.vals[n - 1]), Restored(s, m, n - 1))
         == Ok(Set(Restored(s, m, n - 1), n - 1, m.vals[n - 1]))
    decreases s, 0
  {
    var sub, ms := s.fields[n - 1].s, m.vals[n - 1].ms;
    var rs := MsgRecords(n, sub, ms);
    assert FitsValue(s.fields[n - 1], m.vals[n - 1], env.depth);
    forall j | 0 <= j < |ms|
      ensures Carries(env, s, n - 1, rs[j], ms[j])
    {
      NestedIsShorter(s, m, n - 1, j);
      ParseUndoesSerialize(env.Deeper(), sub, ms[j]);
    }
    RestoredStep(s, m, n);
    MsgsRestored(env, s, n - 1, rs, ms, Restored(s, m, n - 1));
    assert [] + ms == ms;
  }

  lemma FieldRestored(env: Env, s: Schema, m: Msg, n: nat)
    requires OneByteTags(s) && Valid(s, m) && 0 < n <= |s.fields|
    requires ValidValue(s.fields[n - 1], m.vals[n - 1])
    requires Fits(s, m, env.depth) && |Serialize(s, m)| < TWO_31
    ensures ApplyAll(env, s, FieldRecords(n, s.fields[n - 1], m.vals[n - 1]), Restored(s, m, n - 1))
         == Ok(Restored(s, m, n))
    decreases s, 1
  {
    var f, v, before := s.fields[n - 1], m.vals[n - 1], Restored(s, m, n - 1);
    RestoredStep(s, m, n);
    match f
    case Optional(k) =>
      if v.has {
        ApplyOne(env, s, Number(n, ToWire(k, v.v)), before);
        KindRoundTrip(k, v.v);
      } else {
        NothingAdded(before, n - 1);
      }
    case Repeated(_) =>
      IntsRestored(env, s, n, v.xs, before);
      assert [] + v.xs == v.xs;
    case Nested(_) =>
      NestedFieldRestored(env, s, m, n);
  }

  lemma RecordsStep(s: Schema, m: Msg, n: nat)
    requires Valid(s, m) && 0 < n <= |s.fields|
    ensures ValidValue(s.fields[n - 1], m.vals[n - 1])
    ensures Shaped(s, m) && |m.vals| == |s.fields|
    ensures Records(s, m, n) == Records(s, m, n - 1) + FieldRecords(n, s.fields[n - 1], m.vals[n - 1])
  {
  }

  lemma NoRecords(env: Env, s: Schema, m: Msg)
    requires Valid(s, m)
    ensures Shaped(s, m) && Records(s, m, 0) == [] && ApplyAll(env, s, [], Fresh(s)) == Ok(Fresh(s))
  {
  }

  lemma {:induction false} RecordsRestored(env: Env, s: Schema, m: Msg, n: nat)
    requires OneByteTags(s) && Valid(s, m) && n <= |s.fields|
    requires Fits(s, m, env.depth) && |Serialize(s, m)| < TWO_31
    ensures ApplyAll(env, s, Records(s, m, n), Fresh(s)) == Ok(Restored(s, m, n))
    decreases s, 2, n
  {
    hide *;
    if n == 0 {
      NoRecords(env, s, m);
      NoneRestored(s, m);
    } else {
      RecordsStep(s, m, n);
      RecordsRestored(env, s, m, n - 1);
      FieldRestored(env, s, m, n);
      ApplyBoth(env, s, Records(s, m, n - 1), FieldRecords(n, s.fields[n - 1], m.vals[n - 1]), Fresh(s), Restored(s,
          m, n - 1), Restored(s, m, n));
    }
  }

  lemma {:induction false} UnknownRestored(env: Env, s: Schema, rs: seq<Record>, m: Msg)
    requires Shaped(s, m) && AllForeign(s, rs)
    ensures ApplyAll(env, s, rs, m) == Ok(m.(unknown := m.unknown + rs))
    decreases |rs|
  {
    if rs == [] {
      assert m.unknown + rs == m.unknown;
    } else {
      assert ForeignTo(s, rs[0]);
      UnknownRestored(env, s, rs[1..], AddUnknown(m, rs[0]));
      assert m.unknown + [rs[0]] + rs[1..] == m.unknown + rs;
    }
  }

  lemma AllRecordsRestored(env: Env, s: Schema, m: Msg)
    requires OneByteTags(s) && Valid(s, m) && Fits(s, m, env.depth) && |Serialize(s, m)| < TWO_31
    ensures ApplyAll(env, s, AllRecords(s, m), Fresh(s)) == Ok(m)
    decreases s, 3
  {
    var n := |s.fields|;
    RecordsRestored(env, s, m, n);
    UnknownRestored(env, s, m.unknown, Restored(s, m, n));
    assert Restored(s, m, n).vals == m.vals;
    assert [] + m.unknown == m.unknown;
    ApplyBoth(env, s, Records(s, m, n), m.unknown, Fresh(s), Restored(s, m, n), m);
  }

  /** The round trip, nested messages included. */
  lemma {:induction false} ParseUndoesSerialize(env: Env, s: Schema, m: Msg)
    requires OneByteTags(s) && Valid(s, m) && Fits(s, m, env.depth) && |Serialize(s, m)| < TWO_31
    ensures Parse(env, s, Serialize(s, m), Fresh(s)) == Done(m, [], InputEnd)
    decreases s, 4
  {
    AllRecordsRestored(env, s, m);
    AllRecordsAreStorable(s, m);
    ParseAllEncoded(env, s, AllRecords(s, m), Fresh(s));
  }

  // ------------------------------------------------------------------------------- exact condition

  /** A record no message state lets the loop get past. */
  predicate Refused(env: Env, s: Schema, r: Record) {
    || GroupDepth(r) > env.depth
    || (&& Accepts(s, r.num, WireType(r)) && s.fields[r.num - 1].Nested? && r.Len?
        && (env.depth == 0
            || Parse(env.Deeper(), s.fields[r.num - 1].s, r.bytes, Fresh(s.fields[r.num - 1].s)).Fail?))
  }

  lemma {:induction false} RefusedRecordFails(env: Env, s: Schema, rs: seq<Record>, r: Record, m: Msg)
    requires Shaped(s, m) && AllStorable(rs) && r in rs && Refused(env, s, r)
    ensures Parse(env, s, EncodeAll(rs), m).Fail?
    decreases |rs|
  {
    var first := Apply(env, s, rs[0], m);
    ParseStep(env, s, rs[0], EncodeAll(rs[1..]), m);
    if r != rs[0] && GroupDepth(rs[0]) <= env.depth && first.Ok? {
      assert r in rs[1..];
      RefusedRecordFails(env, s, rs[1..], r, first.m);
    }
  }

  lemma {:induction false} TooDeepIsRefused(env: Env, s: Schema, m: Msg, into: Msg)
    requires OneByteTags(s) && Valid(s, m) && |Serialize(s, m)| < TWO_31 && Shaped(s, into)
    requires !Fits(s, m, env.depth)
    ensures Parse(env, s, Serialize(s, m), into).Fail?
    decreases s
  {
    AllRecordsAreStorable(s, m);
    if GroupsDepth(m.unknown) > env.depth {
      GroupsDepthBounds(m.unknown, env.depth);
      var i :| 0 <= i < |m.unknown| && GroupDepth(m.unknown[i]) > env.depth;
      RefusedRecordFails(env, s, AllRecords(s, m), m.unknown[i], into);
    } else {
      var i :| 0 <= i < |s.fields| && !FitsValue(s.fields[i], m.vals[i], env.depth);
      assert ValidValue(s.fields[i], m.vals[i]);
      var sub, ms := s.fields[i].s, m.vals[i].ms;
      var j :| 0 <= j < |ms| && (env.depth == 0 || !Fits(sub, ms[j], env.depth - 1));
      NestedIsShorter(s, m, i, j);
      if env.depth > 0 {
        TooDeepIsRefused(env.Deeper(), sub, ms[j], Fresh(sub));
      }
      RefusedRecordFails(env, s, AllRecords(s, m), Len(i + 1, Serialize(sub, ms[j])), into);
    }
  }

  /** A serialized message comes back exactly when it is nested no deeper than the reader allows. */
  lemma RoundTripExactlyWhenItFits(env: Env, s: Schema, m: Msg)
    requires OneByteTags(s) && Valid(s, m) && |Serialize(s, m)| < TWO_31
    ensures Parse(env, s, Serialize(s, m), Fresh(s)) == Done(m, [], InputEnd) <==> Fits(s, m, env.depth)
    ensures !Fits(s, m, env.depth) ==> Parse(env, s, Serialize(s, m), Fresh(s)).Fail?
  {
    if Fits(s, m, env.depth) {
      ParseUndoesSerialize(env, s, m);
    } else {
      TooDeepIsRefused(env, s, m, Fresh(s));
    }
  }
}
