/** Steps the generated classes share: one field at a time, in field order. */
module Generated {
  import opened Varint
  import opened Wire
  import opened Codec
  import opened Invariants
  import opened Stream
  import opened Sizes
  import opened WireFormatLite

  /** What a parse leaves in the message, the return value and the stream, as the plain loop has it. */
  ghost predicate ParsedAs(o: Outcome, ok: bool, view: Msg, input: CodedInputStream)
    reads input
  {
    && view == o.m && ok == o.Done?
    && (ok ==> input.Valid() && input.Rest() == o.rest && input.legitimateEnd == o.end.InputEnd?)
  }

  // What ExpectNext answers when the input is at its end.
  const AT_END: nat := 16

  function WireTypeOf(f: Field): nat { if f.Nested? then LENGTH_DELIMITED else VARINT }

  /** The fast path saw nothing (0), the tag of field `next`, or the end of the input. */
  ghost predicate Followed(s: Schema, next: nat, before: seq<Byte>, after: seq<Byte>, legitimateEnd: bool) {
    if next == 0 then after == before && !legitimateEnd
    else if next == AT_END then before == after == [] && legitimateEnd
    else
      && next <= |s.fields| && before != [] && before[0] == 8 * next + WireTypeOf(s.fields[next - 1])
      && after == before[1..] && !legitimateEnd
  }

  /** What the fast path saw tells where the plain loop goes on from here. */
  lemma FollowedMeans(env: Env, s: Schema, next: nat, before: seq<Byte>, after: seq<Byte>, legitimateEnd: bool, m: Msg)
    requires OneByteTags(s) && Shaped(s, m) && Followed(s, next, before, after, legitimateEnd)
    ensures next == 0 ==> after == before && !legitimateEnd
    ensures next == AT_END ==> after == [] && legitimateEnd && Parse(env, s, before, m) == Done(m, [], InputEnd)
    ensures next != 0 && next != AT_END ==>
      && next <= |s.fields| && Accepts(s, next, WireTypeOf(s.fields[next - 1])) && !legitimateEnd && |after| < |before|
      && Parse(env, s, before, m) == AfterTag(env, s, next, WireTypeOf(s.fields[next - 1]), after, m)
  {
    if next == AT_END {
      ParseReadsTag(env, s, before, m);
    } else if next != 0 {
      MatchedTag(env, s, next, WireTypeOf(s.fields[next - 1]), before, m);
    }
  }

  /** `if (input->ExpectTag(tag)) goto parse_f;` for the field `num`. */
  method Jump(tag: Byte, num: nat, input: CodedInputStream, s: Schema) returns (next: nat)
    requires input.Valid() && !input.legitimateEnd && 1 <= num <= |s.fields| <= 15
    requires tag == 8 * num + WireTypeOf(s.fields[num - 1])
    modifies input`pos
    ensures input.Valid() && (next == 0 || next == num)
    ensures next == 0 ==> input.Rest() == old(input.Rest())
    ensures Followed(s, next, old(input.Rest()), input.Rest(), input.legitimateEnd)
  {
    var seen := input.ExpectTag(tag);
    next := if seen then num else 0;
  }

  /** `if (input->ExpectAtEnd()) return true;` after the last field. */
  method End(input: CodedInputStream, ghost s: Schema) returns (next: nat)
    requires input.Valid() && !input.legitimateEnd
    modifies input`legitimateEnd
    ensures input.Valid() && Followed(s, next, old(input.Rest()), input.Rest(), input.legitimateEnd)
  {
    var seen := input.ExpectAtEnd();
    next := if seen then AT_END else 0;
  }

  // ---------------------------------------------------------------------------------------- writing

  function Written(s: Schema, m: Msg, n: nat): seq<Byte>
    requires Valid(s, m) && n <= |s.fields|
  {
    EncodeAll(Records(s, m, n))
  }

  lemma WrittenStep(s: Schema, m: Msg, n: nat)
    requires Valid(s, m) && 0 < n <= |s.fields|
    ensures ValidValue(s.fields[n - 1], m.vals[n - 1])
    ensures Written(s, m, n) == Written(s, m, n - 1) + EncodeAll(FieldRecords(n, s.fields[n - 1], m.vals[n - 1]))
  {
    EncodeAllAppends(Records(s, m, n - 1), FieldRecords(n, s.fields[n - 1], m.vals[n - 1]));
  }

  lemma WrittenAll(s: Schema, m: Msg)
    requires Valid(s, m)
    ensures Serialize(s, m) == Written(s, m, |s.fields|) + EncodeAll(m.unknown)
  {
    EncodeAllAppends(Records(s, m, |s.fields|), m.unknown);
  }

  lemma {:induction false} WrittenIsWithin(s: Schema, m: Msg, n: nat)
    requires Valid(s, m) && n <= |s.fields|
    ensures |Written(s, m, n)| <= |Serialize(s, m)|
    decreases |s.fields| - n
  {
    if n == |s.fields| {
      WrittenAll(s, m);
    } else {
      WrittenIsWithin(s, m, n + 1);
      WrittenStep(s, m, n + 1);
    }
  }

  /** From `from` on, the buffer `was` holds the first `n` fields up to `at`, and is otherwise as it was. */
  ghost predicate HasWritten(buf: array<Byte>, at: nat, was: seq<Byte>, from: nat, s: Schema, m: Msg, n: nat)
    reads buf
    requires Valid(s, m) && n <= |s.fields|
  {
    && from <= at <= buf.Length == |was|
    && buf[..at] == was[..from] + Written(s, m, n) && buf[at..] == was[at..]
  }

  lemma NothingWritten(buf: array<Byte>, was: seq<Byte>, from: nat, s: Schema, m: Msg)
    requires Valid(s, m) && from <= buf.Length && buf[..] == was
    ensures HasWritten(buf, from, was, from, s, m, 0)
  {
    assert was[..from] + [] == was[..from];
  }

  lemma KeepsTail(now: seq<Byte>, prev: seq<Byte>, was: seq<Byte>, at: nat, end: nat)
    requires at <= end <= |now| == |prev| == |was| && prev[at..] == was[at..] && now[end..] == prev[end..]
    ensures now[end..] == was[end..]
  {
    assert prev[end..] == prev[at..][end - at..] && was[end..] == was[at..][end - at..];
  }

  /** `if (has_f()) target = Write...ToArray(num, f(), target);` */
  method WriteOptional(num: nat, k: Kind, has: bool, x: int, buf: array<Byte>, at: nat,
                       ghost was: seq<Byte>, ghost from: nat, ghost s: Schema, ghost m: Msg)
      returns (end: nat)
    requires Valid(s, m) && 1 <= num <= |s.fields| && s.fields[num - 1] == Optional(k)
        && m.vals[num - 1] == Scalar(has, x)
    requires from + |Serialize(s, m)| <= buf.Length && HasWritten(buf, at, was, from, s, m, num - 1)
    modifies buf
    ensures HasWritten(buf, end, was, from, s, m, num)
  {
    WrittenStep(s, m, num);
    WrittenIsWithin(s, m, num);
    end := at;
    if has {
      ghost var r, prev := Number(num, ToWire(k, x)), buf[..];
      EncodeAllSnoc([], r);
      assert [] + [r] == [r];
      end := WriteToArray(num, k, x, buf, at);
      Assoc(was[..from], Written(s, m, num - 1), Encode(r));
      KeepsTail(buf[..], prev, was, at, end);
    }
  }

  /** `for (i...) target = Write...ToArray(num, f(i), target);` */
  method WriteList(num: nat, k: Kind, xs: seq<int>, buf: array<Byte>, at: nat,
                   ghost was: seq<Byte>, ghost from: nat, ghost s: Schema, ghost m: Msg)
      returns (end: nat)
    requires Valid(s, m) && 1 <= num <= |s.fields| && s.fields[num - 1] == Repeated(k) && m.vals[num - 1] == Ints(xs)
    requires from + |Serialize(s, m)| <= buf.Length && HasWritten(buf, at, was, from, s, m, num - 1)
    modifies buf
    ensures HasWritten(buf, end, was, from, s, m, num)
  {
    WrittenStep(s, m, num);
    WrittenIsWithin(s, m, num);
    end := at;
    ghost var before := was[..from] + Written(s, m, num - 1);
    for i := 0 to |xs|
      invariant at <= end <= buf.Length && AllInRange(k, xs)
      invariant buf[..end] == before + EncodeAll(IntRecords(num, k, xs[..i]))
      invariant buf[end..] == was[end..]
    {
      ghost var r, prev, prevAt := Number(num, ToWire(k, xs[i])), buf[..], end;
      assert xs[..i + 1][..i] == xs[..i];
      EncodeAllSnoc(IntRecords(num, k, xs[..i]), r);
      ListIsWithin(num, k, xs, i + 1);
      end := WriteToArray(num, k, xs[i], buf, end);
      Assoc(before, EncodeAll(IntRecords(num, k, xs[..i])), Encode(r));
      KeepsTail(buf[..], prev, was, prevAt, end);
    }
    assert xs[..|xs|] == xs;
    Assoc(was[..from], Written(s, m, num - 1), EncodeAll(IntRecords(num, k, xs)));
  }

  lemma {:induction false} ListIsWithin(num: nat, k: Kind, xs: seq<int>, i: nat)
    requires AllInRange(k, xs) && i <= |xs|
    ensures |EncodeAll(IntRecords(num, k, xs[..i]))| <= |EncodeAll(IntRecords(num, k, xs))|
    decreases |xs|
  {
    if i == |xs| {
      assert xs[..i] == xs;
    } else {
      var init := xs[..|xs| - 1];
      assert init[..i] == xs[..i];
      ListIsWithin(num, k, init, i);
      EncodeAllSnoc(IntRecords(num, k, init), Number(num, ToWire(k, xs[|xs| - 1])));
    }
  }

  lemma {:induction false} MessagesAreWithin(num: nat, s: Schema, ms: seq<Msg>, i: nat)
    requires (forall j :: 0 <= j < |ms| ==> Valid(s, ms[j])) && i <= |ms|
    ensures |EncodeAll(MsgRecords(num, s, ms[..i]))| <= |EncodeAll(MsgRecords(num, s, ms))|
    decreases |ms|
  {
    if i == |ms| {
      assert ms[..i] == ms;
    } else {
      var init := ms[..|ms| - 1];
      assert init[..i] == ms[..i];
      MessagesAreWithin(num, s, init, i);
      EncodeAllSnoc(MsgRecords(num, s, init), Len(num, Serialize(s, ms[|ms| - 1])));
    }
  }

  lemma MessagesWrittenStart(num: nat, s: Schema, ms: seq<Msg>)
    requires forall j :: 0 <= j < |ms| ==> Valid(s, ms[j])
    ensures EncodeAll(MsgRecords(num, s, ms[..0])) == []
  {
  }

  lemma MessagesWrittenStep(num: nat, s: Schema, ms: seq<Msg>, i: nat)
    requires (forall j :: 0 <= j < |ms| ==> Valid(s, ms[j])) && i < |ms|
    ensures EncodeAll(MsgRecords(num, s, ms[..i + 1]))
         == EncodeAll(MsgRecords(num, s, ms[..i])) + Encode(Len(num, Serialize(s, ms[i])))
  {
    assert ms[..i + 1][..i] == ms[..i];
    EncodeAllSnoc(MsgRecords(num, s, ms[..i]), Len(num, Serialize(s, ms[i])));
  }

  lemma MsgsSizeStart(s: Schema, ms: seq<Msg>)
    requires forall j :: 0 <= j < |ms| ==> Valid(s, ms[j])
    ensures MsgsSize(s, ms[..0]) == 0 && ms[..|ms|] == ms
  {
  }

  lemma MsgsSizeStep(s: Schema, ms: seq<Msg>, i: nat)
    requires (forall j :: 0 <= j < |ms| ==> Valid(s, ms[j])) && i < |ms|
    ensures MsgsSize(s, ms[..i + 1]) == MsgsSize(s, ms[..i]) + LengthDelimitedSize(Sizes.ByteSize(s, ms[i]))
  {
    assert ms[..i + 1][..i] == ms[..i];
  }

  lemma {:induction false} ElementIsSmaller(s: Schema, ms: seq<Msg>, i: nat)
    requires (forall j :: 0 <= j < |ms| ==> Valid(s, ms[j])) && i < |ms|
    ensures Sizes.ByteSize(s, ms[i]) <= MsgsSize(s, ms)
    decreases |ms|
  {
    if i < |ms| - 1 {
      ElementIsSmaller(s, ms[..|ms| - 1], i);
    }
  }

  /** SerializeUnknownFieldsToArray, after the last field. */
  method WriteUnknown(unknown: seq<Record>, buf: array<Byte>, at: nat,
                      ghost was: seq<Byte>, ghost from: nat, ghost s: Schema, ghost m: Msg)
      returns (end: nat)
    requires Valid(s, m) && m.unknown == unknown && from + |Serialize(s, m)| <= buf.Length
    requires HasWritten(buf, at, was, from, s, m, |s.fields|)
    modifies buf
    ensures end == from + |Serialize(s, m)| && buf[..end] == was[..from] + Serialize(s, m) && buf[end..] == was[end..]
  {
    WrittenAll(s, m);
    ghost var prev := buf[..];
    end := WriteRaw(EncodeAll(unknown), buf, at);
    Assoc(was[..from], Written(s, m, |s.fields|), EncodeAll(unknown));
    KeepsTail(buf[..], prev, was, at, end);
  }

  // ----------------------------------------------------------------------------------------- sizing

  function SizeAt(s: Schema, m: Msg, i: nat): nat
    requires Valid(s, m) && i < |s.fields|
  {
    assert ValidValue(s.fields[i], m.vals[i]);
    FieldSize(s.fields[i], m.vals[i])
  }

  /** An optional scalar adds its tag byte and its varint if it is present. */
  lemma OptionalSize(s: Schema, m: Msg, i: nat, k: Kind, has: bool, x: int)
    requires Valid(s, m) && i < |s.fields| && s.fields[i] == Optional(k) && m.vals[i] == Scalar(has, x)
    ensures InRange(k, x) && SizeAt(s, m, i) == if has then 1 + KindSize(k, x) else 0
  {
    assert ValidValue(s.fields[i], m.vals[i]);
  }

  lemma ListSizeAt(s: Schema, m: Msg, i: nat, k: Kind, xs: seq<int>)
    requires Valid(s, m) && i < |s.fields| && s.fields[i] == Repeated(k) && m.vals[i] == Ints(xs)
    ensures AllInRange(k, xs) && SizeAt(s, m, i) == FieldSize(Repeated(k), Ints(xs))
  {
    assert ValidValue(s.fields[i], m.vals[i]);
  }

  lemma MessagesSizeAt(s: Schema, m: Msg, i: nat, sub: Schema, ms: seq<Msg>)
    requires Valid(s, m) && i < |s.fields| && s.fields[i] == Nested(sub) && m.vals[i] == Msgs(ms)
    ensures forall j :: 0 <= j < |ms| ==> Valid(sub, ms[j])
    ensures SizeAt(s, m, i) == |ms| + MsgsSize(sub, ms)
  {
    assert ValidValue(s.fields[i], m.vals[i]);
  }

  /** ByteSize after the fields `order`, in that order. */
  function SizeAfter(s: Schema, m: Msg, order: seq<nat>): nat
    requires Valid(s, m) && forall j :: 0 <= j < |order| ==> order[j] < |s.fields|
  {
    if order == [] then 0
    else SizeAfter(s, m, order[..|order| - 1]) + SizeAt(s, m, order[|order| - 1])
  }

  /** The order in which the fields are visited does not matter. */
  lemma {:induction false} SizeIgnoresOrder(s: Schema, m: Msg, order: seq<nat>, n: nat)
    requires Valid(s, m) && n <= |s.fields| && |order| == n
    requires (forall j :: 0 <= j < n ==> order[j] < |s.fields|) && (forall i :: 0 <= i < n ==> i in order)
    ensures SizeAfter(s, m, order) == FieldsSize(s, m, n)
    decreases n
  {
    if n > 0 {
      assert n - 1 in order;
      var at :| 0 <= at < n && order[at] == n - 1;
      var rest := order[..at] + order[at + 1..];
      SizeWithout(s, m, order, at);
      forall i | 0 <= i < n - 1
        ensures i in rest
      {
        assert i in order;
        var j :| 0 <= j < n && order[j] == i;
        assert if j < at then rest[j] == i else rest[j - 1] == i;
      }
      SizeIgnoresOrder(s, m, rest, n - 1);
    }
  }

  lemma {:induction false} SizeWithout(s: Schema, m: Msg, order: seq<nat>, at: nat)
    requires Valid(s, m) && (forall j :: 0 <= j < |order| ==> order[j] < |s.fields|) && at < |order|
    ensures SizeAfter(s, m, order) == SizeAfter(s, m, order[..at] + order[at + 1..]) + SizeAt(s, m, order[at])
    decreases |order|
  {
    var last := |order| - 1;
    var rest := order[..at] + order[at + 1..];
    if at == last {
      assert rest == order[..last];
    } else {
      var init := order[..last];
      SizeWithout(s, m, init, at);
      assert rest[..last - 1] == init[..at] + init[at + 1..] && rest[last - 1] == order[last];
    }
  }

  /** The running totals of ByteSize when it visits the fields in a given order. */
  lemma Totals(s: Schema, m: Msg, order: seq<nat>) returns (t: seq<nat>)
    requires Valid(s, m) && |order| == |s.fields|
    requires (forall j :: 0 <= j < |order| ==> order[j] < |s.fields|) && (forall i :: 0 <= i < |order| ==> i in order)
    ensures |t| == |order| + 1 && t[0] == 0
    ensures forall n {:trigger order[n]} :: 0 <= n < |order| ==> t[n + 1] == t[n] + SizeAt(s, m, order[n])
    ensures AllStorable(m.unknown) && Sizes.ByteSize(s, m) == t[|order|] + UnknownSize(m.unknown)
  {
    t := seq(|order| + 1, n requires 0 <= n <= |order| => SizeAfter(s, m, order[..n]));
    forall n | 0 <= n < |order|
      ensures t[n + 1] == t[n] + SizeAt(s, m, order[n])
    {
      assert order[..n + 1][..n] == order[..n];
    }
    assert order[..|order|] == order;
    SizeIgnoresOrder(s, m, order, |order|);
    assert forall i :: 0 <= i < |m.unknown| ==> ForeignTo(s, m.unknown[i]);
  }

  /** `data_size` and the tags of one scalar list. */
  method ListSize(k: Kind, xs: seq<int>) returns (size: nat)
    requires AllInRange(k, xs)
    ensures size == FieldSize(Repeated(k), Ints(xs))
  {
    var dataSize := 0;
    for i := 0 to |xs|
      invariant dataSize == IntsSize(k, xs[..i])
    {
      assert xs[..i + 1][..i] == xs[..i];
      dataSize := dataSize + KindSize(k, xs[i]);
    }
    assert xs[..|xs|] == xs;
    size := 1 * |xs| + dataSize;
  }

  // ---------------------------------------------------------------------------------------- merging

  /** An order in which MergeFrom may visit the fields: each of them once. */
  predicate Visits(s: Schema, order: seq<nat>) {
    && |order| == |s.fields|
    && (forall j :: 0 <= j < |order| ==> order[j] < |s.fields|)
    && (forall j, k :: 0 <= j < k < |order| ==> order[j] != order[k])
    && (forall i :: 0 <= i < |s.fields| ==> i in order)
  }

  /** MergeFrom after the first `k` fields of its order. */
  function MergedTo(s: Schema, a: Msg, b: Msg, order: seq<nat>, k: nat): (m: Msg)
    requires Shaped(s, a) && Shaped(s, b) && k <= |order|
    ensures Shaped(s, m) && m.unknown == a.unknown
  {
    Msg(seq(|s.fields|, i requires 0 <= i < |s.fields| =>
      if i in order[..k] then MergeValue(a.vals[i], b.vals[i]) else a.vals[i]), a.unknown)
  }

  lemma MergeStep(s: Schema, a: Msg, b: Msg, order: seq<nat>, k: nat)
    requires Shaped(s, a) && Shaped(s, b) && Visits(s, order) && k < |order|
    ensures MergedTo(s, a, b, order, k).vals[order[k]] == a.vals[order[k]]
    ensures MergedTo(s, a, b, order, k + 1)
        == Set(MergedTo(s, a, b, order, k), order[k], MergeValue(a.vals[order[k]], b.vals[order[k]]))
    ensures b.vals[order[k]].Scalar? ==>
      MergedTo(s, a, b, order, k + 1)
      == if b.vals[order[k]].has then Set(MergedTo(s, a, b, order, k), order[k], b.vals[order[k]]) else MergedTo(s, a, b, order, k)
  {
    var i, m := order[k], MergedTo(s, a, b, order, k);
    assert HasShape(s.fields[i], a.vals[i]) && HasShape(s.fields[i], b.vals[i]);
    assert order[..k + 1] == order[..k] + [i];
    assert MergedTo(s, a, b, order, k + 1).vals == Set(m, i, MergeValue(a.vals[i], b.vals[i])).vals;
    if b.vals[i].Scalar? && !b.vals[i].has {
      assert MergedTo(s, a, b, order, k + 1).vals == m.vals;
    }
  }

  lemma MergeIntsStep(s: Schema, a: Msg, b: Msg, order: seq<nat>, k: nat, xs: seq<int>)
    requires Shaped(s, a) && Shaped(s, b) && Visits(s, order) && k < |order|
    requires s.fields[order[k]].Repeated? && b.vals[order[k]] == Ints(xs)
    ensures MergedTo(s, a, b, order, k).vals[order[k]].Ints?
    ensures MergedTo(s, a, b, order, k + 1) == AddInts(MergedTo(s, a, b, order, k), order[k], xs)
  {
    assert HasShape(s.fields[order[k]], a.vals[order[k]]);
    MergeStep(s, a, b, order, k);
  }

  lemma MergeMsgsStep(s: Schema, a: Msg, b: Msg, order: seq<nat>, k: nat, ms: seq<Msg>)
    requires Shaped(s, a) && Shaped(s, b) && Visits(s, order) && k < |order|
    requires s.fields[order[k]].Nested? && b.vals[order[k]] == Msgs(ms)
    ensures MergedTo(s, a, b, order, k).vals[order[k]].Msgs?
    ensures MergedTo(s, a, b, order, k + 1)
         == Set(MergedTo(s, a, b, order, k), order[k], Msgs(MergedTo(s, a, b, order, k).vals[order[k]].ms + ms))
  {
    assert HasShape(s.fields[order[k]], a.vals[order[k]]);
    MergeStep(s, a, b, order, k);
  }

  /** A group guard that is off skips only absent fields. */
  lemma {:induction false} AbsentKeeps(s: Schema, a: Msg, b: Msg, order: seq<nat>, k: nat, l: nat)
    requires Shaped(s, a) && Shaped(s, b) && Visits(s, order) && k <= l <= |order|
    requires forall j :: k <= j < l ==> b.vals[order[j]].Scalar? && !b.vals[order[j]].has
    ensures MergedTo(s, a, b, order, l) == MergedTo(s, a, b, order, k)
    decreases l - k
  {
    if k < l {
      AbsentKeeps(s, a, b, order, k, l - 1);
      MergeStep(s, a, b, order, l - 1);
    }
  }

  /** Whatever the order, the visits add up to the merge. */
  lemma MergeEnds(s: Schema, a: Msg, b: Msg, order: seq<nat>)
    requires Shaped(s, a) && Shaped(s, b) && Visits(s, order)
    ensures MergedTo(s, a, b, order, 0) == a
    ensures Merge(s, a, b) == AddUnknowns(MergedTo(s, a, b, order, |order|), b.unknown)
  {
    assert order[..0] == [] && order[..|order|] == order;
    assert MergedTo(s, a, b, order, 0).vals == a.vals;
    assert Merge(s, a, b).vals == MergedTo(s, a, b, order, |order|).vals;
  }

  /** Behind a clear presence bit there is the default: why the masked guards may skip a field. */
  lemma DefaultBehindClearBit(s: Schema, m: Msg, i: nat)
    requires Valid(s, m) && i < |s.fields| && s.fields[i].Optional?
    ensures m.vals[i].Scalar? && InRange(s.fields[i].k, m.vals[i].v) && (!m.vals[i].has ==> m.vals[i].v == 0)
  {
    assert ValidValue(s.fields[i], m.vals[i]);
  }

  lemma ListGrown(m: Msg, i: nat, x: Msg)
    requires i < |m.vals| && m.vals[i].Msgs?
    ensures |AddMsg(m, i, x).vals| == |m.vals| && AddMsg(m, i, x).unknown == m.unknown
    ensures AddMsg(m, i, x).vals[i] == Msgs(m.vals[i].ms + [x])
    ensures forall j {:trigger AddMsg(m, i, x).vals[j]} :: 0 <= j < |m.vals| && j != i ==> AddMsg(m, i, x).vals[j] == m.vals[j]
  {
  }

  /** The message with `y` in place of the element `x` just added. */
  lemma OtherElement(m: Msg, i: nat, x: Msg, y: Msg)
    requires i < |m.vals| && m.vals[i].Msgs?
    ensures |AddMsg(m, i, y).vals| == |AddMsg(m, i, x).vals| == |m.vals|
        && AddMsg(m, i, y).unknown == AddMsg(m, i, x).unknown
    ensures AddMsg(m, i, y).vals == AddMsg(m, i, x).vals[i := Msgs(m.vals[i].ms + [y])]
  {
  }

  lemma UnknownsAreForeign(s: Schema, m: Msg)
    requires Valid(s, m)
    ensures AllForeign(s, m.unknown)
  {
  }

  /** What the setters and clearers of an optional scalar rely on. */
  lemma SetScalarIsValid(s: Schema, m: Msg, i: nat, k: Kind, has: bool, x: int)
    requires Valid(s, m) && i < |s.fields| && s.fields[i] == Optional(k) && if has then InRange(k, x) else x == 0
    ensures |m.vals| == |s.fields| && Valid(s, Set(m, i, Scalar(has, x)))
    ensures Set(m, i, Scalar(has, x)).vals == m.vals[i := Scalar(has, x)]
  {
    SetIsValid(s, m, i, Scalar(has, x));
  }
}
