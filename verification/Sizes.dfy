/** ByteSize as the generated code adds it up, and that it counts the serialized bytes exactly. */
module Sizes {
  import opened Varint
  import opened Wire
  import opened Codec

  /** WireFormatLite::LengthDelimitedSize; the prefix is sized as a 32-bit number. */
  function LengthDelimitedSize(n: nat): nat { VarintSize32(n % TWO_32) + n }

  function IntsSize(k: Kind, xs: seq<int>): nat
    requires AllInRange(k, xs)
  {
    if xs == [] then 0 else IntsSize(k, xs[..|xs| - 1]) + KindSize(k, xs[|xs| - 1])
  }

  function MsgsSize(s: Schema, ms: seq<Msg>): nat
    requires forall j :: 0 <= j < |ms| ==> Valid(s, ms[j])
    decreases s, 3, |ms|
  {
    if ms == [] then 0 else MsgsSize(s, ms[..|ms| - 1]) + LengthDelimitedSize(ByteSize(s, ms[|ms| - 1]))
  }

  /** One byte for each tag, whatever the field number. */
  function FieldSize(f: Field, v: Value): nat
    requires ValidValue(f, v)
    decreases f
  {
    match f
    case Optional(k) => if v.has then 1 + KindSize(k, v.v) else 0
    case Repeated(k) => |v.xs| + IntsSize(k, v.xs)
    case Nested(sub) => |v.ms| + MsgsSize(sub, v.ms)
  }

  function FieldsSize(s: Schema, m: Msg, n: nat): nat
    requires Valid(s, m) && n <= |s.fields|
    decreases s, 1, n
  {
    if n == 0 then 0 else FieldsSize(s, m, n - 1) + FieldSize(s.fields[n - 1], m.vals[n - 1])
  }

  function ByteSize(s: Schema, m: Msg): nat
    requires Valid(s, m)
    decreases s, 2
  {
    FieldsSize(s, m, |s.fields|) + (assert forall i :: 0 <= i < |m.unknown| ==> ForeignTo(s, m.unknown[i]); UnknownSize(m.unknown))
  }

  // ------------------------------------------------------------------------------------- exactness

  lemma OneByteTag(num: nat, wt: nat)
    requires num <= 15 && wt < 8
    ensures |EncodeTag(num, wt)| == 1
  {
  }

  lemma EncodeAllSnoc(rs: seq<Record>, r: Record)
    ensures EncodeAll(rs + [r]) == EncodeAll(rs) + Encode(r)
  {
    EncodeAllAppends(rs, [r]);
    assert [r][1..] == [];
    assert EncodeAll([r]) == Encode(r) + EncodeAll([]);
  }

  lemma {:induction false} IntsSizeIsExact(num: nat, k: Kind, xs: seq<int>)
    requires num <= 15 && AllInRange(k, xs)
    ensures |EncodeAll(IntRecords(num, k, xs))| == |xs| + IntsSize(k, xs)
  {
    if xs != [] {
      var init, last := xs[..|xs| - 1], xs[|xs| - 1];
      IntsSizeIsExact(num, k, init);
      EncodeAllSnoc(IntRecords(num, k, init), Number(num, ToWire(k, last)));
      OneByteTag(num, VARINT);
      KindSizeIsExact(k, last);
    }
  }

  lemma MsgsStep(num: nat, s: Schema, ms: seq<Msg>)
    requires ms != [] && forall j :: 0 <= j < |ms| ==> Valid(s, ms[j])
    ensures MsgRecords(num, s, ms) == MsgRecords(num, s, ms[..|ms| - 1]) + [Len(num, Serialize(s, ms[|ms| - 1]))]
    ensures MsgsSize(s, ms) == MsgsSize(s, ms[..|ms| - 1]) + LengthDelimitedSize(ByteSize(s, ms[|ms| - 1]))
    ensures ByteSize(s, ms[|ms| - 1]) <= LengthDelimitedSize(ByteSize(s, ms[|ms| - 1]))
  {
  }

  lemma LenSize(num: nat, bytes: seq<Byte>)
    requires num <= 15 && |bytes| < TWO_31
    ensures |Encode(Len(num, bytes))| == 1 + LengthDelimitedSize(|bytes|)
  {
    OneByteTag(num, LENGTH_DELIMITED);
    SizeTablesAreExact(|bytes|);
  }

  lemma {:induction false} MsgsSizeIsExact(num: nat, s: Schema, ms: seq<Msg>)
    requires num <= 15 && OneByteTags(s) && forall j :: 0 <= j < |ms| ==> Valid(s, ms[j])
    requires MsgsSize(s, ms) < TWO_31
    ensures |EncodeAll(MsgRecords(num, s, ms))| == |ms| + MsgsSize(s, ms)
    decreases s, 3, |ms|
  {
    if ms != [] {
      hide *;
      var init, last := ms[..|ms| - 1], ms[|ms| - 1];
      MsgsStep(num, s, ms);
      MsgsSizeIsExact(num, s, init);
      ByteSizeIsExact(s, last);
      EncodeAllSnoc(MsgRecords(num, s, init), Len(num, Serialize(s, last)));
      LenSize(num, Serialize(s, last));
    }
  }

  lemma {:induction false} FieldSizeIsExact(num: nat, f: Field, v: Value)
    requires num <= 15 && ValidValue(f, v) && (f.Nested? ==> OneByteTags(f.s)) && FieldSize(f, v) < TWO_31
    ensures |EncodeAll(FieldRecords(num, f, v))| == FieldSize(f, v)
    decreases f
  {
    match f
    case Optional(k) =>
      if v.has {
        EncodeAllSnoc([], Number(num, ToWire(k, v.v)));
        assert [] + [Number(num, ToWire(k, v.v))] == [Number(num, ToWire(k, v.v))];
        OneByteTag(num, VARINT);
        KindSizeIsExact(k, v.v);
      }
    case Repeated(k) => IntsSizeIsExact(num, k, v.xs);
    case Nested(sub) => MsgsSizeIsExact(num, sub, v.ms);
  }

  lemma {:induction false} FieldsSizeIsExact(s: Schema, m: Msg, n: nat)
    requires OneByteTags(s) && Valid(s, m) && n <= |s.fields| && FieldsSize(s, m, n) < TWO_31
    ensures |EncodeAll(Records(s, m, n))| == FieldsSize(s, m, n)
    decreases s, 1, n
  {
    if n > 0 {
      assert ValidValue(s.fields[n - 1], m.vals[n - 1]);
      FieldsSizeIsExact(s, m, n - 1);
      FieldSizeIsExact(n, s.fields[n - 1], m.vals[n - 1]);
      EncodeAllAppends(Records(s, m, n - 1), FieldRecords(n, s.fields[n - 1], m.vals[n - 1]));
    }
  }

  /** ByteSize is the length of what the serializer writes, as long as it fits a length prefix. */
  lemma {:induction false} ByteSizeIsExact(s: Schema, m: Msg)
    requires OneByteTags(s) && Valid(s, m) && ByteSize(s, m) < TWO_31
    ensures |Serialize(s, m)| == ByteSize(s, m)
    decreases s, 2
  {
    FieldsSizeIsExact(s, m, |s.fields|);
    assert forall i :: 0 <= i < |m.unknown| ==> ForeignTo(s, m.unknown[i]);
    UnknownSizeIsExact(m.unknown);
    EncodeAllAppends(Records(s, m, |s.fields|), m.unknown);
  }

  /** An int32 list element costs its tag and then one to five bytes, or ten when it is negative. */
  lemma Int32ElementSize(num: nat, x: int)
    requires num <= 15 && InRange(Int32, x)
    ensures |Encode(Number(num, ToWire(Int32, x)))| == if x < 0 then 11 else 1 + VarintSize32(x)
    ensures FromWire(Int32, ToWire(Int32, x)) == x
    ensures x < 0 ==> ToWire(Int32, x) % TWO_32 == x + TWO_32
  {
    OneByteTag(num, VARINT);
    KindSizeIsExact(Int32, x);
    KindRoundTrip(Int32, x);
  }
}
