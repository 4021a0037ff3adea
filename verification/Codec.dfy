/**
  What a generated message means: the values it holds, the bytes its serializer emits, and the plain
  parse loop (read a tag, dispatch on it), for any list of fields. The generated classes are proved
  against these functions, each with its own field table.
 */
module Codec {
  import opened Varint
  import opened Wire

  // --------------------------------------------------------------------------------- field tables

  datatype Kind = UInt32 | Int32 | Int64

  /** Field `i` of the table has number `i + 1`, as in every message modelled here. */
  datatype Field = Optional(k: Kind) | Repeated(k: Kind) | Nested(s: Schema)

  datatype Schema = Schema(fields: seq<Field>)

  /** Every tag of the message is one byte long, as the generated sizes assume. */
  predicate OneByteTags(s: Schema) {
    && |s.fields| <= 15
    && forall i :: 0 <= i < |s.fields| && s.fields[i].Nested? ==> OneByteTags(s.fields[i].s)
  }

  // --------------------------------------------------------------------------------------- values

  /** A list value keeps its elements in order; `has` is the presence bit of an optional scalar. */
  datatype Value = Scalar(has: bool, v: int) | Ints(xs: seq<int>) | Msgs(ms: seq<Msg>)

  datatype Msg = Msg(vals: seq<Value>, unknown: seq<Record>)

  predicate HasShape(f: Field, v: Value) {
    match f
    case Optional(_) => v.Scalar?
    case Repeated(_) => v.Ints?
    case Nested(_) => v.Msgs?
  }

  predicate Shaped(s: Schema, m: Msg) {
    |m.vals| == |s.fields| && forall i :: 0 <= i < |s.fields| ==> HasShape(s.fields[i], m.vals[i])
  }

  function Default(f: Field): Value {
    match f
    case Optional(_) => Scalar(false, 0)
    case Repeated(_) => Ints([])
    case Nested(_) => Msgs([])
  }

  function Fresh(s: Schema): (m: Msg)
    ensures Shaped(s, m)
  {
    Msg(seq(|s.fields|, i requires 0 <= i < |s.fields| => Default(s.fields[i])), [])
  }

  predicate InRange(k: Kind, x: int) {
    match k
    case UInt32 => 0 <= x < TWO_32
    case Int32 => -TWO_31 <= x < TWO_31
    case Int64 => -TWO_63 <= x < TWO_63
  }

  predicate AllInRange(k: Kind, xs: seq<int>) { forall i :: 0 <= i < |xs| ==> InRange(k, xs[i]) }

  /** The varint written for a value: negative numbers are sign-extended to 64 bits. */
  function ToWire(k: Kind, x: int): (v: nat)
    requires InRange(k, x)
    ensures v < TWO_64
  {
    if x < 0 then x + TWO_64 else x
  }

  /** The value of a varint as read: truncation to the width of the kind. */
  function FromWire(k: Kind, v: nat): (x: int)
    requires v < TWO_64
    ensures InRange(k, x)
  {
    match k
    case UInt32 => v % TWO_32
    case Int32 => if v % TWO_32 < TWO_31 then v % TWO_32 else v % TWO_32 - TWO_32
    case Int64 => if v < TWO_63 then v else v - TWO_64
  }

  lemma KindRoundTrip(k: Kind, x: int)
    requires InRange(k, x)
    ensures FromWire(k, ToWire(k, x)) == x
  {
    if x < 0 && k == Int32 {
      assert (x + TWO_64) % TWO_32 == x + TWO_32;
    }
  }

  /** Two numbers with the same low bits: modulo `n`, a power of two. */
  predicate SameLow(a: int, b: int, n: int)
    requires n > 0
  {
    (a - b) % n == 0
  }

  /**
    No zigzag and no other change on the way: the number on the wire has the 64 bits of the value, and the
    value read has the low 32 or 64 bits of whatever number was on the wire, also of one no writer emits.
   */
  lemma WireKeepsLowBits(k: Kind, x: int, v: nat)
    requires InRange(k, x) && v < 0x1_0000_0000_0000_0000
    ensures SameLow(ToWire(k, x), x, 0x1_0000_0000_0000_0000) && (x >= 0 ==> ToWire(k, x) == x)
    ensures InRange(k, FromWire(k, v))
    ensures SameLow(FromWire(k, v), v, if k == Int64 then 0x1_0000_0000_0000_0000 else 0x1_0000_0000)
  {
  }

  /** The widths of the C++ types. */
  lemma Widths(x: int)
    ensures InRange(UInt32, x) <==> 0 <= x <= 0xFFFF_FFFF
    ensures InRange(Int32, x) <==> -0x8000_0000 <= x <= 0x7FFF_FFFF
    ensures InRange(Int64, x) <==> -0x8000_0000_0000_0000 <= x <= 0x7FFF_FFFF_FFFF_FFFF
  {
  }

  // ----------------------------------------------------------------------------------- validity

  /** The tags a message's switch handles itself, rather than at handle_uninterpreted. */
  predicate Accepts(s: Schema, num: nat, wt: nat) {
    1 <= num <= |s.fields| &&
    match s.fields[num - 1]
    case Optional(_) => wt == VARINT
    case Repeated(_) => wt == VARINT || wt == LENGTH_DELIMITED
    case Nested(_) => wt == LENGTH_DELIMITED
  }

  /** An unknown record that would come back as unknown. */
  predicate ForeignTo(s: Schema, r: Record) { Storable(r) && !Accepts(s, r.num, WireType(r)) }

  predicate AllForeign(s: Schema, rs: seq<Record>) { forall i :: 0 <= i < |rs| ==> ForeignTo(s, rs[i]) }

  /** What every reachable message satisfies: widths, defaults behind clear presence bits, unknowns. */
  predicate Valid(s: Schema, m: Msg)
    decreases s
  {
    && Shaped(s, m)
    && (forall i :: 0 <= i < |s.fields| ==> ValidValue(s.fields[i], m.vals[i]))
    && AllForeign(s, m.unknown)
  }

  predicate ValidValue(f: Field, v: Value)
    decreases f
  {
    HasShape(f, v) &&
    match f
    case Optional(k) => InRange(k, v.v) && (!v.has ==> v.v == 0)
    case Repeated(k) => AllInRange(k, v.xs)
    case Nested(sub) => forall j :: 0 <= j < |v.ms| ==> Valid(sub, v.ms[j])
  }

  /** No group or nested message lies deeper than the recursion limit left. */
  predicate Fits(s: Schema, m: Msg, depth: nat)
    requires Shaped(s, m)
    decreases s
  {
    && GroupsDepth(m.unknown) <= depth
    && forall i :: 0 <= i < |s.fields| ==> FitsValue(s.fields[i], m.vals[i], depth)
  }

  predicate FitsValue(f: Field, v: Value, depth: nat)
    requires HasShape(f, v)
    decreases f
  {
    f.Nested? && v.ms != [] ==>
      depth > 0 && forall j :: 0 <= j < |v.ms| ==> Shaped(f.s, v.ms[j]) && Fits(f.s, v.ms[j], depth - 1)
  }

  // --------------------------------------------------------------------------------- serializing

  function IntRecords(num: nat, k: Kind, xs: seq<int>): (rs: seq<Record>)
    requires AllInRange(k, xs)
    ensures |rs| == |xs|
    ensures forall i :: 0 <= i < |xs| ==> rs[i] == Number(num, ToWire(k, xs[i]))
  {
    if xs == [] then [] else IntRecords(num, k, xs[..|xs| - 1]) + [Number(num, ToWire(k, xs[|xs| - 1]))]
  }

  function MsgRecords(num: nat, s: Schema, ms: seq<Msg>): (rs: seq<Record>)
    requires forall j :: 0 <= j < |ms| ==> Valid(s, ms[j])
    ensures |rs| == |ms|
    ensures forall j :: 0 <= j < |ms| ==> rs[j] == Len(num, Serialize(s, ms[j]))
    decreases s, 3, |ms|
  {
    if ms == [] then [] else MsgRecords(num, s, ms[..|ms| - 1]) + [Len(num, Serialize(s, ms[|ms| - 1]))]
  }

  function FieldRecords(num: nat, f: Field, v: Value): seq<Record>
    requires ValidValue(f, v)
    decreases f
  {
    match f
    case Optional(k) => if v.has then [Number(num, ToWire(k, v.v))] else []
    case Repeated(k) => IntRecords(num, k, v.xs)
    case Nested(sub) => MsgRecords(num, sub, v.ms)
  }

  /** The records of the first `n` fields, in field order. */
  function Records(s: Schema, m: Msg, n: nat): seq<Record>
    requires Valid(s, m) && n <= |s.fields|
    decreases s, 1, n
  {
    if n == 0 then [] else Records(s, m, n - 1) + FieldRecords(n, s.fields[n - 1], m.vals[n - 1])
  }

  function AllRecords(s: Schema, m: Msg): seq<Record>
    requires Valid(s, m)
    decreases s, 2, 0
  {
    Records(s, m, |s.fields|) + m.unknown
  }

  function Serialize(s: Schema, m: Msg): seq<Byte>
    requires Valid(s, m)
    decreases s, 2, 1
  {
    EncodeAll(AllRecords(s, m))
  }

  // -------------------------------------------------------------------------------------- parsing

  /**
    `depth` is what is left of the recursion limit. With `clamp`, a length prefix that reaches past
    the enclosing limit is cut back to it (PushLimit of library version 2.5.0); without, such a
    record is malformed, as the encoding specification has it.
   */
  datatype Env = Env(depth: nat, clamp: bool) {
    function Deeper(): Env
      requires depth > 0
    {
      Env(depth - 1, clamp)
    }
  }

  /** Why a parse loop returned true. Only InputEnd lets the caller accept the whole input. */
  datatype Ending = InputEnd | ZeroTag | EndGroupTag

  datatype Outcome = Done(m: Msg, rest: seq<Byte>, end: Ending) | Fail(m: Msg)
  {
    predicate Complete() { Done? && end.InputEnd? }
  }

  datatype Applied = Ok(m: Msg) | Err(m: Msg)

  function Set(m: Msg, i: nat, v: Value): Msg
    requires i < |m.vals|
  {
    m.(vals := m.vals[i := v])
  }

  function AddInts(m: Msg, i: nat, xs: seq<int>): Msg
    requires i < |m.vals| && m.vals[i].Ints?
  {
    Set(m, i, Ints(m.vals[i].xs + xs))
  }

  function AddMsg(m: Msg, i: nat, x: Msg): Msg
    requires i < |m.vals| && m.vals[i].Msgs?
  {
    Set(m, i, Msgs(m.vals[i].ms + [x]))
  }

  function AddUnknowns(m: Msg, rs: seq<Record>): Msg { m.(unknown := m.unknown + rs) }

  function AddUnknown(m: Msg, r: Record): Msg { AddUnknowns(m, [r]) }

  /** The elements of a packed list, and whether its payload ended on an element boundary. */
  function ReadPacked(k: Kind, bs: seq<Byte>): (r: (seq<int>, bool))
    ensures AllInRange(k, r.0)
    decreases |bs|
  {
    if bs == [] then ([], true)
    else
      match ReadVarint64(bs)
      case Malformed => ([], false)
      case Value(v, rest) =>
        var more := ReadPacked(k, rest);
        ([FromWire(k, v)] + more.0, more.1)
  }

  /** The effect of one record that was read off the input. */
  function Apply(env: Env, s: Schema, r: Record, m: Msg): (a: Applied)
    requires Shaped(s, m)
    ensures Shaped(s, a.m)
    decreases s, 0, 0
  {
    if !Accepts(s, r.num, WireType(r)) then
      if r.Cut? then Err(AddUnknown(m, Torn(r))) else Ok(AddUnknown(m, r))
    else
      var i := r.num - 1;
      match s.fields[i]
      case Optional(k) => Ok(Set(m, i, Scalar(true, FromWire(k, r.v % TWO_64))))
      case Repeated(k) =>
        if r.Number? then Ok(AddInts(m, i, [FromWire(k, r.v % TWO_64)]))
        else if r.Cut? && !env.clamp then Err(m)
        else
          var (xs, whole) := ReadPacked(k, r.bytes);
          if whole then Ok(AddInts(m, i, xs)) else Err(AddInts(m, i, xs))
      case Nested(sub) =>
        if env.depth == 0 || (r.Cut? && !env.clamp) then Err(AddMsg(m, i, Fresh(sub)))
        else
          var inner := Parse(env.Deeper(), sub, r.bytes, Fresh(sub));
          if inner.Complete() then Ok(AddMsg(m, i, inner.m)) else Err(AddMsg(m, i, inner.m))
  }

  /** What stays when not even the record can be read: a new element, or what is left of an unknown record. */
  function AfterBadRead(s: Schema, num: nat, wt: nat, left: seq<Record>, m: Msg): (m': Msg)
    requires Shaped(s, m)
    ensures Shaped(s, m')
  {
    if !Accepts(s, num, wt) then AddUnknowns(m, left)
    else if s.fields[num - 1].Nested? then AddMsg(m, num - 1, Fresh(s.fields[num - 1].s))
    else m
  }

  /** The loop after a tag has been read. */
  function AfterTag(env: Env, s: Schema, num: nat, wt: nat, bs: seq<Byte>, m: Msg): (o: Outcome)
    requires wt < 8 && Shaped(s, m)
    ensures Shaped(s, o.m)
    decreases s, |bs|, 1
  {
    if wt == END_GROUP then Done(m, bs, EndGroupTag)
    else
      match ReadPayload(env.depth, num, wt, bs)
      case Bad(left) => Fail(AfterBadRead(s, num, wt, left, m))
      case Got(r, rest) =>
        match Apply(env, s, r, m)
        case Err(m') => Fail(m')
        case Ok(m') => Parse(env, s, rest, m')
  }

  /** MergePartialFromCodedStream as a loop that only ever reads a tag and dispatches on it. */
  function Parse(env: Env, s: Schema, bs: seq<Byte>, m: Msg): (o: Outcome)
    requires Shaped(s, m)
    ensures Shaped(s, o.m)
    ensures o.Complete() ==> o.rest == []
    decreases s, |bs|, 0
  {
    match ReadTag(bs)
    case AtEnd => Done(m, [], InputEnd)
    case NoTag(rest) => Done(m, rest, ZeroTag)
    case Tag(num, wt, rest) => AfterTag(env, s, num, wt, rest, m)
  }

  // -------------------------------------------------------------------------------------- merging

  function MergeValue(a: Value, b: Value): Value {
    match b
    case Scalar(has, _) => if has then b else a
    case Ints(xs) => if a.Ints? then Ints(a.xs + xs) else b
    case Msgs(ms) => if a.Msgs? then Msgs(a.ms + ms) else b
  }

  /** MergeFrom: present scalars overwrite, lists and unknown records are appended. */
  function Merge(s: Schema, a: Msg, b: Msg): (m: Msg)
    requires Shaped(s, a) && Shaped(s, b)
    ensures Shaped(s, m)
  {
    Msg(seq(|s.fields|, i requires 0 <= i < |s.fields| => MergeValue(a.vals[i], b.vals[i])), a.unknown + b.unknown)
  }

  // ---------------------------------------------------------------------------------------- sizes

  /** Int32Size, UInt32Size and Int64Size: a negative number is charged for 64 bits. */
  function KindSize(k: Kind, x: int): nat
    requires InRange(k, x)
  {
    match k
    case UInt32 => VarintSize32(x)
    case Int32 => if x < 0 then 10 else VarintSize32(x)
    case Int64 => VarintSize64(ToWire(Int64, x))
  }

  lemma KindSizeIsExact(k: Kind, x: int)
    requires InRange(k, x)
    ensures KindSize(k, x) == |EncodeVarint(ToWire(k, x))|
  {
    SizeTablesAreExact(ToWire(k, x));
  }
}
