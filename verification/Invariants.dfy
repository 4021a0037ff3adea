/**
  What every run keeps: parsing, whether it succeeds or fails, and every edit of a message leave
  widths, defaults behind clear presence bits, and unknown records as Codec.Valid has them.
 */
module Invariants {
  import opened Varint
  import opened Wire
  import opened Codec
  import opened RoundTrip

  lemma FreshIsValid(s: Schema)
    ensures Valid(s, Fresh(s))
    ensures forall d: nat :: Fits(s, Fresh(s), d)
  {
  }

  lemma SetIsValid(s: Schema, m: Msg, i: nat, v: Value)
    requires Valid(s, m) && i < |s.fields| && ValidValue(s.fields[i], v)
    ensures Valid(s, Set(m, i, v))
  {
  }

  lemma SetFits(s: Schema, m: Msg, i: nat, v: Value, depth: nat)
    requires Shaped(s, m) && Fits(s, m, depth) && i < |s.fields|
    requires HasShape(s.fields[i], v) && FitsValue(s.fields[i], v, depth)
    ensures Fits(s, Set(m, i, v), depth)
  {
  }

  lemma AddIntsIsValid(s: Schema, m: Msg, i: nat, xs: seq<int>)
    requires Valid(s, m) && i < |s.fields| && s.fields[i].Repeated? && AllInRange(s.fields[i].k, xs)
    ensures m.vals[i].Ints? && Valid(s, AddInts(m, i, xs))
  {
    assert ValidValue(s.fields[i], m.vals[i]);
    SetIsValid(s, m, i, Ints(m.vals[i].xs + xs));
  }

  lemma AddMsgIsValid(s: Schema, m: Msg, i: nat, x: Msg)
    requires Valid(s, m) && i < |s.fields| && s.fields[i].Nested? && Valid(s.fields[i].s, x)
    ensures m.vals[i].Msgs? && Valid(s, AddMsg(m, i, x))
  {
    assert ValidValue(s.fields[i], m.vals[i]);
    SetIsValid(s, m, i, Msgs(m.vals[i].ms + [x]));
  }

  lemma AddMsgsIsValid(s: Schema, m: Msg, i: nat, sub: Schema, more: seq<Msg>)
    requires Valid(s, m) && i < |s.fields| && s.fields[i] == Nested(sub) && forall j :: 0 <= j < |more| ==> Valid(sub, more[j])
    ensures m.vals[i].Msgs? && Valid(s, Set(m, i, Msgs(m.vals[i].ms + more)))
  {
    assert ValidValue(s.fields[i], m.vals[i]);
    SetIsValid(s, m, i, Msgs(m.vals[i].ms + more));
  }

  lemma AddMsgFits(s: Schema, m: Msg, i: nat, x: Msg, depth: nat)
    requires Shaped(s, m) && Fits(s, m, depth) && i < |s.fields| && s.fields[i].Nested?
    requires depth > 0 && Shaped(s.fields[i].s, x) && Fits(s.fields[i].s, x, depth - 1)
    ensures m.vals[i].Msgs? && Fits(s, AddMsg(m, i, x), depth)
  {
    assert HasShape(s.fields[i], m.vals[i]) && FitsValue(s.fields[i], m.vals[i], depth);
    SetFits(s, m, i, Msgs(m.vals[i].ms + [x]), depth);
  }

  lemma AddUnknownIsValid(s: Schema, m: Msg, r: Record, depth: nat)
    requires Valid(s, m) && ForeignTo(s, r) && GroupDepth(r) <= depth
    ensures Valid(s, AddUnknown(m, r))
    ensures Fits(s, m, depth) ==> Fits(s, AddUnknown(m, r), depth)
  {
    GroupsDepthBounds(m.unknown, depth);
    GroupsDepthBounds(m.unknown + [r], depth);
  }

  lemma AddUnknownsIsValid(s: Schema, m: Msg, rs: seq<Record>)
    requires Valid(s, m) && AllForeign(s, rs)
    ensures Valid(s, AddUnknowns(m, rs))
  {
  }

  lemma ScalarKeepsValid(env: Env, s: Schema, r: Record, m: Msg)
    requires Valid(s, m) && Accepts(s, r.num, WireType(r)) && !s.fields[r.num - 1].Nested?
    ensures Valid(s, Apply(env, s, r, m).m)
    ensures Fits(s, m, env.depth) ==> Fits(s, Apply(env, s, r, m).m, env.depth)
  {
    var i := r.num - 1;
    assert ValidValue(s.fields[i], m.vals[i]);
    if s.fields[i].Optional? {
      SetIsValid(s, m, i, Scalar(true, FromWire(s.fields[i].k, r.v % TWO_64)));
    } else if r.Number? {
      AddIntsIsValid(s, m, i, [FromWire(s.fields[i].k, r.v % TWO_64)]);
    } else {
      AddIntsIsValid(s, m, i, ReadPacked(s.fields[i].k, r.bytes).0);
    }
  }

  lemma {:induction false} NestedKeepsValid(env: Env, s: Schema, r: Record, m: Msg)
    requires Valid(s, m) && Accepts(s, r.num, WireType(r)) && s.fields[r.num - 1].Nested?
    ensures Valid(s, Apply(env, s, r, m).m)
    ensures Apply(env, s, r, m).Ok? && Fits(s, m, env.depth) ==> Fits(s, Apply(env, s, r, m).m, env.depth)
    decreases s, 0, 0
  {
    var i := r.num - 1;
    var sub := s.fields[i].s;
    FreshIsValid(sub);
    if env.depth == 0 || (r.Cut? && !env.clamp) {
      AddMsgIsValid(s, m, i, Fresh(sub));
    } else {
      var inner := Parse(env.Deeper(), sub, r.bytes, Fresh(sub));
      ParseKeepsValid(env.Deeper(), sub, r.bytes, Fresh(sub));
      AddMsgIsValid(s, m, i, inner.m);
      if inner.Complete() && Fits(s, m, env.depth) {
        AddMsgFits(s, m, i, inner.m, env.depth);
      }
    }
  }

  lemma {:induction false} ApplyKeepsValid(env: Env, s: Schema, r: Record, m: Msg)
    requires Valid(s, m)
    requires if r.Cut? then Storable(Torn(r)) else Storable(r) && GroupDepth(r) <= env.depth
    ensures Valid(s, Apply(env, s, r, m).m)
    ensures Apply(env, s, r, m).Ok? && Fits(s, m, env.depth) ==> Fits(s, Apply(env, s, r, m).m, env.depth)
    decreases s, 0, 1
  {
    if Accepts(s, r.num, WireType(r)) {
      if s.fields[r.num - 1].Nested? {
        NestedKeepsValid(env, s, r, m);
      } else {
        ScalarKeepsValid(env, s, r, m);
      }
    } else if r.Cut? {
      AddUnknownsIsValid(s, m, [Torn(r)]);
    } else {
      AddUnknownIsValid(s, m, r, env.depth);
    }
  }

  /** Successful or not, a parse leaves a valid message; a successful one fits the recursion limit. */
  lemma {:induction false} ParseKeepsValid(env: Env, s: Schema, bs: seq<Byte>, m: Msg)
    requires Valid(s, m)
    ensures Valid(s, Parse(env, s, bs, m).m)
    ensures Parse(env, s, bs, m).Done? && Fits(s, m, env.depth) ==> Fits(s, Parse(env, s, bs, m).m, env.depth)
    decreases s, |bs|, 2
  {
    var t := ReadTag(bs);
    if t.Tag? && t.wt != END_GROUP {
      var p := ReadPayload(env.depth, t.num, t.wt, t.rest);
      ReadIsStorable(env.depth, t.num, t.wt, t.rest);
      if p.Got? {
        ApplyKeepsValid(env, s, p.r, m);
        ParseKeepsValid(env, s, p.rest, Apply(env, s, p.r, m).m);
      } else if Accepts(s, t.num, t.wt) && s.fields[t.num - 1].Nested? {
        FreshIsValid(s.fields[t.num - 1].s);
        AddMsgIsValid(s, m, t.num - 1, Fresh(s.fields[t.num - 1].s));
      } else if !Accepts(s, t.num, t.wt) {
        AddUnknownsIsValid(s, m, p.left);
      }
    }
  }

  /**
    Whatever complete input a message came from - over-long varints, packed lists, repeated or
    reordered fields - writing it and reading that back gives the same message again.
   */
  lemma NormalFormIsFixed(env: Env, s: Schema, bs: seq<Byte>)
    requires OneByteTags(s) && Parse(env, s, bs, Fresh(s)).Complete()
    ensures Valid(s, Parse(env, s, bs, Fresh(s)).m)
    ensures var m := Parse(env, s, bs, Fresh(s)).m;
            |Serialize(s, m)| < TWO_31 ==> Parse(env, s, Serialize(s, m), Fresh(s)) == Done(m, [], InputEnd)
  {
    FreshIsValid(s);
    ParseKeepsValid(env, s, bs, Fresh(s));
    var m := Parse(env, s, bs, Fresh(s)).m;
    if |Serialize(s, m)| < TWO_31 {
      ParseUndoesSerialize(env, s, m);
    }
  }

  lemma MergeKeepsValid(s: Schema, a: Msg, b: Msg)
    requires Valid(s, a) && Valid(s, b)
    ensures Valid(s, Merge(s, a, b))
  {
    forall i | 0 <= i < |s.fields|
      ensures ValidValue(s.fields[i], Merge(s, a, b).vals[i])
    {
      assert ValidValue(s.fields[i], a.vals[i]) && ValidValue(s.fields[i], b.vals[i]);
    }
  }

  // ------------------------------------------------------------------------------------- every run

  /** What a caller can do to one message through its generated interface. */
  datatype Edit =
    | SetScalar(i: nat, x: int)                 // set_f
    | ClearScalar(i: nat)                       // clear_f
    | AddInt(i: nat, x: int)                    // add_f of a scalar list
    | SetInt(i: nat, j: nat, x: int)            // set_f(index)
    | ClearList(i: nat)                         // clear_f of a list
    | AddNested(i: nat)                         // add_f of a message list
    | ClearAll                                  // Clear
    | ParseInto(env: Env, bs: seq<Byte>)        // MergePartialFromCodedStream

  /** The indices and widths the C++ types and the callers of the accessors guarantee. */
  predicate Enabled(s: Schema, e: Edit, m: Msg)
    requires Shaped(s, m)
  {
    match e
    case SetScalar(i, x) => i < |s.fields| && s.fields[i].Optional? && InRange(s.fields[i].k, x)
    case ClearScalar(i) => i < |s.fields| && s.fields[i].Optional?
    case AddInt(i, x) => i < |s.fields| && s.fields[i].Repeated? && InRange(s.fields[i].k, x)
    case SetInt(i, j, x) =>
      i < |s.fields| && s.fields[i].Repeated? && InRange(s.fields[i].k, x) && m.vals[i].Ints? && j < |m.vals[i].xs|
    case ClearList(i) => i < |s.fields| && !s.fields[i].Optional?
    case AddNested(i) => i < |s.fields| && s.fields[i].Nested?
    case ClearAll => true
    case ParseInto(_, _) => true
  }

  function ApplyEdit(s: Schema, e: Edit, m: Msg): (m': Msg)
    requires Shaped(s, m) && Enabled(s, e, m)
    ensures Shaped(s, m')
  {
    assert forall i :: 0 <= i < |s.fields| ==> HasShape(s.fields[i], m.vals[i]);
    match e
    case SetScalar(i, x) => Set(m, i, Scalar(true, x))
    case ClearScalar(i) => Set(m, i, Scalar(false, 0))
    case AddInt(i, x) => AddInts(m, i, [x])
    case SetInt(i, j, x) => Set(m, i, Ints(m.vals[i].xs[j := x]))
    case ClearList(i) => Set(m, i, Default(s.fields[i]))
    case AddNested(i) => AddMsg(m, i, Fresh(s.fields[i].s))
    case ClearAll => Fresh(s)
    case ParseInto(env, bs) => Parse(env, s, bs, m).m
  }

  lemma EditKeepsValid(s: Schema, e: Edit, m: Msg)
    requires Valid(s, m) && Enabled(s, e, m)
    ensures Valid(s, ApplyEdit(s, e, m))
  {
    assert forall i :: 0 <= i < |s.fields| ==> ValidValue(s.fields[i], m.vals[i]);
    match e
    case SetScalar(i, x) => SetIsValid(s, m, i, Scalar(true, x));
    case ClearScalar(i) => SetIsValid(s, m, i, Scalar(false, 0));
    case AddInt(i, x) => AddIntsIsValid(s, m, i, [x]);
    case SetInt(i, j, x) => SetIsValid(s, m, i, Ints(m.vals[i].xs[j := x]));
    case ClearList(i) => SetIsValid(s, m, i, Default(s.fields[i]));
    case AddNested(i) =>
      FreshIsValid(s.fields[i].s);
      AddMsgIsValid(s, m, i, Fresh(s.fields[i].s));
    case ClearAll => FreshIsValid(s);
    case ParseInto(env, bs) => ParseKeepsValid(env, s, bs, m);
  }

  /** A message with its type. */
  datatype Obj = Obj(s: Schema, m: Msg)

  /** Element `j` of message list `i`: mutable_f(j) or f(j). */
  datatype Step = Step(i: nat, j: nat)

  /** An object of its own, or an element somewhere inside one. */
  datatype Ref = Ref(t: nat, path: seq<Step>)

  predicate Inside(o: Obj, p: Step) {
    && Shaped(o.s, o.m) && p.i < |o.s.fields| && o.s.fields[p.i].Nested?
    && o.m.vals[p.i].Msgs? && p.j < |o.m.vals[p.i].ms|
  }

  function Child(o: Obj, p: Step): Obj
    requires Inside(o, p)
  {
    Obj(o.s.fields[p.i].s, o.m.vals[p.i].ms[p.j])
  }

  function PutChild(o: Obj, p: Step, x: Msg): (o': Obj)
    requires Inside(o, p)
    ensures o'.s == o.s && Inside(o', p) && Child(o', p) == Obj(Child(o, p).s, x)
    ensures forall q: Step :: q != p && Inside(o, q) ==> Inside(o', q) && Child(o', q) == Child(o, q)
  {
    Obj(o.s, Set(o.m, p.i, Msgs(o.m.vals[p.i].ms[p.j := x])))
  }

  predicate Reaches(o: Obj, path: seq<Step>)
    decreases |path|
  {
    if path == [] then Shaped(o.s, o.m) else Inside(o, path[0]) && Reaches(Child(o, path[0]), path[1..])
  }

  function Get(o: Obj, path: seq<Step>): (x: Obj)
    requires Reaches(o, path)
    ensures Shaped(x.s, x.m)
    decreases |path|
  {
    if path == [] then o else Get(Child(o, path[0]), path[1..])
  }

  function Put(o: Obj, path: seq<Step>, x: Msg): (o': Obj)
    requires Reaches(o, path) && Shaped(Get(o, path).s, x)
    ensures o'.s == o.s && Reaches(o', path) && Get(o', path) == Obj(Get(o, path).s, x)
    decreases |path|
  {
    if path == [] then Obj(o.s, x) else PutChild(o, path[0], Put(Child(o, path[0]), path[1..], x).m)
  }

  lemma {:induction false} GetIsValid(o: Obj, path: seq<Step>)
    requires Valid(o.s, o.m) && Reaches(o, path)
    ensures Valid(Get(o, path).s, Get(o, path).m)
    decreases |path|
  {
    if path != [] {
      assert ValidValue(o.s.fields[path[0].i], o.m.vals[path[0].i]);
      GetIsValid(Child(o, path[0]), path[1..]);
    }
  }

  lemma {:induction false} PutKeepsValid(o: Obj, path: seq<Step>, x: Msg)
    requires Valid(o.s, o.m) && Reaches(o, path) && Valid(Get(o, path).s, x)
    ensures Valid(o.s, Put(o, path, x).m)
    decreases |path|
  {
    if path != [] {
      var p := path[0];
      assert ValidValue(o.s.fields[p.i], o.m.vals[p.i]);
      PutKeepsValid(Child(o, p), path[1..], x);
      SetIsValid(o.s, o.m, p.i, Msgs(o.m.vals[p.i].ms[p.j := Put(Child(o, p), path[1..], x).m]));
    }
  }

  /** No message type contains itself. */
  lemma {:induction false} InsideIsSmaller(o: Obj, path: seq<Step>)
    requires Reaches(o, path) && path != []
    ensures o.s decreases to Get(o, path).s
    ensures o.s != Get(o, path).s
    decreases |path|
  {
    if |path| > 1 {
      InsideIsSmaller(Child(o, path[0]), path[1..]);
    }
  }

  /** So of two messages of one type neither is inside the other: changing one leaves the other alone. */
  lemma {:induction false} SameTypeIsApart(o: Obj, p: seq<Step>, q: seq<Step>, x: Msg)
    requires Reaches(o, p) && Reaches(o, q) && p != q && Get(o, p).s == Get(o, q).s && Shaped(Get(o, p).s, x)
    ensures Reaches(Put(o, p, x), q) && Get(Put(o, p, x), q) == Get(o, q)
    decreases |p|
  {
    if p == [] {
      InsideIsSmaller(o, q);
    } else if q == [] {
      InsideIsSmaller(o, p);
    } else if p[0] == q[0] {
      SameTypeIsApart(Child(o, p[0]), p[1..], q[1..], x);
    }
  }

  /** A program over any number of messages of any types, and over the messages inside them. */
  datatype Op =
    | New(s: Schema)
    | EditAt(at: Ref, e: Edit)
    | MergeFrom(at: Ref, from: Ref)
    | CopyFrom(at: Ref, from: Ref)
    | Swap(at: Ref, other: Ref)

  predicate AllShaped(os: seq<Obj>) { forall t :: 0 <= t < |os| ==> Shaped(os[t].s, os[t].m) }

  predicate AllValid(os: seq<Obj>) { forall t :: 0 <= t < |os| ==> Valid(os[t].s, os[t].m) }

  predicate Refers(os: seq<Obj>, r: Ref) { r.t < |os| && Reaches(os[r.t], r.path) }

  function At(os: seq<Obj>, r: Ref): (x: Obj)
    requires Refers(os, r)
    ensures Shaped(x.s, x.m)
  {
    Get(os[r.t], r.path)
  }

  function Update(os: seq<Obj>, r: Ref, x: Msg): (os': seq<Obj>)
    requires AllShaped(os) && Refers(os, r) && Shaped(At(os, r).s, x)
    ensures AllShaped(os') && |os'| == |os| && Refers(os', r) && At(os', r) == Obj(At(os, r).s, x)
  {
    PutIsShaped(os[r.t], r.path, x);
    os[r.t := Put(os[r.t], r.path, x)]
  }

  lemma PutIsShaped(o: Obj, path: seq<Step>, x: Msg)
    requires Reaches(o, path) && Shaped(Get(o, path).s, x)
    ensures Shaped(o.s, Put(o, path, x).m)
  {
  }

  lemma UpdateLeavesOthers(os: seq<Obj>, r: Ref, q: Ref, x: Msg)
    requires AllShaped(os) && Refers(os, r) && Refers(os, q) && r != q && At(os, r).s == At(os, q).s
        && Shaped(At(os, r).s, x)
    ensures Refers(Update(os, r, x), q) && At(Update(os, r, x), q) == At(os, q)
  {
    if r.t == q.t {
      SameTypeIsApart(os[r.t], r.path, q.path, x);
    }
  }

  lemma UpdateKeepsValid(os: seq<Obj>, r: Ref, x: Msg)
    requires AllShaped(os) && AllValid(os) && Refers(os, r) && Valid(At(os, r).s, x)
    ensures AllValid(Update(os, r, x))
  {
    PutKeepsValid(os[r.t], r.path, x);
  }

  /** The C++ types make both sides of MergeFrom, CopyFrom and Swap messages of one type. */
  predicate OfOneType(os: seq<Obj>, a: Ref, b: Ref) { Refers(os, a) && Refers(os, b) && At(os, a).s == At(os, b).s }

  /** MergeFrom aborts on itself (GOOGLE_CHECK_NE); the others accept it. */
  predicate CanRun(op: Op, os: seq<Obj>)
    requires AllShaped(os)
  {
    match op
    case New(_) => true
    case EditAt(at, e) => Refers(os, at) && Enabled(At(os, at).s, e, At(os, at).m)
    case MergeFrom(at, from) => OfOneType(os, at, from) && at != from
    case CopyFrom(at, from) => OfOneType(os, at, from)
    case Swap(at, other) => OfOneType(os, at, other)
  }

  function RunOne(op: Op, os: seq<Obj>): (os': seq<Obj>)
    requires AllShaped(os) && CanRun(op, os)
    ensures AllShaped(os')
  {
    match op
    case New(s) => os + [Obj(s, Fresh(s))]
    case EditAt(at, e) => Update(os, at, ApplyEdit(At(os, at).s, e, At(os, at).m))
    case MergeFrom(at, from) => Update(os, at, Merge(At(os, at).s, At(os, at).m, At(os, from).m))
    case CopyFrom(at, from) =>
      if at == from then os else Update(os, at, Merge(At(os, at).s, Fresh(At(os, at).s), At(os, from).m))
    case Swap(at, other) =>
      if at == other then os
      else
        UpdateLeavesOthers(os, at, other, At(os, other).m);
        Update(Update(os, at, At(os, other).m), other, At(os, at).m)
  }

  /** The messages after a program; an operation that cannot run ends it. */
  function Run(ops: seq<Op>, os: seq<Obj>): (os': seq<Obj>)
    requires AllShaped(os)
    ensures AllShaped(os')
    decreases |ops|
  {
    if ops == [] || !CanRun(ops[0], os) then os else Run(ops[1..], RunOne(ops[0], os))
  }

  lemma RefIsValid(os: seq<Obj>, r: Ref)
    requires AllValid(os) && Refers(os, r)
    ensures Valid(At(os, r).s, At(os, r).m)
  {
    GetIsValid(os[r.t], r.path);
  }

  lemma RunOneKeepsValid(op: Op, os: seq<Obj>)
    requires AllValid(os) && AllShaped(os) && CanRun(op, os)
    ensures AllValid(RunOne(op, os))
  {
    match op
    case New(s) => FreshIsValid(s);
    case EditAt(at, e) =>
      RefIsValid(os, at);
      EditKeepsValid(At(os, at).s, e, At(os, at).m);
      UpdateKeepsValid(os, at, ApplyEdit(At(os, at).s, e, At(os, at).m));
    case MergeFrom(at, from) =>
      RefIsValid(os, at);
      RefIsValid(os, from);
      MergeKeepsValid(At(os, at).s, At(os, at).m, At(os, from).m);
      UpdateKeepsValid(os, at, Merge(At(os, at).s, At(os, at).m, At(os, from).m));
    case CopyFrom(at, from) =>
      if at != from {
        var s := At(os, at).s;
        RefIsValid(os, from);
        FreshIsValid(s);
        MergeKeepsValid(s, Fresh(s), At(os, from).m);
        UpdateKeepsValid(os, at, Merge(s, Fresh(s), At(os, from).m));
      }
    case Swap(at, other) =>
      if at != other {
        RefIsValid(os, at);
        RefIsValid(os, other);
        UpdateLeavesOthers(os, at, other, At(os, other).m);
        UpdateKeepsValid(os, at, At(os, other).m);
        UpdateKeepsValid(Update(os, at, At(os, other).m), other, At(os, at).m);
      }
  }

  /** No program, however it mixes failed and successful parses, leaves the invariant. */
  lemma {:induction false} EveryRunKeepsValid(ops: seq<Op>, os: seq<Obj>)
    requires AllShaped(os) && AllValid(os)
    ensures AllValid(Run(ops, os))
    decreases |ops|
  {
    if ops != [] && CanRun(ops[0], os) {
      RunOneKeepsValid(ops[0], os);
      EveryRunKeepsValid(ops[1..], RunOne(ops[0], os));
    }
  }
}
