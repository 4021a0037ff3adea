/**
  What a caller sees of each operation of a run: the field it edits, the messages it reads and writes, and
  that everything else stays as it was.
 */
module Runs {
  import opened Varint
  import opened Codec
  import opened Invariants
  import opened Merging

  // -------------------------------------------------------------------------------------- edits of one message

  /** Nothing but field `i` may differ. */
  predicate OnlyField(m: Msg, m': Msg, i: nat) {
    && |m'.vals| == |m.vals| && m'.unknown == m.unknown
    && forall j :: 0 <= j < |m.vals| && j != i ==> m'.vals[j] == m.vals[j]
  }

  /** set_f: has_f is true and f reads the value given. */
  lemma SetScalarDoes(s: Schema, m: Msg, i: nat, x: int)
    requires Shaped(s, m) && i < |s.fields| && s.fields[i].Optional? && InRange(s.fields[i].k, x)
    ensures Enabled(s, SetScalar(i, x), m)
    ensures var m' := ApplyEdit(s, SetScalar(i, x), m); OnlyField(m, m', i) && m'.vals[i] == Scalar(true, x)
  {
  }

  /** clear_f: has_f is false and f reads its default. */
  lemma ClearScalarDoes(s: Schema, m: Msg, i: nat)
    requires Shaped(s, m) && i < |s.fields| && s.fields[i].Optional?
    ensures Enabled(s, ClearScalar(i), m)
    ensures var m' := ApplyEdit(s, ClearScalar(i), m); OnlyField(m, m', i) && m'.vals[i] == Scalar(false, 0)
  {
  }

  /** add_f: one more element, at the end. */
  lemma AddIntDoes(s: Schema, m: Msg, i: nat, x: int)
    requires Shaped(s, m) && i < |s.fields| && s.fields[i].Repeated? && InRange(s.fields[i].k, x)
    ensures Enabled(s, AddInt(i, x), m) && m.vals[i].Ints?
    ensures var m' := ApplyEdit(s, AddInt(i, x), m); OnlyField(m, m', i) && m'.vals[i] == Ints(m.vals[i].xs + [x])
  {
    assert HasShape(s.fields[i], m.vals[i]);
  }

  /** set_f(index): that element reads the value given and every other element what it was. */
  lemma SetIntDoes(s: Schema, m: Msg, i: nat, j: nat, x: int)
    requires Shaped(s, m) && i < |s.fields| && s.fields[i].Repeated? && InRange(s.fields[i].k, x)
    requires m.vals[i].Ints? && j < |m.vals[i].xs|
    ensures Enabled(s, SetInt(i, j, x), m)
    ensures var m' := ApplyEdit(s, SetInt(i, j, x), m);
            && OnlyField(m, m', i) && m'.vals[i].Ints? && |m'.vals[i].xs| == |m.vals[i].xs|
            && forall k :: 0 <= k < |m.vals[i].xs| ==> m'.vals[i].xs[k] == if k == j then x else m.vals[i].xs[k]
  {
  }

  /** clear_f of a list: it is empty. */
  lemma ClearListDoes(s: Schema, m: Msg, i: nat)
    requires Shaped(s, m) && i < |s.fields| && !s.fields[i].Optional?
    ensures Enabled(s, ClearList(i), m)
    ensures var m' := ApplyEdit(s, ClearList(i), m);
            OnlyField(m, m', i) && m'.vals[i] == if s.fields[i].Repeated? then Ints([]) else Msgs([])
  {
  }

  /** Every scalar absent and 0, every list empty. */
  predicate IsEmpty(s: Schema, m: Msg) {
    && |m.vals| == |s.fields| && m.unknown == []
    && forall i :: 0 <= i < |s.fields| ==>
         m.vals[i] == if s.fields[i].Optional? then Scalar(false, 0)
                      else if s.fields[i].Repeated? then Ints([])
                      else Msgs([])
  }

  /** add_f of a message list: one more element, at the end, and that is empty. */
  lemma AddNestedDoes(s: Schema, m: Msg, i: nat, sub: Schema)
    requires Shaped(s, m) && i < |s.fields| && s.fields[i] == Nested(sub)
    ensures Enabled(s, AddNested(i), m) && m.vals[i].Msgs?
    ensures var m' := ApplyEdit(s, AddNested(i), m);
            && OnlyField(m, m', i) && m'.vals[i].Msgs? && |m'.vals[i].ms| == |m.vals[i].ms| + 1
            && m'.vals[i].ms[..|m.vals[i].ms|] == m.vals[i].ms && IsEmpty(sub, m'.vals[i].ms[|m.vals[i].ms|])
  {
    assert HasShape(s.fields[i], m.vals[i]);
  }

  /** Clear. */
  lemma ClearAllDoes(s: Schema, m: Msg)
    requires Shaped(s, m)
    ensures Enabled(s, ClearAll, m) && IsEmpty(s, ApplyEdit(s, ClearAll, m))
  {
  }

  /** MergePartialFromCodedStream: what the input holds, merged in, as far as it was read. */
  lemma ParseIntoDoes(s: Schema, m: Msg, env: Env, bs: seq<Byte>)
    requires Shaped(s, m)
    ensures Enabled(s, ParseInto(env, bs), m)
    ensures ApplyEdit(s, ParseInto(env, bs), m) == Merge(s, m, Parse(env, s, bs, Fresh(s)).m)
  {
    MergeFresh(s, m);
    ParseUnderMerge(env, s, bs, m, Fresh(s));
  }

  /** What a merge reads, field by field. */
  predicate IsMerge(m: Msg, a: Msg, b: Msg) {
    && |m.vals| == |a.vals| == |b.vals| && m.unknown == a.unknown + b.unknown
    && forall i :: 0 <= i < |m.vals| ==>
         match b.vals[i]
         case Scalar(has, x) => m.vals[i] == if has then Scalar(true, x) else a.vals[i]
         case Ints(xs) => a.vals[i].Ints? && m.vals[i] == Ints(a.vals[i].xs + xs)
         case Msgs(ms) => a.vals[i].Msgs? && m.vals[i] == Msgs(a.vals[i].ms + ms)
  }

  lemma MergeReads(s: Schema, a: Msg, b: Msg)
    requires Shaped(s, a) && Shaped(s, b)
    ensures IsMerge(Merge(s, a, b), a, b)
  {
    forall i | 0 <= i < |s.fields|
      ensures HasShape(s.fields[i], a.vals[i]) && HasShape(s.fields[i], b.vals[i])
    {
    }
  }

  // ------------------------------------------------------------------------------- messages inside messages

  /** Neither path leads through the other. */
  predicate Diverge(p: seq<Step>, q: seq<Step>)
    decreases |p|
  {
    p != [] && q != [] && (p[0] != q[0] || Diverge(p[1..], q[1..]))
  }

  /** Neither is the other, nor inside it. */
  predicate Elsewhere(r: Ref, q: Ref) { r.t != q.t || Diverge(r.path, q.path) }

  lemma {:induction false} PutLeavesDiverging(o: Obj, p: seq<Step>, q: seq<Step>, x: Msg)
    requires Reaches(o, p) && Reaches(o, q) && Diverge(p, q) && Shaped(Get(o, p).s, x)
    ensures Reaches(Put(o, p, x), q) && Get(Put(o, p, x), q) == Get(o, q)
    decreases |p|
  {
    if p[0] == q[0] {
      PutLeavesDiverging(Child(o, p[0]), p[1..], q[1..], x);
    }
  }

  /** Two messages of one type are never one inside the other. */
  lemma {:induction false} SameTypeDiverges(o: Obj, p: seq<Step>, q: seq<Step>)
    requires Reaches(o, p) && Reaches(o, q) && p != q && Get(o, p).s == Get(o, q).s
    ensures Diverge(p, q)
    decreases |p|
  {
    if p == [] {
      InsideIsSmaller(o, q);
    } else if q == [] {
      InsideIsSmaller(o, p);
    } else if p[0] == q[0] {
      SameTypeDiverges(Child(o, p[0]), p[1..], q[1..]);
    }
  }

  /** Everything that is not the message changed, nor around it, nor inside it, stays. */
  ghost predicate LeavesTheRest(os: seq<Obj>, os': seq<Obj>, r: Ref) {
    && |os'| == |os|
    && (forall t :: 0 <= t < |os| && t != r.t ==> os'[t] == os[t])
    && (forall q: Ref :: Refers(os, q) && Elsewhere(r, q) ==> Refers(os', q) && At(os', q) == At(os, q))
  }

  lemma UpdateLeavesTheRest(os: seq<Obj>, r: Ref, x: Msg)
    requires AllShaped(os) && Refers(os, r) && Shaped(At(os, r).s, x)
    ensures LeavesTheRest(os, Update(os, r, x), r)
  {
    forall q: Ref | Refers(os, q) && Elsewhere(r, q)
      ensures Refers(Update(os, r, x), q) && At(Update(os, r, x), q) == At(os, q)
    {
      if q.t == r.t {
        PutLeavesDiverging(os[r.t], r.path, q.path, x);
      }
    }
  }

  /** A message around it has the element on the way replaced, and no other element, field or unknown record. */
  lemma OwnerSees(o: Obj, path: seq<Step>, x: Msg)
    requires Reaches(o, path) && path != [] && Shaped(Get(o, path).s, x)
    ensures var p, m' := path[0], Put(o, path, x).m;
            && OnlyField(o.m, m', p.i) && o.m.vals[p.i].Msgs? && m'.vals[p.i].Msgs?
            && |m'.vals[p.i].ms| == |o.m.vals[p.i].ms|
            && forall j :: 0 <= j < |o.m.vals[p.i].ms| ==>
                 m'.vals[p.i].ms[j] == if j == p.j then Put(Child(o, p), path[1..], x).m else o.m.vals[p.i].ms[j]
  {
  }

  // -------------------------------------------------------------------------------------- operations of a run

  /** A new message is empty, and the others are what they were. */
  lemma NewDoes(os: seq<Obj>, s: Schema)
    requires AllShaped(os)
    ensures CanRun(New(s), os)
    ensures var os' := RunOne(New(s), os);
            |os'| == |os| + 1 && os'[..|os|] == os && os'[|os|].s == s && IsEmpty(s, os'[|os|].m)
  {
  }

  /** An edit changes the message it names as it would on its own, and leaves the rest. */
  lemma EditAtDoes(os: seq<Obj>, at: Ref, e: Edit)
    requires AllShaped(os) && Refers(os, at) && Enabled(At(os, at).s, e, At(os, at).m)
    ensures CanRun(EditAt(at, e), os)
    ensures var x, os' := At(os, at), RunOne(EditAt(at, e), os);
            Refers(os', at) && At(os', at) == Obj(x.s, ApplyEdit(x.s, e, x.m)) && LeavesTheRest(os, os', at)
  {
    UpdateLeavesTheRest(os, at, ApplyEdit(At(os, at).s, e, At(os, at).m));
  }

  lemma ApartFrom(os: seq<Obj>, a: Ref, b: Ref)
    requires OfOneType(os, a, b) && a != b
    ensures Elsewhere(a, b)
  {
    if a.t == b.t {
      SameTypeDiverges(os[a.t], a.path, b.path);
    }
  }

  /** MergeFrom: present scalars overwrite, lists and unknown records are appended, the source keeps its own. */
  lemma MergeFromDoes(os: seq<Obj>, at: Ref, from: Ref)
    requires AllShaped(os) && OfOneType(os, at, from) && at != from
    ensures CanRun(MergeFrom(at, from), os)
    ensures var os' := RunOne(MergeFrom(at, from), os);
            && Refers(os', at) && Refers(os', from) && At(os', at).s == At(os, at).s
            && IsMerge(At(os', at).m, At(os, at).m, At(os, from).m) && At(os', from) == At(os, from)
            && LeavesTheRest(os, os', at)
  {
    var s, a, b := At(os, at).s, At(os, at).m, At(os, from).m;
    MergeReads(s, a, b);
    ApartFrom(os, at, from);
    UpdateLeavesTheRest(os, at, Merge(s, a, b));
  }

  /** CopyFrom: the target reads as the source, whatever it held, and the source keeps its own. */
  lemma CopyFromDoes(os: seq<Obj>, at: Ref, from: Ref)
    requires AllShaped(os) && AllValid(os) && OfOneType(os, at, from)
    ensures CanRun(CopyFrom(at, from), os)
    ensures var os' := RunOne(CopyFrom(at, from), os);
            && Refers(os', at) && Refers(os', from) && At(os', at) == At(os, from) && At(os', from) == At(os, from)
            && LeavesTheRest(os, os', at)
  {
    var x := At(os, from);
    RefIsValid(os, from);
    CopyIsExactlyForDefaults(x.s, x.m);
    if at != from {
      ApartFrom(os, at, from);
      UpdateLeavesTheRest(os, at, x.m);
    }
  }

  /** Swap: each side reads as the other did. */
  lemma SwapDoes(os: seq<Obj>, at: Ref, other: Ref)
    requires AllShaped(os) && OfOneType(os, at, other)
    ensures CanRun(Swap(at, other), os)
    ensures var os' := RunOne(Swap(at, other), os);
            && Refers(os', at) && Refers(os', other) && At(os', at) == At(os, other) && At(os', other) == At(os, at)
            && |os'| == |os| && (forall t :: 0 <= t < |os| && t != at.t && t != other.t ==> os'[t] == os[t])
            && forall q: Ref :: Refers(os, q) && Elsewhere(at, q) && Elsewhere(other, q) ==>
                 Refers(os', q) && At(os', q) == At(os, q)
  {
    if at != other {
      var x, y := At(os, at), At(os, other);
      ApartFrom(os, at, other);
      ApartFrom(os, other, at);
      UpdateLeavesOthers(os, at, other, y.m);
      var half := Update(os, at, y.m);
      UpdateLeavesTheRest(os, at, y.m);
      UpdateLeavesTheRest(half, other, x.m);
    }
  }
}
