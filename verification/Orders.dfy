/**
  Encodings that mean the same: packed, unpacked and mixed lists ("Packed Repeated Fields" in the
  Protocol Buffers Encoding specification), and records of different fields in any order.
 */
module Orders {
  import opened Varint
  import opened Wire
  import opened Codec
  import opened RoundTrip

  // ------------------------------------------------------------------------------------ packed lists

  /** One record of a scalar list: a single element, or any number of them packed. */
  datatype Chunk = One(x: int) | Packed(xs: seq<int>)

  function ElementsOf(c: Chunk): seq<int> {
    match c
    case One(x) => [x]
    case Packed(xs) => xs
  }

  function PackedBytes(k: Kind, xs: seq<int>): seq<Byte>
    requires AllInRange(k, xs)
  {
    if xs == [] then [] else EncodeVarint(ToWire(k, xs[0])) + PackedBytes(k, xs[1..])
  }

  predicate Writable(k: Kind, c: Chunk) {
    match c
    case One(x) => InRange(k, x)
    case Packed(xs) => AllInRange(k, xs) && |PackedBytes(k, xs)| < TWO_31
  }

  function ChunkRecord(num: nat, k: Kind, c: Chunk): Record
    requires Writable(k, c)
  {
    match c
    case One(x) => Number(num, ToWire(k, x))
    case Packed(xs) => Len(num, PackedBytes(k, xs))
  }

  /** A chunk of the list with field number `num`. */
  datatype Piece = Piece(num: nat, chunk: Chunk)

  predicate IsPiece(s: Schema, p: Piece) {
    1 <= p.num <= |s.fields| && s.fields[p.num - 1].Repeated? && Writable(s.fields[p.num - 1].k, p.chunk)
  }

  predicate ArePieces(s: Schema, ps: seq<Piece>) { forall i :: 0 <= i < |ps| ==> IsPiece(s, ps[i]) }

  function PieceRecords(s: Schema, ps: seq<Piece>): (rs: seq<Record>)
    requires ArePieces(s, ps)
    ensures |rs| == |ps| && forall i :: 0 <= i < |ps| ==> rs[i] == ChunkRecord(ps[i].num, s.fields[ps[i].num - 1].k, ps[i].chunk)
  {
    if ps == [] then [] else [ChunkRecord(ps[0].num, s.fields[ps[0].num - 1].k, ps[0].chunk)] + PieceRecords(s, ps[1..])
  }

  /** What the pieces add to one list, whatever stands between them. */
  function ElementsFor(num: nat, ps: seq<Piece>): seq<int> {
    if ps == [] then []
    else (if ps[0].num == num then ElementsOf(ps[0].chunk) else []) + ElementsFor(num, ps[1..])
  }

  function WithPieces(s: Schema, m: Msg, ps: seq<Piece>): (m': Msg)
    requires Shaped(s, m)
    ensures Shaped(s, m')
  {
    Msg(seq(|s.fields|, i requires 0 <= i < |s.fields| =>
      assert HasShape(s.fields[i], m.vals[i]);
      if s.fields[i].Repeated? then Ints(m.vals[i].xs + ElementsFor(i + 1, ps)) else m.vals[i]), m.unknown)
  }

  lemma {:induction false} PackedRoundTrip(k: Kind, xs: seq<int>)
    requires AllInRange(k, xs)
    ensures ReadPacked(k, PackedBytes(k, xs)) == (xs, true)
  {
    if xs != [] {
      VarintRoundTrip(ToWire(k, xs[0]), PackedBytes(k, xs[1..]));
      KindRoundTrip(k, xs[0]);
      PackedRoundTrip(k, xs[1..]);
      assert [xs[0]] + xs[1..] == xs;
    }
  }

  lemma ChunkApplies(env: Env, s: Schema, num: nat, c: Chunk, m: Msg)
    requires Shaped(s, m) && 1 <= num <= |s.fields| && s.fields[num - 1].Repeated? && m.vals[num - 1].Ints?
    requires Writable(s.fields[num - 1].k, c)
    ensures Apply(env, s, ChunkRecord(num, s.fields[num - 1].k, c), m) == Ok(AddInts(m, num - 1, ElementsOf(c)))
  {
    match c
    case One(x) => KindRoundTrip(s.fields[num - 1].k, x);
    case Packed(xs) => PackedRoundTrip(s.fields[num - 1].k, xs);
  }

  lemma PiecesStep(s: Schema, ps: seq<Piece>, m: Msg)
    requires Shaped(s, m) && ps != [] && ArePieces(s, ps)
    ensures m.vals[ps[0].num - 1].Ints?
    ensures WithPieces(s, AddInts(m, ps[0].num - 1, ElementsOf(ps[0].chunk)), ps[1..]) == WithPieces(s, m, ps)
  {
    assert IsPiece(s, ps[0]);
    var at, xs := ps[0].num - 1, ElementsOf(ps[0].chunk);
    assert HasShape(s.fields[at], m.vals[at]);
    var m' := AddInts(m, at, xs);
    forall i | 0 <= i < |s.fields|
      ensures WithPieces(s, m', ps[1..]).vals[i] == WithPieces(s, m, ps).vals[i]
    {
      assert HasShape(s.fields[i], m.vals[i]);
      var more := ElementsFor(i + 1, ps[1..]);
      if i == at {
        assert m.vals[i].xs + xs + more == m.vals[i].xs + (xs + more);
      } else {
        assert [] + more == more;
      }
    }
    assert WithPieces(s, m', ps[1..]).vals == WithPieces(s, m, ps).vals;
  }

  lemma NoPieces(s: Schema, m: Msg)
    requires Shaped(s, m)
    ensures WithPieces(s, m, []) == m
  {
    forall i | 0 <= i < |s.fields|
      ensures WithPieces(s, m, []).vals[i] == m.vals[i]
    {
      assert HasShape(s.fields[i], m.vals[i]);
      if m.vals[i].Ints? {
        assert m.vals[i].xs + [] == m.vals[i].xs;
      }
    }
    assert WithPieces(s, m, []).vals == m.vals;
  }

  lemma {:induction false} PiecesApply(env: Env, s: Schema, ps: seq<Piece>, m: Msg)
    requires Shaped(s, m) && ArePieces(s, ps)
    ensures ApplyAll(env, s, PieceRecords(s, ps), m) == Ok(WithPieces(s, m, ps))
    decreases |ps|
  {
    if ps == [] {
      NoPieces(s, m);
    } else {
      hide Codec.Apply, WithPieces, Codec.Shaped, Writable;
      assert IsPiece(s, ps[0]);
      PiecesStep(s, ps, m);
      ChunkApplies(env, s, ps[0].num, ps[0].chunk, m);
      PiecesApply(env, s, ps[1..], AddInts(m, ps[0].num - 1, ElementsOf(ps[0].chunk)));
      assert PieceRecords(s, ps)[1..] == PieceRecords(s, ps[1..]);
    }
  }

  lemma PieceIsStorable(s: Schema, p: Piece)
    requires OneByteTags(s) && IsPiece(s, p)
    ensures var r := ChunkRecord(p.num, s.fields[p.num - 1].k, p.chunk); Storable(r) && GroupDepth(r) == 0
  {
  }

  /**
    However scalar lists are cut into packed and single records, and however the records of several
    lists are interleaved, each list gets its own elements in order.
   */
  lemma MixedEncodingsAgree(env: Env, s: Schema, ps: seq<Piece>, m: Msg)
    requires OneByteTags(s) && Shaped(s, m) && ArePieces(s, ps)
    ensures Parse(env, s, EncodeAll(PieceRecords(s, ps)), m) == Done(WithPieces(s, m, ps), [], InputEnd)
  {
    var rs := PieceRecords(s, ps);
    forall i | 0 <= i < |rs|
      ensures Storable(rs[i]) && GroupDepth(rs[i]) == 0
    {
      assert IsPiece(s, ps[i]);
      PieceIsStorable(s, ps[i]);
    }
    PiecesApply(env, s, ps, m);
    ParseAllEncoded(env, s, rs, m);
  }

  // ------------------------------------------------------------------------------------ record order

  /** Where a record goes: its field number, or 0 for the unknown records. */
  function Slot(s: Schema, r: Record): nat { if Accepts(s, r.num, WireType(r)) then r.num else 0 }

  function Only(s: Schema, rs: seq<Record>, k: nat): seq<Record> {
    if rs == [] then []
    else if Slot(s, rs[0]) == k then [rs[0]] + Only(s, rs[1..], k)
    else Only(s, rs[1..], k)
  }

  predicate Agree(m: Msg, p: Msg, k: nat)
    requires k <= |m.vals| == |p.vals|
  {
    if k == 0 then m.unknown == p.unknown else m.vals[k - 1] == p.vals[k - 1]
  }

  /** Whether a record is refused does not depend on the message it is read into. */
  predicate Readable(env: Env, s: Schema, r: Record) { Apply(env, s, r, Fresh(s)).Ok? }

  lemma ReadableAnywhere(env: Env, s: Schema, r: Record, m: Msg)
    requires Shaped(s, m)
    ensures Apply(env, s, r, m).Ok? <==> Readable(env, s, r)
  {
  }

  /** A record changes its own slot, by what that slot held, and no other. */
  lemma SlotsAreSeparate(env: Env, s: Schema, r: Record, m: Msg, p: Msg, k: nat)
    requires Shaped(s, m) && Shaped(s, p) && k <= |s.fields| && Agree(m, p, k) && Readable(env, s, r)
    ensures Slot(s, r) == k ==> Agree(Apply(env, s, r, m).m, Apply(env, s, r, p).m, k)
    ensures Slot(s, r) != k ==> Agree(Apply(env, s, r, m).m, p, k)
  {
    ReadableAnywhere(env, s, r, m);
    ReadableAnywhere(env, s, r, p);
    if Slot(s, r) != 0 {
      assert HasShape(s.fields[r.num - 1], m.vals[r.num - 1]) && HasShape(s.fields[r.num - 1], p.vals[r.num - 1]);
    }
  }

  lemma {:induction false} SlotKeepsItsOwn(env: Env, s: Schema, rs: seq<Record>, m: Msg, p: Msg, k: nat)
    requires Shaped(s, m) && Shaped(s, p) && k <= |s.fields| && Agree(m, p, k)
    requires forall i :: 0 <= i < |rs| ==> Readable(env, s, rs[i])
    ensures ApplyAll(env, s, rs, m).Ok? && ApplyAll(env, s, Only(s, rs, k), p).Ok?
    ensures Agree(ApplyAll(env, s, rs, m).m, ApplyAll(env, s, Only(s, rs, k), p).m, k)
    decreases |rs|
  {
    if rs != [] {
      var r := rs[0];
      SlotsAreSeparate(env, s, r, m, p, k);
      ReadableAnywhere(env, s, r, m);
      ReadableAnywhere(env, s, r, p);
      if Slot(s, r) == k {
        SlotKeepsItsOwn(env, s, rs[1..], Apply(env, s, r, m).m, Apply(env, s, r, p).m, k);
        assert Only(s, rs, k)[1..] == Only(s, rs[1..], k);
      } else {
        SlotKeepsItsOwn(env, s, rs[1..], Apply(env, s, r, m).m, p, k);
      }
    }
  }

  lemma {:induction false} OnlyKeepsMembers(s: Schema, rs: seq<Record>, r: Record)
    ensures r in rs <==> r in Only(s, rs, Slot(s, r))
  {
    if rs != [] {
      OnlyKeepsMembers(s, rs[1..], r);
      assert r in rs <==> r == rs[0] || r in rs[1..];
    }
  }

  lemma {:induction false} AllReadable(env: Env, s: Schema, rs: seq<Record>, m: Msg)
    requires Shaped(s, m) && ApplyAll(env, s, rs, m).Ok?
    ensures forall r :: r in rs ==> Readable(env, s, r)
    decreases |rs|
  {
    if rs != [] {
      ReadableAnywhere(env, s, rs[0], m);
      AllReadable(env, s, rs[1..], Apply(env, s, rs[0], m).m);
      assert forall r :: r in rs ==> r == rs[0] || r in rs[1..];
    }
  }

  /** The same records per field, and the same unknown records, in each one's own order. */
  predicate SameBySlot(s: Schema, rs: seq<Record>, ts: seq<Record>) {
    forall k :: 0 <= k <= |s.fields| ==> Only(s, rs, k) == Only(s, ts, k)
  }

  lemma SameMembers(s: Schema, rs: seq<Record>, ts: seq<Record>, r: Record)
    requires SameBySlot(s, rs, ts)
    ensures r in rs <==> r in ts
  {
    OnlyKeepsMembers(s, rs, r);
    OnlyKeepsMembers(s, ts, r);
    assert Only(s, rs, Slot(s, r)) == Only(s, ts, Slot(s, r));
  }

  /** The order between records of different fields is without effect. */
  lemma OrderAcrossFieldsIsFree(env: Env, s: Schema, rs: seq<Record>, ts: seq<Record>, m: Msg)
    requires Shaped(s, m) && SameBySlot(s, rs, ts) && ApplyAll(env, s, rs, m).Ok?
    ensures ApplyAll(env, s, ts, m) == ApplyAll(env, s, rs, m)
  {
    AllReadable(env, s, rs, m);
    forall i | 0 <= i < |ts|
      ensures Readable(env, s, ts[i])
    {
      SameMembers(s, rs, ts, ts[i]);
    }
    assert forall i :: 0 <= i < |rs| ==> rs[i] in rs;
    forall k | 0 <= k <= |s.fields|
      ensures ApplyAll(env, s, ts, m).Ok? && Agree(ApplyAll(env, s, rs, m).m, ApplyAll(env, s, ts, m).m, k)
    {
      SlotKeepsItsOwn(env, s, rs, m, m, k);
      SlotKeepsItsOwn(env, s, ts, m, m, k);
      assert Only(s, rs, k) == Only(s, ts, k);
    }
    assert Agree(ApplyAll(env, s, rs, m).m, ApplyAll(env, s, ts, m).m, 0);
    forall i | 0 <= i < |s.fields|
      ensures ApplyAll(env, s, rs, m).m.vals[i] == ApplyAll(env, s, ts, m).m.vals[i]
    {
      assert Agree(ApplyAll(env, s, rs, m).m, ApplyAll(env, s, ts, m).m, i + 1);
    }
  }

  lemma {:induction false} OnlyAppends(s: Schema, a: seq<Record>, b: seq<Record>, k: nat)
    ensures Only(s, a + b, k) == Only(s, a, k) + Only(s, b, k)
  {
    if a == [] {
      assert a + b == b;
    } else {
      assert (a + b)[0] == a[0] && (a + b)[1..] == a[1..] + b;
      OnlyAppends(s, a[1..], b, k);
    }
  }

  /** Two neighbouring records of different fields, or one of a field and an unknown one, may change places. */
  lemma NeighboursMayChangePlaces(env: Env, s: Schema, a: seq<Record>, r: Record, q: Record, b: seq<Record>, m: Msg)
    requires Shaped(s, m) && AllStorable(a + [r, q] + b) && GroupsDepth(a + [r, q] + b) <= env.depth
    requires Slot(s, r) != Slot(s, q) && Parse(env, s, EncodeAll(a + [r, q] + b), m).Complete()
    ensures Parse(env, s, EncodeAll(a + [q, r] + b), m) == Parse(env, s, EncodeAll(a + [r, q] + b), m)
  {
    hide *;
    var rs, ts := a + [r, q] + b, a + [q, r] + b;
    SameInEitherOrder(s, a, r, q, b);
    CanBeRead(rs, env.depth);
    CanBeRead(ts, env.depth);
    ParseAllEncoded(env, s, rs, m);
    CompleteMeansDone(Parse(env, s, EncodeAll(rs), m));
    OrderAcrossFieldsIsFree(env, s, rs, ts, m);
    ParseAllEncoded(env, s, ts, m);
  }

  lemma CompleteMeansDone(o: Outcome)
    requires o.Complete()
    ensures o.Done?
  {
  }

  lemma CanBeRead(rs: seq<Record>, depth: nat)
    requires GroupsDepth(rs) <= depth
    ensures forall i :: 0 <= i < |rs| ==> GroupDepth(rs[i]) <= depth
  {
    GroupsDepthBounds(rs, depth);
  }

  lemma SameInEitherOrder(s: Schema, a: seq<Record>, r: Record, q: Record, b: seq<Record>)
    requires AllStorable(a + [r, q] + b) && Slot(s, r) != Slot(s, q)
    ensures var rs, ts := a + [r, q] + b, a + [q, r] + b;
            SameBySlot(s, rs, ts) && AllStorable(ts) && GroupsDepth(ts) == GroupsDepth(rs)
  {
    hide Storable, GroupsDepth, GroupDepth, Slot;
    var rs, ts := a + [r, q] + b, a + [q, r] + b;
    forall k | 0 <= k <= |s.fields|
      ensures Only(s, rs, k) == Only(s, ts, k)
    {
      OnlyOfTwo(s, a, r, q, b, k);
      OnlyOfTwo(s, a, q, r, b, k);
    }
    assert forall i :: 0 <= i < |ts| ==> ts[i] == rs[if i == |a| then i + 1 else if i == |a| + 1 then i - 1 else i];
    assert forall i :: 0 <= i < |rs| ==> rs[i] == ts[if i == |a| then i + 1 else if i == |a| + 1 then i - 1 else i];
    GroupsDepthBounds(rs, GroupsDepth(rs));
    GroupsDepthBounds(ts, GroupsDepth(ts));
    GroupsDepthBounds(rs, GroupsDepth(ts));
    GroupsDepthBounds(ts, GroupsDepth(rs));
  }

  lemma OnlyOfTwo(s: Schema, a: seq<Record>, r: Record, q: Record, b: seq<Record>, k: nat)
    ensures Only(s, a + [r, q] + b, k)
         == Only(s, a, k) + ((if Slot(s, r) == k then [r] else []) + (if Slot(s, q) == k then [q] else [])) + Only(s, b, k)
  {
    OnlyAppends(s, a + [r, q], b, k);
    OnlyAppends(s, a, [r, q], k);
    assert [r, q][1..] == [q] && [q][1..] == [];
    assert Only(s, [q], k) == if Slot(s, q) == k then [q] else [];
    assert Only(s, [r, q], k) == (if Slot(s, r) == k then [r] else []) + Only(s, [q], k);
  }

  /** The input is records to its end; the last may be cut. */
  predicate IsRecords(depth: nat, bs: seq<Byte>)
    decreases |bs|
  {
    bs == [] || (var x := NextRecord(depth, bs); x.Got? && IsRecords(depth, x.rest))
  }

  function RecordsOf(depth: nat, bs: seq<Byte>): seq<Record>
    decreases |bs|
  {
    var x := NextRecord(depth, bs);
    if x.Bad? then [] else [x.r] + RecordsOf(depth, x.rest)
  }

  lemma {:induction false} CompleteIsRecords(env: Env, s: Schema, bs: seq<Byte>, m: Msg)
    requires Shaped(s, m) && Parse(env, s, bs, m).Complete()
    ensures IsRecords(env.depth, bs)
    decreases |bs|
  {
    if bs != [] {
      var x := NextRecord(env.depth, bs);
      CompleteNext(env, s, bs, m);
      CompleteIsRecords(env, s, x.rest, Apply(env, s, x.r, m).m);
    }
  }

  /** On such an input the loop is the records' effects in a row, however they were encoded. */
  lemma {:induction false} ParseAppliesRecords(env: Env, s: Schema, bs: seq<Byte>, m: Msg)
    requires Shaped(s, m) && IsRecords(env.depth, bs)
    ensures var a := ApplyAll(env, s, RecordsOf(env.depth, bs), m);
            Parse(env, s, bs, m) == if a.Ok? then Done(a.m, [], InputEnd) else Fail(a.m)
    decreases |bs|
  {
    if bs != [] {
      var x := NextRecord(env.depth, bs);
      var a := Apply(env, s, x.r, m);
      ParseNext(env, s, bs, m);
      assert RecordsOf(env.depth, bs)[1..] == RecordsOf(env.depth, x.rest);
      if a.Ok? {
        ParseAppliesRecords(env, s, x.rest, a.m);
      }
    }
  }

  /**
    So any complete input parses like every other input with the same records per field: the order across
    fields is free, and so is how each tag, length and number was encoded.
   */
  lemma ReorderedInputsParseAlike(env: Env, s: Schema, b1: seq<Byte>, b2: seq<Byte>, m: Msg)
    requires Shaped(s, m) && Parse(env, s, b1, m).Complete() && IsRecords(env.depth, b2)
    requires SameBySlot(s, RecordsOf(env.depth, b1), RecordsOf(env.depth, b2))
    ensures Parse(env, s, b2, m) == Parse(env, s, b1, m)
  {
    CompleteIsRecords(env, s, b1, m);
    ParseAppliesRecords(env, s, b1, m);
    ParseAppliesRecords(env, s, b2, m);
    OrderAcrossFieldsIsFree(env, s, RecordsOf(env.depth, b1), RecordsOf(env.depth, b2), m);
  }
}
