/** Messages that outgrow a limit: what each of the two exact conditions shuts out, on real inputs. */
module Limits {
  import opened Varint
  import opened Wire
  import opened Codec
  import opened RoundTrip
  import opened Invariants
  import opened Sizes
  import opened SizeBounds
  import opened Cards
  import opened Packets
  import opened Tables

  // -------------------------------------------------------------------------------------- packet size

  lemma {:induction false} ZerosSize(n: nat)
    ensures IntsSize(UInt32, Zeros(n)) == n
  {
    if n > 0 {
      assert Zeros(n)[..n - 1] == Zeros(n - 1);
      ZerosSize(n - 1);
    }
  }

  lemma CardsTake(cards: seq<int>, n: nat)
    requires AllInRange(UInt32, cards) && |cards| + IntsSize(UInt32, cards) == n
    ensures var m := Msg([Ints(cards)], []);
            && OneByteTags(CARDS) && Codec.Valid(CARDS, m) && (forall depth: nat :: Fits(CARDS, m, depth))
            && Sizes.ByteSize(CARDS, m) == n
  {
    var m := Msg([Ints(cards)], []);
    assert ValidValue(CARDS.fields[0], m.vals[0]);
    CardsSize(cards, []);
  }

  /** 32768 cards of value 0 take 65536 bytes: the receiver accepts the packet and finds no card in it. */
  lemma ManyCardsArriveAsNone(env: Env)
    ensures var m := Msg([Ints(Zeros(0x8000))], []);
            && OneByteTags(CARDS) && Codec.Valid(CARDS, m) && Fits(CARDS, m, env.depth)
            && Sizes.ByteSize(CARDS, m) == 65536
            && Receive(env, CARDS, Sent(CARDS, m)) == Message(Fresh(CARDS)) && Fresh(CARDS) != m
  {
    var m := Msg([Ints(Zeros(0x8000))], []);
    ZerosSize(0x8000);
    CardsTake(Zeros(0x8000), 65536);
    assert Fresh(CARDS).vals[0] == Ints([]) && m.vals[0] != Ints([]);
    ArrivesExactlyWhenItFits(env, CARDS, m);
  }

  /** The largest packet: 16375 bytes arrive, and with one byte more nothing does. */
  lemma LastByteThatFits(env: Env)
    ensures var m := Msg([Ints(Zeros(8186) + [128])], []);
            && OneByteTags(CARDS) && Codec.Valid(CARDS, m) && Sizes.ByteSize(CARDS, m) == 16375
            && Receive(env, CARDS, Sent(CARDS, m)) == Message(m)
    ensures var m := Msg([Ints(Zeros(8188))], []);
            && OneByteTags(CARDS) && Codec.Valid(CARDS, m) && Sizes.ByteSize(CARDS, m) == 16376
            && Receive(env, CARDS, Sent(CARDS, m)) == Rejected
  {
    hide Receive, Sent, Codec.Valid, Codec.Fits, Zeros;
    var some, more := Zeros(8186) + [128], Zeros(8188);
    ZerosSize(8186);
    ZerosSize(8188);
    assert some[..|some| - 1] == Zeros(8186);
    CardsTake(some, 16375);
    CardsTake(more, 16376);
    ArrivesExactlyWhenItFits(env, CARDS, Msg([Ints(some)], []));
    ArrivesExactlyWhenItFits(env, CARDS, Msg([Ints(more)], []));
  }

  // ---------------------------------------------------------------------------------- recursion limit

  /** A reply needs one level of the recursion limit, and none when it is empty. */
  lemma RepliesNeedOneLevel(ms: seq<Msg>, depth: nat)
    requires NoUnknowns(ms) && forall j :: 0 <= j < |ms| ==> Codec.Valid(PLAY_LOG, ms[j])
    ensures Fits(PLAY_LOG_REP, Msg([Msgs(ms)], []), depth) <==> ms == [] || depth >= 1
  {
    var m := Msg([Msgs(ms)], []);
    PlayLogTable();
    assert m.vals[0].ms == ms;
    assert Fits(PLAY_LOG_REP, m, depth) <==> FitsValue(Nested(PLAY_LOG), m.vals[0], depth);
    forall j, d: nat | 0 <= j < |ms|
      ensures Fits(PLAY_LOG, ms[j], d)
    {
    }
  }

  /** A record of a number no play log has, with `d` groups around it. */
  function Nest(d: nat): Record { if d == 0 then Number(9, 0) else Group(9, [Nest(d - 1)]) }

  lemma {:induction false} NestIsStorable(d: nat)
    ensures Storable(Nest(d)) && GroupDepth(Nest(d)) == d && Nest(d).num == 9 && !Nest(d).Cut?
    ensures |Encode(Nest(d))| == 2 * d + 2
  {
    assert EncodeVarint(72) == [72] && EncodeVarint(75) == [75] && EncodeVarint(76) == [76] && EncodeVarint(0) == [0];
    if d > 0 {
      NestIsStorable(d - 1);
      assert EncodeAll([Nest(d - 1)]) == Encode(Nest(d - 1)) by {
        EncodeAllSnoc([], Nest(d - 1));
        assert [] + [Nest(d - 1)] == [Nest(d - 1)];
      }
      assert GroupsDepth([Nest(d - 1)]) == Max(GroupDepth(Nest(d - 1)), GroupsDepth([]));
    }
  }

  function Deep(d: nat): Msg { AddUnknown(Fresh(PLAY_LOG), Nest(d)) }

  lemma DeepLogParses(env: Env)
    ensures Parse(env, PLAY_LOG, Encode(Nest(env.depth)), Fresh(PLAY_LOG)) == Done(Deep(env.depth), [], InputEnd)
  {
    var r := Nest(env.depth);
    NestIsStorable(env.depth);
    ParseStep(env, PLAY_LOG, r, [], Fresh(PLAY_LOG));
    assert Encode(r) + [] == Encode(r);
  }

  /** An empty reply, a log added to it, and into that log a parse that succeeds within the recursion limit. */
  function DeepeningRun(env: Env): seq<Op> {
    [New(PLAY_LOG_REP), EditAt(Ref(0, []), AddNested(0)),
     EditAt(Ref(0, [Step(0, 0)]), ParseInto(env, Encode(Nest(env.depth))))]
  }

  function DeepReply(d: nat): Msg { Msg([Msgs([Deep(d)])], []) }

  const EMPTY_REPLY := Obj(PLAY_LOG_REP, Msg([Msgs([])], []))

  const ONE_LOG_REPLY := Obj(PLAY_LOG_REP, Msg([Msgs([Fresh(PLAY_LOG)])], []))

  lemma NewReply()
    ensures RunOne(New(PLAY_LOG_REP), []) == [EMPTY_REPLY] && AllShaped([EMPTY_REPLY])
  {
    assert Fresh(PLAY_LOG_REP).vals == [Msgs([])];
  }

  lemma LogAdded()
    ensures CanRun(EditAt(Ref(0, []), AddNested(0)), [EMPTY_REPLY])
    ensures RunOne(EditAt(Ref(0, []), AddNested(0)), [EMPTY_REPLY]) == [ONE_LOG_REPLY] && AllShaped([ONE_LOG_REPLY])
  {
    assert At([EMPTY_REPLY], Ref(0, [])) == EMPTY_REPLY;
    assert [] + [Fresh(PLAY_LOG)] == [Fresh(PLAY_LOG)];
    assert AddMsg(EMPTY_REPLY.m, 0, Fresh(PLAY_LOG)).vals == ONE_LOG_REPLY.m.vals;
  }

  lemma LogDeepened(env: Env)
    ensures var op := EditAt(Ref(0, [Step(0, 0)]), ParseInto(env, Encode(Nest(env.depth))));
            CanRun(op, [ONE_LOG_REPLY]) && RunOne(op, [ONE_LOG_REPLY]) == [Obj(PLAY_LOG_REP, DeepReply(env.depth))]
  {
    hide Codec.Parse, Codec.Fresh, Nest;
    var p, log, x := Step(0, 0), Obj(PLAY_LOG, Fresh(PLAY_LOG)), Deep(env.depth);
    assert Child(ONE_LOG_REPLY, p) == log;
    assert [p][1..] == [] && Get(log, []) == log;
    assert At([ONE_LOG_REPLY], Ref(0, [p])) == log;
    DeepLogParses(env);
    assert [Fresh(PLAY_LOG)][0 := x] == [x];
    assert PutChild(ONE_LOG_REPLY, p, x).m.vals == DeepReply(env.depth).vals;
    assert Put(ONE_LOG_REPLY, [p], x) == Obj(PLAY_LOG_REP, DeepReply(env.depth));
  }

  lemma RunGives(env: Env)
    ensures Run(DeepeningRun(env), []) == [Obj(PLAY_LOG_REP, DeepReply(env.depth))]
  {
    hide Codec.Parse, Codec.Fresh, Nest, DeepReply, Invariants.RunOne;
    var ops := DeepeningRun(env);
    NewReply();
    LogAdded();
    LogDeepened(env);
    assert ops[1..][0] == ops[1] && ops[1..][1..] == ops[2..] && ops[2..][0] == ops[2] && ops[2..][1..] == [];
    assert Run(ops[2..], [ONE_LOG_REPLY]) == RunOne(ops[2], [ONE_LOG_REPLY]);
    assert Run(ops[1..], [EMPTY_REPLY]) == Run(ops[2..], [ONE_LOG_REPLY]);
  }

  lemma DeepReplyIsTooDeep(d: nat)
    ensures Codec.Valid(PLAY_LOG, Deep(d)) && Codec.Valid(PLAY_LOG_REP, DeepReply(d))
        && !Fits(PLAY_LOG_REP, DeepReply(d), d)
  {
    var m := DeepReply(d);
    NestIsStorable(d);
    FreshIsValid(PLAY_LOG);
    AddUnknownsIsValid(PLAY_LOG, Fresh(PLAY_LOG), [Nest(d)]);
    GroupsDepthBounds(Deep(d).unknown, if d > 0 then d - 1 else 0);
    assert Deep(d).unknown[0] == Nest(d);
    if d > 0 {
      assert !Fits(PLAY_LOG, Deep(d), d - 1);
    }
    assert m.vals[0].ms[0] == Deep(d) && m.vals[0].ms != [];
    assert !FitsValue(PLAY_LOG_REP.fields[0], m.vals[0], d);
  }

  lemma DeepReplySize(d: nat)
    requires d < 0x2000_0000
    ensures Codec.Valid(PLAY_LOG_REP, DeepReply(d)) && |Serialize(PLAY_LOG_REP, DeepReply(d))| < TWO_31
  {
    var log, r := Deep(d), Nest(d);
    NestIsStorable(d);
    DeepReplyIsTooDeep(d);
    FieldsOfFreshLog(7);
    assert [] + [r] == [r];
    EncodeAllSnoc([], r);
    assert Serialize(PLAY_LOG, log) == Encode(r);
    var rr := Len(1, Encode(r));
    assert MsgRecords(1, PLAY_LOG, [log]) == [rr];
    assert Records(PLAY_LOG_REP, DeepReply(d), 1) == Records(PLAY_LOG_REP, DeepReply(d), 0)
        + MsgRecords(1, PLAY_LOG, [log]);
    assert AllRecords(PLAY_LOG_REP, DeepReply(d)) == [rr];
    EncodeAllSnoc([], rr);
    assert [] + [rr] == [rr];
    LenSize(1, Encode(r));
  }

  lemma {:induction false} FieldsOfFreshLog(n: nat)
    requires n <= 7
    ensures forall d :: Codec.Valid(PLAY_LOG, Deep(d)) ==> Records(PLAY_LOG, Deep(d), n) == []
  {
    if n > 0 {
      FieldsOfFreshLog(n - 1);
      PlayLogTable();
    }
  }

  /**
    Whatever the limit, three calls that all succeed within it build a reply that it then refuses: the log's
    own parse counted its groups from the log, and the reply's parse counts the log as well.
   */
  lemma RepliesCanOutgrowTheLimit(env: Env)
    requires env.depth < 0x2000_0000
    ensures Parse(env, PLAY_LOG, Encode(Nest(env.depth)), Fresh(PLAY_LOG)).Complete()
    ensures Run(DeepeningRun(env), []) == [Obj(PLAY_LOG_REP, DeepReply(env.depth))]
    ensures Codec.Valid(PLAY_LOG_REP, DeepReply(env.depth))
    ensures Parse(env, PLAY_LOG_REP, Serialize(PLAY_LOG_REP, DeepReply(env.depth)), Fresh(PLAY_LOG_REP)).Fail?
  {
    hide Codec.Parse, Codec.Serialize, Codec.Valid, Codec.Fits, Codec.Fresh, Invariants.Run, Nest, Deep, DeepeningRun;
    DeepLogParses(env);
    RunGives(env);
    DeepReplyIsTooDeep(env.depth);
    DeepReplySize(env.depth);
    TagsAreOneByte();
    RoundTripExactlyWhenItFits(env, PLAY_LOG_REP, DeepReply(env.depth));
  }
}
