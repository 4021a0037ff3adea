/**
  What the messages look like as bytes, key by key: a field table means nothing but the format written here,
  and the ranges of its numbers.
 */
module Formats {
  import opened Varint
  import opened Wire
  import opened Codec
  import opened RoundTrip
  import opened Orders
  import opened Stream
  import opened Sizes
  import opened WireFormatLite
  import opened Generated
  import opened Tables
  import opened WireBytes

  // ----------------------------------------------------------------------------------------- building blocks

  /** A number on the wire: the varint of its low 64 bits. */
  function Num(x: int): seq<Byte> { EncodeVarint(x % 0x1_0000_0000_0000_0000) }

  /** An optional number: its key and the number, if it is present. */
  function Opt(key: Byte, v: Value): seq<Byte>
    requires v.Scalar?
  {
    if v.has then [key] + Num(v.v) else []
  }

  /** A list of numbers, each behind the key. */
  function Each(key: Byte, xs: seq<int>): seq<Byte> {
    if xs == [] then [] else Each(key, xs[..|xs| - 1]) + ([key] + Num(xs[|xs| - 1]))
  }

  /** A list of payloads, each behind the key and its length. */
  function EachOf(key: Byte, payloads: seq<seq<Byte>>): seq<Byte> {
    if payloads == [] then []
    else
      var last := payloads[|payloads| - 1];
      EachOf(key, payloads[..|payloads| - 1]) + ([key] + (EncodeVarint(|last|) + last))
  }

  /** The numbers of a packed list, without keys. */
  function Packing(xs: seq<int>): seq<Byte> { if xs == [] then [] else Num(xs[0]) + Packing(xs[1..]) }

  predicate AreUInt32(xs: seq<int>) { forall i :: 0 <= i < |xs| ==> 0 <= xs[i] <= 0xFFFF_FFFF }

  predicate AreInt32(xs: seq<int>) { forall i :: 0 <= i < |xs| ==> -0x8000_0000 <= xs[i] <= 0x7FFF_FFFF }

  predicate AreInt64(xs: seq<int>) {
    forall i :: 0 <= i < |xs| ==> -0x8000_0000_0000_0000 <= xs[i] <= 0x7FFF_FFFF_FFFF_FFFF
  }

  /** An optional uint32, and an optional int64, with the default behind a clear presence bit. */
  predicate IsUInt32(v: Value) { v.Scalar? && 0 <= v.v <= 0xFFFF_FFFF && (v.has || v.v == 0) }

  predicate IsInt64(v: Value) {
    v.Scalar? && -0x8000_0000_0000_0000 <= v.v <= 0x7FFF_FFFF_FFFF_FFFF && (v.has || v.v == 0)
  }

  lemma NumIsWire(k: Kind, x: int)
    requires InRange(k, x)
    ensures EncodeVarint(ToWire(k, x)) == Num(x)
  {
    if x < 0 {
      assert x == -1 * TWO_64 + (x + TWO_64);
    }
  }

  lemma KeyByte(num: nat, wt: nat)
    requires num <= 15 && wt < 8
    ensures EncodeTag(num, wt) == [8 * num + wt]
  {
  }

  lemma NumberBytes(num: nat, k: Kind, x: int)
    requires num <= 15 && InRange(k, x)
    ensures Encode(Number(num, ToWire(k, x))) == [8 * num] + Num(x)
  {
    KeyByte(num, 0);
    NumIsWire(k, x);
  }

  lemma {:induction false} ListBytes(num: nat, k: Kind, xs: seq<int>)
    requires num <= 15 && AllInRange(k, xs)
    ensures EncodeAll(IntRecords(num, k, xs)) == Each(8 * num, xs)
  {
    if xs != [] {
      var init, last := xs[..|xs| - 1], xs[|xs| - 1];
      ListBytes(num, k, init);
      EncodeAllSnoc(IntRecords(num, k, init), Number(num, ToWire(k, last)));
      NumberBytes(num, k, last);
    }
  }

  function Payloads(s: Schema, ms: seq<Msg>): (ps: seq<seq<Byte>>)
    requires forall j :: 0 <= j < |ms| ==> Valid(s, ms[j])
    ensures |ps| == |ms| && forall j :: 0 <= j < |ms| ==> ps[j] == Serialize(s, ms[j])
  {
    seq(|ms|, j requires 0 <= j < |ms| => Serialize(s, ms[j]))
  }

  lemma {:induction false} MessagesBytes(num: nat, s: Schema, ms: seq<Msg>)
    requires num <= 15 && forall j :: 0 <= j < |ms| ==> Valid(s, ms[j])
    ensures EncodeAll(MsgRecords(num, s, ms)) == EachOf(8 * num + 2, Payloads(s, ms))
    decreases |ms|
  {
    hide Serialize, Codec.Valid;
    if ms != [] {
      var init, last := ms[..|ms| - 1], ms[|ms| - 1];
      MessagesBytes(num, s, init);
      assert Payloads(s, ms)[..|ms| - 1] == Payloads(s, init);
      EncodeAllSnoc(MsgRecords(num, s, init), Len(num, Serialize(s, last)));
      KeyByte(num, 2);
      assert Encode(Len(num, Serialize(s, last)))
          == [8 * num + 2] + (EncodeVarint(|Serialize(s, last)|) + Serialize(s, last));
    }
  }

  /** The bytes of field `num`. */
  function FieldBytes(num: nat, f: Field, v: Value): seq<Byte>
    requires 1 <= num <= 15 && ValidValue(f, v)
  {
    match f
    case Optional(_) => Opt(8 * num, v)
    case Repeated(_) => Each(8 * num, v.xs)
    case Nested(sub) => EachOf(8 * num + 2, Payloads(sub, v.ms))
  }

  lemma OneField(num: nat, f: Field, v: Value)
    requires 1 <= num <= 15 && ValidValue(f, v)
    ensures EncodeAll(FieldRecords(num, f, v)) == FieldBytes(num, f, v)
  {
    match f
    case Optional(k) =>
      if v.has {
        EncodeAllSnoc([], Number(num, ToWire(k, v.v)));
        assert [] + [Number(num, ToWire(k, v.v))] == [Number(num, ToWire(k, v.v))];
        NumberBytes(num, k, v.v);
      }
    case Repeated(k) => ListBytes(num, k, v.xs);
    case Nested(sub) => MessagesBytes(num, sub, v.ms);
  }

  /** A message is its fields in order and then its unknown records: here after `n` fields. */
  lemma AfterField(s: Schema, m: Msg, n: nat)
    requires Valid(s, m) && 1 <= n <= |s.fields| <= 15
    ensures ValidValue(s.fields[n - 1], m.vals[n - 1])
    ensures Written(s, m, n) == Written(s, m, n - 1) + FieldBytes(n, s.fields[n - 1], m.vals[n - 1])
  {
    WrittenStep(s, m, n);
    OneField(n, s.fields[n - 1], m.vals[n - 1]);
  }

  lemma BeforeFields(s: Schema, m: Msg)
    requires Valid(s, m)
    ensures Written(s, m, 0) == []
  {
  }

  // ------------------------------------------------------------------------------------ message by message

  predicate AllValid(s: Schema, ms: seq<Msg>) { forall j :: 0 <= j < |ms| ==> Valid(s, ms[j]) }

  lemma FieldsDecide(s: Schema, m: Msg)
    requires AllForeign(s, m.unknown)
    ensures Valid(s, m) <==>
      |m.vals| == |s.fields| && forall i :: 0 <= i < |s.fields| ==> ValidValue(s.fields[i], m.vals[i])
  {
  }

  // What each type of field admits.

  lemma OptionalUInt32(s: Schema, m: Msg, i: nat)
    requires i < |m.vals| == |s.fields| && s.fields[i] == Optional(UInt32)
    ensures ValidValue(s.fields[i], m.vals[i]) <==> IsUInt32(m.vals[i])
  {
  }

  lemma OptionalInt64(s: Schema, m: Msg, i: nat)
    requires i < |m.vals| == |s.fields| && s.fields[i] == Optional(Int64)
    ensures ValidValue(s.fields[i], m.vals[i]) <==> IsInt64(m.vals[i])
  {
  }

  lemma ListOfUInt32(s: Schema, m: Msg, i: nat)
    requires i < |m.vals| == |s.fields| && s.fields[i] == Repeated(UInt32)
    ensures ValidValue(s.fields[i], m.vals[i]) <==> m.vals[i].Ints? && AreUInt32(m.vals[i].xs)
  {
  }

  lemma ListOfInt32(s: Schema, m: Msg, i: nat)
    requires i < |m.vals| == |s.fields| && s.fields[i] == Repeated(Int32)
    ensures ValidValue(s.fields[i], m.vals[i]) <==> m.vals[i].Ints? && AreInt32(m.vals[i].xs)
  {
  }

  lemma ListOfInt64(s: Schema, m: Msg, i: nat)
    requires i < |m.vals| == |s.fields| && s.fields[i] == Repeated(Int64)
    ensures ValidValue(s.fields[i], m.vals[i]) <==> m.vals[i].Ints? && AreInt64(m.vals[i].xs)
  {
  }

  lemma ListOfMessages(s: Schema, m: Msg, i: nat, sub: Schema)
    requires i < |m.vals| == |s.fields| && s.fields[i] == Nested(sub)
    ensures ValidValue(s.fields[i], m.vals[i]) <==> m.vals[i].Msgs? && AllValid(sub, m.vals[i].ms)
  {
  }

  // msg_cards and bainiu_play_log: repeated uint32 = 1.
  predicate CardsValues(m: Msg) {
    && |m.vals| == 1
    && (m.vals[0].Ints? && AreUInt32(m.vals[0].xs))
  }

  function CardsBytes(m: Msg): seq<Byte>
    requires CardsValues(m)
  {
    Each(0x08, m.vals[0].xs)
  }

  lemma CardsFields()
    ensures |CARDS.fields| == 1
    ensures CARDS.fields[0] == Repeated(UInt32)
  {
  }

  lemma CardsRanges(m: Msg)
    requires AllForeign(CARDS, m.unknown)
    ensures Valid(CARDS, m) <==> CardsValues(m)
  {
    hide Codec.Valid, Codec.ValidValue, IsUInt32, IsInt64, AreUInt32, AreInt32, AreInt64, AllValid,
        Tables.CARDS;
    CardsFields();
    FieldsDecide(CARDS, m);
    if |m.vals| == 1 {
      ListOfUInt32(CARDS, m, 0);
    }
  }

  lemma CardsFormat(m: Msg)
    requires AllForeign(CARDS, m.unknown)
    ensures Valid(CARDS, m) <==> CardsValues(m)
    ensures CardsValues(m) ==> Serialize(CARDS, m) == CardsBytes(m) + EncodeAll(m.unknown)
  {
    hide Codec.Serialize, Each, EachOf, Opt, Codec.Valid, Codec.ValidValue, Payloads, Written, IsUInt32, IsInt64,
        AreUInt32, AreInt32, AreInt64, AllValid, Tables.CARDS;
    CardsRanges(m);
    if CardsValues(m) {
      CardsFields();
      BeforeFields(CARDS, m);
      AfterField(CARDS, m, 1);
      WrittenAll(CARDS, m);
    }
  }

  // baccarat_play_log: seven optional uint32, numbered from 1.
  predicate PlayLogValues(m: Msg) {
    && |m.vals| == 7
    && IsUInt32(m.vals[0])
    && IsUInt32(m.vals[1])
    && IsUInt32(m.vals[2])
    && IsUInt32(m.vals[3])
    && IsUInt32(m.vals[4])
    && IsUInt32(m.vals[5])
    && IsUInt32(m.vals[6])
  }

  function PlayLogBytes(m: Msg): seq<Byte>
    requires PlayLogValues(m)
  {
    Opt(0x08, m.vals[0]) + Opt(0x10, m.vals[1]) + Opt(0x18, m.vals[2]) + Opt(0x20, m.vals[3])
    + Opt(0x28, m.vals[4]) + Opt(0x30, m.vals[5]) + Opt(0x38, m.vals[6])
  }

  lemma PlayLogRanges(m: Msg)
    requires AllForeign(PLAY_LOG, m.unknown)
    ensures Valid(PLAY_LOG, m) <==> PlayLogValues(m)
  {
    hide Codec.Valid, Codec.ValidValue, IsUInt32, IsInt64, AreUInt32, AreInt32, AreInt64, AllValid,
        Tables.PLAY_LOG;
    PlayLogTable();
    FieldsDecide(PLAY_LOG, m);
    if |m.vals| == 7 {
      OptionalUInt32(PLAY_LOG, m, 0);
      OptionalUInt32(PLAY_LOG, m, 1);
      OptionalUInt32(PLAY_LOG, m, 2);
      OptionalUInt32(PLAY_LOG, m, 3);
      OptionalUInt32(PLAY_LOG, m, 4);
      OptionalUInt32(PLAY_LOG, m, 5);
      OptionalUInt32(PLAY_LOG, m, 6);
    }
  }

  lemma PlayLogFormat(m: Msg)
    requires AllForeign(PLAY_LOG, m.unknown)
    ensures Valid(PLAY_LOG, m) <==> PlayLogValues(m)
    ensures PlayLogValues(m) ==> Serialize(PLAY_LOG, m) == PlayLogBytes(m) + EncodeAll(m.unknown)
  {
    hide Codec.Serialize, Each, EachOf, Opt, Codec.Valid, Codec.ValidValue, Payloads, Written, IsUInt32, IsInt64,
        AreUInt32, AreInt32, AreInt64, AllValid, Tables.PLAY_LOG;
    PlayLogRanges(m);
    if PlayLogValues(m) {
      PlayLogTable();
      BeforeFields(PLAY_LOG, m);
      AfterField(PLAY_LOG, m, 1);
      AfterField(PLAY_LOG, m, 2);
      AfterField(PLAY_LOG, m, 3);
      AfterField(PLAY_LOG, m, 4);
      AfterField(PLAY_LOG, m, 5);
      AfterField(PLAY_LOG, m, 6);
      AfterField(PLAY_LOG, m, 7);
      WrittenAll(PLAY_LOG, m);
    }
  }

  // msg_baccarat_play_log_rep: repeated baccarat_play_log = 1.
  predicate PlayLogRepValues(m: Msg) {
    && |m.vals| == 1
    && (m.vals[0].Msgs? && AllValid(PLAY_LOG, m.vals[0].ms))
  }

  function PlayLogRepBytes(m: Msg): seq<Byte>
    requires PlayLogRepValues(m)
  {
    EachOf(0x0A, Payloads(PLAY_LOG, m.vals[0].ms))
  }

  lemma PlayLogRepFields()
    ensures |PLAY_LOG_REP.fields| == 1
    ensures PLAY_LOG_REP.fields[0] == Nested(PLAY_LOG)
  {
  }

  lemma PlayLogRepRanges(m: Msg)
    requires AllForeign(PLAY_LOG_REP, m.unknown)
    ensures Valid(PLAY_LOG_REP, m) <==> PlayLogRepValues(m)
  {
    hide Codec.Valid, Codec.ValidValue, IsUInt32, IsInt64, AreUInt32, AreInt32, AreInt64, AllValid,
        Tables.PLAY_LOG_REP;
    PlayLogRepFields();
    FieldsDecide(PLAY_LOG_REP, m);
    if |m.vals| == 1 {
      ListOfMessages(PLAY_LOG_REP, m, 0, PLAY_LOG);
    }
  }

  lemma PlayLogRepFormat(m: Msg)
    requires AllForeign(PLAY_LOG_REP, m.unknown)
    ensures Valid(PLAY_LOG_REP, m) <==> PlayLogRepValues(m)
    ensures PlayLogRepValues(m) ==> Serialize(PLAY_LOG_REP, m) == PlayLogRepBytes(m) + EncodeAll(m.unknown)
  {
    hide Codec.Serialize, Each, EachOf, Opt, Codec.Valid, Codec.ValidValue, Payloads, Written, IsUInt32, IsInt64,
        AreUInt32, AreInt32, AreInt64, AllValid, Tables.PLAY_LOG_REP;
    PlayLogRepRanges(m);
    if PlayLogRepValues(m) {
      PlayLogRepFields();
      BeforeFields(PLAY_LOG_REP, m);
      AfterField(PLAY_LOG_REP, m, 1);
      WrittenAll(PLAY_LOG_REP, m);
    }
  }

  // msg_bainiu_play_log_rep: repeated bainiu_play_log = 1.
  predicate BainiuPlayLogRepValues(m: Msg) {
    && |m.vals| == 1
    && (m.vals[0].Msgs? && AllValid(CARDS, m.vals[0].ms))
  }

  function BainiuPlayLogRepBytes(m: Msg): seq<Byte>
    requires BainiuPlayLogRepValues(m)
  {
    EachOf(0x0A, Payloads(CARDS, m.vals[0].ms))
  }

  lemma BainiuPlayLogRepFields()
    ensures |BAINIU_PLAY_LOG_REP.fields| == 1
    ensures BAINIU_PLAY_LOG_REP.fields[0] == Nested(CARDS)
  {
  }

  lemma BainiuPlayLogRepRanges(m: Msg)
    requires AllForeign(BAINIU_PLAY_LOG_REP, m.unknown)
    ensures Valid(BAINIU_PLAY_LOG_REP, m) <==> BainiuPlayLogRepValues(m)
  {
    hide Codec.Valid, Codec.ValidValue, IsUInt32, IsInt64, AreUInt32, AreInt32, AreInt64, AllValid,
        Tables.BAINIU_PLAY_LOG_REP;
    BainiuPlayLogRepFields();
    FieldsDecide(BAINIU_PLAY_LOG_REP, m);
    if |m.vals| == 1 {
      ListOfMessages(BAINIU_PLAY_LOG_REP, m, 0, CARDS);
    }
  }

  lemma BainiuPlayLogRepFormat(m: Msg)
    requires AllForeign(BAINIU_PLAY_LOG_REP, m.unknown)
    ensures Valid(BAINIU_PLAY_LOG_REP, m) <==> BainiuPlayLogRepValues(m)
    ensures BainiuPlayLogRepValues(m) ==>
      Serialize(BAINIU_PLAY_LOG_REP, m) == BainiuPlayLogRepBytes(m) + EncodeAll(m.unknown)
  {
    hide Codec.Serialize, Each, EachOf, Opt, Codec.Valid, Codec.ValidValue, Payloads, Written, IsUInt32, IsInt64,
        AreUInt32, AreInt32, AreInt64, AllValid, Tables.BAINIU_PLAY_LOG_REP;
    BainiuPlayLogRepRanges(m);
    if BainiuPlayLogRepValues(m) {
      BainiuPlayLogRepFields();
      BeforeFields(BAINIU_PLAY_LOG_REP, m);
      AfterField(BAINIU_PLAY_LOG_REP, m, 1);
      WrittenAll(BAINIU_PLAY_LOG_REP, m);
    }
  }

  // msg_baccarat_apply_list: repeated uint32 player_ids = 1, repeated int64 apply_score = 2.
  predicate ApplyListValues(m: Msg) {
    && |m.vals| == 2
    && (m.vals[0].Ints? && AreUInt32(m.vals[0].xs))
    && (m.vals[1].Ints? && AreInt64(m.vals[1].xs))
  }

  function ApplyListBytes(m: Msg): seq<Byte>
    requires ApplyListValues(m)
  {
    Each(0x08, m.vals[0].xs) + Each(0x10, m.vals[1].xs)
  }

  lemma ApplyListFields()
    ensures |APPLY_LIST.fields| == 2
    ensures APPLY_LIST.fields[0] == Repeated(UInt32)
    ensures APPLY_LIST.fields[1] == Repeated(Int64)
  {
  }

  lemma ApplyListRanges(m: Msg)
    requires AllForeign(APPLY_LIST, m.unknown)
    ensures Valid(APPLY_LIST, m) <==> ApplyListValues(m)
  {
    hide Codec.Valid, Codec.ValidValue, IsUInt32, IsInt64, AreUInt32, AreInt32, AreInt64, AllValid,
        Tables.APPLY_LIST;
    ApplyListFields();
    FieldsDecide(APPLY_LIST, m);
    if |m.vals| == 2 {
      ListOfUInt32(APPLY_LIST, m, 0);
      ListOfInt64(APPLY_LIST, m, 1);
    }
  }

  lemma ApplyListFormat(m: Msg)
    requires AllForeign(APPLY_LIST, m.unknown)
    ensures Valid(APPLY_LIST, m) <==> ApplyListValues(m)
    ensures ApplyListValues(m) ==> Serialize(APPLY_LIST, m) == ApplyListBytes(m) + EncodeAll(m.unknown)
  {
    hide Codec.Serialize, Each, EachOf, Opt, Codec.Valid, Codec.ValidValue, Payloads, Written, IsUInt32, IsInt64,
        AreUInt32, AreInt32, AreInt64, AllValid, Tables.APPLY_LIST;
    ApplyListRanges(m);
    if ApplyListValues(m) {
      ApplyListFields();
      BeforeFields(APPLY_LIST, m);
      AfterField(APPLY_LIST, m, 1);
      AfterField(APPLY_LIST, m, 2);
      WrittenAll(APPLY_LIST, m);
    }
  }

  // msg_baccarat_game_info_play_rep: lists 1, 2 and 9, the rest optional; 1, 5, 6, 9 and 10 are int64.
  predicate GameInfoPlayValues(m: Msg) {
    && |m.vals| == 11
    && (m.vals[0].Ints? && AreInt64(m.vals[0].xs))
    && (m.vals[1].Msgs? && AllValid(CARDS, m.vals[1].ms))
    && IsUInt32(m.vals[2])
    && IsUInt32(m.vals[3])
    && IsInt64(m.vals[4])
    && IsInt64(m.vals[5])
    && IsUInt32(m.vals[6])
    && IsUInt32(m.vals[7])
    && (m.vals[8].Ints? && AreInt64(m.vals[8].xs))
    && IsInt64(m.vals[9])
    && IsUInt32(m.vals[10])
  }

  function GameInfoPlayBytes(m: Msg): seq<Byte>
    requires GameInfoPlayValues(m)
  {
    Each(0x08, m.vals[0].xs) + EachOf(0x12, Payloads(CARDS, m.vals[1].ms)) + Opt(0x18, m.vals[2])
    + Opt(0x20, m.vals[3]) + Opt(0x28, m.vals[4]) + Opt(0x30, m.vals[5]) + Opt(0x38, m.vals[6])
    + Opt(0x40, m.vals[7]) + Each(0x48, m.vals[8].xs) + Opt(0x50, m.vals[9])
    + Opt(0x58, m.vals[10])
  }

  lemma GameInfoPlayRanges(m: Msg)
    requires AllForeign(GAME_INFO_PLAY, m.unknown)
    ensures Valid(GAME_INFO_PLAY, m) <==> GameInfoPlayValues(m)
  {
    hide Codec.Valid, Codec.ValidValue, IsUInt32, IsInt64, AreUInt32, AreInt32, AreInt64, AllValid,
        Tables.GAME_INFO_PLAY;
    GameInfoTable();
    FieldsDecide(GAME_INFO_PLAY, m);
    if |m.vals| == 11 {
      ListOfInt64(GAME_INFO_PLAY, m, 0);
      ListOfMessages(GAME_INFO_PLAY, m, 1, CARDS);
      OptionalUInt32(GAME_INFO_PLAY, m, 2);
      OptionalUInt32(GAME_INFO_PLAY, m, 3);
      OptionalInt64(GAME_INFO_PLAY, m, 4);
      OptionalInt64(GAME_INFO_PLAY, m, 5);
      OptionalUInt32(GAME_INFO_PLAY, m, 6);
      OptionalUInt32(GAME_INFO_PLAY, m, 7);
      ListOfInt64(GAME_INFO_PLAY, m, 8);
      OptionalInt64(GAME_INFO_PLAY, m, 9);
      OptionalUInt32(GAME_INFO_PLAY, m, 10);
    }
  }

  lemma GameInfoPlayFormat(m: Msg)
    requires AllForeign(GAME_INFO_PLAY, m.unknown)
    ensures Valid(GAME_INFO_PLAY, m) <==> GameInfoPlayValues(m)
    ensures GameInfoPlayValues(m) ==> Serialize(GAME_INFO_PLAY, m) == GameInfoPlayBytes(m) + EncodeAll(m.unknown)
  {
    hide Codec.Serialize, Each, EachOf, Opt, Codec.Valid, Codec.ValidValue, Payloads, Written, IsUInt32, IsInt64,
        AreUInt32, AreInt32, AreInt64, AllValid, Tables.GAME_INFO_PLAY;
    GameInfoPlayRanges(m);
    if GameInfoPlayValues(m) {
      GameInfoTable();
      BeforeFields(GAME_INFO_PLAY, m);
      AfterField(GAME_INFO_PLAY, m, 1);
      AfterField(GAME_INFO_PLAY, m, 2);
      AfterField(GAME_INFO_PLAY, m, 3);
      AfterField(GAME_INFO_PLAY, m, 4);
      AfterField(GAME_INFO_PLAY, m, 5);
      AfterField(GAME_INFO_PLAY, m, 6);
      AfterField(GAME_INFO_PLAY, m, 7);
      AfterField(GAME_INFO_PLAY, m, 8);
      AfterField(GAME_INFO_PLAY, m, 9);
      AfterField(GAME_INFO_PLAY, m, 10);
      AfterField(GAME_INFO_PLAY, m, 11);
      WrittenAll(GAME_INFO_PLAY, m);
    }
  }

  // msg_bainiu_game_end: lists 2, 3, 8, 9, 13 and 14, the rest optional; 4, 5, 7 and 8 are int64, 9 is int32.
  predicate GameEndValues(m: Msg) {
    && |m.vals| == 14
    && IsUInt32(m.vals[0])
    && (m.vals[1].Msgs? && AllValid(CARDS, m.vals[1].ms))
    && (m.vals[2].Ints? && AreUInt32(m.vals[2].xs))
    && IsInt64(m.vals[3])
    && IsInt64(m.vals[4])
    && IsUInt32(m.vals[5])
    && IsInt64(m.vals[6])
    && (m.vals[7].Ints? && AreInt64(m.vals[7].xs))
    && (m.vals[8].Ints? && AreInt32(m.vals[8].xs))
    && IsUInt32(m.vals[9])
    && IsUInt32(m.vals[10])
    && IsUInt32(m.vals[11])
    && (m.vals[12].Ints? && AreUInt32(m.vals[12].xs))
    && (m.vals[13].Ints? && AreUInt32(m.vals[13].xs))
  }

  function GameEndBytes(m: Msg): seq<Byte>
    requires GameEndValues(m)
  {
    Opt(0x08, m.vals[0]) + EachOf(0x12, Payloads(CARDS, m.vals[1].ms)) + Each(0x18, m.vals[2].xs)
    + Opt(0x20, m.vals[3]) + Opt(0x28, m.vals[4]) + Opt(0x30, m.vals[5]) + Opt(0x38, m.vals[6])
    + Each(0x40, m.vals[7].xs) + Each(0x48, m.vals[8].xs) + Opt(0x50, m.vals[9])
    + Opt(0x58, m.vals[10]) + Opt(0x60, m.vals[11]) + Each(0x68, m.vals[12].xs)
    + Each(0x70, m.vals[13].xs)
  }

  lemma GameEndRanges(m: Msg)
    requires AllForeign(GAME_END, m.unknown)
    ensures Valid(GAME_END, m) <==> GameEndValues(m)
  {
    hide Codec.Valid, Codec.ValidValue, IsUInt32, IsInt64, AreUInt32, AreInt32, AreInt64, AllValid,
        Tables.GAME_END;
    GameEndTable();
    FieldsDecide(GAME_END, m);
    if |m.vals| == 14 {
      OptionalUInt32(GAME_END, m, 0);
      ListOfMessages(GAME_END, m, 1, CARDS);
      ListOfUInt32(GAME_END, m, 2);
      OptionalInt64(GAME_END, m, 3);
      OptionalInt64(GAME_END, m, 4);
      OptionalUInt32(GAME_END, m, 5);
      OptionalInt64(GAME_END, m, 6);
      ListOfInt64(GAME_END, m, 7);
      ListOfInt32(GAME_END, m, 8);
      OptionalUInt32(GAME_END, m, 9);
      OptionalUInt32(GAME_END, m, 10);
      OptionalUInt32(GAME_END, m, 11);
      ListOfUInt32(GAME_END, m, 12);
      ListOfUInt32(GAME_END, m, 13);
    }
  }

  lemma GameEndFormat(m: Msg)
    requires AllForeign(GAME_END, m.unknown)
    ensures Valid(GAME_END, m) <==> GameEndValues(m)
    ensures GameEndValues(m) ==> Serialize(GAME_END, m) == GameEndBytes(m) + EncodeAll(m.unknown)
  {
    hide Codec.Serialize, Each, EachOf, Opt, Codec.Valid, Codec.ValidValue, Payloads, Written, IsUInt32, IsInt64,
        AreUInt32, AreInt32, AreInt64, AllValid, Tables.GAME_END;
    GameEndRanges(m);
    if GameEndValues(m) {
      GameEndTable();
      BeforeFields(GAME_END, m);
      AfterField(GAME_END, m, 1);
      AfterField(GAME_END, m, 2);
      AfterField(GAME_END, m, 3);
      AfterField(GAME_END, m, 4);
      AfterField(GAME_END, m, 5);
      AfterField(GAME_END, m, 6);
      AfterField(GAME_END, m, 7);
      AfterField(GAME_END, m, 8);
      AfterField(GAME_END, m, 9);
      AfterField(GAME_END, m, 10);
      AfterField(GAME_END, m, 11);
      AfterField(GAME_END, m, 12);
      AfterField(GAME_END, m, 13);
      AfterField(GAME_END, m, 14);
      WrittenAll(GAME_END, m);
    }
  }

  // ------------------------------------------------------------------------------ the apply list, record by record

  /** One record of it: a number behind its key, or any number of them behind the other key and their length. */
  function ApplyListPiece(p: Piece): seq<Byte>
    requires p.num == 1 || p.num == 2
  {
    match p.chunk
    case One(x) => [if p.num == 1 then 0x08 else 0x10] + Num(x)
    case Packed(xs) => [if p.num == 1 then 0x0A else 0x12] + (EncodeVarint(|Packing(xs)|) + Packing(xs))
  }

  /** player_ids are uint32, apply_score are int64; a packed record is shorter than 2^31 bytes. */
  predicate IsApplyListPiece(p: Piece) {
    && (p.num == 1 || p.num == 2)
    && (if p.num == 1 then AreUInt32(ElementsOf(p.chunk)) else AreInt64(ElementsOf(p.chunk)))
    && (p.chunk.Packed? ==> |Packing(p.chunk.xs)| < 0x8000_0000)
  }

  function ApplyListPieces(ps: seq<Piece>): seq<Byte>
    requires forall i :: 0 <= i < |ps| ==> IsApplyListPiece(ps[i])
  {
    if ps == [] then []
    else
      assert IsApplyListPiece(ps[0]);
      ApplyListPiece(ps[0]) + ApplyListPieces(ps[1..])
  }

  lemma {:induction false} PackingIsPacked(k: Kind, xs: seq<int>)
    requires AllInRange(k, xs)
    ensures PackedBytes(k, xs) == Packing(xs)
  {
    if xs != [] {
      NumIsWire(k, xs[0]);
      PackingIsPacked(k, xs[1..]);
    }
  }

  lemma PieceBytes(p: Piece)
    requires IsApplyListPiece(p)
    ensures IsPiece(APPLY_LIST, p)
    ensures Encode(ChunkRecord(p.num, APPLY_LIST.fields[p.num - 1].k, p.chunk)) == ApplyListPiece(p)
  {
    var k, xs := APPLY_LIST.fields[p.num - 1].k, ElementsOf(p.chunk);
    assert AllInRange(k, xs);
    match p.chunk
    case One(x) =>
      assert [x][0] == x;
      NumberBytes(p.num, k, x);
    case Packed(_) =>
      PackingIsPacked(k, xs);
      KeyByte(p.num, 2);
  }

  lemma {:induction false} PiecesBytes(ps: seq<Piece>)
    requires forall i :: 0 <= i < |ps| ==> IsApplyListPiece(ps[i])
    ensures ArePieces(APPLY_LIST, ps) && EncodeAll(PieceRecords(APPLY_LIST, ps)) == ApplyListPieces(ps)
  {
    hide IsApplyListPiece, IsPiece, Encode, ApplyListPiece;
    if ps != [] {
      PieceBytes(ps[0]);
      PiecesBytes(ps[1..]);
      assert forall i :: 0 < i < |ps| ==> ps[i] == ps[1..][i - 1];
      assert PieceRecords(APPLY_LIST, ps)[1..] == PieceRecords(APPLY_LIST, ps[1..]);
    }
  }

  /**
    The bytes of an apply list, however its numbers are packed and its records interleaved, give the ids of
    the records behind 0x08 and 0x0A and the scores of those behind 0x10 and 0x12, in order, and nothing else.
   */
  lemma ApplyListReads(env: Env, ps: seq<Piece>)
    requires forall i :: 0 <= i < |ps| ==> IsApplyListPiece(ps[i])
    ensures Parse(env, APPLY_LIST, ApplyListPieces(ps), Fresh(APPLY_LIST))
         == Done(Msg([Ints(ElementsFor(1, ps)), Ints(ElementsFor(2, ps))], []), [], InputEnd)
  {
    hide Codec.Parse, IsPiece, ApplyListPieces, IsApplyListPiece;
    TagsAreOneByte();
    PiecesBytes(ps);
    MixedEncodingsAgree(env, APPLY_LIST, ps, Fresh(APPLY_LIST));
    assert [] + ElementsFor(1, ps) == ElementsFor(1, ps) && [] + ElementsFor(2, ps) == ElementsFor(2, ps);
    assert WithPieces(APPLY_LIST, Fresh(APPLY_LIST), ps).vals == [Ints(ElementsFor(1, ps)), Ints(ElementsFor(2, ps))];
  }

  lemma TwoPieces(a: Piece, b: Piece)
    requires a.num == 1 && b.num == 2
    ensures ElementsFor(1, [a, b]) == ElementsOf(a.chunk) && ElementsFor(2, [a, b]) == ElementsOf(b.chunk)
  {
    assert [a, b][1..] == [b] && [b][1..] == [];
    assert forall num :: ElementsFor(num, [b]) == (if b.num == num then ElementsOf(b.chunk) else []) + ElementsFor(num, []);
  }

  /** Both lists packed, one record each. */
  lemma PackedApplyListReads(env: Env, ids: seq<int>, scores: seq<int>)
    requires AreUInt32(ids) && AreInt64(scores) && |Packing(ids)| < 0x8000_0000 && |Packing(scores)| < 0x8000_0000
    ensures Parse(env, APPLY_LIST, [0x0A] + (EncodeVarint(|Packing(ids)|) + Packing(ids))
          + ([0x12] + (EncodeVarint(|Packing(scores)|) + Packing(scores))), Fresh(APPLY_LIST))
         == Done(Msg([Ints(ids), Ints(scores)], []), [], InputEnd)
  {
    hide Codec.Parse, Packing;
    var a, b := Piece(1, Packed(ids)), Piece(2, Packed(scores));
    ApplyListReads(env, [a, b]);
    assert [a, b][1..] == [b] && [b][1..] == [];
    TwoPieces(a, b);
    assert ApplyListPieces([b]) == ApplyListPiece(b) + ApplyListPieces([]);
    assert ApplyListPiece(b) + [] == ApplyListPiece(b);
    assert ApplyListPieces([a, b]) == ApplyListPiece(a) + ApplyListPiece(b);
  }

  /**
    A packed list whose length reaches past the input: a reader that clamps takes what is there, one that does
    not refuses it and keeps nothing.
   */
  lemma OverlongListReads(env: Env, s: Schema, num: nat, k: Kind, n: nat, xs: seq<int>, m: Msg)
    requires OneByteTags(s) && Shaped(s, m) && 1 <= num <= |s.fields| && s.fields[num - 1] == Repeated(k)
    requires AllInRange(k, xs) && TooLong(n, Packing(xs))
    ensures m.vals[num - 1].Ints?
    ensures Parse(env, s, [8 * num + 2] + (EncodeVarint(n) + Packing(xs)), m)
         == if env.clamp then Done(AddInts(m, num - 1, xs), [], InputEnd) else Fail(m)
  {
    hide *;
    ListHasShape(s, num, k, m, xs);
    var bs := EncodeVarint(n) + Packing(xs);
    KeyOfList(s, num);
    KeyByte(num, 2);
    ParseKey(env, s, num, 2, bs, m);
    PackedAfterTag(env, s, num, bs, m);
    OverlongPayload(env.clamp, n, Packing(xs));
    PackingIsPacked(k, xs);
    PackedRoundTrip(k, xs);
    ParseNothing(env, s, AddInts(m, num - 1, xs));
  }

  lemma ListHasShape(s: Schema, num: nat, k: Kind, m: Msg, xs: seq<int>)
    requires Shaped(s, m) && 1 <= num <= |s.fields| && s.fields[num - 1] == Repeated(k)
    ensures |m.vals| == |s.fields| && m.vals[num - 1].Ints? && Shaped(s, AddInts(m, num - 1, xs))
  {
    assert HasShape(s.fields[num - 1], m.vals[num - 1]);
  }

  lemma KeyOfList(s: Schema, num: nat)
    requires OneByteTags(s) && 1 <= num <= |s.fields|
    ensures num <= 15 && EncodeTag(num, 2) == EncodeVarint(8 * num + 2) && LENGTH_DELIMITED == 2 && 8 * num + 2 < TWO_32
  {
  }

  lemma OverlongPayload(clamp: bool, n: nat, bytes: seq<Byte>)
    requires TooLong(n, bytes)
    ensures Delimited(clamp, EncodeVarint(n) + bytes) == if clamp then Payload(bytes, []) else Refused
  {
    hide EncodeVarint;
    VarintRoundTrip(n, bytes);
  }

  /** What SerializeWithCachedSizesToArray writes of an apply list, and that it is read back. */
  lemma ApplyListComesBack(env: Env, ids: seq<int>, scores: seq<int>)
    requires AreUInt32(ids) && AreInt64(scores) && |Each(0x08, ids) + Each(0x10, scores)| < 0x8000_0000
    ensures Valid(APPLY_LIST, Msg([Ints(ids), Ints(scores)], []))
    ensures Serialize(APPLY_LIST, Msg([Ints(ids), Ints(scores)], [])) == Each(0x08, ids) + Each(0x10, scores)
    ensures Parse(env, APPLY_LIST, Each(0x08, ids) + Each(0x10, scores), Fresh(APPLY_LIST))
         == Done(Msg([Ints(ids), Ints(scores)], []), [], InputEnd)
  {
    hide Codec.Parse, Codec.Serialize, Each;
    var m := Msg([Ints(ids), Ints(scores)], []);
    TagsAreOneByte();
    ApplyListFormat(m);
    assert EncodeAll(m.unknown) == [] && ApplyListBytes(m) + [] == ApplyListBytes(m);
    ParseUndoesSerialize(env, APPLY_LIST, m);
  }
}
