/**
  How messages travel: SendProtobufMsg puts one into a packet of fixed size, and the receiver takes
  it out again with PARSE_MSG_FROM_ARRAY.
 */
module Packets {
  import opened Varint
  import opened Codec
  import opened RoundTrip
  import opened Invariants
  import opened Sizes
  import opened Tables
  import opened BainiuGameEnds

  const PACKET_MAX_DATA_SIZE: nat := 4096 * 4 - 8

  // header.datalen is 16 bits wide.
  const TWO_16: nat := 0x1_0000

  datatype Packet = Packet(datalen: nat, protobuf: seq<Byte>)

  function Zeros(n: nat): (bs: seq<Byte>)
    ensures |bs| == n && forall i :: 0 <= i < n ==> bs[i] == 0
  {
    seq(n, _ => 0)
  }

  /** The packet for a message; the result of SerializeToArray is not looked at. */
  function Sent(s: Schema, m: Msg): (p: Packet)
    requires OneByteTags(s) && Codec.Valid(s, m)
    ensures |p.protobuf| == PACKET_MAX_DATA_SIZE
  {
    var size := Sizes.ByteSize(s, m);
    if size <= PACKET_MAX_DATA_SIZE - 1 then
      ByteSizeIsExact(s, m);
      Packet(size, Serialize(s, m) + Zeros(PACKET_MAX_DATA_SIZE - size))
    else
      Packet(size % TWO_16, Zeros(PACKET_MAX_DATA_SIZE))
  }

  datatype Received = Rejected | Message(m: Msg)

  function Receive(env: Env, s: Schema, p: Packet): Received
    requires |p.protobuf| == PACKET_MAX_DATA_SIZE
  {
    if p.datalen >= PACKET_MAX_DATA_SIZE then Rejected
    else
      var o := Parse(env, s, p.protobuf[..p.datalen], Fresh(s));
      if o.Complete() then Message(o.m) else Rejected
  }

  lemma ZerosAreRejected(env: Env, s: Schema, n: nat)
    ensures Parse(env, s, Zeros(n), Fresh(s)).Complete() <==> n == 0
    ensures n == 0 ==> Parse(env, s, Zeros(n), Fresh(s)).m == Fresh(s)
  {
    if n > 0 {
      assert DecodeVarint(Zeros(n), MAX_VARINT_BYTES) == Value(0, Zeros(n)[1..]);
    }
  }

  /** Any packet, whoever filled it: what its first bytes say, if it announces at most 16375 of them. */
  lemma AcceptedExactlyWhenWhole(env: Env, s: Schema, p: Packet, m: Msg)
    requires |p.protobuf| == PACKET_MAX_DATA_SIZE
    ensures PACKET_MAX_DATA_SIZE == 16376
    ensures Receive(env, s, p) == Message(m) <==>
      p.datalen <= 16375 && Parse(env, s, p.protobuf[..p.datalen], Fresh(s)) == Done(m, [], InputEnd)
  {
  }

  lemma DefaultTakesNoBytes(f: Field)
    ensures ValidValue(f, Default(f)) && FieldSize(f, Default(f)) == 0
  {
    match f
    case Optional(_) =>
    case Repeated(_) =>
    case Nested(_) =>
  }

  lemma {:induction false} FreshTakesNoBytes(s: Schema, n: nat)
    requires Codec.Valid(s, Fresh(s)) && n <= |s.fields|
    ensures FieldsSize(s, Fresh(s), n) == 0
  {
    if n > 0 {
      FreshTakesNoBytes(s, n - 1);
      DefaultTakesNoBytes(s.fields[n - 1]);
      assert Fresh(s).vals[n - 1] == Default(s.fields[n - 1]);
    }
  }

  /**
    A message that the recursion limit allows arrives as it was sent exactly when it fits the buffer:
    a larger one is rejected, or, when the 16 bits of its length come out as 0, arrives empty.
   */
  lemma ArrivesExactlyWhenItFits(env: Env, s: Schema, m: Msg)
    requires OneByteTags(s) && Codec.Valid(s, m) && Fits(s, m, env.depth)
    ensures Receive(env, s, Sent(s, m)) == Message(m) <==> Sizes.ByteSize(s, m) <= 16375
    ensures Sizes.ByteSize(s, m) > 16375 ==>
      Receive(env, s, Sent(s, m)) == if Sizes.ByteSize(s, m) % 65536 == 0 then Message(Fresh(s)) else Rejected
  {
    var size := Sizes.ByteSize(s, m);
    if size <= PACKET_MAX_DATA_SIZE - 1 {
      ByteSizeIsExact(s, m);
      assert Sent(s, m).protobuf[..size] == Serialize(s, m);
      ParseUndoesSerialize(env, s, m);
    } else {
      var n := size % TWO_16;
      FreshIsValid(s);
      FreshTakesNoBytes(s, |s.fields|);
      assert Sizes.ByteSize(s, Fresh(s)) == 0;
      if n < PACKET_MAX_DATA_SIZE {
        assert Sent(s, m).protobuf[..n] == Zeros(n);
        ZerosAreRejected(env, s, n);
      }
    }
  }

  // --------------------------------------------------------------------- the calls, for one message

  /** SendProtobufMsg: the buffer is zeroed, filled if the message fits, and its length is asked again. */
  method SendProtobufMsg(msg: MsgBainiuGameEnd) returns (datalen: nat, pkt: array<Byte>)
    requires msg.Valid()
    modifies msg`cachedSize, msg.tableCards`cachedSize
    ensures msg.Valid() && fresh(pkt) && OneByteTags(GAME_END) && Codec.Valid(GAME_END, msg.view)
    ensures Sent(GAME_END, msg.view) == Packet(datalen, pkt[..])
  {
    hide Codec.Valid, MsgBainiuGameEnd.Valid, MsgBainiuGameEnd.Tied, Codec.Serialize, Sizes.ByteSize, OneByteTags;
    TagsAreOneByte();
    pkt := new Byte[PACKET_MAX_DATA_SIZE](_ => 0);
    assert pkt[..] == Zeros(PACKET_MAX_DATA_SIZE);
    var ok := msg.SerializeToArray(pkt, PACKET_MAX_DATA_SIZE - 1);
    datalen := msg.ByteSize();
    datalen := datalen % TWO_16;
    if ok {
      ByteSizeIsExact(GAME_END, msg.view);
      assert pkt[..] == Serialize(GAME_END, msg.view) + Zeros(PACKET_MAX_DATA_SIZE - datalen);
    }
  }
}
