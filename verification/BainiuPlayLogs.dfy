/** msg_bainiu_play_log_rep: the reply that lists bainiu_play_log, whose generated code is that of msg_cards. */
module BainiuPlayLogs {
  import opened Varint
  import opened Wire
  import opened Codec
  import opened RoundTrip
  import opened Merging
  import opened Stream
  import opened Sizes
  import opened WireFormatLite
  import opened Generated
  import opened Tables
  import opened Cards

  // ------------------------------------------------------------------------------------------ reply

  /** It owns its logs, each an object of its own. */
  class MsgBainiuPlayLogRep {
    var logs: seq<MsgCards>
    var unknownFields: seq<Record>
    var cachedSize: nat

    ghost function View(): (m: Msg)
      reads `logs, `unknownFields, logs`view
      ensures Shaped(BAINIU_PLAY_LOG_REP, m)
    {
      Msg([Msgs(Views(logs))], unknownFields)
    }

    ghost predicate Valid()
      reads `logs, `unknownFields, logs`view, logs`cards, logs`unknownFields
      ensures Valid() ==> Codec.Valid(BAINIU_PLAY_LOG_REP, View())
    {
      ValidList(logs) && (ViewsAreValid(logs); AllForeign(BAINIU_PLAY_LOG_REP, unknownFields))
    }

    constructor ()
      ensures Valid() && View() == Fresh(BAINIU_PLAY_LOG_REP) && logs == []
    {
      logs, unknownFields, cachedSize := [], [], 0;
      new;
      EmptyList();
    }

    method Clear()
      requires Valid()
      modifies this
      ensures Valid() && View() == Fresh(BAINIU_PLAY_LOG_REP) && logs == [] && cachedSize == old(cachedSize)
    {
      logs, unknownFields := [], [];
      EmptyList();
    }

    method ClearLogs()
      requires Valid()
      modifies this
      ensures Valid() && View() == Set(old(View()), 0, Msgs([])) && logs == [] && cachedSize == old(cachedSize)
    {
      logs := [];
      EmptyList();
    }

    /** add_logs: a fresh element at the end of the list. */
    method AddLogs()
      requires Valid()
      modifies this
      ensures Valid() && |logs| == |old(logs)| + 1 && logs[..|old(logs)|] == old(logs) && fresh(logs[|old(logs)|])
      ensures Views(logs) == old(Views(logs)) + [Fresh(CARDS)] && unknownFields == old(unknownFields)
          && cachedSize == old(cachedSize)
    {
      hide ValidList, Views, Codec.AllForeign;
      logs := Append(logs);
    }

    // ------------------------------------------------------------------------------------- parsing

    /** ReadMessageNoVirtual(input, add_logs()): an element that fails to parse stays, partly filled. */
    method ParseField(input: CodedInputStream) returns (ok: bool)
      requires Valid() && input.Valid() && !input.legitimateEnd
      modifies this, input
      ensures Valid() && |logs| == |old(logs)| + 1 && logs[..|old(logs)|] == old(logs) && fresh(logs[|old(logs)|])
      ensures ok ==> input.Valid() && !input.legitimateEnd && input.limit == old(input.limit) && input.depth == old(input.depth)
      ensures ok ==> |input.Rest()| < |old(input.Rest())|
      ensures AfterTag(old(input.Environment()), BAINIU_PLAY_LOG_REP, 1, LENGTH_DELIMITED, old(input.Rest()), old(View()))
           == if ok then Parse(old(input.Environment()), BAINIU_PLAY_LOG_REP, input.Rest(), View()) else Fail(View())
    {
      hide Codec.Valid, ValidList, Views, Codec.Parse, Codec.AfterTag, Codec.Fresh, Codec.AllForeign;
      ghost var m, had := View(), Views(logs);
      AddLogs();
      ok := ReadLast(input, logs, BAINIU_PLAY_LOG_REP, 1, m);
      ghost var x := Views(logs)[|logs| - 1];
      assert Views(logs) == had + [x];
      assert View() == AddMsg(m, 0, x);
    }

    method ExpectNext(input: CodedInputStream) returns (next: nat)
      requires input.Valid() && !input.legitimateEnd
      modifies input`pos, input`legitimateEnd
      ensures input.Valid() && Followed(BAINIU_PLAY_LOG_REP, next, old(input.Rest()), input.Rest(), input.legitimateEnd)
    {
      next := Jump(10, 1, input, BAINIU_PLAY_LOG_REP);
      if next == 0 {
        next := End(input, BAINIU_PLAY_LOG_REP);
      }
    }

    /** Adds records at the end of the unknown fields. */
    method AddUnknownFields(rs: seq<Record>)
      requires Valid() && AllForeign(BAINIU_PLAY_LOG_REP, rs)
      modifies this
      ensures Valid() && View() == AddUnknowns(old(View()), rs) && logs == old(logs) && cachedSize == old(cachedSize)
    {
      hide ValidList, Views;
      unknownFields := unknownFields + rs;
    }

    /** The end of the enclosing group ends the loop; anything else is kept, as far as it can be read. */
    method HandleUninterpreted(num: nat, wt: nat, input: CodedInputStream) returns (ok: bool, ended: bool)
      requires Valid() && input.Valid() && wt < 8 && 0 < 8 * num + wt < TWO_32 && !Accepts(BAINIU_PLAY_LOG_REP, num, wt)
      modifies this, input`pos
      ensures Valid() && input.Valid() && (ok && !ended ==> |input.Rest()| <= |old(input.Rest())|) && logs == old(logs)
      ensures AfterTag(input.Environment(), BAINIU_PLAY_LOG_REP, num, wt, old(input.Rest()), old(View()))
           == if !ok then Fail(View())
              else if ended then Done(View(), input.Rest(), EndGroupTag)
              else Parse(input.Environment(), BAINIU_PLAY_LOG_REP, input.Rest(), View())
    {
      hide Codec.Valid, Codec.Accepts, Codec.Parse, Codec.AfterTag, MsgBainiuPlayLogRep.Valid,
          MsgBainiuPlayLogRep.View, ValidList, Views, Codec.Shaped;
      if wt == END_GROUP {
        EndGroupAfterTag(input.Environment(), BAINIU_PLAY_LOG_REP, num, input.Rest(), View());
        return true, true;
      }
      ended := false;
      var kept;
      ok, kept := ReadUnknown(input, num, wt, BAINIU_PLAY_LOG_REP, View());
      AddUnknownFields(kept);
    }

    /**
      The tag loop with its jumps: `jumped` holds when the tag of field `num` was matched by
      ExpectTag and the loop continues at that field's label. Whatever ExpectTag and ExpectAtEnd
      answer, the outcome is that of the loop without them.
     */
    method MergePartialFromCodedStream(input: CodedInputStream) returns (ok: bool)
      requires Valid() && input.Valid() && !input.legitimateEnd
      modifies this, input
      ensures Valid()
      ensures forall i :: 0 <= i < |logs| ==> logs[i] in old(logs) || fresh(logs[i])
      ensures ParsedAs(Parse(old(input.Environment()), BAINIU_PLAY_LOG_REP, old(input.Rest()), old(View())), ok,
          View(), input)
      ensures ok ==> input.limit == old(input.limit) && input.depth == old(input.depth)
    {
      hide MsgBainiuPlayLogRep.Valid, MsgBainiuPlayLogRep.View, ValidList, Views, Codec.Shaped, Codec.Valid,
          Codec.Parse, Codec.AfterTag, Codec.Accepts, Codec.OneByteTags, Generated.Followed,
        Wire.ReadTag, CodedInputStream.Rest;
      ghost var env, o := input.Environment(), Parse(input.Environment(), BAINIU_PLAY_LOG_REP, input.Rest(), View());
      var num, wt, jumped := 0, 0, false;
      while true
        invariant Valid() && input.Valid() && !input.legitimateEnd && wt < 8
        invariant input.limit == old(input.limit) && input.depth == old(input.depth)
        invariant forall i :: 0 <= i < |logs| ==> logs[i] in old(logs) || fresh(logs[i])
        invariant jumped ==> Accepts(BAINIU_PLAY_LOG_REP, num, wt)
        invariant o == if jumped then AfterTag(env, BAINIU_PLAY_LOG_REP, num, wt, input.Rest(), View())
                       else Parse(env, BAINIU_PLAY_LOG_REP, input.Rest(), View())
        decreases |input.Rest()|
      {
        if !jumped {
          ParseReadsTag(env, BAINIU_PLAY_LOG_REP, input.Rest(), View());
          var tag := input.ReadTag();
          if tag == 0 {
            return true;
          }
          num, wt := tag / 8, tag % 8;
        }
        jumped := false;
        ReplyAccepts(num, wt);
        if num == 1 && wt == LENGTH_DELIMITED {
          ok := ParseField(input);
          if !ok {
            return;
          }
          ghost var at := input.Rest();
          var next := ExpectNext(input);
          TagsAreOneByte();
          FollowedMeans(env, BAINIU_PLAY_LOG_REP, next, at, input.Rest(), input.legitimateEnd, View());
          if next == AT_END {
            return true;
          } else if next != 0 {
            num, wt, jumped := next, WireTypeOf(BAINIU_PLAY_LOG_REP.fields[next - 1]), true;
          }
        } else {
          var ended;
          ok, ended := HandleUninterpreted(num, wt, input);
          if !ok || ended {
            return;
          }
        }
      }
    }

    // --------------------------------------------------------------------------------- serializing

    /** First phase, bottom-up: each element is left with its own size cached. */
    method ByteSize() returns (size: nat)
      requires Valid()
      modifies this`cachedSize, logs`cachedSize
      ensures Valid() && View() == old(View()) && SizesAreCurrent(logs) && Codec.Valid(BAINIU_PLAY_LOG_REP, View())
      ensures size == Sizes.ByteSize(BAINIU_PLAY_LOG_REP, View()) && cachedSize == size
    {
      hide Codec.Valid, ValidList, Views, Sizes.ByteSize, Sizes.MsgsSize, Codec.AllForeign, SizesAreCurrent;
      ReplySize(View());
      size := SizeAll(logs);
      size := size + UnknownSize(unknownFields);
      cachedSize := size;
    }

    /** Second phase: with the cached sizes current, exactly the serialized bytes are written. */
    method SerializeWithCachedSizesToArray(buf: array<Byte>, at: nat) returns (end: nat)
      requires Valid() && SizesAreCurrent(logs) && Codec.Valid(BAINIU_PLAY_LOG_REP, View())
      requires Sizes.ByteSize(BAINIU_PLAY_LOG_REP, View()) < TWO_31
          && at + Sizes.ByteSize(BAINIU_PLAY_LOG_REP, View()) <= buf.Length
      modifies buf
      ensures end == at + Sizes.ByteSize(BAINIU_PLAY_LOG_REP, View())
      ensures buf[..end] == old(buf[..at]) + Serialize(BAINIU_PLAY_LOG_REP, View())
      ensures buf[end..] == old(buf[..])[end..]
    {
      hide Codec.Valid, ValidList, Views, Codec.Serialize, Sizes.ByteSize, Sizes.MsgsSize, SizesAreCurrent,
          Generated.HasWritten, Codec.AllForeign;
      ghost var was, m := buf[..], View();
      ReplySize(m);
      TagsAreOneByte();
      ByteSizeIsExact(BAINIU_PLAY_LOG_REP, m);
      NothingWritten(buf, was, at, BAINIU_PLAY_LOG_REP, m);
      end := WriteAll(1, logs, buf, at, was, at, BAINIU_PLAY_LOG_REP, m);
      end := WriteUnknown(unknownFields, buf, end, was, at, BAINIU_PLAY_LOG_REP, m);
    }

    // --------------------------------------------------------------------------- from and to arrays

    /** MessageLite::SerializeToArray: both phases, if the bytes fit. */
    method SerializeToArray(buf: array<Byte>, size: nat) returns (ok: bool)
      requires Valid() && size <= buf.Length && size < TWO_31
      modifies this`cachedSize, logs`cachedSize, buf
      ensures Valid() && View() == old(View())
      ensures ok <==> Sizes.ByteSize(BAINIU_PLAY_LOG_REP, View()) <= size
      ensures ok ==> |Serialize(BAINIU_PLAY_LOG_REP, View())| == Sizes.ByteSize(BAINIU_PLAY_LOG_REP, View())
      ensures ok ==> buf[..] == Serialize(BAINIU_PLAY_LOG_REP, View()) + old(buf[..])[Sizes.ByteSize(BAINIU_PLAY_LOG_REP, View())..]
      ensures !ok ==> buf[..] == old(buf[..])
    {
      hide *;
      var n := ByteSize();
      ok := n <= size;
      if ok {
        TagsAreOneByte();
        ByteSizeIsExact(BAINIU_PLAY_LOG_REP, View());
        ghost var was := buf[..];
        var end := SerializeWithCachedSizesToArray(buf, 0);
        assert was[..0] + Serialize(BAINIU_PLAY_LOG_REP, View()) == Serialize(BAINIU_PLAY_LOG_REP, View());
        assert buf[..] == buf[..end] + buf[end..];
      }
    }

    /** MessageLite::ParseFromArray: the whole input must be one message. */
    method ParseFromArray(bytes: seq<Byte>, depth: nat, clamp: bool) returns (ok: bool)
      requires Valid()
      modifies this
      ensures Valid() && forall i :: 0 <= i < |logs| ==> fresh(logs[i])
      ensures View() == Parse(Env(depth, clamp), BAINIU_PLAY_LOG_REP, bytes, Fresh(BAINIU_PLAY_LOG_REP)).m
      ensures ok == Parse(Env(depth, clamp), BAINIU_PLAY_LOG_REP, bytes, Fresh(BAINIU_PLAY_LOG_REP)).Complete()
    {
      hide MsgBainiuPlayLogRep.Valid, MsgBainiuPlayLogRep.View, ValidList, Views, Codec.Valid, Codec.Parse,
          Codec.Fresh, CodedInputStream.Rest;
      Clear();
      var input := new CodedInputStream(bytes, depth, clamp);
      ok := MergePartialFromCodedStream(input);
      ok := ok && input.legitimateEnd;
    }

    // ------------------------------------------------------------------------------------- merging

    /** Appends a copy of each element, and the unknown records. */
    method MergeFrom(from: MsgBainiuPlayLogRep)
      requires Valid() && from.Valid() && from != this
      modifies this
      ensures Valid()
      ensures View() == Merge(BAINIU_PLAY_LOG_REP, old(View()), from.View()) && cachedSize == old(cachedSize)
      ensures forall i :: 0 <= i < |logs| ==> logs[i] in old(logs) || fresh(logs[i])
    {
      hide Codec.Valid, ValidList, Views;
      logs := MergeList(logs, from.logs);
      unknownFields := unknownFields + from.unknownFields;
      assert Merge(BAINIU_PLAY_LOG_REP, old(View()), from.View()).vals == View().vals;
    }

    method CopyFrom(from: MsgBainiuPlayLogRep)
      requires Valid() && from.Valid()
      modifies this
      ensures Valid() && View() == old(from.View()) && cachedSize == old(cachedSize)
      ensures from != this ==> forall i :: 0 <= i < |logs| ==> fresh(logs[i])
    {
      hide MsgBainiuPlayLogRep.Valid, ValidList, Views, Codec.Valid;
      if from == this {
        return;
      }
      Clear();
      MergeFrom(from);
      CopyIsExactlyForDefaults(BAINIU_PLAY_LOG_REP, from.View());
    }

    method Swap(other: MsgBainiuPlayLogRep)
      requires Valid() && other.Valid()
      modifies this, other
      ensures Valid() && other.Valid()
      ensures View() == old(other.View()) && other.View() == old(View())
      ensures logs == old(other.logs) && other.logs == old(logs)
      ensures cachedSize == old(other.cachedSize) && other.cachedSize == old(cachedSize)
    {
      hide Views, Codec.AllForeign, ValidList;
      if other != this {
        logs, other.logs := other.logs, logs;
        unknownFields, other.unknownFields := other.unknownFields, unknownFields;
        cachedSize, other.cachedSize := other.cachedSize, cachedSize;
      }
    }
  }

  /**
    One object into bytes and the bytes into another: it comes back equal exactly when the recursion limit
    allows its nesting.
   */
  method ThereAndBack(msg: MsgBainiuPlayLogRep, depth: nat, clamp: bool) returns (back: MsgBainiuPlayLogRep, ok: bool)
    requires msg.Valid() && Sizes.ByteSize(BAINIU_PLAY_LOG_REP, msg.View()) < TWO_31
    modifies msg`cachedSize, msg.logs`cachedSize
    ensures msg.Valid() && msg.View() == old(msg.View()) && back.Valid() && fresh(back)
    ensures ok <==> Fits(BAINIU_PLAY_LOG_REP, msg.View(), depth)
    ensures ok ==> back.View() == msg.View()
  {
    hide MsgBainiuPlayLogRep.Valid, MsgBainiuPlayLogRep.View, ValidList, Views, Codec.Valid, Codec.Parse,
        Codec.Fresh, Codec.Serialize, Codec.Fits, Sizes.ByteSize, OneByteTags;
    TagsAreOneByte();
    var n := msg.ByteSize();
    var buf := new Byte[n];
    ok := msg.SerializeToArray(buf, n);
    assert buf[..] == Serialize(BAINIU_PLAY_LOG_REP, msg.View());
    RoundTripExactlyWhenItFits(Env(depth, clamp), BAINIU_PLAY_LOG_REP, msg.View());
    back := new MsgBainiuPlayLogRep();
    ok := back.ParseFromArray(buf[..], depth, clamp);
  }

  lemma ReplyAccepts(num: nat, wt: nat)
    ensures Accepts(BAINIU_PLAY_LOG_REP, num, wt) <==> num == 1 && wt == LENGTH_DELIMITED
  {
  }

  lemma ReplySize(m: Msg)
    requires Codec.Valid(BAINIU_PLAY_LOG_REP, m)
    ensures AllStorable(m.unknown) && m.vals[0].Msgs? && forall j :: 0 <= j < |m.vals[0].ms| ==> Codec.Valid(CARDS, m.vals[0].ms[j])
    ensures Sizes.ByteSize(BAINIU_PLAY_LOG_REP, m) == |m.vals[0].ms| + MsgsSize(CARDS, m.vals[0].ms)
        + UnknownSize(m.unknown)
  {
    var order: seq<nat> := [0];
    var t := Totals(BAINIU_PLAY_LOG_REP, m, order);
    assert order[0] == 0;
    MessagesSizeAt(BAINIU_PLAY_LOG_REP, m, 0, CARDS, m.vals[0].ms);
  }
}
