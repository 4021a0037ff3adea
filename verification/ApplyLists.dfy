/**
  msg_baccarat_apply_list: two lists of numbers of different widths, written one by one and read one by one
  or packed. What its bytes are, and that they come back, is stated with the bytes themselves at the end.
 */
module ApplyLists {
  import opened Varint
  import opened Wire
  import opened Codec
  import opened Invariants
  import opened Merging
  import opened Stream
  import opened Sizes
  import opened WireFormatLite
  import opened Generated
  import opened Tables

  class MsgBaccaratApplyList {
    var playerIds: seq<int>
    var applyScore: seq<int>
    var unknownFields: seq<Record>
    var cachedSize: nat

    ghost function View(): (m: Msg)
      reads this
      ensures Shaped(APPLY_LIST, m)
    {
      Msg([Ints(playerIds), Ints(applyScore)], unknownFields)
    }

    ghost predicate Valid()
      reads this
      ensures Valid() ==> Codec.Valid(APPLY_LIST, View())
    {
      AllInRange(UInt32, playerIds) && AllInRange(Int64, applyScore) && AllForeign(APPLY_LIST, unknownFields)
    }

    constructor ()
      ensures Valid() && View() == Fresh(APPLY_LIST)
    {
      playerIds, applyScore, unknownFields, cachedSize := [], [], [], 0;
    }

    method AddPlayerIds(xs: seq<int>)
      requires Valid() && AllInRange(UInt32, xs)
      modifies this
      ensures Valid() && View() == AddInts(old(View()), 0, xs) && cachedSize == old(cachedSize)
    {
      playerIds := playerIds + xs;
    }

    method AddApplyScore(xs: seq<int>)
      requires Valid() && AllInRange(Int64, xs)
      modifies this
      ensures Valid() && View() == AddInts(old(View()), 1, xs) && cachedSize == old(cachedSize)
    {
      applyScore := applyScore + xs;
    }

    method SetPlayerIds(j: nat, x: int)
      requires Valid() && j < |playerIds| && InRange(UInt32, x)
      modifies this
      ensures Valid() && View() == Set(old(View()), 0, Ints(old(playerIds)[j := x])) && cachedSize == old(cachedSize)
    {
      playerIds := playerIds[j := x];
    }

    method SetApplyScore(j: nat, x: int)
      requires Valid() && j < |applyScore| && InRange(Int64, x)
      modifies this
      ensures Valid() && View() == Set(old(View()), 1, Ints(old(applyScore)[j := x])) && cachedSize == old(cachedSize)
    {
      applyScore := applyScore[j := x];
    }

    method ClearPlayerIds()
      requires Valid()
      modifies this
      ensures Valid() && View() == Set(old(View()), 0, Ints([])) && cachedSize == old(cachedSize)
    {
      playerIds := [];
    }

    method ClearApplyScore()
      requires Valid()
      modifies this
      ensures Valid() && View() == Set(old(View()), 1, Ints([])) && cachedSize == old(cachedSize)
    {
      applyScore := [];
    }

    method Clear()
      requires Valid()
      modifies this
      ensures Valid() && View() == Fresh(APPLY_LIST) && cachedSize == old(cachedSize)
    {
      playerIds, applyScore, unknownFields := [], [], [];
    }

    // ------------------------------------------------------------------------------------- parsing

    /** The switch: each case reads one element or a packed list into its own list. */
    method ParseField(num: nat, wt: nat, input: CodedInputStream) returns (ok: bool)
      requires Valid() && input.Valid() && !input.legitimateEnd
      requires (num == 1 || num == 2) && (wt == VARINT || wt == LENGTH_DELIMITED)
      modifies this, input`pos, input`limit, input`legitimateEnd
      ensures Valid() && input.Valid() && !input.legitimateEnd
      ensures ok ==> |input.Rest()| < |old(input.Rest())| && input.limit == old(input.limit)
      ensures AfterTag(input.Environment(), APPLY_LIST, num, wt, old(input.Rest()), old(View()))
           == if ok then Parse(input.Environment(), APPLY_LIST, input.Rest(), View()) else Fail(View())
    {
      hide Codec.Valid, Codec.Parse, Codec.AfterTag, CodedInputStream.Rest;
      var xs;
      if num == 1 {
        if wt == VARINT {
          ok, xs := ReadRepeatedPrimitive(input, UInt32, 8, APPLY_LIST, 1, View());
        } else {
          ok, xs := ReadPackedPrimitive(input, UInt32, APPLY_LIST, 1, View());
        }
        AddPlayerIds(xs);
      } else {
        if wt == VARINT {
          ok, xs := ReadRepeatedPrimitive(input, Int64, 16, APPLY_LIST, 2, View());
        } else {
          ok, xs := ReadPackedPrimitive(input, Int64, APPLY_LIST, 2, View());
        }
        AddApplyScore(xs);
      }
    }

    /** The ExpectTag calls of each case: the list itself again, then the next, or the end after the last. */
    method ExpectNext(num: nat, input: CodedInputStream) returns (next: nat)
      requires input.Valid() && !input.legitimateEnd && (num == 1 || num == 2)
      modifies input`pos, input`legitimateEnd
      ensures input.Valid() && Followed(APPLY_LIST, next, old(input.Rest()), input.Rest(), input.legitimateEnd)
    {
      hide CodedInputStream.Rest;
      next := 0;
      if num == 1 {
        next := Jump(8, 1, input, APPLY_LIST);
      }
      if next == 0 {
        next := Jump(16, 2, input, APPLY_LIST);
      }
      if next == 0 && num == 2 {
        next := End(input, APPLY_LIST);
      }
    }

    /** Adds records at the end of the unknown fields. */
    method AddUnknownFields(rs: seq<Record>)
      requires Valid() && AllForeign(APPLY_LIST, rs)
      modifies this
      ensures Valid() && View() == AddUnknowns(old(View()), rs) && cachedSize == old(cachedSize)
    {
      unknownFields := unknownFields + rs;
    }

    /** The end of the enclosing group ends the loop; anything else is kept, as far as it can be read. */
    method HandleUninterpreted(num: nat, wt: nat, input: CodedInputStream) returns (ok: bool, ended: bool)
      requires Valid() && input.Valid() && wt < 8 && 0 < 8 * num + wt < TWO_32 && !Accepts(APPLY_LIST, num, wt)
      modifies this, input`pos
      ensures Valid() && input.Valid() && (ok && !ended ==> |input.Rest()| <= |old(input.Rest())|)
      ensures AfterTag(input.Environment(), APPLY_LIST, num, wt, old(input.Rest()), old(View()))
           == if !ok then Fail(View())
              else if ended then Done(View(), input.Rest(), EndGroupTag)
              else Parse(input.Environment(), APPLY_LIST, input.Rest(), View())
    {
      hide Codec.Valid, Codec.Accepts, Codec.Parse, Codec.AfterTag, MsgBaccaratApplyList.Valid, MsgBaccaratApplyList.View;
      if wt == END_GROUP {
        EndGroupAfterTag(input.Environment(), APPLY_LIST, num, input.Rest(), View());
        return true, true;
      }
      ended := false;
      var kept;
      ok, kept := ReadUnknown(input, num, wt, APPLY_LIST, View());
      AddUnknownFields(kept);
    }

    /**
      The tag loop with its jumps: `jumped` holds when the tag of field `num` was matched by
      ExpectTag and the loop continues at that field's label. Whatever ExpectTag and ExpectAtEnd
      answer, the outcome is that of the loop without them.
     */
    method MergePartialFromCodedStream(input: CodedInputStream) returns (ok: bool)
      requires Valid() && input.Valid() && !input.legitimateEnd
      modifies this, input
      ensures Valid()
      ensures ParsedAs(Parse(old(input.Environment()), APPLY_LIST, old(input.Rest()), old(View())), ok, View(), input)
      ensures ok ==> input.limit == old(input.limit) && input.depth == old(input.depth)
    {
      hide MsgBaccaratApplyList.Valid, MsgBaccaratApplyList.View, Codec.Valid, Codec.Parse, Codec.AfterTag, Codec.Accepts,
        Generated.Followed, Wire.ReadTag, CodedInputStream.Rest;
      ghost var env, o := input.Environment(), Parse(input.Environment(), APPLY_LIST, input.Rest(), View());
      var num, wt, jumped := 0, 0, false;
      while true
        invariant Valid() && input.Valid() && !input.legitimateEnd && wt < 8
        invariant input.limit == old(input.limit) && input.depth == old(input.depth)
        invariant jumped ==> Accepts(APPLY_LIST, num, wt)
        invariant o == if jumped then AfterTag(env, APPLY_LIST, num, wt, input.Rest(), View())
                       else Parse(env, APPLY_LIST, input.Rest(), View())
        decreases |input.Rest()|
      {
        if !jumped {
          ParseReadsTag(env, APPLY_LIST, input.Rest(), View());
          var tag := input.ReadTag();
          if tag == 0 {
            return true;
          }
          num, wt := tag / 8, tag % 8;
        }
        jumped := false;
        ApplyListAccepts(num, wt);
        if (num == 1 || num == 2) && (wt == VARINT || wt == LENGTH_DELIMITED) {
          ok := ParseField(num, wt, input);
          if !ok {
            return;
          }
          ghost var at := input.Rest();
          var next := ExpectNext(num, input);
          TagsAreOneByte();
          FollowedMeans(env, APPLY_LIST, next, at, input.Rest(), input.legitimateEnd, View());
          if next == AT_END {
            return true;
          } else if next != 0 {
            num, wt, jumped := next, WireTypeOf(APPLY_LIST.fields[next - 1]), true;
          }
        } else {
          var ended;
          ok, ended := HandleUninterpreted(num, wt, input);
          if !ok || ended {
            return;
          }
        }
      }
    }

    /** MessageLite::ParseFromArray: the whole input must be one message. */
    method ParseFromArray(bytes: seq<Byte>, depth: nat, clamp: bool) returns (ok: bool)
      requires Valid()
      modifies this
      ensures Valid() && View() == Parse(Env(depth, clamp), APPLY_LIST, bytes, Fresh(APPLY_LIST)).m
      ensures ok == Parse(Env(depth, clamp), APPLY_LIST, bytes, Fresh(APPLY_LIST)).Complete()
    {
      hide MsgBaccaratApplyList.Valid, MsgBaccaratApplyList.View, Codec.Valid, Codec.Parse, Codec.Fresh,
          CodedInputStream.Rest;
      Clear();
      var input := new CodedInputStream(bytes, depth, clamp);
      ok := MergePartialFromCodedStream(input);
      ok := ok && input.legitimateEnd;
    }

    // --------------------------------------------------------------------------------- serializing

    method ByteSize() returns (size: nat)
      requires Valid()
      modifies this`cachedSize
      ensures Valid() && View() == old(View()) && Codec.Valid(APPLY_LIST, View())
      ensures size == Sizes.ByteSize(APPLY_LIST, View()) && cachedSize == size
    {
      ApplyListSize(View());
      size := ListSize(UInt32, playerIds);
      var more := ListSize(Int64, applyScore);
      size := size + more;
      size := size + UnknownSize(unknownFields);
      cachedSize := size;
    }

    method SerializeWithCachedSizesToArray(buf: array<Byte>, at: nat) returns (end: nat)
      requires Valid() && Codec.Valid(APPLY_LIST, View()) && at + |Serialize(APPLY_LIST, View())| <= buf.Length
      modifies buf
      ensures end == at + |Serialize(APPLY_LIST, View())|
      ensures buf[..end] == old(buf[..at]) + Serialize(APPLY_LIST, View())
      ensures buf[end..] == old(buf[..])[end..]
    {
      hide Codec.Valid, Codec.Serialize, Generated.HasWritten;
      ghost var was, m := buf[..], View();
      NothingWritten(buf, was, at, APPLY_LIST, m);
      end := WriteList(1, UInt32, playerIds, buf, at, was, at, APPLY_LIST, m);
      end := WriteList(2, Int64, applyScore, buf, end, was, at, APPLY_LIST, m);
      end := WriteUnknown(unknownFields, buf, end, was, at, APPLY_LIST, m);
    }

    // ------------------------------------------------------------------------------------- merging

    method MergeFrom(from: MsgBaccaratApplyList)
      requires Valid() && from.Valid() && from != this
      modifies this
      ensures Valid() && View() == Merge(APPLY_LIST, old(View()), from.View()) && cachedSize == old(cachedSize)
    {
      playerIds := playerIds + from.playerIds;
      applyScore := applyScore + from.applyScore;
      unknownFields := unknownFields + from.unknownFields;
      assert View().vals == Merge(APPLY_LIST, old(View()), from.View()).vals;
    }

    method CopyFrom(from: MsgBaccaratApplyList)
      requires Valid() && from.Valid()
      modifies this
      ensures Valid() && View() == old(from.View()) && cachedSize == old(cachedSize)
    {
      if from == this {
        return;
      }
      Clear();
      MergeFrom(from);
      CopyIsExactlyForDefaults(APPLY_LIST, from.View());
    }

    method Swap(other: MsgBaccaratApplyList)
      requires Valid() && other.Valid()
      modifies this, other
      ensures Valid() && other.Valid()
      ensures View() == old(other.View()) && other.View() == old(View())
      ensures cachedSize == old(other.cachedSize) && other.cachedSize == old(cachedSize)
    {
      if other != this {
        playerIds, other.playerIds := other.playerIds, playerIds;
        applyScore, other.applyScore := other.applyScore, applyScore;
        unknownFields, other.unknownFields := other.unknownFields, unknownFields;
        cachedSize, other.cachedSize := other.cachedSize, cachedSize;
      }
    }
  }

  /** Each edit of a run is the method of the class. */
  method EditApplyList(msg: MsgBaccaratApplyList, e: Edit)
    requires msg.Valid() && Enabled(APPLY_LIST, e, msg.View())
    modifies msg
    ensures msg.Valid() && msg.View() == ApplyEdit(APPLY_LIST, e, old(msg.View()))
  {
    hide Codec.Valid, Codec.Parse, CodedInputStream.Rest;
    match e
    case AddInt(i, x) =>
      if i == 0 { msg.AddPlayerIds([x]); } else { msg.AddApplyScore([x]); }
    case SetInt(i, j, x) =>
      if i == 0 { msg.SetPlayerIds(j, x); } else { msg.SetApplyScore(j, x); }
    case ClearList(i) =>
      if i == 0 { msg.ClearPlayerIds(); } else { msg.ClearApplyScore(); }
    case ClearAll => msg.Clear();
    case ParseInto(env, bs) =>
      var input := new CodedInputStream(bs, env.depth, env.clamp);
      var ok := msg.MergePartialFromCodedStream(input);
    case SetScalar(_, _) => assert false;
    case ClearScalar(_) => assert false;
    case AddNested(_) => assert false;
  }

  lemma ApplyListAccepts(num: nat, wt: nat)
    ensures Accepts(APPLY_LIST, num, wt) <==> (num == 1 || num == 2) && (wt == VARINT || wt == LENGTH_DELIMITED)
  {
  }

  lemma ApplyListSize(m: Msg)
    requires Codec.Valid(APPLY_LIST, m) && m.vals[0].Ints? && m.vals[1].Ints?
    ensures AllStorable(m.unknown) && AllInRange(UInt32, m.vals[0].xs) && AllInRange(Int64, m.vals[1].xs)
    ensures Sizes.ByteSize(APPLY_LIST, m) == FieldSize(Repeated(UInt32), m.vals[0])
        + FieldSize(Repeated(Int64), m.vals[1])
        + UnknownSize(m.unknown)
  {
    var order: seq<nat> := [0, 1];
    var t := Totals(APPLY_LIST, m, order);
    assert order[0] == 0 && order[1] == 1;
    ListSizeAt(APPLY_LIST, m, 0, UInt32, m.vals[0].xs);
    ListSizeAt(APPLY_LIST, m, 1, Int64, m.vals[1].xs);
  }
}
