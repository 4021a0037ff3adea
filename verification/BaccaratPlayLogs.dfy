/** baccarat_play_log: seven optional numbers under one mask group, and the reply that lists them. */
module BaccaratPlayLogs {
  import opened Varint
  import opened Wire
  import opened Codec
  import opened RoundTrip
  import opened Invariants
  import opened Merging
  import opened Stream
  import opened Sizes
  import opened WireFormatLite
  import opened Generated
  import opened PresenceBits
  import opened Tables

  class BaccaratPlayLog {
    var playerPair: int
    var bankerPair: int
    var playerCount: int
    var bankerCount: int
    var isSmall: int
    var isSuperSix: int
    var index: int
    var hasBits: bv32
    var unknownFields: seq<Record>
    var cachedSize: nat

    // The message the fields make up.
    ghost var view: Msg

    ghost predicate Tied()
      reads `view, `hasBits, `unknownFields, `playerPair, `bankerPair, `playerCount, `bankerCount, `isSmall,
          `isSuperSix, `index
    {
      && |view.vals| == 7 && view.unknown == unknownFields
      && view.vals[0] == Scalar(0 in BitsOf(hasBits), playerPair)
      && view.vals[1] == Scalar(1 in BitsOf(hasBits), bankerPair)
      && view.vals[2] == Scalar(2 in BitsOf(hasBits), playerCount)
      && view.vals[3] == Scalar(3 in BitsOf(hasBits), bankerCount)
      && view.vals[4] == Scalar(4 in BitsOf(hasBits), isSmall)
      && view.vals[5] == Scalar(5 in BitsOf(hasBits), isSuperSix)
      && view.vals[6] == Scalar(6 in BitsOf(hasBits), index)
    }

    /** The fields are tied to the view, and nothing hides behind a clear presence bit. */
    ghost predicate Valid()
      reads `view, `hasBits, `unknownFields, `playerPair, `bankerPair, `playerCount, `bankerCount, `isSmall,
          `isSuperSix, `index
      ensures Valid() ==> Shaped(PLAY_LOG, view) && Codec.Valid(PLAY_LOG, view)
    {
      Tied() && Codec.Valid(PLAY_LOG, view)
    }

    lemma IsFresh()
      requires view == Fresh(PLAY_LOG) && hasBits == 0 && unknownFields == []
      requires playerPair == 0 && bankerPair == 0 && playerCount == 0 && bankerCount == 0 && isSmall == 0
          && isSuperSix == 0 && index == 0
      ensures Valid()
    {
      hide Codec.Valid, BitsOf;
      NoBits();
      FreshIsValid(PLAY_LOG);
    }

    /** Only one scalar changed, and the view with it. */
    twostate lemma OneScalarChanged(i: nat)
      requires old(Valid()) && Codec.Valid(PLAY_LOG, view) && unknownFields == old(unknownFields)
      requires i < 7 && |view.vals| == |old(view).vals| == 7 && view == Set(old(view), i, view.vals[i])
      requires i == 0 ==> view.vals[i] == Scalar(0 in BitsOf(hasBits), playerPair)
      requires i != 0 ==> playerPair == old(playerPair) && (0 in BitsOf(hasBits) <==> 0 in BitsOf(old(hasBits)))
      requires i == 1 ==> view.vals[i] == Scalar(1 in BitsOf(hasBits), bankerPair)
      requires i != 1 ==> bankerPair == old(bankerPair) && (1 in BitsOf(hasBits) <==> 1 in BitsOf(old(hasBits)))
      requires i == 2 ==> view.vals[i] == Scalar(2 in BitsOf(hasBits), playerCount)
      requires i != 2 ==> playerCount == old(playerCount) && (2 in BitsOf(hasBits) <==> 2 in BitsOf(old(hasBits)))
      requires i == 3 ==> view.vals[i] == Scalar(3 in BitsOf(hasBits), bankerCount)
      requires i != 3 ==> bankerCount == old(bankerCount) && (3 in BitsOf(hasBits) <==> 3 in BitsOf(old(hasBits)))
      requires i == 4 ==> view.vals[i] == Scalar(4 in BitsOf(hasBits), isSmall)
      requires i != 4 ==> isSmall == old(isSmall) && (4 in BitsOf(hasBits) <==> 4 in BitsOf(old(hasBits)))
      requires i == 5 ==> view.vals[i] == Scalar(5 in BitsOf(hasBits), isSuperSix)
      requires i != 5 ==> isSuperSix == old(isSuperSix) && (5 in BitsOf(hasBits) <==> 5 in BitsOf(old(hasBits)))
      requires i == 6 ==> view.vals[i] == Scalar(6 in BitsOf(hasBits), index)
      requires i != 6 ==> index == old(index) && (6 in BitsOf(hasBits) <==> 6 in BitsOf(old(hasBits)))
      ensures Valid()
    {
      hide Codec.Valid, BitsOf, Tables.PLAY_LOG;
    }

    constructor ()
      ensures Valid() && view == Fresh(PLAY_LOG)
    {
      cachedSize := 0;
      playerPair := 0;
      bankerPair := 0;
      playerCount := 0;
      bankerCount := 0;
      isSmall := 0;
      isSuperSix := 0;
      index := 0;
      hasBits, unknownFields := 0, [];
      view := Fresh(PLAY_LOG);
      new;
      IsFresh();
    }

    lemma Facts()
      requires Valid()
      ensures |view.vals| == 7 && view.unknown == unknownFields && AllForeign(PLAY_LOG, unknownFields)
      ensures view.vals[0] == Scalar(HasPlayerPair(), playerPair) && InRange(UInt32, playerPair)
          && (HasPlayerPair() || playerPair == 0)
      ensures view.vals[1] == Scalar(HasBankerPair(), bankerPair) && InRange(UInt32, bankerPair)
          && (HasBankerPair() || bankerPair == 0)
      ensures view.vals[2] == Scalar(HasPlayerCount(), playerCount) && InRange(UInt32, playerCount)
          && (HasPlayerCount() || playerCount == 0)
      ensures view.vals[3] == Scalar(HasBankerCount(), bankerCount) && InRange(UInt32, bankerCount)
          && (HasBankerCount() || bankerCount == 0)
      ensures view.vals[4] == Scalar(HasIsSmall(), isSmall) && InRange(UInt32, isSmall) && (HasIsSmall() || isSmall == 0)
      ensures view.vals[5] == Scalar(HasIsSuperSix(), isSuperSix) && InRange(UInt32, isSuperSix)
          && (HasIsSuperSix() || isSuperSix == 0)
      ensures view.vals[6] == Scalar(HasIndex(), index) && InRange(UInt32, index) && (HasIndex() || index == 0)
    {
      DefaultBehindClearBit(PLAY_LOG, view, 0);
      DefaultBehindClearBit(PLAY_LOG, view, 1);
      DefaultBehindClearBit(PLAY_LOG, view, 2);
      DefaultBehindClearBit(PLAY_LOG, view, 3);
      DefaultBehindClearBit(PLAY_LOG, view, 4);
      DefaultBehindClearBit(PLAY_LOG, view, 5);
      DefaultBehindClearBit(PLAY_LOG, view, 6);
    }

    predicate HasPlayerPair()
      reads this
      ensures HasPlayerPair() <==> 0 in BitsOf(hasBits)
    {
      TestOfBit(hasBits, 0, 0x1);
      Test(hasBits, 0x1)
    }

    method SetPlayerPair(value: int)
      requires Valid() && InRange(UInt32, value)
      modifies this
      ensures Valid() && view == Set(old(view), 0, Scalar(true, value)) && cachedSize == old(cachedSize)
    {
      hide *;
      PlayLogTable();
      Masks();
      SetScalarIsValid(PLAY_LOG, view, 0, UInt32, true, value);
      SetOneBit(hasBits, 0, 0x1);
      hasBits, playerPair := SetBits(hasBits, 0x1), value;
      view := Set(view, 0, Scalar(true, value));
      OneScalarChanged(0);
    }

    method ClearPlayerPair()
      requires Valid()
      modifies this
      ensures Valid() && view == Set(old(view), 0, Scalar(false, 0)) && cachedSize == old(cachedSize)
    {
      hide *;
      PlayLogTable();
      Masks();
      SetScalarIsValid(PLAY_LOG, view, 0, UInt32, false, 0);
      ClearOneBit(hasBits, 0, 0x1);
      playerPair, hasBits := 0, ClearBits(hasBits, 0x1);
      view := Set(view, 0, Scalar(false, 0));
      OneScalarChanged(0);
    }

    predicate HasBankerPair()
      reads this
      ensures HasBankerPair() <==> 1 in BitsOf(hasBits)
    {
      TestOfBit(hasBits, 1, 0x2);
      Test(hasBits, 0x2)
    }

    method SetBankerPair(value: int)
      requires Valid() && InRange(UInt32, value)
      modifies this
      ensures Valid() && view == Set(old(view), 1, Scalar(true, value)) && cachedSize == old(cachedSize)
    {
      hide *;
      PlayLogTable();
      Masks();
      SetScalarIsValid(PLAY_LOG, view, 1, UInt32, true, value);
      SetOneBit(hasBits, 1, 0x2);
      hasBits, bankerPair := SetBits(hasBits, 0x2), value;
      view := Set(view, 1, Scalar(true, value));
      OneScalarChanged(1);
    }

    method ClearBankerPair()
      requires Valid()
      modifies this
      ensures Valid() && view == Set(old(view), 1, Scalar(false, 0)) && cachedSize == old(cachedSize)
    {
      hide *;
      PlayLogTable();
      Masks();
      SetScalarIsValid(PLAY_LOG, view, 1, UInt32, false, 0);
      ClearOneBit(hasBits, 1, 0x2);
      bankerPair, hasBits := 0, ClearBits(hasBits, 0x2);
      view := Set(view, 1, Scalar(false, 0));
      OneScalarChanged(1);
    }

    predicate HasPlayerCount()
      reads this
      ensures HasPlayerCount() <==> 2 in BitsOf(hasBits)
    {
      TestOfBit(hasBits, 2, 0x4);
      Test(hasBits, 0x4)
    }

    method SetPlayerCount(value: int)
      requires Valid() && InRange(UInt32, value)
      modifies this
      ensures Valid() && view == Set(old(view), 2, Scalar(true, value)) && cachedSize == old(cachedSize)
    {
      hide *;
      PlayLogTable();
      Masks();
      SetScalarIsValid(PLAY_LOG, view, 2, UInt32, true, value);
      SetOneBit(hasBits, 2, 0x4);
      hasBits, playerCount := SetBits(hasBits, 0x4), value;
      view := Set(view, 2, Scalar(true, value));
      OneScalarChanged(2);
    }

    method ClearPlayerCount()
      requires Valid()
      modifies this
      ensures Valid() && view == Set(old(view), 2, Scalar(false, 0)) && cachedSize == old(cachedSize)
    {
      hide *;
      PlayLogTable();
      Masks();
      SetScalarIsValid(PLAY_LOG, view, 2, UInt32, false, 0);
      ClearOneBit(hasBits, 2, 0x4);
      playerCount, hasBits := 0, ClearBits(hasBits, 0x4);
      view := Set(view, 2, Scalar(false, 0));
      OneScalarChanged(2);
    }

    predicate HasBankerCount()
      reads this
      ensures HasBankerCount() <==> 3 in BitsOf(hasBits)
    {
      TestOfBit(hasBits, 3, 0x8);
      Test(hasBits, 0x8)
    }

    method SetBankerCount(value: int)
      requires Valid() && InRange(UInt32, value)
      modifies this
      ensures Valid() && view == Set(old(view), 3, Scalar(true, value)) && cachedSize == old(cachedSize)
    {
      hide *;
      PlayLogTable();
      Masks();
      SetScalarIsValid(PLAY_LOG, view, 3, UInt32, true, value);
      SetOneBit(hasBits, 3, 0x8);
      hasBits, bankerCount := SetBits(hasBits, 0x8), value;
      view := Set(view, 3, Scalar(true, value));
      OneScalarChanged(3);
    }

    method ClearBankerCount()
      requires Valid()
      modifies this
      ensures Valid() && view == Set(old(view), 3, Scalar(false, 0)) && cachedSize == old(cachedSize)
    {
      hide *;
      PlayLogTable();
      Masks();
      SetScalarIsValid(PLAY_LOG, view, 3, UInt32, false, 0);
      ClearOneBit(hasBits, 3, 0x8);
      bankerCount, hasBits := 0, ClearBits(hasBits, 0x8);
      view := Set(view, 3, Scalar(false, 0));
      OneScalarChanged(3);
    }

    predicate HasIsSmall()
      reads this
      ensures HasIsSmall() <==> 4 in BitsOf(hasBits)
    {
      TestOfBit(hasBits, 4, 0x10);
      Test(hasBits, 0x10)
    }

    method SetIsSmall(value: int)
      requires Valid() && InRange(UInt32, value)
      modifies this
      ensures Valid() && view == Set(old(view), 4, Scalar(true, value)) && cachedSize == old(cachedSize)
    {
      hide *;
      PlayLogTable();
      Masks();
      SetScalarIsValid(PLAY_LOG, view, 4, UInt32, true, value);
      SetOneBit(hasBits, 4, 0x10);
      hasBits, isSmall := SetBits(hasBits, 0x10), value;
      view := Set(view, 4, Scalar(true, value));
      OneScalarChanged(4);
    }

    method ClearIsSmall()
      requires Valid()
      modifies this
      ensures Valid() && view == Set(old(view), 4, Scalar(false, 0)) && cachedSize == old(cachedSize)
    {
      hide *;
      PlayLogTable();
      Masks();
      SetScalarIsValid(PLAY_LOG, view, 4, UInt32, false, 0);
      ClearOneBit(hasBits, 4, 0x10);
      isSmall, hasBits := 0, ClearBits(hasBits, 0x10);
      view := Set(view, 4, Scalar(false, 0));
      OneScalarChanged(4);
    }

    predicate HasIsSuperSix()
      reads this
      ensures HasIsSuperSix() <==> 5 in BitsOf(hasBits)
    {
      TestOfBit(hasBits, 5, 0x20);
      Test(hasBits, 0x20)
    }

    method SetIsSuperSix(value: int)
      requires Valid() && InRange(UInt32, value)
      modifies this
      ensures Valid() && view == Set(old(view), 5, Scalar(true, value)) && cachedSize == old(cachedSize)
    {
      hide *;
      PlayLogTable();
      Masks();
      SetScalarIsValid(PLAY_LOG, view, 5, UInt32, true, value);
      SetOneBit(hasBits, 5, 0x20);
      hasBits, isSuperSix := SetBits(hasBits, 0x20), value;
      view := Set(view, 5, Scalar(true, value));
      OneScalarChanged(5);
    }

    method ClearIsSuperSix()
      requires Valid()
      modifies this
      ensures Valid() && view == Set(old(view), 5, Scalar(false, 0)) && cachedSize == old(cachedSize)
    {
      hide *;
      PlayLogTable();
      Masks();
      SetScalarIsValid(PLAY_LOG, view, 5, UInt32, false, 0);
      ClearOneBit(hasBits, 5, 0x20);
      isSuperSix, hasBits := 0, ClearBits(hasBits, 0x20);
      view := Set(view, 5, Scalar(false, 0));
      OneScalarChanged(5);
    }

    predicate HasIndex()
      reads this
      ensures HasIndex() <==> 6 in BitsOf(hasBits)
    {
      TestOfBit(hasBits, 6, 0x40);
      Test(hasBits, 0x40)
    }

    method SetIndex(value: int)
      requires Valid() && InRange(UInt32, value)
      modifies this
      ensures Valid() && view == Set(old(view), 6, Scalar(true, value)) && cachedSize == old(cachedSize)
    {
      hide *;
      PlayLogTable();
      Masks();
      SetScalarIsValid(PLAY_LOG, view, 6, UInt32, true, value);
      SetOneBit(hasBits, 6, 0x40);
      hasBits, index := SetBits(hasBits, 0x40), value;
      view := Set(view, 6, Scalar(true, value));
      OneScalarChanged(6);
    }

    method ClearIndex()
      requires Valid()
      modifies this
      ensures Valid() && view == Set(old(view), 6, Scalar(false, 0)) && cachedSize == old(cachedSize)
    {
      hide *;
      PlayLogTable();
      Masks();
      SetScalarIsValid(PLAY_LOG, view, 6, UInt32, false, 0);
      ClearOneBit(hasBits, 6, 0x40);
      index, hasBits := 0, ClearBits(hasBits, 0x40);
      view := Set(view, 6, Scalar(false, 0));
      OneScalarChanged(6);
    }

    /** Every scalar that the guard lets Clear skip already holds its default. */
    method Clear()
      requires Valid()
      modifies this
      ensures Valid() && view == Fresh(PLAY_LOG) && cachedSize == old(cachedSize)
    {
      hide *;
      Facts();
      if Test(hasBits, 0xFF << 0) {
        playerPair := 0;
        bankerPair := 0;
        playerCount := 0;
        bankerCount := 0;
        isSmall := 0;
        isSuperSix := 0;
        index := 0;
      } else {
        NoneBehindGuard();
      }
      hasBits, unknownFields := 0, [];
      view := Fresh(PLAY_LOG);
      IsFresh();
    }

    // ------------------------------------------------------------------------------------- parsing

    /** The switch: one field's payload, read into its field. */
    method ParseField(num: nat, wt: nat, input: CodedInputStream) returns (ok: bool)
      requires Valid() && input.Valid() && Accepts(PLAY_LOG, num, wt)
      modifies this, input`pos
      ensures Valid() && input.Valid() && (ok ==> |input.Rest()| < |old(input.Rest())|) && 1 <= num <= 7
      ensures AfterTag(input.Environment(), PLAY_LOG, num, wt, old(input.Rest()), old(view))
           == if ok then Parse(input.Environment(), PLAY_LOG, input.Rest(), view) else Fail(view)
    {
      var x;
      ok, x := ReadPrimitive(input, UInt32, PLAY_LOG, num, view);
      if !ok {
        return;
      }
      match num {
        case 1 => SetPlayerPair(x);
        case 2 => SetBankerPair(x);
        case 3 => SetPlayerCount(x);
        case 4 => SetBankerCount(x);
        case 5 => SetIsSmall(x);
        case 6 => SetIsSuperSix(x);
        case 7 => SetIndex(x);
      }
    }

    /** The ExpectTag at the end of each case: the next field's tag, or the end after the last. */
    method ExpectNext(num: nat, input: CodedInputStream) returns (next: nat)
      requires input.Valid() && !input.legitimateEnd && 1 <= num <= 7
      modifies input`pos, input`legitimateEnd
      ensures input.Valid() && Followed(PLAY_LOG, next, old(input.Rest()), input.Rest(), input.legitimateEnd)
    {
      var seen := false;
      next := 0;
      match num {
        case 1 => seen := input.ExpectTag(16); if seen { next := 2; }
        case 2 => seen := input.ExpectTag(24); if seen { next := 3; }
        case 3 => seen := input.ExpectTag(32); if seen { next := 4; }
        case 4 => seen := input.ExpectTag(40); if seen { next := 5; }
        case 5 => seen := input.ExpectTag(48); if seen { next := 6; }
        case 6 => seen := input.ExpectTag(56); if seen { next := 7; }
        case 7 => seen := input.ExpectAtEnd(); if seen { next := AT_END; }
      }
    }

    /** Adds records at the end of the unknown fields. */
    method AddUnknownFields(rs: seq<Record>)
      requires Valid() && AllForeign(PLAY_LOG, rs)
      modifies this
      ensures Valid() && view == AddUnknowns(old(view), rs) && cachedSize == old(cachedSize)
    {
      hide Codec.Valid, BitsOf, Tables.PLAY_LOG;
      AddUnknownsIsValid(PLAY_LOG, view, rs);
      unknownFields := unknownFields + rs;
      view := AddUnknowns(view, rs);
    }

    /** The end of the enclosing group ends the loop; anything else is kept, as far as it can be read. */
    method HandleUninterpreted(num: nat, wt: nat, input: CodedInputStream) returns (ok: bool, ended: bool)
      requires Valid() && input.Valid() && wt < 8 && 0 < 8 * num + wt < TWO_32 && !Accepts(PLAY_LOG, num, wt)
      modifies this, input`pos
      ensures Valid() && input.Valid() && (ok && !ended ==> |input.Rest()| <= |old(input.Rest())|)
      ensures AfterTag(input.Environment(), PLAY_LOG, num, wt, old(input.Rest()), old(view))
           == if !ok then Fail(view)
              else if ended then Done(view, input.Rest(), EndGroupTag)
              else Parse(input.Environment(), PLAY_LOG, input.Rest(), view)
    {
      hide Codec.Valid, Codec.Accepts, Codec.Parse, Codec.AfterTag, BaccaratPlayLog.Tied, BaccaratPlayLog.Valid;
      if wt == END_GROUP {
        EndGroupAfterTag(input.Environment(), PLAY_LOG, num, input.Rest(), view);
        return true, true;
      }
      ended := false;
      var kept;
      ok, kept := ReadUnknown(input, num, wt, PLAY_LOG, view);
      AddUnknownFields(kept);
    }

    /**
      The tag loop with its jumps: `jumped` holds when the tag of field `num` was matched by
      ExpectTag and the loop continues at that field's label. Whatever ExpectTag and ExpectAtEnd
      answer, the outcome is that of the loop without them.
     */
    method MergePartialFromCodedStream(input: CodedInputStream) returns (ok: bool)
      requires Valid() && input.Valid() && !input.legitimateEnd
      modifies this, input
      ensures Valid()
      ensures ParsedAs(Parse(old(input.Environment()), PLAY_LOG, old(input.Rest()), old(view)), ok, view, input)
      ensures ok ==> input.limit == old(input.limit) && input.depth == old(input.depth)
    {
      hide BaccaratPlayLog.Tied, Codec.Valid, Codec.Parse, Codec.AfterTag, Codec.Accepts, Codec.OneByteTags,
          Generated.Followed,
        Wire.ReadTag, CodedInputStream.Rest;
      ghost var env, o := input.Environment(), Parse(input.Environment(), PLAY_LOG, input.Rest(), view);
      var num, wt, jumped := 0, 0, false;
      while true
        invariant Valid() && input.Valid() && !input.legitimateEnd && wt < 8
        invariant input.limit == old(input.limit) && input.depth == old(input.depth)
        invariant jumped ==> Accepts(PLAY_LOG, num, wt)
        invariant o == if jumped then AfterTag(env, PLAY_LOG, num, wt, input.Rest(), view)
                       else Parse(env, PLAY_LOG, input.Rest(), view)
        decreases |input.Rest()|
      {
        if !jumped {
          ParseReadsTag(env, PLAY_LOG, input.Rest(), view);
          var tag := input.ReadTag();
          if tag == 0 {
            return true;
          }
          num, wt := tag / 8, tag % 8;
        }
        jumped := false;
        if Accepts(PLAY_LOG, num, wt) {
          ok := ParseField(num, wt, input);
          if !ok {
            return;
          }
          ghost var at := input.Rest();
          var next := ExpectNext(num, input);
          TagsAreOneByte();
          FollowedMeans(env, PLAY_LOG, next, at, input.Rest(), input.legitimateEnd, view);
          if next == AT_END {
            return true;
          } else if next != 0 {
            num, wt, jumped := next, WireTypeOf(PLAY_LOG.fields[next - 1]), true;
          }
        } else {
          var ended;
          ok, ended := HandleUninterpreted(num, wt, input);
          if !ok || ended {
            return;
          }
        }
      }
    }

    // --------------------------------------------------------------------------------- serializing

    /** The running totals of ByteSize, field by field. */
    lemma SizeSteps() returns (t: seq<nat>)
      requires Valid()
      ensures |t| == 8 && t[0] == 0
      ensures t[1] == t[0] + if HasPlayerPair() then 1 + KindSize(UInt32, playerPair) else 0
      ensures t[2] == t[1] + if HasBankerPair() then 1 + KindSize(UInt32, bankerPair) else 0
      ensures t[3] == t[2] + if HasPlayerCount() then 1 + KindSize(UInt32, playerCount) else 0
      ensures t[4] == t[3] + if HasBankerCount() then 1 + KindSize(UInt32, bankerCount) else 0
      ensures t[5] == t[4] + if HasIsSmall() then 1 + KindSize(UInt32, isSmall) else 0
      ensures t[6] == t[5] + if HasIsSuperSix() then 1 + KindSize(UInt32, isSuperSix) else 0
      ensures t[7] == t[6] + if HasIndex() then 1 + KindSize(UInt32, index) else 0
      ensures AllStorable(unknownFields) && Sizes.ByteSize(PLAY_LOG, view) == t[7] + UnknownSize(unknownFields)
    {
      hide Codec.Valid, BaccaratPlayLog.Tied, BaccaratPlayLog.Valid, Generated.SizeAt, Sizes.ByteSize, Codec.KindSize;
      Facts();
      var order: seq<nat> := [0, 1, 2, 3, 4, 5, 6];
      t := Totals(PLAY_LOG, view, order);
      assert order[0] == 0;
      OptionalSize(PLAY_LOG, view, 0, UInt32, HasPlayerPair(), playerPair);
      assert order[1] == 1;
      OptionalSize(PLAY_LOG, view, 1, UInt32, HasBankerPair(), bankerPair);
      assert order[2] == 2;
      OptionalSize(PLAY_LOG, view, 2, UInt32, HasPlayerCount(), playerCount);
      assert order[3] == 3;
      OptionalSize(PLAY_LOG, view, 3, UInt32, HasBankerCount(), bankerCount);
      assert order[4] == 4;
      OptionalSize(PLAY_LOG, view, 4, UInt32, HasIsSmall(), isSmall);
      assert order[5] == 5;
      OptionalSize(PLAY_LOG, view, 5, UInt32, HasIsSuperSix(), isSuperSix);
      assert order[6] == 6;
      OptionalSize(PLAY_LOG, view, 6, UInt32, HasIndex(), index);
    }

    lemma NoneBehindGuard()
      requires !Test(hasBits, 0xFF << 0)
      ensures !HasPlayerPair() && !HasBankerPair() && !HasPlayerCount() && !HasBankerCount() && !HasIsSmall()
          && !HasIsSuperSix() && !HasIndex()
    {
      GuardsTestTheirBits(hasBits);
    }

    /** Adds up the sizes of the present fields under the group guard, and caches the sum. */
    method ByteSize() returns (size: nat)
      requires Valid()
      modifies this`cachedSize
      ensures Valid() && size == Sizes.ByteSize(PLAY_LOG, view) && cachedSize == size
    {
      hide *;
      Facts();
      ghost var t := SizeSteps();
      size := 0;
      if Test(hasBits, 0xFF << 0) {
        if HasPlayerPair() { size := size + 1 + KindSize(UInt32, playerPair); }
        assert size == t[1];
        if HasBankerPair() { size := size + 1 + KindSize(UInt32, bankerPair); }
        assert size == t[2];
        if HasPlayerCount() { size := size + 1 + KindSize(UInt32, playerCount); }
        assert size == t[3];
        if HasBankerCount() { size := size + 1 + KindSize(UInt32, bankerCount); }
        assert size == t[4];
        if HasIsSmall() { size := size + 1 + KindSize(UInt32, isSmall); }
        assert size == t[5];
        if HasIsSuperSix() { size := size + 1 + KindSize(UInt32, isSuperSix); }
        assert size == t[6];
        if HasIndex() { size := size + 1 + KindSize(UInt32, index); }
        assert size == t[7];
      } else {
        NoneBehindGuard();
        assert t[1] == 0;
        assert t[2] == 0;
        assert t[3] == 0;
        assert t[4] == 0;
        assert t[5] == 0;
        assert t[6] == 0;
        assert t[7] == 0;
      }
      assert size == t[7];
      size := size + UnknownSize(unknownFields);
      cachedSize := size;
    }

    /** Writes the present fields in field order, then the unknown records. */
    method SerializeWithCachedSizesToArray(buf: array<Byte>, at: nat) returns (end: nat)
      requires Valid() && at + |Serialize(PLAY_LOG, view)| <= buf.Length
      modifies buf
      ensures end == at + |Serialize(PLAY_LOG, view)|
      ensures buf[..end] == old(buf[..at]) + Serialize(PLAY_LOG, view)
      ensures buf[end..] == old(buf[..])[end..]
    {
      hide *;
      ghost var was := buf[..];
      PlayLogTable();
      Facts();
      NothingWritten(buf, was, at, PLAY_LOG, view);
      end := at;
      end := WriteOptional(1, UInt32, HasPlayerPair(), playerPair, buf, end, was, at, PLAY_LOG, view);
      end := WriteOptional(2, UInt32, HasBankerPair(), bankerPair, buf, end, was, at, PLAY_LOG, view);
      end := WriteOptional(3, UInt32, HasPlayerCount(), playerCount, buf, end, was, at, PLAY_LOG, view);
      end := WriteOptional(4, UInt32, HasBankerCount(), bankerCount, buf, end, was, at, PLAY_LOG, view);
      end := WriteOptional(5, UInt32, HasIsSmall(), isSmall, buf, end, was, at, PLAY_LOG, view);
      end := WriteOptional(6, UInt32, HasIsSuperSix(), isSuperSix, buf, end, was, at, PLAY_LOG, view);
      end := WriteOptional(7, UInt32, HasIndex(), index, buf, end, was, at, PLAY_LOG, view);
      end := WriteUnknown(unknownFields, buf, end, was, at, PLAY_LOG, view);
    }

    // ------------------------------------------------------------------------------------- merging

    /** `if (from.has_f()) set_f(from.f());` */
    method MergeOptional(i: nat, from: BaccaratPlayLog, ghost a: Msg, ghost order: seq<nat>)
      requires Valid() && from.Valid() && from != this && i < 7 && Visits(PLAY_LOG, order) && |order| == 7
          && order[i] == i
      requires Shaped(PLAY_LOG, a) && view == MergedTo(PLAY_LOG, a, from.view, order, i)
      modifies this
      ensures Valid() && view == MergedTo(PLAY_LOG, a, from.view, order, i + 1) && cachedSize == old(cachedSize)
    {
      hide *;
      PlayLogTable();
      from.Facts();
      MergeStep(PLAY_LOG, a, from.view, order, i);
      match i {
        case 0 => if from.HasPlayerPair() { SetPlayerPair(from.playerPair); }
        case 1 => if from.HasBankerPair() { SetBankerPair(from.bankerPair); }
        case 2 => if from.HasPlayerCount() { SetPlayerCount(from.playerCount); }
        case 3 => if from.HasBankerCount() { SetBankerCount(from.bankerCount); }
        case 4 => if from.HasIsSmall() { SetIsSmall(from.isSmall); }
        case 5 => if from.HasIsSuperSix() { SetIsSuperSix(from.isSuperSix); }
        case 6 => if from.HasIndex() { SetIndex(from.index); }
      }
    }

    method MergeFrom(from: BaccaratPlayLog)
      requires Valid() && from.Valid() && from != this
      modifies this
      ensures Valid() && view == Merge(PLAY_LOG, old(view), from.view) && cachedSize == old(cachedSize)
    {
      hide *;
      ghost var a, b := view, from.view;
      from.Facts();
      ghost var order := PlayLogOrder();
      MergeEnds(PLAY_LOG, a, b, order);
      MergeKeepsValid(PLAY_LOG, a, b);
      if Test(from.hasBits, 0xFF << 0) {
        MergeOptional(0, from, a, order);
        MergeOptional(1, from, a, order);
        MergeOptional(2, from, a, order);
        MergeOptional(3, from, a, order);
        MergeOptional(4, from, a, order);
        MergeOptional(5, from, a, order);
        MergeOptional(6, from, a, order);
      } else {
        from.NoneBehindGuard();
        AbsentKeeps(PLAY_LOG, a, b, order, 0, 7);
      }
      AddUnknownFields(from.unknownFields);
    }

    method CopyFrom(from: BaccaratPlayLog)
      requires Valid() && from.Valid()
      modifies this
      ensures Valid() && view == old(from.view) && cachedSize == old(cachedSize)
    {
      if from == this {
        return;
      }
      Clear();
      MergeFrom(from);
      CopyIsExactlyForDefaults(PLAY_LOG, from.view);
    }

    /** With all the fields of another message come its ties. */
    twostate lemma HoldsAllOf(other: BaccaratPlayLog)
      requires old(other.Valid()) && view == old(other.view) && hasBits == old(other.hasBits)
      requires unknownFields == old(other.unknownFields)
      requires playerPair == old(other.playerPair)
      requires bankerPair == old(other.bankerPair)
      requires playerCount == old(other.playerCount)
      requires bankerCount == old(other.bankerCount)
      requires isSmall == old(other.isSmall)
      requires isSuperSix == old(other.isSuperSix)
      requires index == old(other.index)
      ensures Valid()
    {
      hide Codec.Valid, BitsOf, Tables.PLAY_LOG;
    }

    method SwapScalars(other: BaccaratPlayLog)
      requires other != this
      modifies `playerPair, `bankerPair, `playerCount, `bankerCount, `isSmall, `isSuperSix, `index,
          other`playerPair, other`bankerPair, other`playerCount, other`bankerCount, other`isSmall, other`isSuperSix,
          other`index
      ensures playerPair == old(other.playerPair) && other.playerPair == old(playerPair)
      ensures bankerPair == old(other.bankerPair) && other.bankerPair == old(bankerPair)
      ensures playerCount == old(other.playerCount) && other.playerCount == old(playerCount)
      ensures bankerCount == old(other.bankerCount) && other.bankerCount == old(bankerCount)
      ensures isSmall == old(other.isSmall) && other.isSmall == old(isSmall)
      ensures isSuperSix == old(other.isSuperSix) && other.isSuperSix == old(isSuperSix)
      ensures index == old(other.index) && other.index == old(index)
    {
      hide *;
      playerPair, other.playerPair := other.playerPair, playerPair;
      bankerPair, other.bankerPair := other.bankerPair, bankerPair;
      playerCount, other.playerCount := other.playerCount, playerCount;
      bankerCount, other.bankerCount := other.bankerCount, bankerCount;
      isSmall, other.isSmall := other.isSmall, isSmall;
      isSuperSix, other.isSuperSix := other.isSuperSix, isSuperSix;
      index, other.index := other.index, index;
    }

    method SwapRest(other: BaccaratPlayLog)
      requires other != this
      modifies `hasBits, `unknownFields, `cachedSize, `view, other`hasBits, other`unknownFields, other`cachedSize,
          other`view
      ensures hasBits == old(other.hasBits) && other.hasBits == old(hasBits)
      ensures unknownFields == old(other.unknownFields) && other.unknownFields == old(unknownFields)
      ensures cachedSize == old(other.cachedSize) && other.cachedSize == old(cachedSize)
      ensures view == old(other.view) && other.view == old(view)
    {
      hide *;
      hasBits, other.hasBits := other.hasBits, hasBits;
      unknownFields, other.unknownFields := other.unknownFields, unknownFields;
      cachedSize, other.cachedSize := other.cachedSize, cachedSize;
      view, other.view := other.view, view;
    }

    method Swap(other: BaccaratPlayLog)
      requires Valid() && other.Valid()
      modifies this, other
      ensures Valid() && other.Valid()
      ensures view == old(other.view) && other.view == old(view)
      ensures cachedSize == old(other.cachedSize) && other.cachedSize == old(cachedSize)
    {
      hide *;
      if other != this {
        SwapScalars(other);
        SwapRest(other);
        HoldsAllOf(other);
        other.HoldsAllOf(this);
      }
    }
  }

  // ---------------------------------------------------------------------------------- the list in a message

  /** The messages the objects of a list stand for. */
  ghost function Views(ls: seq<BaccaratPlayLog>): (ms: seq<Msg>)
    reads ls`view
    ensures |ms| == |ls| && forall i :: 0 <= i < |ls| ==> ms[i] == ls[i].view
  {
    if ls == [] then [] else Views(ls[..|ls| - 1]) + [ls[|ls| - 1].view]
  }

  /** Each element is an object of its own. */
  ghost predicate ValidList(ls: seq<BaccaratPlayLog>)
    reads ls
  {
    && (forall i :: 0 <= i < |ls| ==> ls[i].Valid())
    && (forall i, j :: 0 <= i < j < |ls| ==> ls[i] != ls[j])
  }

  /** The sizes ByteSize left in the elements are those of what they hold now. */
  ghost predicate SizesAreCurrent(ls: seq<BaccaratPlayLog>)
    reads ls
  {
    forall i :: 0 <= i < |ls| ==>
      Codec.Valid(PLAY_LOG, ls[i].view) && ls[i].cachedSize == Sizes.ByteSize(PLAY_LOG, ls[i].view)
  }

  lemma ViewsAreValid(ls: seq<BaccaratPlayLog>)
    requires ValidList(ls)
    ensures forall j :: 0 <= j < |ls| ==> Codec.Valid(PLAY_LOG, Views(ls)[j])
  {
    forall j | 0 <= j < |ls|
      ensures Codec.Valid(PLAY_LOG, Views(ls)[j])
    {
      assert ls[j].Valid();
    }
  }

  lemma EmptyList()
    ensures ValidList([]) && Views([]) == []
  {
  }

  /** RepeatedPtrField::Add: a fresh element at the end of the list. */
  method Append(ls: seq<BaccaratPlayLog>) returns (all: seq<BaccaratPlayLog>)
    requires ValidList(ls)
    ensures |all| == |ls| + 1 && all[..|ls|] == ls && fresh(all[|ls|])
    ensures ValidList(all) && Views(all) == Views(ls) + [Fresh(PLAY_LOG)]
  {
    hide BaccaratPlayLog.Valid, Codec.Fresh;
    ghost var had := Views(ls);
    var log := new BaccaratPlayLog();
    all := ls + [log];
    assert Views(all) == had + [log.view];
  }

  /**
    ReadMessageNoVirtual into the element just added: the whole payload must be consumed, up to its
    own end, and an element that fails to parse stays, partly filled.
   */
  method ReadLast(input: CodedInputStream, ls: seq<BaccaratPlayLog>, ghost s: Schema, ghost num: nat, ghost m: Msg)
      returns (ok: bool)
    requires input.Valid() && !input.legitimateEnd && ValidList(ls) && ls != [] && Views(ls)[|ls| - 1] == Fresh(PLAY_LOG)
    requires Shaped(s, m) && 1 <= num <= |s.fields| && s.fields[num - 1] == Nested(PLAY_LOG) && m.vals[num - 1].Msgs?
    modifies ls[|ls| - 1], input
    ensures ValidList(ls) && Views(ls)[..|ls| - 1] == old(Views(ls))[..|ls| - 1]
    ensures Codec.Valid(PLAY_LOG, Views(ls)[|ls| - 1])
    ensures ok ==> input.Valid() && !input.legitimateEnd && input.limit == old(input.limit) && input.depth == old(input.depth)
    ensures ok ==> |input.Rest()| < |old(input.Rest())|
    ensures AfterTag(old(input.Environment()), s, num, LENGTH_DELIMITED, old(input.Rest()), m)
         == AfterElement(old(input.Environment()), s, num, Views(ls)[|ls| - 1], ok, if ok then input.Rest() else [], m)
  {
    hide Codec.Valid, BaccaratPlayLog.Valid, Codec.Parse, Codec.AfterTag, Codec.Shaped, Stream.Delimited,
        Codec.Fresh, Views;
    MessageAfterTag(input.Environment(), s, num, input.Rest(), m);
    var log := ls[|ls| - 1];
    var outer;
    ok, outer := BeginMessage(input);
    if ok {
      ok := log.MergePartialFromCodedStream(input);
      if ok && input.legitimateEnd {
        assert input.Rest() == [];
        EndMessage(input, outer);
      } else {
        ok := false;
      }
    }
  }

  /** The tags, length prefixes and payloads of a list; each element is left with its size cached. */
  method SizeAll(ls: seq<BaccaratPlayLog>) returns (size: nat)
    requires ValidList(ls)
    modifies ls`cachedSize
    ensures ValidList(ls) && Views(ls) == old(Views(ls)) && SizesAreCurrent(ls)
    ensures forall j :: 0 <= j < |ls| ==> Codec.Valid(PLAY_LOG, Views(ls)[j])
    ensures size == |ls| + MsgsSize(PLAY_LOG, Views(ls))
  {
    hide Codec.Valid, BaccaratPlayLog.Valid, Views, Sizes.MsgsSize, Sizes.ByteSize;
    ViewsAreValid(ls);
    ghost var ms := Views(ls);
    MsgsSizeStart(PLAY_LOG, ms);
    size := 1 * |ls|;
    for i := 0 to |ls|
      invariant ValidList(ls) && Views(ls) == ms
      invariant forall j :: 0 <= j < i ==> ls[j].cachedSize == Sizes.ByteSize(PLAY_LOG, ms[j])
      invariant size == |ls| + MsgsSize(PLAY_LOG, ms[..i])
    {
      var n := ls[i].ByteSize();
      MsgsSizeStep(PLAY_LOG, ms, i);
      size := size + LengthDelimitedSize(n);
    }
  }

  /**
    WriteMessageNoVirtualToArray: the length prefix is the cached size, taken on trust, and the
    element is written right behind it.
   */
  method WriteOne(num: nat, log: BaccaratPlayLog, buf: array<Byte>, at: nat) returns (end: nat)
    requires log.Valid() && Codec.Valid(PLAY_LOG, log.view)
    requires log.cachedSize == |Serialize(PLAY_LOG, log.view)| < TWO_31
    requires at + |Encode(Len(num, Serialize(PLAY_LOG, log.view)))| <= buf.Length
    modifies buf
    ensures end == at + |Encode(Len(num, Serialize(PLAY_LOG, log.view)))|
    ensures buf[..end] == old(buf[..at]) + Encode(Len(num, Serialize(PLAY_LOG, log.view)))
    ensures buf[end..] == old(buf[..])[end..]
  {
    hide Codec.Valid, BaccaratPlayLog.Valid, Codec.Serialize;
    ghost var was, bytes := buf[..], Serialize(PLAY_LOG, log.view);
    end := WriteRaw(EncodeTag(num, LENGTH_DELIMITED), buf, at);
    ghost var was1, at1 := buf[..], end;
    end := WriteRaw(EncodeVarint(log.cachedSize), buf, end);
    ghost var was2, at2 := buf[..], end;
    KeepsTail(was2, was1, was, at1, at2);
    end := log.SerializeWithCachedSizesToArray(buf, end);
    KeepsTail(buf[..], was2, was, at2, end);
    assert buf[..end] == was[..at] + EncodeTag(num, LENGTH_DELIMITED) + EncodeVarint(|bytes|) + bytes;
    Assoc(was[..at] + EncodeTag(num, LENGTH_DELIMITED), EncodeVarint(|bytes|), bytes);
    Assoc(was[..at], EncodeTag(num, LENGTH_DELIMITED), EncodeVarint(|bytes|) + bytes);
  }

  /** What WriteOne needs of the next element: an exact cached size, and room. */
  lemma ElementIsSized(num: nat, ms: seq<Msg>, i: nat)
    requires (forall j :: 0 <= j < |ms| ==> Codec.Valid(PLAY_LOG, ms[j])) && i < |ms| && MsgsSize(PLAY_LOG, ms) < TWO_31
    ensures Sizes.ByteSize(PLAY_LOG, ms[i]) == |Serialize(PLAY_LOG, ms[i])| < TWO_31
    ensures |EncodeAll(MsgRecords(num, PLAY_LOG, ms[..i + 1]))| <= |EncodeAll(MsgRecords(num, PLAY_LOG, ms))|
  {
    ElementIsSmaller(PLAY_LOG, ms, i);
    TagsAreOneByte();
    ByteSizeIsExact(PLAY_LOG, ms[i]);
    MessagesAreWithin(num, PLAY_LOG, ms, i + 1);
  }

  /** The list as field `num` of a message, once the fields before it are written. */
  method WriteAll(num: nat, ls: seq<BaccaratPlayLog>, buf: array<Byte>, at: nat,
                  ghost was: seq<Byte>, ghost from: nat, ghost s: Schema, ghost m: Msg)
      returns (end: nat)
    requires ValidList(ls) && SizesAreCurrent(ls)
    requires Codec.Valid(s, m) && 1 <= num <= |s.fields| && s.fields[num - 1] == Nested(PLAY_LOG)
        && m.vals[num - 1] == Msgs(Views(ls))
    requires (forall j :: 0 <= j < |ls| ==> Codec.Valid(PLAY_LOG, Views(ls)[j])) && MsgsSize(PLAY_LOG, Views(ls)) < TWO_31
    requires from + |Serialize(s, m)| <= buf.Length && HasWritten(buf, at, was, from, s, m, num - 1)
    modifies buf
    ensures HasWritten(buf, end, was, from, s, m, num)
  {
    hide Codec.Valid, BaccaratPlayLog.Valid, Codec.Serialize, Sizes.ByteSize, Views, Codec.MsgRecords,
        Wire.EncodeAll, Wire.Encode, Sizes.MsgsSize;
    ghost var ms, before := Views(ls), was[..from] + Written(s, m, num - 1);
    WrittenStep(s, m, num);
    WrittenIsWithin(s, m, num);
    end := at;
    MessagesWrittenStart(num, PLAY_LOG, ms);
    assert before + [] == before;
    for i := 0 to |ls|
      invariant at <= end <= buf.Length
      invariant buf[..end] == before + EncodeAll(MsgRecords(num, PLAY_LOG, ms[..i])) && buf[end..] == was[end..]
    {
      ghost var r, prev, prevAt := Len(num, Serialize(PLAY_LOG, ms[i])), buf[..], end;
      ElementIsSized(num, ms, i);
      MessagesWrittenStep(num, PLAY_LOG, ms, i);
      end := WriteOne(num, ls[i], buf, end);
      Assoc(before, EncodeAll(MsgRecords(num, PLAY_LOG, ms[..i])), Encode(r));
      KeepsTail(buf[..], prev, was, prevAt, end);
    }
    assert ms[..|ms|] == ms;
    Assoc(was[..from], Written(s, m, num - 1), EncodeAll(MsgRecords(num, PLAY_LOG, ms)));
  }

  /** RepeatedPtrField::MergeFrom: a copy of each element of `theirs` is added at the end. */
  method MergeList(mine: seq<BaccaratPlayLog>, theirs: seq<BaccaratPlayLog>) returns (all: seq<BaccaratPlayLog>)
    requires ValidList(mine) && ValidList(theirs)
    ensures ValidList(all) && Views(all) == Views(mine) + Views(theirs)
    ensures |all| == |mine| + |theirs| && all[..|mine|] == mine
    ensures forall j :: |mine| <= j < |all| ==> fresh(all[j])
  {
    hide BaccaratPlayLog.Valid, Codec.Valid, Views;
    ghost var had, more := Views(mine), Views(theirs);
    all := mine;
    for i := 0 to |theirs|
      invariant ValidList(all) && |all| == |mine| + i && all[..|mine|] == mine
      invariant forall j :: |mine| <= j < |all| ==> fresh(all[j])
      invariant Views(all) == had + more[..i]
    {
      var log := new BaccaratPlayLog();
      all := all + [log];
      log.MergeFrom(theirs[i]);
      CopyIsExactlyForDefaults(PLAY_LOG, more[i]);
      assert Views(all) == had + more[..i] + [more[i]];
      assert more[..i + 1] == more[..i] + [more[i]];
    }
    assert more[..|more|] == more;
  }

  // ------------------------------------------------------------------------------------------ reply

  /** msg_baccarat_play_log_rep: it owns its logs, each an object of its own. */
  class MsgBaccaratPlayLogRep {
    var logs: seq<BaccaratPlayLog>
    var unknownFields: seq<Record>
    var cachedSize: nat

    ghost function View(): (m: Msg)
      reads `logs, `unknownFields, logs`view
      ensures Shaped(PLAY_LOG_REP, m)
    {
      Msg([Msgs(Views(logs))], unknownFields)
    }

    ghost predicate Valid()
      reads `logs, `unknownFields, logs
      ensures Valid() ==> Codec.Valid(PLAY_LOG_REP, View())
    {
      ValidList(logs) && (ViewsAreValid(logs); AllForeign(PLAY_LOG_REP, unknownFields))
    }

    constructor ()
      ensures Valid() && View() == Fresh(PLAY_LOG_REP) && logs == []
    {
      logs, unknownFields, cachedSize := [], [], 0;
      new;
      EmptyList();
    }

    method Clear()
      requires Valid()
      modifies this
      ensures Valid() && View() == Fresh(PLAY_LOG_REP) && logs == [] && cachedSize == old(cachedSize)
    {
      logs, unknownFields := [], [];
      EmptyList();
    }

    method ClearLogs()
      requires Valid()
      modifies this
      ensures Valid() && View() == Set(old(View()), 0, Msgs([])) && logs == [] && cachedSize == old(cachedSize)
    {
      logs := [];
      EmptyList();
    }

    /** add_logs: a fresh element at the end of the list. */
    method AddLogs()
      requires Valid()
      modifies this
      ensures Valid() && |logs| == |old(logs)| + 1 && logs[..|old(logs)|] == old(logs) && fresh(logs[|old(logs)|])
      ensures Views(logs) == old(Views(logs)) + [Fresh(PLAY_LOG)] && unknownFields == old(unknownFields)
          && cachedSize == old(cachedSize)
    {
      hide ValidList, Views, Codec.AllForeign;
      logs := Append(logs);
    }

    // ------------------------------------------------------------------------------------- parsing

    /** ReadMessageNoVirtual(input, add_logs()): an element that fails to parse stays, partly filled. */
    method ParseField(input: CodedInputStream) returns (ok: bool)
      requires Valid() && input.Valid() && !input.legitimateEnd
      modifies this, input
      ensures Valid() && |logs| == |old(logs)| + 1 && logs[..|old(logs)|] == old(logs) && fresh(logs[|old(logs)|])
      ensures ok ==> input.Valid() && !input.legitimateEnd && input.limit == old(input.limit) && input.depth == old(input.depth)
      ensures ok ==> |input.Rest()| < |old(input.Rest())|
      ensures AfterTag(old(input.Environment()), PLAY_LOG_REP, 1, LENGTH_DELIMITED, old(input.Rest()), old(View()))
           == if ok then Parse(old(input.Environment()), PLAY_LOG_REP, input.Rest(), View()) else Fail(View())
    {
      hide Codec.Valid, ValidList, Views, Codec.Parse, Codec.AfterTag, Codec.Fresh, Codec.AllForeign;
      ghost var m, had := View(), Views(logs);
      AddLogs();
      ok := ReadLast(input, logs, PLAY_LOG_REP, 1, m);
      ghost var x := Views(logs)[|logs| - 1];
      assert Views(logs) == had + [x];
      assert View() == AddMsg(m, 0, x);
    }

    method ExpectNext(input: CodedInputStream) returns (next: nat)
      requires input.Valid() && !input.legitimateEnd
      modifies input`pos, input`legitimateEnd
      ensures input.Valid() && Followed(PLAY_LOG_REP, next, old(input.Rest()), input.Rest(), input.legitimateEnd)
    {
      next := Jump(10, 1, input, PLAY_LOG_REP);
      if next == 0 {
        next := End(input, PLAY_LOG_REP);
      }
    }

    /** Adds records at the end of the unknown fields. */
    method AddUnknownFields(rs: seq<Record>)
      requires Valid() && AllForeign(PLAY_LOG_REP, rs)
      modifies this
      ensures Valid() && View() == AddUnknowns(old(View()), rs) && logs == old(logs) && cachedSize == old(cachedSize)
    {
      hide ValidList, Views;
      unknownFields := unknownFields + rs;
    }

    /** The end of the enclosing group ends the loop; anything else is kept, as far as it can be read. */
    method HandleUninterpreted(num: nat, wt: nat, input: CodedInputStream) returns (ok: bool, ended: bool)
      requires Valid() && input.Valid() && wt < 8 && 0 < 8 * num + wt < TWO_32 && !Accepts(PLAY_LOG_REP, num, wt)
      modifies this, input`pos
      ensures Valid() && input.Valid() && (ok && !ended ==> |input.Rest()| <= |old(input.Rest())|) && logs == old(logs)
      ensures AfterTag(input.Environment(), PLAY_LOG_REP, num, wt, old(input.Rest()), old(View()))
           == if !ok then Fail(View())
              else if ended then Done(View(), input.Rest(), EndGroupTag)
              else Parse(input.Environment(), PLAY_LOG_REP, input.Rest(), View())
    {
      hide Codec.Valid, Codec.Accepts, Codec.Parse, Codec.AfterTag, MsgBaccaratPlayLogRep.Valid,
          MsgBaccaratPlayLogRep.View, ValidList, Views, Codec.Shaped;
      if wt == END_GROUP {
        EndGroupAfterTag(input.Environment(), PLAY_LOG_REP, num, input.Rest(), View());
        return true, true;
      }
      ended := false;
      var kept;
      ok, kept := ReadUnknown(input, num, wt, PLAY_LOG_REP, View());
      AddUnknownFields(kept);
    }

    /**
      The tag loop with its jumps: `jumped` holds when the tag of field `num` was matched by
      ExpectTag and the loop continues at that field's label. Whatever ExpectTag and ExpectAtEnd
      answer, the outcome is that of the loop without them.
     */
    method MergePartialFromCodedStream(input: CodedInputStream) returns (ok: bool)
      requires Valid() && input.Valid() && !input.legitimateEnd
      modifies this, input
      ensures Valid()
      ensures forall i :: 0 <= i < |logs| ==> logs[i] in old(logs) || fresh(logs[i])
      ensures ParsedAs(Parse(old(input.Environment()), PLAY_LOG_REP, old(input.Rest()), old(View())), ok, View(), input)
      ensures ok ==> input.limit == old(input.limit) && input.depth == old(input.depth)
    {
      hide MsgBaccaratPlayLogRep.Valid, MsgBaccaratPlayLogRep.View, ValidList, Views, Codec.Shaped, Codec.Valid,
          Codec.Parse, Codec.AfterTag, Codec.Accepts, Codec.OneByteTags, Generated.Followed,
        Wire.ReadTag, CodedInputStream.Rest;
      ghost var env, o := input.Environment(), Parse(input.Environment(), PLAY_LOG_REP, input.Rest(), View());
      var num, wt, jumped := 0, 0, false;
      while true
        invariant Valid() && input.Valid() && !input.legitimateEnd && wt < 8
        invariant input.limit == old(input.limit) && input.depth == old(input.depth)
        invariant forall i :: 0 <= i < |logs| ==> logs[i] in old(logs) || fresh(logs[i])
        invariant jumped ==> Accepts(PLAY_LOG_REP, num, wt)
        invariant o == if jumped then AfterTag(env, PLAY_LOG_REP, num, wt, input.Rest(), View())
                       else Parse(env, PLAY_LOG_REP, input.Rest(), View())
        decreases |input.Rest()|
      {
        if !jumped {
          ParseReadsTag(env, PLAY_LOG_REP, input.Rest(), View());
          var tag := input.ReadTag();
          if tag == 0 {
            return true;
          }
          num, wt := tag / 8, tag % 8;
        }
        jumped := false;
        ReplyAccepts(num, wt);
        if num == 1 && wt == LENGTH_DELIMITED {
          ok := ParseField(input);
          if !ok {
            return;
          }
          ghost var at := input.Rest();
          var next := ExpectNext(input);
          TagsAreOneByte();
          FollowedMeans(env, PLAY_LOG_REP, next, at, input.Rest(), input.legitimateEnd, View());
          if next == AT_END {
            return true;
          } else if next != 0 {
            num, wt, jumped := next, WireTypeOf(PLAY_LOG_REP.fields[next - 1]), true;
          }
        } else {
          var ended;
          ok, ended := HandleUninterpreted(num, wt, input);
          if !ok || ended {
            return;
          }
        }
      }
    }

    // --------------------------------------------------------------------------------- serializing

    /** First phase, bottom-up: each element is left with its own size cached. */
    method ByteSize() returns (size: nat)
      requires Valid()
      modifies this`cachedSize, logs`cachedSize
      ensures Valid() && View() == old(View()) && SizesAreCurrent(logs) && Codec.Valid(PLAY_LOG_REP, View())
      ensures size == Sizes.ByteSize(PLAY_LOG_REP, View()) && cachedSize == size
    {
      hide Codec.Valid, ValidList, Views, Sizes.ByteSize, Sizes.MsgsSize, Codec.AllForeign, SizesAreCurrent;
      ReplySize(View());
      size := SizeAll(logs);
      size := size + UnknownSize(unknownFields);
      cachedSize := size;
    }

    /** Second phase: with the cached sizes current, exactly the serialized bytes are written. */
    method SerializeWithCachedSizesToArray(buf: array<Byte>, at: nat) returns (end: nat)
      requires Valid() && SizesAreCurrent(logs) && Codec.Valid(PLAY_LOG_REP, View())
      requires Sizes.ByteSize(PLAY_LOG_REP, View()) < TWO_31 && at + Sizes.ByteSize(PLAY_LOG_REP, View()) <= buf.Length
      modifies buf
      ensures end == at + Sizes.ByteSize(PLAY_LOG_REP, View())
      ensures buf[..end] == old(buf[..at]) + Serialize(PLAY_LOG_REP, View())
      ensures buf[end..] == old(buf[..])[end..]
    {
      hide Codec.Valid, ValidList, Views, Codec.Serialize, Sizes.ByteSize, Sizes.MsgsSize, SizesAreCurrent,
          Generated.HasWritten, Codec.AllForeign;
      ghost var was, m := buf[..], View();
      ReplySize(m);
      TagsAreOneByte();
      ByteSizeIsExact(PLAY_LOG_REP, m);
      NothingWritten(buf, was, at, PLAY_LOG_REP, m);
      end := WriteAll(1, logs, buf, at, was, at, PLAY_LOG_REP, m);
      end := WriteUnknown(unknownFields, buf, end, was, at, PLAY_LOG_REP, m);
    }

    // --------------------------------------------------------------------------- from and to arrays

    /** MessageLite::SerializeToArray: both phases, if the bytes fit. */
    method SerializeToArray(buf: array<Byte>, size: nat) returns (ok: bool)
      requires Valid() && size <= buf.Length && size < TWO_31
      modifies this`cachedSize, logs`cachedSize, buf
      ensures Valid() && View() == old(View())
      ensures ok <==> Sizes.ByteSize(PLAY_LOG_REP, View()) <= size
      ensures ok ==> |Serialize(PLAY_LOG_REP, View())| == Sizes.ByteSize(PLAY_LOG_REP, View())
      ensures ok ==> buf[..] == Serialize(PLAY_LOG_REP, View()) + old(buf[..])[Sizes.ByteSize(PLAY_LOG_REP, View())..]
      ensures !ok ==> buf[..] == old(buf[..])
    {
      hide *;
      var n := ByteSize();
      ok := n <= size;
      if ok {
        TagsAreOneByte();
        ByteSizeIsExact(PLAY_LOG_REP, View());
        ghost var was := buf[..];
        var end := SerializeWithCachedSizesToArray(buf, 0);
        assert was[..0] + Serialize(PLAY_LOG_REP, View()) == Serialize(PLAY_LOG_REP, View());
        assert buf[..] == buf[..end] + buf[end..];
      }
    }

    /** MessageLite::ParseFromArray: the whole input must be one message. */
    method ParseFromArray(bytes: seq<Byte>, depth: nat, clamp: bool) returns (ok: bool)
      requires Valid()
      modifies this
      ensures Valid() && forall i :: 0 <= i < |logs| ==> fresh(logs[i])
      ensures View() == Parse(Env(depth, clamp), PLAY_LOG_REP, bytes, Fresh(PLAY_LOG_REP)).m
      ensures ok == Parse(Env(depth, clamp), PLAY_LOG_REP, bytes, Fresh(PLAY_LOG_REP)).Complete()
    {
      hide MsgBaccaratPlayLogRep.Valid, MsgBaccaratPlayLogRep.View, ValidList, Views, Codec.Valid, Codec.Parse,
          Codec.Fresh, CodedInputStream.Rest;
      Clear();
      var input := new CodedInputStream(bytes, depth, clamp);
      ok := MergePartialFromCodedStream(input);
      ok := ok && input.legitimateEnd;
    }

    // ------------------------------------------------------------------------------------- merging

    /** Appends a copy of each element, and the unknown records. */
    method MergeFrom(from: MsgBaccaratPlayLogRep)
      requires Valid() && from.Valid() && from != this
      modifies this
      ensures Valid()
      ensures View() == Merge(PLAY_LOG_REP, old(View()), from.View()) && cachedSize == old(cachedSize)
      ensures forall i :: 0 <= i < |logs| ==> logs[i] in old(logs) || fresh(logs[i])
    {
      hide Codec.Valid, ValidList, Views;
      logs := MergeList(logs, from.logs);
      unknownFields := unknownFields + from.unknownFields;
      assert Merge(PLAY_LOG_REP, old(View()), from.View()).vals == View().vals;
    }

    method CopyFrom(from: MsgBaccaratPlayLogRep)
      requires Valid() && from.Valid()
      modifies this
      ensures Valid() && View() == old(from.View()) && cachedSize == old(cachedSize)
      ensures from != this ==> forall i :: 0 <= i < |logs| ==> fresh(logs[i])
    {
      hide MsgBaccaratPlayLogRep.Valid, ValidList, Views, Codec.Valid;
      if from == this {
        return;
      }
      Clear();
      MergeFrom(from);
      CopyIsExactlyForDefaults(PLAY_LOG_REP, from.View());
    }

    method Swap(other: MsgBaccaratPlayLogRep)
      requires Valid() && other.Valid()
      modifies this, other
      ensures Valid() && other.Valid()
      ensures View() == old(other.View()) && other.View() == old(View())
      ensures logs == old(other.logs) && other.logs == old(logs)
      ensures cachedSize == old(other.cachedSize) && other.cachedSize == old(cachedSize)
    {
      hide Views, Codec.AllForeign, ValidList;
      if other != this {
        logs, other.logs := other.logs, logs;
        unknownFields, other.unknownFields := other.unknownFields, unknownFields;
        cachedSize, other.cachedSize := other.cachedSize, cachedSize;
      }
    }
  }

  /**
    One object into bytes and the bytes into another: it comes back equal exactly when the recursion limit
    allows its nesting.
   */
  method ThereAndBack(msg: MsgBaccaratPlayLogRep, depth: nat, clamp: bool) returns (back: MsgBaccaratPlayLogRep, ok: bool)
    requires msg.Valid() && Sizes.ByteSize(PLAY_LOG_REP, msg.View()) < TWO_31
    modifies msg`cachedSize, msg.logs`cachedSize
    ensures msg.Valid() && msg.View() == old(msg.View()) && back.Valid() && fresh(back)
    ensures ok <==> Fits(PLAY_LOG_REP, msg.View(), depth)
    ensures ok ==> back.View() == msg.View()
  {
    hide MsgBaccaratPlayLogRep.Valid, MsgBaccaratPlayLogRep.View, ValidList, Views, Codec.Valid, Codec.Parse,
        Codec.Fresh, Codec.Serialize, Codec.Fits, Sizes.ByteSize, OneByteTags;
    TagsAreOneByte();
    var n := msg.ByteSize();
    var buf := new Byte[n];
    ok := msg.SerializeToArray(buf, n);
    assert buf[..] == Serialize(PLAY_LOG_REP, msg.View());
    RoundTripExactlyWhenItFits(Env(depth, clamp), PLAY_LOG_REP, msg.View());
    back := new MsgBaccaratPlayLogRep();
    ok := back.ParseFromArray(buf[..], depth, clamp);
  }

  lemma ReplyAccepts(num: nat, wt: nat)
    ensures Accepts(PLAY_LOG_REP, num, wt) <==> num == 1 && wt == LENGTH_DELIMITED
  {
  }

  lemma ReplySize(m: Msg)
    requires Codec.Valid(PLAY_LOG_REP, m)
    ensures AllStorable(m.unknown) && m.vals[0].Msgs? && forall j :: 0 <= j < |m.vals[0].ms| ==> Codec.Valid(PLAY_LOG, m.vals[0].ms[j])
    ensures Sizes.ByteSize(PLAY_LOG_REP, m) == |m.vals[0].ms| + MsgsSize(PLAY_LOG, m.vals[0].ms) + UnknownSize(m.unknown)
  {
    var order: seq<nat> := [0];
    var t := Totals(PLAY_LOG_REP, m, order);
    assert order[0] == 0;
    MessagesSizeAt(PLAY_LOG_REP, m, 0, PLAY_LOG, m.vals[0].ms);
  }

  /** MergeFrom visits the fields in their own order. */
  lemma PlayLogOrder() returns (order: seq<nat>)
    ensures Visits(PLAY_LOG, order) && |order| == 7
    ensures forall i {:trigger order[i]} :: 0 <= i < 7 ==> order[i] == i
  {
    order := [0, 1, 2, 3, 4, 5, 6];
    assert forall i {:trigger i in order} :: 0 <= i < 7 ==> order[i] == i;
  }

  lemma PrefixReads(clamp: bool, length: Byte, bytes: seq<Byte>)
    requires length < 128 && (length == |bytes| || (clamp && length > |bytes|))
    ensures Delimited(clamp, [length] + bytes) == Payload(bytes, [])
  {
    var bs := [length] + bytes;
    assert bs[1..] == bytes && bytes[..|bytes|] == bytes;
    OneByteVarint(bs);
  }

  lemma OneLogReads(env: Env, length: Byte, bytes: seq<Byte>, m: Msg)
    requires env.depth > 0 && length < 128 && Shaped(PLAY_LOG_REP, m) && m.vals[0].Msgs?
    requires length == |bytes| || (env.clamp && length > |bytes|)
    requires Parse(env.Deeper(), PLAY_LOG, bytes, Fresh(PLAY_LOG)).Complete()
    ensures Parse(env, PLAY_LOG_REP, [10, length] + bytes, m)
         == Done(AddMsg(m, 0, Parse(env.Deeper(), PLAY_LOG, bytes, Fresh(PLAY_LOG)).m), [], InputEnd)
  {
    hide Codec.Parse, Codec.AfterTag, Codec.Fresh, Stream.Delimited, Wire.ReadTag;
    var bs := [10, length] + bytes;
    assert bs[1..] == [length] + bytes;
    PrefixReads(env.clamp, length, bytes);
    MatchedTag(env, PLAY_LOG_REP, 1, LENGTH_DELIMITED, bs, m);
    MessageAfterTag(env, PLAY_LOG_REP, 1, bs[1..], m);
    ParseReadsTag(env, PLAY_LOG_REP, [], AddMsg(m, 0, Parse(env.Deeper(), PLAY_LOG, bytes, Fresh(PLAY_LOG)).m));
  }

  lemma SecondReplyAsLog(env: Env)
    ensures Parse(env, PLAY_LOG, [10, 0], Fresh(PLAY_LOG)) == Done(AddUnknown(Fresh(PLAY_LOG), Len(1, [])), [], InputEnd)
  {
    var r := Len(1, []);
    assert EncodeVarint(10) == [10] && EncodeVarint(0) == [0];
    assert Encode(r) + [] == [10, 0];
    ParseStep(env, PLAY_LOG, r, [], Fresh(PLAY_LOG));
  }

  /**
    A reader that clamps length prefixes: two inputs, each complete on its own, whose concatenation
    is not their merge. The first prefix announces five bytes and takes the second reply for them.
   */
  lemma ClampedInputsNeedNotCompose(env: Env)
    requires env.clamp && env.depth > 0
    ensures var b1, b2 := [10, 5], [10, 0];
            var o1, o2, both := Parse(env, PLAY_LOG_REP, b1, Fresh(PLAY_LOG_REP)), Parse(env, PLAY_LOG_REP, b2,
                Fresh(PLAY_LOG_REP)), Parse(env, PLAY_LOG_REP, b1 + b2, Fresh(PLAY_LOG_REP));
            o1.Complete() && o2.Complete() && both.Complete() && both.m != Merge(PLAY_LOG_REP, o1.m, o2.m)
  {
    hide Codec.Parse;
    var m, inner := Fresh(PLAY_LOG_REP), env.Deeper();
    ParseReadsTag(inner, PLAY_LOG, [], Fresh(PLAY_LOG));
    OneLogReads(env, 5, [], m);
    OneLogReads(env, 0, [], m);
    SecondReplyAsLog(inner);
    OneLogReads(env, 5, [10, 0], m);
    assert [10, 5] + [] == [10, 5] && [10, 0] + [] == [10, 0];
    assert [10, 5] + [10, 0] == [10, 5, 10, 0];
    assert m.vals[0] == Msgs([]);
    var one, two := AddMsg(m, 0, AddUnknown(Fresh(PLAY_LOG), Len(1, []))), AddMsg(m, 0, Fresh(PLAY_LOG));
    assert |one.vals[0].ms| == 1 && |Merge(PLAY_LOG_REP, two, two).vals[0].ms| == 2;
  }
}
