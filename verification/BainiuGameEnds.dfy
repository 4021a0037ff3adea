/** msg_bainiu_game_end: fourteen fields, two mask groups, nested cards. */
module BainiuGameEnds {
  import opened Varint
  import opened Wire
  import opened Codec
  import opened RoundTrip
  import opened Invariants
  import opened Merging
  import opened Stream
  import opened Sizes
  import opened WireFormatLite
  import opened Generated
  import opened PresenceBits
  import opened Tables
  import opened Cards

  class MsgBainiuGameEnd {
    var timeLeave: int
    var tableCards: seq<MsgCards>
    var cardTypes: seq<int>
    var bankerWinScore: int
    var bankerTotalScore: int
    var bankerTime: int
    var userScore: int
    var playerScore: seq<int>
    var winMultiple: seq<int>
    var randCard: int
    var settleAccountsType: int
    var totalGamecount: int
    var areaWincount: seq<int>
    var areaLostcount: seq<int>
    var hasBits: bv32
    var unknownFields: seq<Record>
    var cachedSize: nat

    // The message the fields make up.
    ghost var view: Msg

    ghost predicate Tied()
      reads `view, `hasBits, `unknownFields, `tableCards, tableCards`view, `timeLeave, `cardTypes, `bankerWinScore,
          `bankerTotalScore, `bankerTime, `userScore, `playerScore, `winMultiple, `randCard, `settleAccountsType,
          `totalGamecount, `areaWincount, `areaLostcount
    {
      && |view.vals| == 14 && view.unknown == unknownFields
      && view.vals[0] == Scalar(0 in BitsOf(hasBits), timeLeave)
      && view.vals[1] == Msgs(Views(tableCards))
      && view.vals[2] == Ints(cardTypes)
      && view.vals[3] == Scalar(3 in BitsOf(hasBits), bankerWinScore)
      && view.vals[4] == Scalar(4 in BitsOf(hasBits), bankerTotalScore)
      && view.vals[5] == Scalar(5 in BitsOf(hasBits), bankerTime)
      && view.vals[6] == Scalar(6 in BitsOf(hasBits), userScore)
      && view.vals[7] == Ints(playerScore)
      && view.vals[8] == Ints(winMultiple)
      && view.vals[9] == Scalar(9 in BitsOf(hasBits), randCard)
      && view.vals[10] == Scalar(10 in BitsOf(hasBits), settleAccountsType)
      && view.vals[11] == Scalar(11 in BitsOf(hasBits), totalGamecount)
      && view.vals[12] == Ints(areaWincount)
      && view.vals[13] == Ints(areaLostcount)
    }

    ghost predicate Valid()
      reads `view, `hasBits, `unknownFields, `tableCards, tableCards`view, `timeLeave, `cardTypes, `bankerWinScore,
          `bankerTotalScore, `bankerTime, `userScore, `playerScore, `winMultiple, `randCard, `settleAccountsType,
          `totalGamecount, `areaWincount, `areaLostcount, tableCards`cards, tableCards`unknownFields
      ensures Valid() ==> Shaped(GAME_END, view) && Codec.Valid(GAME_END, view) && ValidList(tableCards)
    {
      Tied() && ValidList(tableCards) && Codec.Valid(GAME_END, view)
    }

    lemma Facts()
      requires Valid()
      ensures |view.vals| == 14 && view.unknown == unknownFields && AllForeign(GAME_END, unknownFields)
      ensures view.vals[0] == Scalar(HasTimeLeave(), timeLeave) && InRange(UInt32, timeLeave)
          && (HasTimeLeave() || timeLeave == 0)
      ensures view.vals[1] == Msgs(Views(tableCards))
      ensures view.vals[2] == Ints(cardTypes) && AllInRange(UInt32, cardTypes)
      ensures view.vals[3] == Scalar(HasBankerWinScore(), bankerWinScore) && InRange(Int64, bankerWinScore)
          && (HasBankerWinScore() || bankerWinScore == 0)
      ensures view.vals[4] == Scalar(HasBankerTotalScore(), bankerTotalScore) && InRange(Int64, bankerTotalScore)
          && (HasBankerTotalScore() || bankerTotalScore == 0)
      ensures view.vals[5] == Scalar(HasBankerTime(), bankerTime) && InRange(UInt32, bankerTime)
          && (HasBankerTime() || bankerTime == 0)
      ensures view.vals[6] == Scalar(HasUserScore(), userScore) && InRange(Int64, userScore)
          && (HasUserScore() || userScore == 0)
      ensures view.vals[7] == Ints(playerScore) && AllInRange(Int64, playerScore)
      ensures view.vals[8] == Ints(winMultiple) && AllInRange(Int32, winMultiple)
      ensures view.vals[9] == Scalar(HasRandCard(), randCard) && InRange(UInt32, randCard)
          && (HasRandCard() || randCard == 0)
      ensures view.vals[10] == Scalar(HasSettleAccountsType(), settleAccountsType)
          && InRange(UInt32, settleAccountsType) && (HasSettleAccountsType() || settleAccountsType == 0)
      ensures view.vals[11] == Scalar(HasTotalGamecount(), totalGamecount) && InRange(UInt32, totalGamecount)
          && (HasTotalGamecount() || totalGamecount == 0)
      ensures view.vals[12] == Ints(areaWincount) && AllInRange(UInt32, areaWincount)
      ensures view.vals[13] == Ints(areaLostcount) && AllInRange(UInt32, areaLostcount)
    {
      hide Codec.Valid, BitsOf, Codec.ValidValue, Views, ValidList, Tables.GAME_END;
      GameEndTable();
      UnknownsAreForeign(GAME_END, view);
      DefaultBehindClearBit(GAME_END, view, 0);
      ListSizeAt(GAME_END, view, 2, UInt32, cardTypes);
      DefaultBehindClearBit(GAME_END, view, 3);
      DefaultBehindClearBit(GAME_END, view, 4);
      DefaultBehindClearBit(GAME_END, view, 5);
      DefaultBehindClearBit(GAME_END, view, 6);
      ListSizeAt(GAME_END, view, 7, Int64, playerScore);
      ListSizeAt(GAME_END, view, 8, Int32, winMultiple);
      DefaultBehindClearBit(GAME_END, view, 9);
      DefaultBehindClearBit(GAME_END, view, 10);
      DefaultBehindClearBit(GAME_END, view, 11);
      ListSizeAt(GAME_END, view, 12, UInt32, areaWincount);
      ListSizeAt(GAME_END, view, 13, UInt32, areaLostcount);
    }

    lemma IsFresh()
      requires view == Fresh(GAME_END) && hasBits == 0 && unknownFields == [] && tableCards == []
      requires timeLeave == 0 && bankerWinScore == 0 && bankerTotalScore == 0 && bankerTime == 0
          && userScore == 0 && randCard == 0 && settleAccountsType == 0 && totalGamecount == 0
      requires cardTypes == [] && playerScore == [] && winMultiple == [] && areaWincount == [] && areaLostcount == []
      ensures Valid()
    {
      hide Codec.Valid, BitsOf, Views, ValidList, Codec.Fresh, Tables.GAME_END;
      NoBits();
      FreshIsValid(GAME_END);
      GameEndFresh();
      EmptyList();
    }

    /** Only the list of cards changed, and the view with it. */
    twostate lemma OnlyCardsChanged()
      requires old(Valid()) && Codec.Valid(GAME_END, view) && ValidList(tableCards) && hasBits == old(hasBits)
          && unknownFields == old(unknownFields)
      requires timeLeave == old(timeLeave) && bankerWinScore == old(bankerWinScore)
          && bankerTotalScore == old(bankerTotalScore) && bankerTime == old(bankerTime)
          && userScore == old(userScore) && randCard == old(randCard)
          && settleAccountsType == old(settleAccountsType) && totalGamecount == old(totalGamecount)
      requires cardTypes == old(cardTypes) && playerScore == old(playerScore) && winMultiple == old(winMultiple)
          && areaWincount == old(areaWincount) && areaLostcount == old(areaLostcount)
      requires |view.vals| == 14 && view.unknown == old(view).unknown && view.vals[1] == Msgs(Views(tableCards))
      requires forall i :: 0 <= i < 14 && i != 1 ==> view.vals[i] == old(view).vals[i]
      ensures Valid()
    {
      hide Codec.Valid, BitsOf, Views, ValidList, Tables.GAME_END;
    }

    /** Only one scalar changed, and the view with it. */
    twostate lemma OneScalarChanged(i: nat)
      requires old(Valid()) && Codec.Valid(GAME_END, view) && tableCards == old(tableCards)
          && ValidList(tableCards) && Views(tableCards) == old(Views(tableCards))
      requires i < 14 && i != 1 && |view.vals| == |old(view).vals| == 14
          && view == Set(old(view), i, view.vals[i]) && unknownFields == old(unknownFields)
      requires i == 0 ==> view.vals[i] == Scalar(0 in BitsOf(hasBits), timeLeave)
      requires i != 0 ==> timeLeave == old(timeLeave) && (0 in BitsOf(hasBits) <==> 0 in BitsOf(old(hasBits)))
      requires i == 3 ==> view.vals[i] == Scalar(3 in BitsOf(hasBits), bankerWinScore)
      requires i != 3 ==> bankerWinScore == old(bankerWinScore) && (3 in BitsOf(hasBits) <==> 3 in BitsOf(old(hasBits)))
      requires i == 4 ==> view.vals[i] == Scalar(4 in BitsOf(hasBits), bankerTotalScore)
      requires i != 4 ==> bankerTotalScore == old(bankerTotalScore) && (4 in BitsOf(hasBits) <==> 4 in BitsOf(old(hasBits)))
      requires i == 5 ==> view.vals[i] == Scalar(5 in BitsOf(hasBits), bankerTime)
      requires i != 5 ==> bankerTime == old(bankerTime) && (5 in BitsOf(hasBits) <==> 5 in BitsOf(old(hasBits)))
      requires i == 6 ==> view.vals[i] == Scalar(6 in BitsOf(hasBits), userScore)
      requires i != 6 ==> userScore == old(userScore) && (6 in BitsOf(hasBits) <==> 6 in BitsOf(old(hasBits)))
      requires i == 9 ==> view.vals[i] == Scalar(9 in BitsOf(hasBits), randCard)
      requires i != 9 ==> randCard == old(randCard) && (9 in BitsOf(hasBits) <==> 9 in BitsOf(old(hasBits)))
      requires i == 10 ==> view.vals[i] == Scalar(10 in BitsOf(hasBits), settleAccountsType)
      requires i != 10 ==> settleAccountsType == old(settleAccountsType) && (10 in BitsOf(hasBits) <==> 10 in BitsOf(old(hasBits)))
      requires i == 11 ==> view.vals[i] == Scalar(11 in BitsOf(hasBits), totalGamecount)
      requires i != 11 ==> totalGamecount == old(totalGamecount) && (11 in BitsOf(hasBits) <==> 11 in BitsOf(old(hasBits)))
      requires i != 2 && cardTypes == old(cardTypes)
      requires i != 7 && playerScore == old(playerScore)
      requires i != 8 && winMultiple == old(winMultiple)
      requires i != 12 && areaWincount == old(areaWincount)
      requires i != 13 && areaLostcount == old(areaLostcount)
      ensures Valid()
    {
      hide Codec.Valid, BitsOf, Views, ValidList, Tables.GAME_END;
    }

    constructor ()
      ensures Valid() && view == Fresh(GAME_END) && tableCards == []
    {
      cachedSize := 0;
      timeLeave := 0;
      tableCards := [];
      cardTypes := [];
      bankerWinScore := 0;
      bankerTotalScore := 0;
      bankerTime := 0;
      userScore := 0;
      playerScore := [];
      winMultiple := [];
      randCard := 0;
      settleAccountsType := 0;
      totalGamecount := 0;
      areaWincount := [];
      areaLostcount := [];
      hasBits, unknownFields := 0, [];
      view := Fresh(GAME_END);
      new;
      hide *;
      IsFresh();
    }

    predicate HasTimeLeave()
      reads `hasBits
      ensures HasTimeLeave() <==> 0 in BitsOf(hasBits)
    {
      TestOfBit(hasBits, 0, 0x1);
      Test(hasBits, 0x1)
    }

    method SetTimeLeave(value: int)
      requires Valid() && InRange(UInt32, value)
      modifies this
      ensures Valid() && view == Set(old(view), 0, Scalar(true, value))
      ensures cachedSize == old(cachedSize) && tableCards == old(tableCards)
    {
      hide *;
      GameEndTable();
      Masks();
      SetScalarIsValid(GAME_END, view, 0, UInt32, true, value);
      SetOneBit(hasBits, 0, 0x1);
      hasBits, timeLeave := SetBits(hasBits, 0x1), value;
      view := Set(view, 0, Scalar(true, value));
      OneScalarChanged(0);
    }

    predicate HasBankerWinScore()
      reads `hasBits
      ensures HasBankerWinScore() <==> 3 in BitsOf(hasBits)
    {
      TestOfBit(hasBits, 3, 0x8);
      Test(hasBits, 0x8)
    }

    method SetBankerWinScore(value: int)
      requires Valid() && InRange(Int64, value)
      modifies this
      ensures Valid() && view == Set(old(view), 3, Scalar(true, value))
      ensures cachedSize == old(cachedSize) && tableCards == old(tableCards)
    {
      hide *;
      GameEndTable();
      Masks();
      SetScalarIsValid(GAME_END, view, 3, Int64, true, value);
      SetOneBit(hasBits, 3, 0x8);
      hasBits, bankerWinScore := SetBits(hasBits, 0x8), value;
      view := Set(view, 3, Scalar(true, value));
      OneScalarChanged(3);
    }

    predicate HasBankerTotalScore()
      reads `hasBits
      ensures HasBankerTotalScore() <==> 4 in BitsOf(hasBits)
    {
      TestOfBit(hasBits, 4, 0x10);
      Test(hasBits, 0x10)
    }

    method SetBankerTotalScore(value: int)
      requires Valid() && InRange(Int64, value)
      modifies this
      ensures Valid() && view == Set(old(view), 4, Scalar(true, value))
      ensures cachedSize == old(cachedSize) && tableCards == old(tableCards)
    {
      hide *;
      GameEndTable();
      Masks();
      SetScalarIsValid(GAME_END, view, 4, Int64, true, value);
      SetOneBit(hasBits, 4, 0x10);
      hasBits, bankerTotalScore := SetBits(hasBits, 0x10), value;
      view := Set(view, 4, Scalar(true, value));
      OneScalarChanged(4);
    }

    predicate HasBankerTime()
      reads `hasBits
      ensures HasBankerTime() <==> 5 in BitsOf(hasBits)
    {
      TestOfBit(hasBits, 5, 0x20);
      Test(hasBits, 0x20)
    }

    method SetBankerTime(value: int)
      requires Valid() && InRange(UInt32, value)
      modifies this
      ensures Valid() && view == Set(old(view), 5, Scalar(true, value))
      ensures cachedSize == old(cachedSize) && tableCards == old(tableCards)
    {
      hide *;
      GameEndTable();
      Masks();
      SetScalarIsValid(GAME_END, view, 5, UInt32, true, value);
      SetOneBit(hasBits, 5, 0x20);
      hasBits, bankerTime := SetBits(hasBits, 0x20), value;
      view := Set(view, 5, Scalar(true, value));
      OneScalarChanged(5);
    }

    predicate HasUserScore()
      reads `hasBits
      ensures HasUserScore() <==> 6 in BitsOf(hasBits)
    {
      TestOfBit(hasBits, 6, 0x40);
      Test(hasBits, 0x40)
    }

    method SetUserScore(value: int)
      requires Valid() && InRange(Int64, value)
      modifies this
      ensures Valid() && view == Set(old(view), 6, Scalar(true, value))
      ensures cachedSize == old(cachedSize) && tableCards == old(tableCards)
    {
      hide *;
      GameEndTable();
      Masks();
      SetScalarIsValid(GAME_END, view, 6, Int64, true, value);
      SetOneBit(hasBits, 6, 0x40);
      hasBits, userScore := SetBits(hasBits, 0x40), value;
      view := Set(view, 6, Scalar(true, value));
      OneScalarChanged(6);
    }

    predicate HasRandCard()
      reads `hasBits
      ensures HasRandCard() <==> 9 in BitsOf(hasBits)
    {
      TestOfBit(hasBits, 9, 0x200);
      Test(hasBits, 0x200)
    }

    method SetRandCard(value: int)
      requires Valid() && InRange(UInt32, value)
      modifies this
      ensures Valid() && view == Set(old(view), 9, Scalar(true, value))
      ensures cachedSize == old(cachedSize) && tableCards == old(tableCards)
    {
      hide *;
      GameEndTable();
      Masks();
      SetScalarIsValid(GAME_END, view, 9, UInt32, true, value);
      SetOneBit(hasBits, 9, 0x200);
      hasBits, randCard := SetBits(hasBits, 0x200), value;
      view := Set(view, 9, Scalar(true, value));
      OneScalarChanged(9);
    }

    predicate HasSettleAccountsType()
      reads `hasBits
      ensures HasSettleAccountsType() <==> 10 in BitsOf(hasBits)
    {
      TestOfBit(hasBits, 10, 0x400);
      Test(hasBits, 0x400)
    }

    method SetSettleAccountsType(value: int)
      requires Valid() && InRange(UInt32, value)
      modifies this
      ensures Valid() && view == Set(old(view), 10, Scalar(true, value))
      ensures cachedSize == old(cachedSize) && tableCards == old(tableCards)
    {
      hide *;
      GameEndTable();
      Masks();
      SetScalarIsValid(GAME_END, view, 10, UInt32, true, value);
      SetOneBit(hasBits, 10, 0x400);
      hasBits, settleAccountsType := SetBits(hasBits, 0x400), value;
      view := Set(view, 10, Scalar(true, value));
      OneScalarChanged(10);
    }

    predicate HasTotalGamecount()
      reads `hasBits
      ensures HasTotalGamecount() <==> 11 in BitsOf(hasBits)
    {
      TestOfBit(hasBits, 11, 0x800);
      Test(hasBits, 0x800)
    }

    method SetTotalGamecount(value: int)
      requires Valid() && InRange(UInt32, value)
      modifies this
      ensures Valid() && view == Set(old(view), 11, Scalar(true, value))
      ensures cachedSize == old(cachedSize) && tableCards == old(tableCards)
    {
      hide *;
      GameEndTable();
      Masks();
      SetScalarIsValid(GAME_END, view, 11, UInt32, true, value);
      SetOneBit(hasBits, 11, 0x800);
      hasBits, totalGamecount := SetBits(hasBits, 0x800), value;
      view := Set(view, 11, Scalar(true, value));
      OneScalarChanged(11);
    }

    method AddCardTypes(xs: seq<int>)
      requires Valid() && AllInRange(UInt32, xs)
      modifies this
      ensures Valid() && old(view.vals[2].Ints?) && view == AddInts(old(view), 2, xs)
      ensures cachedSize == old(cachedSize) && tableCards == old(tableCards)
    {
      hide Codec.Valid, BitsOf, Views, ValidList, Tables.GAME_END;
      GameEndTable();
      AddIntsIsValid(GAME_END, view, 2, xs);
      cardTypes := cardTypes + xs;
      view := AddInts(view, 2, xs);
    }

    method AddPlayerScore(xs: seq<int>)
      requires Valid() && AllInRange(Int64, xs)
      modifies this
      ensures Valid() && old(view.vals[7].Ints?) && view == AddInts(old(view), 7, xs)
      ensures cachedSize == old(cachedSize) && tableCards == old(tableCards)
    {
      hide Codec.Valid, BitsOf, Views, ValidList, Tables.GAME_END;
      GameEndTable();
      AddIntsIsValid(GAME_END, view, 7, xs);
      playerScore := playerScore + xs;
      view := AddInts(view, 7, xs);
    }

    method AddWinMultiple(xs: seq<int>)
      requires Valid() && AllInRange(Int32, xs)
      modifies this
      ensures Valid() && old(view.vals[8].Ints?) && view == AddInts(old(view), 8, xs)
      ensures cachedSize == old(cachedSize) && tableCards == old(tableCards)
    {
      hide Codec.Valid, BitsOf, Views, ValidList, Tables.GAME_END;
      GameEndTable();
      AddIntsIsValid(GAME_END, view, 8, xs);
      winMultiple := winMultiple + xs;
      view := AddInts(view, 8, xs);
    }

    method AddAreaWincount(xs: seq<int>)
      requires Valid() && AllInRange(UInt32, xs)
      modifies this
      ensures Valid() && old(view.vals[12].Ints?) && view == AddInts(old(view), 12, xs)
      ensures cachedSize == old(cachedSize) && tableCards == old(tableCards)
    {
      hide Codec.Valid, BitsOf, Views, ValidList, Tables.GAME_END;
      GameEndTable();
      AddIntsIsValid(GAME_END, view, 12, xs);
      areaWincount := areaWincount + xs;
      view := AddInts(view, 12, xs);
    }

    method AddAreaLostcount(xs: seq<int>)
      requires Valid() && AllInRange(UInt32, xs)
      modifies this
      ensures Valid() && old(view.vals[13].Ints?) && view == AddInts(old(view), 13, xs)
      ensures cachedSize == old(cachedSize) && tableCards == old(tableCards)
    {
      hide Codec.Valid, BitsOf, Views, ValidList, Tables.GAME_END;
      GameEndTable();
      AddIntsIsValid(GAME_END, view, 13, xs);
      areaLostcount := areaLostcount + xs;
      view := AddInts(view, 13, xs);
    }

    // ------------------------------------------------------------------------------------ clearing

    lemma NoneLow()
      requires !Test(hasBits, 0xFF << 0)
      ensures !HasTimeLeave() && !HasBankerWinScore() && !HasBankerTotalScore() && !HasBankerTime() && !HasUserScore()
    {
      GuardsTestTheirBits(hasBits);
    }

    /** Under its guard, the group of bit 0: a scalar the guard skips holds its default already. */
    method ClearLow()
      requires (HasTimeLeave() || timeLeave == 0) && (HasBankerWinScore() || bankerWinScore == 0)
          && (HasBankerTotalScore() || bankerTotalScore == 0) && (HasBankerTime() || bankerTime == 0)
          && (HasUserScore() || userScore == 0)
      modifies `timeLeave, `bankerWinScore, `bankerTotalScore, `bankerTime, `userScore
      ensures timeLeave == 0 && bankerWinScore == 0 && bankerTotalScore == 0 && bankerTime == 0 && userScore == 0
    {
      if Test(hasBits, 0xFF << 0) {
        timeLeave := 0;
        bankerWinScore := 0;
        bankerTotalScore := 0;
        bankerTime := 0;
        userScore := 0;
      } else {
        NoneLow();
      }
    }

    lemma NoneHigh()
      requires !Test(hasBits, 0xFF << 9)
      ensures !HasRandCard() && !HasSettleAccountsType() && !HasTotalGamecount()
    {
      GuardsTestTheirBits(hasBits);
    }

    /** Under its guard, the group of bit 9: a scalar the guard skips holds its default already. */
    method ClearHigh()
      requires (HasRandCard() || randCard == 0) && (HasSettleAccountsType() || settleAccountsType == 0)
          && (HasTotalGamecount() || totalGamecount == 0)
      modifies `randCard, `settleAccountsType, `totalGamecount
      ensures randCard == 0 && settleAccountsType == 0 && totalGamecount == 0
    {
      if Test(hasBits, 0xFF << 9) {
        randCard := 0;
        settleAccountsType := 0;
        totalGamecount := 0;
      } else {
        NoneHigh();
      }
    }

    method ClearScalars()
      requires Valid()
      modifies `timeLeave, `bankerWinScore, `bankerTotalScore, `bankerTime, `userScore, `randCard,
          `settleAccountsType, `totalGamecount
      ensures timeLeave == 0 && bankerWinScore == 0 && bankerTotalScore == 0 && bankerTime == 0 && userScore == 0
          && randCard == 0 && settleAccountsType == 0 && totalGamecount == 0
    {
      hide *;
      Facts();
      ClearLow();
      ClearHigh();
    }

    method Clear()
      requires Valid()
      modifies this
      ensures Valid() && view == Fresh(GAME_END) && tableCards == [] && cachedSize == old(cachedSize)
    {
      hide *;
      ClearScalars();
      tableCards := [];
      cardTypes := [];
      playerScore := [];
      winMultiple := [];
      areaWincount := [];
      areaLostcount := [];
      hasBits, unknownFields := 0, [];
      view := Fresh(GAME_END);
      IsFresh();
    }

    /** add_table_cards: a fresh element at the end of the list. */
    method AddTableCards()
      requires Valid()
      modifies this
      ensures Valid() && |tableCards| == |old(tableCards)| + 1 && tableCards[..|old(tableCards)|] == old(tableCards)
      ensures fresh(tableCards[|old(tableCards)|])
      ensures old(view.vals[1].Msgs?) && view == AddMsg(old(view), 1, Fresh(CARDS)) && cachedSize == old(cachedSize)
      ensures old(view).vals[1] == Msgs(old(Views(tableCards)))
          && Views(tableCards) == old(Views(tableCards)) + [Fresh(CARDS)]
    {
      hide *;
      GameEndTable();
      Facts();
      FreshIsValid(CARDS);
      AddMsgIsValid(GAME_END, view, 1, Fresh(CARDS));
      ListGrown(view, 1, Fresh(CARDS));
      tableCards := Append(tableCards);
      view := AddMsg(view, 1, Fresh(CARDS));
      OnlyCardsChanged();
    }

    // ------------------------------------------------------------------------------------- parsing

    method ParseScalar(num: nat, input: CodedInputStream) returns (ok: bool)
      requires Valid() && input.Valid() && num in {1, 4, 5, 6, 7, 10, 11, 12}
      modifies this, input`pos
      ensures Valid() && tableCards == old(tableCards) && input.Valid() && (ok ==> |input.Rest()| < |old(input.Rest())|)
      ensures AfterTag(input.Environment(), GAME_END, num, VARINT, old(input.Rest()), old(view))
           == if ok then Parse(input.Environment(), GAME_END, input.Rest(), view) else Fail(view)
    {
      hide Codec.Valid, BitsOf, MsgBainiuGameEnd.Tied, MsgBainiuGameEnd.Valid, Codec.Parse, Codec.AfterTag,
          ValidList, Views, Tables.GAME_END;
      GameEndTable();
      var k := if num in {4, 5, 7} then Int64 else UInt32;
      var x;
      ok, x := ReadPrimitive(input, k, GAME_END, num, view);
      if !ok {
        return;
      }
      match num {
        case 1 => SetTimeLeave(x);
        case 4 => SetBankerWinScore(x);
        case 5 => SetBankerTotalScore(x);
        case 6 => SetBankerTime(x);
        case 7 => SetUserScore(x);
        case 10 => SetRandCard(x);
        case 11 => SetSettleAccountsType(x);
        case 12 => SetTotalGamecount(x);
      }
    }

    method ParseList(num: nat, wt: nat, input: CodedInputStream) returns (ok: bool)
      requires Valid() && input.Valid() && !input.legitimateEnd
      requires num in {3, 8, 9, 13, 14} && (wt == VARINT || wt == LENGTH_DELIMITED)
      modifies this, input`pos, input`limit, input`legitimateEnd
      ensures Valid() && tableCards == old(tableCards) && input.Valid() && !input.legitimateEnd
      ensures ok ==> |input.Rest()| < |old(input.Rest())| && input.limit == old(input.limit)
      ensures AfterTag(input.Environment(), GAME_END, num, wt, old(input.Rest()), old(view))
           == if ok then Parse(input.Environment(), GAME_END, input.Rest(), view) else Fail(view)
    {
      hide Codec.Valid, BitsOf, MsgBainiuGameEnd.Tied, MsgBainiuGameEnd.Valid, Codec.Parse, Codec.AfterTag,
          ValidList, Views, Tables.GAME_END;
      GameEndTable();
      Facts();
      var k := if num == 3 || num == 13 || num == 14 then UInt32 else if num == 9 then Int32 else Int64;
      var xs;
      if wt == VARINT {
        ok, xs := ReadRepeatedPrimitive(input, k, 8 * num, GAME_END, num, view);
      } else {
        ok, xs := ReadPackedPrimitive(input, k, GAME_END, num, view);
      }
      match num {
        case 3 => AddCardTypes(xs);
        case 8 => AddPlayerScore(xs);
        case 9 => AddWinMultiple(xs);
        case 13 => AddAreaWincount(xs);
        case 14 => AddAreaLostcount(xs);
      }
    }

    method ParseTableCards(input: CodedInputStream) returns (ok: bool)
      requires Valid() && input.Valid() && !input.legitimateEnd
      modifies this, input
      ensures Valid() && |tableCards| == |old(tableCards)| + 1 && tableCards[..|old(tableCards)|] == old(tableCards)
      ensures fresh(tableCards[|old(tableCards)|])
      ensures ok ==> input.Valid() && !input.legitimateEnd && input.limit == old(input.limit) && input.depth == old(input.depth)
      ensures ok ==> |input.Rest()| < |old(input.Rest())|
      ensures AfterTag(old(input.Environment()), GAME_END, 2, LENGTH_DELIMITED, old(input.Rest()), old(view))
           == if ok then Parse(old(input.Environment()), GAME_END, input.Rest(), view) else Fail(view)
    {
      hide *;
      GameEndTable();
      Facts();
      ghost var m, had := view, Views(tableCards);
      AddTableCards();
      label added:
      ok := ReadLast(input, tableCards, GAME_END, 2, m);
      ghost var x := Views(tableCards)[|tableCards| - 1];
      AfterElementMeans(old(input.Environment()), GAME_END, 2, x, ok, if ok then input.Rest() else [], m);
      assert Views(tableCards) == had + [x];
      OtherElement(m, 1, Fresh(CARDS), x);
      AddMsgIsValid(GAME_END, m, 1, x);
      view := AddMsg(m, 1, x);
      OnlyCardsChanged@added();
    }

    /** The switch: one field's payload, read into its field. */
    method ParseField(num: nat, wt: nat, input: CodedInputStream) returns (ok: bool)
      requires Valid() && input.Valid() && !input.legitimateEnd && GameEndAccepts(num, wt)
      modifies this, input
      ensures Valid() && 1 <= num <= 14
      ensures forall i :: 0 <= i < |tableCards| ==> tableCards[i] in old(tableCards) || fresh(tableCards[i])
      ensures ok ==> input.Valid() && !input.legitimateEnd && input.limit == old(input.limit) && input.depth == old(input.depth)
      ensures ok ==> |input.Rest()| < |old(input.Rest())|
      ensures AfterTag(old(input.Environment()), GAME_END, num, wt, old(input.Rest()), old(view))
           == if ok then Parse(old(input.Environment()), GAME_END, input.Rest(), view) else Fail(view)
    {
      hide Codec.Valid, BitsOf, MsgBainiuGameEnd.Tied, MsgBainiuGameEnd.Valid, Codec.Parse, Codec.AfterTag,
          ValidList, Views, Codec.Shaped;
      if num == 2 {
        ok := ParseTableCards(input);
      } else if num in {3, 8, 9, 13, 14} {
        ok := ParseList(num, wt, input);
      } else {
        ok := ParseScalar(num, input);
      }
    }

    /** The ExpectTag calls at the end of each case: a list's own tag, the next field's, or the end. */
    method ExpectNext(num: nat, input: CodedInputStream) returns (next: nat)
      requires input.Valid() && !input.legitimateEnd && 1 <= num <= 14
      modifies input`pos, input`legitimateEnd
      ensures input.Valid() && Followed(GAME_END, next, old(input.Rest()), input.Rest(), input.legitimateEnd)
    {
      hide Generated.Followed, CodedInputStream.Rest, Tables.GAME_END;
      GameEndTable();
      next := 0;
      match num {
        case 2 => next := Jump(18, 2, input, GAME_END);
        case 3 => next := Jump(24, 3, input, GAME_END);
        case 8 => next := Jump(64, 8, input, GAME_END);
        case 9 => next := Jump(72, 9, input, GAME_END);
        case 13 => next := Jump(104, 13, input, GAME_END);
        case 14 => next := Jump(112, 14, input, GAME_END);
        case _ => next := 0;
      }
      if next != 0 {
        return;
      }
      match num {
        case 1 => next := Jump(18, 2, input, GAME_END);
        case 2 => next := Jump(24, 3, input, GAME_END);
        case 3 => next := Jump(32, 4, input, GAME_END);
        case 4 => next := Jump(40, 5, input, GAME_END);
        case 5 => next := Jump(48, 6, input, GAME_END);
        case 6 => next := Jump(56, 7, input, GAME_END);
        case 7 => next := Jump(64, 8, input, GAME_END);
        case 8 => next := Jump(72, 9, input, GAME_END);
        case 9 => next := Jump(80, 10, input, GAME_END);
        case 10 => next := Jump(88, 11, input, GAME_END);
        case 11 => next := Jump(96, 12, input, GAME_END);
        case 12 => next := Jump(104, 13, input, GAME_END);
        case 13 => next := Jump(112, 14, input, GAME_END);
        case 14 => next := End(input, GAME_END);
      }
    }

    /** Adds records at the end of the unknown fields. */
    method AddUnknownFields(rs: seq<Record>)
      requires Valid() && AllForeign(GAME_END, rs)
      modifies this
      ensures Valid() && view == AddUnknowns(old(view), rs) && cachedSize == old(cachedSize)
          && tableCards == old(tableCards)
    {
      hide Codec.Valid, BitsOf, ValidList, Views, Tables.GAME_END;
      AddUnknownsIsValid(GAME_END, view, rs);
      unknownFields := unknownFields + rs;
      view := AddUnknowns(view, rs);
    }

    /** The end of the enclosing group ends the loop; anything else is kept, as far as it can be read. */
    method HandleUninterpreted(num: nat, wt: nat, input: CodedInputStream) returns (ok: bool, ended: bool)
      requires Valid() && input.Valid() && wt < 8 && 0 < 8 * num + wt < TWO_32 && !Accepts(GAME_END, num, wt)
      modifies this, input`pos
      ensures Valid() && input.Valid() && (ok && !ended ==> |input.Rest()| <= |old(input.Rest())|) && tableCards == old(tableCards)
      ensures AfterTag(input.Environment(), GAME_END, num, wt, old(input.Rest()), old(view))
           == if !ok then Fail(view)
              else if ended then Done(view, input.Rest(), EndGroupTag)
              else Parse(input.Environment(), GAME_END, input.Rest(), view)
    {
      hide Codec.Valid, Codec.Accepts, Codec.Parse, Codec.AfterTag, MsgBainiuGameEnd.Tied, MsgBainiuGameEnd.Valid,
          ValidList, Views, Codec.Shaped;
      if wt == END_GROUP {
        EndGroupAfterTag(input.Environment(), GAME_END, num, input.Rest(), view);
        return true, true;
      }
      ended := false;
      var kept;
      ok, kept := ReadUnknown(input, num, wt, GAME_END, view);
      AddUnknownFields(kept);
    }

    /**
      The tag loop with its jumps: `jumped` holds when the tag of field `num` was matched by
      ExpectTag and the loop continues at that field's label. Whatever ExpectTag and ExpectAtEnd
      answer, the outcome is that of the loop without them.
     */
    method MergePartialFromCodedStream(input: CodedInputStream) returns (ok: bool)
      requires Valid() && input.Valid() && !input.legitimateEnd
      modifies this, input
      ensures Valid()
      ensures forall i :: 0 <= i < |tableCards| ==> tableCards[i] in old(tableCards) || fresh(tableCards[i])
      ensures ParsedAs(Parse(old(input.Environment()), GAME_END, old(input.Rest()), old(view)), ok, view, input)
      ensures ok ==> input.limit == old(input.limit) && input.depth == old(input.depth)
    {
      hide MsgBainiuGameEnd.Tied, MsgBainiuGameEnd.Valid, ValidList, Views, Codec.Shaped, Codec.Valid, Codec.Parse,
          Codec.AfterTag, Codec.Accepts, Codec.OneByteTags, Generated.Followed,
        Wire.ReadTag, CodedInputStream.Rest;
      ghost var env, o := input.Environment(), Parse(input.Environment(), GAME_END, input.Rest(), view);
      var num, wt, jumped := 0, 0, false;
      while true
        invariant Valid() && input.Valid() && !input.legitimateEnd && wt < 8
        invariant input.limit == old(input.limit) && input.depth == old(input.depth)
        invariant forall i :: 0 <= i < |tableCards| ==> tableCards[i] in old(tableCards) || fresh(tableCards[i])
        invariant jumped ==> Accepts(GAME_END, num, wt)
        invariant o == if jumped then AfterTag(env, GAME_END, num, wt, input.Rest(), view)
                       else Parse(env, GAME_END, input.Rest(), view)
        decreases |input.Rest()|
      {
        if !jumped {
          ParseReadsTag(env, GAME_END, input.Rest(), view);
          var tag := input.ReadTag();
          if tag == 0 {
            return true;
          }
          num, wt := tag / 8, tag % 8;
        }
        jumped := false;
        GameEndSwitch(num, wt);
        if GameEndAccepts(num, wt) {
          ok := ParseField(num, wt, input);
          if !ok {
            return;
          }
          ghost var at := input.Rest();
          var next := ExpectNext(num, input);
          TagsAreOneByte();
          FollowedMeans(env, GAME_END, next, at, input.Rest(), input.legitimateEnd, view);
          if next == AT_END {
            return true;
          } else if next != 0 {
            num, wt, jumped := next, WireTypeOf(GAME_END.fields[next - 1]), true;
          }
        } else {
          var ended;
          ok, ended := HandleUninterpreted(num, wt, input);
          if !ok || ended {
            return;
          }
        }
      }
    }

    // --------------------------------------------------------------------------------- serializing

    /** Adds the present scalars of the group of bit 0, under its guard. */
    method SizeLow(total: nat) returns (size: nat)
      requires Valid()
      ensures size == total + SizeAt(GAME_END, view, 0) + SizeAt(GAME_END, view, 3) + SizeAt(GAME_END, view, 4)
          + SizeAt(GAME_END, view, 5) + SizeAt(GAME_END, view, 6)
    {
      hide *;
      GameEndTable();
      Facts();
      OptionalSize(GAME_END, view, 0, UInt32, HasTimeLeave(), timeLeave);
      OptionalSize(GAME_END, view, 3, Int64, HasBankerWinScore(), bankerWinScore);
      OptionalSize(GAME_END, view, 4, Int64, HasBankerTotalScore(), bankerTotalScore);
      OptionalSize(GAME_END, view, 5, UInt32, HasBankerTime(), bankerTime);
      OptionalSize(GAME_END, view, 6, Int64, HasUserScore(), userScore);
      size := total;
      if Test(hasBits, 0xFF << 0) {
        if HasTimeLeave() { size := size + 1 + KindSize(UInt32, timeLeave); }
        assert size == total + SizeAt(GAME_END, view, 0);
        if HasBankerWinScore() { size := size + 1 + KindSize(Int64, bankerWinScore); }
        assert size == total + SizeAt(GAME_END, view, 0) + SizeAt(GAME_END, view, 3);
        if HasBankerTotalScore() { size := size + 1 + KindSize(Int64, bankerTotalScore); }
        assert size == total + SizeAt(GAME_END, view, 0) + SizeAt(GAME_END, view, 3) + SizeAt(GAME_END, view, 4);
        if HasBankerTime() { size := size + 1 + KindSize(UInt32, bankerTime); }
        assert size == total + SizeAt(GAME_END, view, 0) + SizeAt(GAME_END, view, 3) + SizeAt(GAME_END, view, 4)
            + SizeAt(GAME_END, view, 5);
        if HasUserScore() { size := size + 1 + KindSize(Int64, userScore); }
        assert size == total + SizeAt(GAME_END, view, 0) + SizeAt(GAME_END, view, 3) + SizeAt(GAME_END, view, 4)
            + SizeAt(GAME_END, view, 5) + SizeAt(GAME_END, view, 6);
      } else {
        NoneLow();
      }
    }

    /** Adds the present scalars of the group of bit 9, under its guard. */
    method SizeHigh(total: nat) returns (size: nat)
      requires Valid()
      ensures size == total + SizeAt(GAME_END, view, 9) + SizeAt(GAME_END, view, 10) + SizeAt(GAME_END, view, 11)
    {
      hide *;
      GameEndTable();
      Facts();
      OptionalSize(GAME_END, view, 9, UInt32, HasRandCard(), randCard);
      OptionalSize(GAME_END, view, 10, UInt32, HasSettleAccountsType(), settleAccountsType);
      OptionalSize(GAME_END, view, 11, UInt32, HasTotalGamecount(), totalGamecount);
      size := total;
      if Test(hasBits, 0xFF << 9) {
        if HasRandCard() { size := size + 1 + KindSize(UInt32, randCard); }
        assert size == total + SizeAt(GAME_END, view, 9);
        if HasSettleAccountsType() { size := size + 1 + KindSize(UInt32, settleAccountsType); }
        assert size == total + SizeAt(GAME_END, view, 9) + SizeAt(GAME_END, view, 10);
        if HasTotalGamecount() { size := size + 1 + KindSize(UInt32, totalGamecount); }
        assert size == total + SizeAt(GAME_END, view, 9) + SizeAt(GAME_END, view, 10) + SizeAt(GAME_END, view, 11);
      } else {
        NoneHigh();
      }
    }

    method SizeLists(total: nat) returns (size: nat)
      requires Valid()
      ensures size == total + SizeAt(GAME_END, view, 2) + SizeAt(GAME_END, view, 7) + SizeAt(GAME_END, view, 8)
          + SizeAt(GAME_END, view, 12) + SizeAt(GAME_END, view, 13)
    {
      hide *;
      GameEndTable();
      Facts();
      ListSizeAt(GAME_END, view, 2, UInt32, cardTypes);
      ListSizeAt(GAME_END, view, 7, Int64, playerScore);
      ListSizeAt(GAME_END, view, 8, Int32, winMultiple);
      ListSizeAt(GAME_END, view, 12, UInt32, areaWincount);
      ListSizeAt(GAME_END, view, 13, UInt32, areaLostcount);
      size := total;
      var listSize;
      listSize := ListSize(UInt32, cardTypes);
      size := size + listSize;
      listSize := ListSize(Int64, playerScore);
      size := size + listSize;
      listSize := ListSize(Int32, winMultiple);
      size := size + listSize;
      listSize := ListSize(UInt32, areaWincount);
      size := size + listSize;
      listSize := ListSize(UInt32, areaLostcount);
      size := size + listSize;
    }

    /** The scalars under their group guards, then the lists; every element is left with its size cached. */
    method ByteSize() returns (size: nat)
      requires Valid()
      modifies this`cachedSize, tableCards`cachedSize
      ensures Valid() && SizesAreCurrent(tableCards) && size == Sizes.ByteSize(GAME_END, view) && cachedSize == size
    {
      hide *;
      GameEndTable();
      Facts();
      GameEndSize(view);
      MessagesSizeAt(GAME_END, view, 1, CARDS, Views(tableCards));
      size := SizeLow(0);
      size := SizeHigh(size);
      var cardsSize := SizeAll(tableCards);
      size := size + cardsSize;
      size := SizeLists(size);
      size := size + UnknownSize(unknownFields);
      cachedSize := size;
    }

    lemma CardsAreSized()
      requires Valid() && Sizes.ByteSize(GAME_END, view) < TWO_31
      ensures forall j :: 0 <= j < |tableCards| ==> Codec.Valid(CARDS, Views(tableCards)[j])
      ensures MsgsSize(CARDS, Views(tableCards)) < TWO_31 && |Serialize(GAME_END, view)| == Sizes.ByteSize(GAME_END, view)
    {
      hide *;
      GameEndTable();
      Facts();
      GameEndSize(view);
      MessagesSizeAt(GAME_END, view, 1, CARDS, Views(tableCards));
      GameEndTagsAreOneByte();
      ByteSizeIsExact(GAME_END, view);
    }

    /** Second phase, in field order, up to field 7: the cached sizes must be current. */
    method SerializeFirst(buf: array<Byte>, at: nat, ghost was: seq<Byte>) returns (end: nat)
      requires Valid() && SizesAreCurrent(tableCards) && buf[..] == was && Codec.Valid(GAME_END, view)
          && |GAME_END.fields| == 14
      requires Sizes.ByteSize(GAME_END, view) < TWO_31 && at + Sizes.ByteSize(GAME_END, view) <= buf.Length
      modifies buf
      ensures HasWritten(buf, end, was, at, GAME_END, view, 7)
    {
      hide *;
      GameEndTable();
      Facts();
      CardsAreSized();
      NothingWritten(buf, was, at, GAME_END, view);
      end := at;
      end := WriteOptional(1, UInt32, HasTimeLeave(), timeLeave, buf, end, was, at, GAME_END, view);
      end := WriteAll(2, tableCards, buf, end, was, at, GAME_END, view);
      end := WriteList(3, UInt32, cardTypes, buf, end, was, at, GAME_END, view);
      end := WriteOptional(4, Int64, HasBankerWinScore(), bankerWinScore, buf, end, was, at, GAME_END, view);
      end := WriteOptional(5, Int64, HasBankerTotalScore(), bankerTotalScore, buf, end, was, at, GAME_END, view);
      end := WriteOptional(6, UInt32, HasBankerTime(), bankerTime, buf, end, was, at, GAME_END, view);
      end := WriteOptional(7, Int64, HasUserScore(), userScore, buf, end, was, at, GAME_END, view);
    }

    /** Second phase: with the cached sizes current, exactly the serialized bytes. */
    method SerializeWithCachedSizesToArray(buf: array<Byte>, at: nat) returns (end: nat)
      requires Valid() && SizesAreCurrent(tableCards)
      requires Sizes.ByteSize(GAME_END, view) < TWO_31 && at + Sizes.ByteSize(GAME_END, view) <= buf.Length
      modifies buf
      ensures end == at + Sizes.ByteSize(GAME_END, view)
      ensures buf[..end] == old(buf[..at]) + Serialize(GAME_END, view)
      ensures buf[end..] == old(buf[..])[end..]
    {
      hide *;
      GameEndTable();
      ghost var was := buf[..];
      Facts();
      CardsAreSized();
      end := SerializeFirst(buf, at, was);
      end := WriteList(8, Int64, playerScore, buf, end, was, at, GAME_END, view);
      end := WriteList(9, Int32, winMultiple, buf, end, was, at, GAME_END, view);
      end := WriteOptional(10, UInt32, HasRandCard(), randCard, buf, end, was, at, GAME_END, view);
      end := WriteOptional(11, UInt32, HasSettleAccountsType(), settleAccountsType, buf, end, was, at, GAME_END, view);
      end := WriteOptional(12, UInt32, HasTotalGamecount(), totalGamecount, buf, end, was, at, GAME_END, view);
      end := WriteList(13, UInt32, areaWincount, buf, end, was, at, GAME_END, view);
      end := WriteList(14, UInt32, areaLostcount, buf, end, was, at, GAME_END, view);
      end := WriteUnknown(unknownFields, buf, end, was, at, GAME_END, view);
    }

    // --------------------------------------------------------------------------- from and to arrays

    /** MessageLite::SerializeToArray: both phases, if the bytes fit. */
    method SerializeToArray(buf: array<Byte>, size: nat) returns (ok: bool)
      requires Valid() && size <= buf.Length && size < TWO_31
      modifies this`cachedSize, tableCards`cachedSize, buf
      ensures Valid() && view == old(view)
      ensures ok <==> Sizes.ByteSize(GAME_END, view) <= size
      ensures ok ==> |Serialize(GAME_END, view)| == Sizes.ByteSize(GAME_END, view)
      ensures ok ==> buf[..] == Serialize(GAME_END, view) + old(buf[..])[Sizes.ByteSize(GAME_END, view)..]
      ensures !ok ==> buf[..] == old(buf[..])
    {
      hide *;
      var n := ByteSize();
      ok := n <= size;
      if ok {
        TagsAreOneByte();
        ByteSizeIsExact(GAME_END, view);
        ghost var was := buf[..];
        var end := SerializeWithCachedSizesToArray(buf, 0);
        assert was[..0] + Serialize(GAME_END, view) == Serialize(GAME_END, view);
        assert buf[..] == buf[..end] + buf[end..];
      }
    }

    /** MessageLite::ParseFromArray: the whole input must be one message. */
    method ParseFromArray(bytes: seq<Byte>, depth: nat, clamp: bool) returns (ok: bool)
      requires Valid()
      modifies this
      ensures Valid() && forall i :: 0 <= i < |tableCards| ==> fresh(tableCards[i])
      ensures view == Parse(Env(depth, clamp), GAME_END, bytes, Fresh(GAME_END)).m
      ensures ok == Parse(Env(depth, clamp), GAME_END, bytes, Fresh(GAME_END)).Complete()
    {
      hide MsgBainiuGameEnd.Tied, MsgBainiuGameEnd.Valid, ValidList, Views, BitsOf, Codec.Valid, Codec.Parse,
          Codec.Fresh, CodedInputStream.Rest;
      Clear();
      var input := new CodedInputStream(bytes, depth, clamp);
      ok := MergePartialFromCodedStream(input);
      ok := ok && input.legitimateEnd;
    }

    // ------------------------------------------------------------------------------------- merging

    /** `if (from.has_f()) set_f(from.f());` */
    method MergeOptional(k: nat, i: nat, from: MsgBainiuGameEnd, ghost a: Msg, ghost order: seq<nat>)
      requires Valid() && from.Valid() && from != this && i in {0, 3, 4, 5, 6, 9, 10, 11}
      requires Visits(GAME_END, order) && k < |order| && order[k] == i
      requires Shaped(GAME_END, a) && view == MergedTo(GAME_END, a, from.view, order, k)
      modifies this
      ensures Valid() && view == MergedTo(GAME_END, a, from.view, order, k + 1) && cachedSize == old(cachedSize)
          && tableCards == old(tableCards)
    {
      hide *;
      GameEndTable();
      from.Facts();
      MergeStep(GAME_END, a, from.view, order, k);
      match i {
        case 0 => if from.HasTimeLeave() { SetTimeLeave(from.timeLeave); }
        case 3 => if from.HasBankerWinScore() { SetBankerWinScore(from.bankerWinScore); }
        case 4 => if from.HasBankerTotalScore() { SetBankerTotalScore(from.bankerTotalScore); }
        case 5 => if from.HasBankerTime() { SetBankerTime(from.bankerTime); }
        case 6 => if from.HasUserScore() { SetUserScore(from.userScore); }
        case 9 => if from.HasRandCard() { SetRandCard(from.randCard); }
        case 10 => if from.HasSettleAccountsType() { SetSettleAccountsType(from.settleAccountsType); }
        case 11 => if from.HasTotalGamecount() { SetTotalGamecount(from.totalGamecount); }
      }
    }

    method MergeLists(from: MsgBainiuGameEnd, ghost a: Msg, ghost order: seq<nat>)
      requires Valid() && from.Valid() && from != this && view == a && Shaped(GAME_END, a) && order == GameEndMergeOrder()
      modifies this
      ensures Valid() && view == MergedTo(GAME_END, a, from.view, order, 6) && cachedSize == old(cachedSize)
      ensures forall i :: 0 <= i < |tableCards| ==> tableCards[i] in old(tableCards) || fresh(tableCards[i])
    {
      hide *;
      GameEndTable();
      GameEndVisits();
      from.Facts();
      MergeEnds(GAME_END, a, from.view, order);
      MergeMsgsStep(GAME_END, a, from.view, order, 0, Views(from.tableCards));
      MergeTableCards(from.tableCards);
      MergeIntsStep(GAME_END, a, from.view, order, 1, from.cardTypes);
      AddCardTypes(from.cardTypes);
      MergeIntsStep(GAME_END, a, from.view, order, 2, from.playerScore);
      AddPlayerScore(from.playerScore);
      MergeIntsStep(GAME_END, a, from.view, order, 3, from.winMultiple);
      AddWinMultiple(from.winMultiple);
      MergeIntsStep(GAME_END, a, from.view, order, 4, from.areaWincount);
      AddAreaWincount(from.areaWincount);
      MergeIntsStep(GAME_END, a, from.view, order, 5, from.areaLostcount);
      AddAreaLostcount(from.areaLostcount);
    }

    method MergeTableCards(theirs: seq<MsgCards>)
      requires Valid() && ValidList(theirs)
      modifies this
      ensures Valid() && old(view.vals[1].Msgs?) && view == Set(old(view), 1, Msgs(old(view).vals[1].ms + Views(theirs)))
      ensures cachedSize == old(cachedSize)
      ensures forall i :: 0 <= i < |tableCards| ==> tableCards[i] in old(tableCards) || fresh(tableCards[i])
    {
      hide Codec.Valid, BitsOf, MsgCards.Valid, Views, ValidList, Tables.GAME_END, MsgBainiuGameEnd.Tied,
          MsgBainiuGameEnd.Valid, Codec.Shaped;
      GameEndTable();
      ghost var m := view;
      Facts();
      ViewsAreValid(theirs);
      AddMsgsIsValid(GAME_END, m, 1, CARDS, Views(theirs));
      tableCards := MergeList(tableCards, theirs);
      view := Set(m, 1, Msgs(m.vals[1].ms + Views(theirs)));
      OnlyCardsChanged();
    }

    method MergeLow(from: MsgBainiuGameEnd, ghost a: Msg, ghost order: seq<nat>)
      requires Valid() && from.Valid() && from != this && Shaped(GAME_END, a) && order == GameEndMergeOrder()
      requires view == MergedTo(GAME_END, a, from.view, order, 6)
      modifies this
      ensures Valid() && view == MergedTo(GAME_END, a, from.view, order, 11) && cachedSize == old(cachedSize)
          && tableCards == old(tableCards)
    {
      hide *;
      GameEndVisits();
      from.Facts();
      if Test(from.hasBits, 0xFF << 0) {
        MergeOptional(6, 0, from, a, order);
        MergeOptional(7, 3, from, a, order);
        MergeOptional(8, 4, from, a, order);
        MergeOptional(9, 5, from, a, order);
        MergeOptional(10, 6, from, a, order);
      } else {
        from.NoneLow();
        AbsentKeeps(GAME_END, a, from.view, order, 6, 11);
      }
    }

    method MergeHigh(from: MsgBainiuGameEnd, ghost a: Msg, ghost order: seq<nat>)
      requires Valid() && from.Valid() && from != this && Shaped(GAME_END, a) && order == GameEndMergeOrder()
      requires view == MergedTo(GAME_END, a, from.view, order, 11)
      modifies this
      ensures Valid() && view == MergedTo(GAME_END, a, from.view, order, 14) && cachedSize == old(cachedSize)
          && tableCards == old(tableCards)
    {
      hide *;
      GameEndVisits();
      from.Facts();
      if Test(from.hasBits, 0xFF << 9) {
        MergeOptional(11, 9, from, a, order);
        MergeOptional(12, 10, from, a, order);
        MergeOptional(13, 11, from, a, order);
      } else {
        from.NoneHigh();
        AbsentKeeps(GAME_END, a, from.view, order, 11, 14);
      }
    }

    /** Lists are appended first; then each group of scalars that has any present. */
    method MergeFrom(from: MsgBainiuGameEnd)
      requires Valid() && from.Valid() && from != this
      modifies this
      ensures Valid() && view == Merge(GAME_END, old(view), from.view) && cachedSize == old(cachedSize)
      ensures forall i :: 0 <= i < |tableCards| ==> tableCards[i] in old(tableCards) || fresh(tableCards[i])
    {
      hide *;
      GameEndVisits();
      ghost var a, b, order := view, from.view, GameEndMergeOrder();
      Facts();
      from.Facts();
      MergeEnds(GAME_END, a, b, order);
      MergeKeepsValid(GAME_END, a, b);
      MergeLists(from, a, order);
      MergeLow(from, a, order);
      MergeHigh(from, a, order);
      AddUnknownFields(from.unknownFields);
    }

    method CopyFrom(from: MsgBainiuGameEnd)
      requires Valid() && from.Valid()
      modifies this
      ensures Valid() && view == old(from.view) && cachedSize == old(cachedSize)
      ensures from != this ==> forall i :: 0 <= i < |tableCards| ==> fresh(tableCards[i])
    {
      hide Codec.Valid, BitsOf, MsgBainiuGameEnd.Tied, MsgBainiuGameEnd.Valid, Codec.Merge, Codec.Shaped, ValidList,
          Views, Tables.GAME_END;
      if from == this {
        return;
      }
      Clear();
      MergeFrom(from);
      CopyIsExactlyForDefaults(GAME_END, from.view);
    }

    method SwapScalars(other: MsgBainiuGameEnd)
      requires other != this
      modifies `timeLeave, `bankerWinScore, `bankerTotalScore, `bankerTime, `userScore, `randCard,
          `settleAccountsType, `totalGamecount, other`timeLeave, other`bankerWinScore, other`bankerTotalScore,
          other`bankerTime, other`userScore, other`randCard, other`settleAccountsType, other`totalGamecount
      ensures timeLeave == old(other.timeLeave) && other.timeLeave == old(timeLeave)
      ensures bankerWinScore == old(other.bankerWinScore) && other.bankerWinScore == old(bankerWinScore)
      ensures bankerTotalScore == old(other.bankerTotalScore) && other.bankerTotalScore == old(bankerTotalScore)
      ensures bankerTime == old(other.bankerTime) && other.bankerTime == old(bankerTime)
      ensures userScore == old(other.userScore) && other.userScore == old(userScore)
      ensures randCard == old(other.randCard) && other.randCard == old(randCard)
      ensures settleAccountsType == old(other.settleAccountsType) && other.settleAccountsType == old(settleAccountsType)
      ensures totalGamecount == old(other.totalGamecount) && other.totalGamecount == old(totalGamecount)
    {
      hide *;
      timeLeave, other.timeLeave := other.timeLeave, timeLeave;
      bankerWinScore, other.bankerWinScore := other.bankerWinScore, bankerWinScore;
      bankerTotalScore, other.bankerTotalScore := other.bankerTotalScore, bankerTotalScore;
      bankerTime, other.bankerTime := other.bankerTime, bankerTime;
      userScore, other.userScore := other.userScore, userScore;
      randCard, other.randCard := other.randCard, randCard;
      settleAccountsType, other.settleAccountsType := other.settleAccountsType, settleAccountsType;
      totalGamecount, other.totalGamecount := other.totalGamecount, totalGamecount;
    }

    method SwapLists(other: MsgBainiuGameEnd)
      requires other != this
      modifies `tableCards, other`tableCards, `cardTypes, `playerScore, `winMultiple, `areaWincount, `areaLostcount,
          other`cardTypes, other`playerScore, other`winMultiple, other`areaWincount, other`areaLostcount
      ensures tableCards == old(other.tableCards) && other.tableCards == old(tableCards)
      ensures cardTypes == old(other.cardTypes) && other.cardTypes == old(cardTypes)
      ensures playerScore == old(other.playerScore) && other.playerScore == old(playerScore)
      ensures winMultiple == old(other.winMultiple) && other.winMultiple == old(winMultiple)
      ensures areaWincount == old(other.areaWincount) && other.areaWincount == old(areaWincount)
      ensures areaLostcount == old(other.areaLostcount) && other.areaLostcount == old(areaLostcount)
    {
      hide *;
      tableCards, other.tableCards := other.tableCards, tableCards;
      cardTypes, other.cardTypes := other.cardTypes, cardTypes;
      playerScore, other.playerScore := other.playerScore, playerScore;
      winMultiple, other.winMultiple := other.winMultiple, winMultiple;
      areaWincount, other.areaWincount := other.areaWincount, areaWincount;
      areaLostcount, other.areaLostcount := other.areaLostcount, areaLostcount;
    }

    method SwapRest(other: MsgBainiuGameEnd)
      requires other != this
      modifies `hasBits, `unknownFields, `cachedSize, `view, other`hasBits, other`unknownFields, other`cachedSize,
          other`view
      ensures hasBits == old(other.hasBits) && other.hasBits == old(hasBits)
      ensures unknownFields == old(other.unknownFields) && other.unknownFields == old(unknownFields)
      ensures cachedSize == old(other.cachedSize) && other.cachedSize == old(cachedSize)
      ensures view == old(other.view) && other.view == old(view)
    {
      hide *;
      hasBits, other.hasBits := other.hasBits, hasBits;
      unknownFields, other.unknownFields := other.unknownFields, unknownFields;
      cachedSize, other.cachedSize := other.cachedSize, cachedSize;
      view, other.view := other.view, view;
    }

    /** With all the fields of another message come its ties. */
    twostate lemma HoldsAllOf(other: MsgBainiuGameEnd)
      requires old(other.Valid()) && view == old(other.view) && hasBits == old(other.hasBits)
          && unknownFields == old(other.unknownFields)
      requires tableCards == old(other.tableCards) && ValidList(tableCards)
          && Views(tableCards) == old(Views(other.tableCards))
      requires timeLeave == old(other.timeLeave)
      requires cardTypes == old(other.cardTypes)
      requires bankerWinScore == old(other.bankerWinScore)
      requires bankerTotalScore == old(other.bankerTotalScore)
      requires bankerTime == old(other.bankerTime)
      requires userScore == old(other.userScore)
      requires playerScore == old(other.playerScore)
      requires winMultiple == old(other.winMultiple)
      requires randCard == old(other.randCard)
      requires settleAccountsType == old(other.settleAccountsType)
      requires totalGamecount == old(other.totalGamecount)
      requires areaWincount == old(other.areaWincount)
      requires areaLostcount == old(other.areaLostcount)
      ensures Valid()
    {
      hide Codec.Valid, BitsOf, ValidList, Views, Tables.GAME_END;
    }

    method SwapFields(other: MsgBainiuGameEnd)
      requires other != this
      modifies this, other
      ensures timeLeave == old(other.timeLeave) && other.timeLeave == old(timeLeave)
      ensures tableCards == old(other.tableCards) && other.tableCards == old(tableCards)
      ensures cardTypes == old(other.cardTypes) && other.cardTypes == old(cardTypes)
      ensures bankerWinScore == old(other.bankerWinScore) && other.bankerWinScore == old(bankerWinScore)
      ensures bankerTotalScore == old(other.bankerTotalScore) && other.bankerTotalScore == old(bankerTotalScore)
      ensures bankerTime == old(other.bankerTime) && other.bankerTime == old(bankerTime)
      ensures userScore == old(other.userScore) && other.userScore == old(userScore)
      ensures playerScore == old(other.playerScore) && other.playerScore == old(playerScore)
      ensures winMultiple == old(other.winMultiple) && other.winMultiple == old(winMultiple)
      ensures randCard == old(other.randCard) && other.randCard == old(randCard)
      ensures settleAccountsType == old(other.settleAccountsType) && other.settleAccountsType == old(settleAccountsType)
      ensures totalGamecount == old(other.totalGamecount) && other.totalGamecount == old(totalGamecount)
      ensures areaWincount == old(other.areaWincount) && other.areaWincount == old(areaWincount)
      ensures areaLostcount == old(other.areaLostcount) && other.areaLostcount == old(areaLostcount)
      ensures hasBits == old(other.hasBits) && other.hasBits == old(hasBits)
      ensures unknownFields == old(other.unknownFields) && other.unknownFields == old(unknownFields)
      ensures cachedSize == old(other.cachedSize) && other.cachedSize == old(cachedSize)
      ensures view == old(other.view) && other.view == old(view)
    {
      hide *;
      SwapScalars(other);
      SwapLists(other);
      SwapRest(other);
    }

    method Swap(other: MsgBainiuGameEnd)
      requires Valid() && other.Valid()
      modifies this, other
      ensures Valid() && other.Valid()
      ensures view == old(other.view) && other.view == old(view)
      ensures tableCards == old(other.tableCards) && other.tableCards == old(tableCards)
      ensures cachedSize == old(other.cachedSize) && other.cachedSize == old(cachedSize)
    {
      hide *;
      if other != this {
        SwapFields(other);
        HoldsAllOf(other);
        other.HoldsAllOf(this);
      }
    }
  }

  /**
    One object into bytes and the bytes into another: it comes back equal exactly when the recursion limit
    allows its nesting.
   */
  method ThereAndBack(msg: MsgBainiuGameEnd, depth: nat, clamp: bool) returns (back: MsgBainiuGameEnd, ok: bool)
    requires msg.Valid() && Sizes.ByteSize(GAME_END, msg.view) < TWO_31
    modifies msg`cachedSize, msg.tableCards`cachedSize
    ensures msg.Valid() && msg.view == old(msg.view) && back.Valid() && fresh(back)
    ensures ok <==> Fits(GAME_END, msg.view, depth)
    ensures ok ==> back.view == msg.view
  {
    hide MsgBainiuGameEnd.Tied, MsgBainiuGameEnd.Valid, ValidList, Views, BitsOf, Codec.Valid, Codec.Parse,
        Codec.Fresh, Codec.Serialize, Codec.Fits, Sizes.ByteSize, OneByteTags;
    TagsAreOneByte();
    var n := msg.ByteSize();
    var buf := new Byte[n];
    ok := msg.SerializeToArray(buf, n);
    assert buf[..] == Serialize(GAME_END, msg.view);
    RoundTripExactlyWhenItFits(Env(depth, clamp), GAME_END, msg.view);
    back := new MsgBainiuGameEnd();
    ok := back.ParseFromArray(buf[..], depth, clamp);
  }

  // ------------------------------------------------------------------------------------ the field table

  /** The cases of the switch. */
  predicate GameEndAccepts(num: nat, wt: nat) {
    if num == 2 then wt == LENGTH_DELIMITED
    else if num in {3, 8, 9, 13, 14} then wt == VARINT || wt == LENGTH_DELIMITED
    else 1 <= num <= 14 && wt == VARINT
  }

  lemma GameEndSwitch(num: nat, wt: nat)
    ensures Accepts(GAME_END, num, wt) <==> GameEndAccepts(num, wt)
  {
  }

  lemma GameEndFresh()
    ensures |Fresh(GAME_END).vals| == 14 && Fresh(GAME_END).unknown == []
    ensures Fresh(GAME_END).vals[0] == Scalar(false, 0)
    ensures Fresh(GAME_END).vals[1] == Msgs([])
    ensures Fresh(GAME_END).vals[2] == Ints([])
    ensures Fresh(GAME_END).vals[3] == Scalar(false, 0)
    ensures Fresh(GAME_END).vals[4] == Scalar(false, 0)
    ensures Fresh(GAME_END).vals[5] == Scalar(false, 0)
    ensures Fresh(GAME_END).vals[6] == Scalar(false, 0)
    ensures Fresh(GAME_END).vals[7] == Ints([])
    ensures Fresh(GAME_END).vals[8] == Ints([])
    ensures Fresh(GAME_END).vals[9] == Scalar(false, 0)
    ensures Fresh(GAME_END).vals[10] == Scalar(false, 0)
    ensures Fresh(GAME_END).vals[11] == Scalar(false, 0)
    ensures Fresh(GAME_END).vals[12] == Ints([])
    ensures Fresh(GAME_END).vals[13] == Ints([])
  {
  }

  /** The order in which MergeFrom visits the fields. */
  function GameEndMergeOrder(): seq<nat> { [1, 2, 7, 8, 12, 13, 0, 3, 4, 5, 6, 9, 10, 11] }

  lemma GameEndVisits()
    ensures Visits(GAME_END, GameEndMergeOrder())
    ensures |GameEndMergeOrder()| == 14
    ensures GameEndMergeOrder()[0] == 1
    ensures GameEndMergeOrder()[1] == 2
    ensures GameEndMergeOrder()[2] == 7
    ensures GameEndMergeOrder()[3] == 8
    ensures GameEndMergeOrder()[4] == 12
    ensures GameEndMergeOrder()[5] == 13
    ensures GameEndMergeOrder()[6] == 0
    ensures GameEndMergeOrder()[7] == 3
    ensures GameEndMergeOrder()[8] == 4
    ensures GameEndMergeOrder()[9] == 5
    ensures GameEndMergeOrder()[10] == 6
    ensures GameEndMergeOrder()[11] == 9
    ensures GameEndMergeOrder()[12] == 10
    ensures GameEndMergeOrder()[13] == 11
  {
    hide Tables.GAME_END;
    GameEndTable();
    var order := GameEndMergeOrder();
    assert order[0] == 1;
    assert order[1] == 2;
    assert order[2] == 7;
    assert order[3] == 8;
    assert order[4] == 12;
    assert order[5] == 13;
    assert order[6] == 0;
    assert order[7] == 3;
    assert order[8] == 4;
    assert order[9] == 5;
    assert order[10] == 6;
    assert order[11] == 9;
    assert order[12] == 10;
    assert order[13] == 11;
  }

  /** The fields in the order in which ByteSize visits them. */
  lemma GameEndSize(m: Msg)
    requires Codec.Valid(GAME_END, m)
    ensures AllStorable(m.unknown)
    ensures Sizes.ByteSize(GAME_END, m) == SizeAt(GAME_END, m, 0) + SizeAt(GAME_END, m, 3)
        + SizeAt(GAME_END, m, 4) + SizeAt(GAME_END, m, 5) + SizeAt(GAME_END, m, 6) + SizeAt(GAME_END, m, 9)
        + SizeAt(GAME_END, m, 10) + SizeAt(GAME_END, m, 11) + SizeAt(GAME_END, m, 1) + SizeAt(GAME_END, m, 2)
        + SizeAt(GAME_END, m, 7) + SizeAt(GAME_END, m, 8) + SizeAt(GAME_END, m, 12) + SizeAt(GAME_END, m, 13)
        + UnknownSize(m.unknown)
  {
    hide Codec.Valid, BitsOf, Generated.SizeAt, Sizes.ByteSize, Tables.GAME_END;
    GameEndTable();
    var order: seq<nat> := [0, 3, 4, 5, 6, 9, 10, 11, 1, 2, 7, 8, 12, 13];
    var t := Totals(GAME_END, m, order);
    assert order[0] == 0;
    assert order[1] == 3;
    assert order[2] == 4;
    assert order[3] == 5;
    assert order[4] == 6;
    assert order[5] == 9;
    assert order[6] == 10;
    assert order[7] == 11;
    assert order[8] == 1;
    assert order[9] == 2;
    assert order[10] == 7;
    assert order[11] == 8;
    assert order[12] == 12;
    assert order[13] == 13;
  }

  lemma GameEndTagsAreOneByte()
    ensures OneByteTags(GAME_END)
  {
    TagsAreOneByte();
  }
}
