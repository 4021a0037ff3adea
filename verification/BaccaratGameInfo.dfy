/** msg_baccarat_game_info_play_rep: eleven fields; the mask of its first group reaches into the second. */
module BaccaratGameInfo {
  import opened Varint
  import opened Wire
  import opened Codec
  import opened RoundTrip
  import opened Invariants
  import opened Merging
  import opened Stream
  import opened Sizes
  import opened WireFormatLite
  import opened Generated
  import opened PresenceBits
  import opened Tables
  import opened Cards

  class MsgBaccaratGameInfoPlayRep {
    var allJettonScore: seq<int>
    var tableCards: seq<MsgCards>
    var bankerId: int
    var bankerTime: int
    var bankerWinScore: int
    var bankerScore: int
    var timeLeave: int
    var gameStatus: int
    var selfJettonScore: seq<int>
    var bankerBuyinScore: int
    var needLeaveBanker: int
    var hasBits: bv32
    var unknownFields: seq<Record>
    var cachedSize: nat

    // The message the fields make up.
    ghost var view: Msg

    ghost predicate Tied()
      reads `view, `hasBits, `unknownFields, `tableCards, tableCards`view, `allJettonScore, `bankerId, `bankerTime,
          `bankerWinScore, `bankerScore, `timeLeave, `gameStatus, `selfJettonScore, `bankerBuyinScore,
          `needLeaveBanker
    {
      && |view.vals| == 11 && view.unknown == unknownFields
      && view.vals[0] == Ints(allJettonScore)
      && view.vals[1] == Msgs(Views(tableCards))
      && view.vals[2] == Scalar(2 in BitsOf(hasBits), bankerId)
      && view.vals[3] == Scalar(3 in BitsOf(hasBits), bankerTime)
      && view.vals[4] == Scalar(4 in BitsOf(hasBits), bankerWinScore)
      && view.vals[5] == Scalar(5 in BitsOf(hasBits), bankerScore)
      && view.vals[6] == Scalar(6 in BitsOf(hasBits), timeLeave)
      && view.vals[7] == Scalar(7 in BitsOf(hasBits), gameStatus)
      && view.vals[8] == Ints(selfJettonScore)
      && view.vals[9] == Scalar(9 in BitsOf(hasBits), bankerBuyinScore)
      && view.vals[10] == Scalar(10 in BitsOf(hasBits), needLeaveBanker)
    }

    ghost predicate Valid()
      reads `view, `hasBits, `unknownFields, `tableCards, tableCards`view, `allJettonScore, `bankerId, `bankerTime,
          `bankerWinScore, `bankerScore, `timeLeave, `gameStatus, `selfJettonScore, `bankerBuyinScore,
          `needLeaveBanker, tableCards`cards, tableCards`unknownFields
      ensures Valid() ==> Shaped(GAME_INFO_PLAY, view) && Codec.Valid(GAME_INFO_PLAY, view) && ValidList(tableCards)
    {
      Tied() && ValidList(tableCards) && Codec.Valid(GAME_INFO_PLAY, view)
    }

    lemma Facts()
      requires Valid()
      ensures |view.vals| == 11 && view.unknown == unknownFields && AllForeign(GAME_INFO_PLAY, unknownFields)
      ensures view.vals[0] == Ints(allJettonScore) && AllInRange(Int64, allJettonScore)
      ensures view.vals[1] == Msgs(Views(tableCards))
      ensures view.vals[2] == Scalar(HasBankerId(), bankerId) && InRange(UInt32, bankerId)
          && (HasBankerId() || bankerId == 0)
      ensures view.vals[3] == Scalar(HasBankerTime(), bankerTime) && InRange(UInt32, bankerTime)
          && (HasBankerTime() || bankerTime == 0)
      ensures view.vals[4] == Scalar(HasBankerWinScore(), bankerWinScore) && InRange(Int64, bankerWinScore)
          && (HasBankerWinScore() || bankerWinScore == 0)
      ensures view.vals[5] == Scalar(HasBankerScore(), bankerScore) && InRange(Int64, bankerScore)
          && (HasBankerScore() || bankerScore == 0)
      ensures view.vals[6] == Scalar(HasTimeLeave(), timeLeave) && InRange(UInt32, timeLeave)
          && (HasTimeLeave() || timeLeave == 0)
      ensures view.vals[7] == Scalar(HasGameStatus(), gameStatus) && InRange(UInt32, gameStatus)
          && (HasGameStatus() || gameStatus == 0)
      ensures view.vals[8] == Ints(selfJettonScore) && AllInRange(Int64, selfJettonScore)
      ensures view.vals[9] == Scalar(HasBankerBuyinScore(), bankerBuyinScore) && InRange(Int64, bankerBuyinScore)
          && (HasBankerBuyinScore() || bankerBuyinScore == 0)
      ensures view.vals[10] == Scalar(HasNeedLeaveBanker(), needLeaveBanker) && InRange(UInt32, needLeaveBanker)
          && (HasNeedLeaveBanker() || needLeaveBanker == 0)
    {
      hide Codec.Valid, BitsOf, Codec.ValidValue, Views, ValidList, Tables.GAME_INFO_PLAY;
      GameInfoTable();
      UnknownsAreForeign(GAME_INFO_PLAY, view);
      ListSizeAt(GAME_INFO_PLAY, view, 0, Int64, allJettonScore);
      DefaultBehindClearBit(GAME_INFO_PLAY, view, 2);
      DefaultBehindClearBit(GAME_INFO_PLAY, view, 3);
      DefaultBehindClearBit(GAME_INFO_PLAY, view, 4);
      DefaultBehindClearBit(GAME_INFO_PLAY, view, 5);
      DefaultBehindClearBit(GAME_INFO_PLAY, view, 6);
      DefaultBehindClearBit(GAME_INFO_PLAY, view, 7);
      ListSizeAt(GAME_INFO_PLAY, view, 8, Int64, selfJettonScore);
      DefaultBehindClearBit(GAME_INFO_PLAY, view, 9);
      DefaultBehindClearBit(GAME_INFO_PLAY, view, 10);
    }

    lemma IsFresh()
      requires view == Fresh(GAME_INFO_PLAY) && hasBits == 0 && unknownFields == [] && tableCards == []
      requires bankerId == 0 && bankerTime == 0 && bankerWinScore == 0 && bankerScore == 0 && timeLeave == 0
          && gameStatus == 0 && bankerBuyinScore == 0 && needLeaveBanker == 0
      requires allJettonScore == [] && selfJettonScore == []
      ensures Valid()
    {
      hide Codec.Valid, BitsOf, Views, ValidList, Codec.Fresh, Tables.GAME_INFO_PLAY;
      NoBits();
      FreshIsValid(GAME_INFO_PLAY);
      GameInfoFresh();
      EmptyList();
    }

    /** Only the list of cards changed, and the view with it. */
    twostate lemma OnlyCardsChanged()
      requires old(Valid()) && Codec.Valid(GAME_INFO_PLAY, view) && ValidList(tableCards)
          && hasBits == old(hasBits) && unknownFields == old(unknownFields)
      requires bankerId == old(bankerId) && bankerTime == old(bankerTime)
          && bankerWinScore == old(bankerWinScore) && bankerScore == old(bankerScore)
          && timeLeave == old(timeLeave) && gameStatus == old(gameStatus)
          && bankerBuyinScore == old(bankerBuyinScore) && needLeaveBanker == old(needLeaveBanker)
      requires allJettonScore == old(allJettonScore) && selfJettonScore == old(selfJettonScore)
      requires |view.vals| == 11 && view.unknown == old(view).unknown && view.vals[1] == Msgs(Views(tableCards))
      requires forall i :: 0 <= i < 11 && i != 1 ==> view.vals[i] == old(view).vals[i]
      ensures Valid()
    {
      hide Codec.Valid, BitsOf, Views, ValidList, Tables.GAME_INFO_PLAY;
    }

    /** Only one scalar changed, and the view with it. */
    twostate lemma OneScalarChanged(i: nat)
      requires old(Valid()) && Codec.Valid(GAME_INFO_PLAY, view) && tableCards == old(tableCards)
          && ValidList(tableCards) && Views(tableCards) == old(Views(tableCards))
      requires i < 11 && i != 1 && |view.vals| == |old(view).vals| == 11
          && view == Set(old(view), i, view.vals[i]) && unknownFields == old(unknownFields)
      requires i == 2 ==> view.vals[i] == Scalar(2 in BitsOf(hasBits), bankerId)
      requires i != 2 ==> bankerId == old(bankerId) && (2 in BitsOf(hasBits) <==> 2 in BitsOf(old(hasBits)))
      requires i == 3 ==> view.vals[i] == Scalar(3 in BitsOf(hasBits), bankerTime)
      requires i != 3 ==> bankerTime == old(bankerTime) && (3 in BitsOf(hasBits) <==> 3 in BitsOf(old(hasBits)))
      requires i == 4 ==> view.vals[i] == Scalar(4 in BitsOf(hasBits), bankerWinScore)
      requires i != 4 ==> bankerWinScore == old(bankerWinScore) && (4 in BitsOf(hasBits) <==> 4 in BitsOf(old(hasBits)))
      requires i == 5 ==> view.vals[i] == Scalar(5 in BitsOf(hasBits), bankerScore)
      requires i != 5 ==> bankerScore == old(bankerScore) && (5 in BitsOf(hasBits) <==> 5 in BitsOf(old(hasBits)))
      requires i == 6 ==> view.vals[i] == Scalar(6 in BitsOf(hasBits), timeLeave)
      requires i != 6 ==> timeLeave == old(timeLeave) && (6 in BitsOf(hasBits) <==> 6 in BitsOf(old(hasBits)))
      requires i == 7 ==> view.vals[i] == Scalar(7 in BitsOf(hasBits), gameStatus)
      requires i != 7 ==> gameStatus == old(gameStatus) && (7 in BitsOf(hasBits) <==> 7 in BitsOf(old(hasBits)))
      requires i == 9 ==> view.vals[i] == Scalar(9 in BitsOf(hasBits), bankerBuyinScore)
      requires i != 9 ==> bankerBuyinScore == old(bankerBuyinScore) && (9 in BitsOf(hasBits) <==> 9 in BitsOf(old(hasBits)))
      requires i == 10 ==> view.vals[i] == Scalar(10 in BitsOf(hasBits), needLeaveBanker)
      requires i != 10 ==> needLeaveBanker == old(needLeaveBanker) && (10 in BitsOf(hasBits) <==> 10 in BitsOf(old(hasBits)))
      requires i != 0 && allJettonScore == old(allJettonScore)
      requires i != 8 && selfJettonScore == old(selfJettonScore)
      ensures Valid()
    {
      hide Codec.Valid, BitsOf, Views, ValidList, Tables.GAME_INFO_PLAY;
    }

    constructor ()
      ensures Valid() && view == Fresh(GAME_INFO_PLAY) && tableCards == []
    {
      cachedSize := 0;
      allJettonScore := [];
      tableCards := [];
      bankerId := 0;
      bankerTime := 0;
      bankerWinScore := 0;
      bankerScore := 0;
      timeLeave := 0;
      gameStatus := 0;
      selfJettonScore := [];
      bankerBuyinScore := 0;
      needLeaveBanker := 0;
      hasBits, unknownFields := 0, [];
      view := Fresh(GAME_INFO_PLAY);
      new;
      hide *;
      IsFresh();
    }

    predicate HasBankerId()
      reads `hasBits
      ensures HasBankerId() <==> 2 in BitsOf(hasBits)
    {
      TestOfBit(hasBits, 2, 0x4);
      Test(hasBits, 0x4)
    }

    method SetBankerId(value: int)
      requires Valid() && InRange(UInt32, value)
      modifies this
      ensures Valid() && view == Set(old(view), 2, Scalar(true, value))
      ensures cachedSize == old(cachedSize) && tableCards == old(tableCards)
    {
      hide *;
      GameInfoTable();
      Masks();
      SetScalarIsValid(GAME_INFO_PLAY, view, 2, UInt32, true, value);
      SetOneBit(hasBits, 2, 0x4);
      hasBits, bankerId := SetBits(hasBits, 0x4), value;
      view := Set(view, 2, Scalar(true, value));
      OneScalarChanged(2);
    }

    method ClearBankerId()
      requires Valid()
      modifies this
      ensures Valid() && view == Set(old(view), 2, Scalar(false, 0))
      ensures cachedSize == old(cachedSize) && tableCards == old(tableCards)
    {
      hide *;
      GameInfoTable();
      Masks();
      SetScalarIsValid(GAME_INFO_PLAY, view, 2, UInt32, false, 0);
      ClearOneBit(hasBits, 2, 0x4);
      bankerId, hasBits := 0, ClearBits(hasBits, 0x4);
      view := Set(view, 2, Scalar(false, 0));
      OneScalarChanged(2);
    }

    predicate HasBankerTime()
      reads `hasBits
      ensures HasBankerTime() <==> 3 in BitsOf(hasBits)
    {
      TestOfBit(hasBits, 3, 0x8);
      Test(hasBits, 0x8)
    }

    method SetBankerTime(value: int)
      requires Valid() && InRange(UInt32, value)
      modifies this
      ensures Valid() && view == Set(old(view), 3, Scalar(true, value))
      ensures cachedSize == old(cachedSize) && tableCards == old(tableCards)
    {
      hide *;
      GameInfoTable();
      Masks();
      SetScalarIsValid(GAME_INFO_PLAY, view, 3, UInt32, true, value);
      SetOneBit(hasBits, 3, 0x8);
      hasBits, bankerTime := SetBits(hasBits, 0x8), value;
      view := Set(view, 3, Scalar(true, value));
      OneScalarChanged(3);
    }

    method ClearBankerTime()
      requires Valid()
      modifies this
      ensures Valid() && view == Set(old(view), 3, Scalar(false, 0))
      ensures cachedSize == old(cachedSize) && tableCards == old(tableCards)
    {
      hide *;
      GameInfoTable();
      Masks();
      SetScalarIsValid(GAME_INFO_PLAY, view, 3, UInt32, false, 0);
      ClearOneBit(hasBits, 3, 0x8);
      bankerTime, hasBits := 0, ClearBits(hasBits, 0x8);
      view := Set(view, 3, Scalar(false, 0));
      OneScalarChanged(3);
    }

    predicate HasBankerWinScore()
      reads `hasBits
      ensures HasBankerWinScore() <==> 4 in BitsOf(hasBits)
    {
      TestOfBit(hasBits, 4, 0x10);
      Test(hasBits, 0x10)
    }

    method SetBankerWinScore(value: int)
      requires Valid() && InRange(Int64, value)
      modifies this
      ensures Valid() && view == Set(old(view), 4, Scalar(true, value))
      ensures cachedSize == old(cachedSize) && tableCards == old(tableCards)
    {
      hide *;
      GameInfoTable();
      Masks();
      SetScalarIsValid(GAME_INFO_PLAY, view, 4, Int64, true, value);
      SetOneBit(hasBits, 4, 0x10);
      hasBits, bankerWinScore := SetBits(hasBits, 0x10), value;
      view := Set(view, 4, Scalar(true, value));
      OneScalarChanged(4);
    }

    method ClearBankerWinScore()
      requires Valid()
      modifies this
      ensures Valid() && view == Set(old(view), 4, Scalar(false, 0))
      ensures cachedSize == old(cachedSize) && tableCards == old(tableCards)
    {
      hide *;
      GameInfoTable();
      Masks();
      SetScalarIsValid(GAME_INFO_PLAY, view, 4, Int64, false, 0);
      ClearOneBit(hasBits, 4, 0x10);
      bankerWinScore, hasBits := 0, ClearBits(hasBits, 0x10);
      view := Set(view, 4, Scalar(false, 0));
      OneScalarChanged(4);
    }

    predicate HasBankerScore()
      reads `hasBits
      ensures HasBankerScore() <==> 5 in BitsOf(hasBits)
    {
      TestOfBit(hasBits, 5, 0x20);
      Test(hasBits, 0x20)
    }

    method SetBankerScore(value: int)
      requires Valid() && InRange(Int64, value)
      modifies this
      ensures Valid() && view == Set(old(view), 5, Scalar(true, value))
      ensures cachedSize == old(cachedSize) && tableCards == old(tableCards)
    {
      hide *;
      GameInfoTable();
      Masks();
      SetScalarIsValid(GAME_INFO_PLAY, view, 5, Int64, true, value);
      SetOneBit(hasBits, 5, 0x20);
      hasBits, bankerScore := SetBits(hasBits, 0x20), value;
      view := Set(view, 5, Scalar(true, value));
      OneScalarChanged(5);
    }

    method ClearBankerScore()
      requires Valid()
      modifies this
      ensures Valid() && view == Set(old(view), 5, Scalar(false, 0))
      ensures cachedSize == old(cachedSize) && tableCards == old(tableCards)
    {
      hide *;
      GameInfoTable();
      Masks();
      SetScalarIsValid(GAME_INFO_PLAY, view, 5, Int64, false, 0);
      ClearOneBit(hasBits, 5, 0x20);
      bankerScore, hasBits := 0, ClearBits(hasBits, 0x20);
      view := Set(view, 5, Scalar(false, 0));
      OneScalarChanged(5);
    }

    predicate HasTimeLeave()
      reads `hasBits
      ensures HasTimeLeave() <==> 6 in BitsOf(hasBits)
    {
      TestOfBit(hasBits, 6, 0x40);
      Test(hasBits, 0x40)
    }

    method SetTimeLeave(value: int)
      requires Valid() && InRange(UInt32, value)
      modifies this
      ensures Valid() && view == Set(old(view), 6, Scalar(true, value))
      ensures cachedSize == old(cachedSize) && tableCards == old(tableCards)
    {
      hide *;
      GameInfoTable();
      Masks();
      SetScalarIsValid(GAME_INFO_PLAY, view, 6, UInt32, true, value);
      SetOneBit(hasBits, 6, 0x40);
      hasBits, timeLeave := SetBits(hasBits, 0x40), value;
      view := Set(view, 6, Scalar(true, value));
      OneScalarChanged(6);
    }

    method ClearTimeLeave()
      requires Valid()
      modifies this
      ensures Valid() && view == Set(old(view), 6, Scalar(false, 0))
      ensures cachedSize == old(cachedSize) && tableCards == old(tableCards)
    {
      hide *;
      GameInfoTable();
      Masks();
      SetScalarIsValid(GAME_INFO_PLAY, view, 6, UInt32, false, 0);
      ClearOneBit(hasBits, 6, 0x40);
      timeLeave, hasBits := 0, ClearBits(hasBits, 0x40);
      view := Set(view, 6, Scalar(false, 0));
      OneScalarChanged(6);
    }

    predicate HasGameStatus()
      reads `hasBits
      ensures HasGameStatus() <==> 7 in BitsOf(hasBits)
    {
      TestOfBit(hasBits, 7, 0x80);
      Test(hasBits, 0x80)
    }

    method SetGameStatus(value: int)
      requires Valid() && InRange(UInt32, value)
      modifies this
      ensures Valid() && view == Set(old(view), 7, Scalar(true, value))
      ensures cachedSize == old(cachedSize) && tableCards == old(tableCards)
    {
      hide *;
      GameInfoTable();
      Masks();
      SetScalarIsValid(GAME_INFO_PLAY, view, 7, UInt32, true, value);
      SetOneBit(hasBits, 7, 0x80);
      hasBits, gameStatus := SetBits(hasBits, 0x80), value;
      view := Set(view, 7, Scalar(true, value));
      OneScalarChanged(7);
    }

    method ClearGameStatus()
      requires Valid()
      modifies this
      ensures Valid() && view == Set(old(view), 7, Scalar(false, 0))
      ensures cachedSize == old(cachedSize) && tableCards == old(tableCards)
    {
      hide *;
      GameInfoTable();
      Masks();
      SetScalarIsValid(GAME_INFO_PLAY, view, 7, UInt32, false, 0);
      ClearOneBit(hasBits, 7, 0x80);
      gameStatus, hasBits := 0, ClearBits(hasBits, 0x80);
      view := Set(view, 7, Scalar(false, 0));
      OneScalarChanged(7);
    }

    predicate HasBankerBuyinScore()
      reads `hasBits
      ensures HasBankerBuyinScore() <==> 9 in BitsOf(hasBits)
    {
      TestOfBit(hasBits, 9, 0x200);
      Test(hasBits, 0x200)
    }

    method SetBankerBuyinScore(value: int)
      requires Valid() && InRange(Int64, value)
      modifies this
      ensures Valid() && view == Set(old(view), 9, Scalar(true, value))
      ensures cachedSize == old(cachedSize) && tableCards == old(tableCards)
    {
      hide *;
      GameInfoTable();
      Masks();
      SetScalarIsValid(GAME_INFO_PLAY, view, 9, Int64, true, value);
      SetOneBit(hasBits, 9, 0x200);
      hasBits, bankerBuyinScore := SetBits(hasBits, 0x200), value;
      view := Set(view, 9, Scalar(true, value));
      OneScalarChanged(9);
    }

    method ClearBankerBuyinScore()
      requires Valid()
      modifies this
      ensures Valid() && view == Set(old(view), 9, Scalar(false, 0))
      ensures cachedSize == old(cachedSize) && tableCards == old(tableCards)
    {
      hide *;
      GameInfoTable();
      Masks();
      SetScalarIsValid(GAME_INFO_PLAY, view, 9, Int64, false, 0);
      ClearOneBit(hasBits, 9, 0x200);
      bankerBuyinScore, hasBits := 0, ClearBits(hasBits, 0x200);
      view := Set(view, 9, Scalar(false, 0));
      OneScalarChanged(9);
    }

    predicate HasNeedLeaveBanker()
      reads `hasBits
      ensures HasNeedLeaveBanker() <==> 10 in BitsOf(hasBits)
    {
      TestOfBit(hasBits, 10, 0x400);
      Test(hasBits, 0x400)
    }

    method SetNeedLeaveBanker(value: int)
      requires Valid() && InRange(UInt32, value)
      modifies this
      ensures Valid() && view == Set(old(view), 10, Scalar(true, value))
      ensures cachedSize == old(cachedSize) && tableCards == old(tableCards)
    {
      hide *;
      GameInfoTable();
      Masks();
      SetScalarIsValid(GAME_INFO_PLAY, view, 10, UInt32, true, value);
      SetOneBit(hasBits, 10, 0x400);
      hasBits, needLeaveBanker := SetBits(hasBits, 0x400), value;
      view := Set(view, 10, Scalar(true, value));
      OneScalarChanged(10);
    }

    method ClearNeedLeaveBanker()
      requires Valid()
      modifies this
      ensures Valid() && view == Set(old(view), 10, Scalar(false, 0))
      ensures cachedSize == old(cachedSize) && tableCards == old(tableCards)
    {
      hide *;
      GameInfoTable();
      Masks();
      SetScalarIsValid(GAME_INFO_PLAY, view, 10, UInt32, false, 0);
      ClearOneBit(hasBits, 10, 0x400);
      needLeaveBanker, hasBits := 0, ClearBits(hasBits, 0x400);
      view := Set(view, 10, Scalar(false, 0));
      OneScalarChanged(10);
    }

    method AddAllJettonScore(xs: seq<int>)
      requires Valid() && AllInRange(Int64, xs)
      modifies this
      ensures Valid() && old(view.vals[0].Ints?) && view == AddInts(old(view), 0, xs)
      ensures cachedSize == old(cachedSize) && tableCards == old(tableCards)
    {
      hide Codec.Valid, BitsOf, Views, ValidList, Tables.GAME_INFO_PLAY;
      GameInfoTable();
      AddIntsIsValid(GAME_INFO_PLAY, view, 0, xs);
      allJettonScore := allJettonScore + xs;
      view := AddInts(view, 0, xs);
    }

    method AddSelfJettonScore(xs: seq<int>)
      requires Valid() && AllInRange(Int64, xs)
      modifies this
      ensures Valid() && old(view.vals[8].Ints?) && view == AddInts(old(view), 8, xs)
      ensures cachedSize == old(cachedSize) && tableCards == old(tableCards)
    {
      hide Codec.Valid, BitsOf, Views, ValidList, Tables.GAME_INFO_PLAY;
      GameInfoTable();
      AddIntsIsValid(GAME_INFO_PLAY, view, 8, xs);
      selfJettonScore := selfJettonScore + xs;
      view := AddInts(view, 8, xs);
    }

    // ------------------------------------------------------------------------------------ clearing

    lemma NoneLow()
      requires !Test(hasBits, 0xFF << 2)
      ensures !HasBankerId() && !HasBankerTime() && !HasBankerWinScore() && !HasBankerScore() && !HasTimeLeave()
          && !HasGameStatus()
    {
      GuardsTestTheirBits(hasBits);
    }

    /** Under its guard, the group of bit 2: a scalar the guard skips holds its default already. */
    method ClearLow()
      requires (HasBankerId() || bankerId == 0) && (HasBankerTime() || bankerTime == 0)
          && (HasBankerWinScore() || bankerWinScore == 0) && (HasBankerScore() || bankerScore == 0)
          && (HasTimeLeave() || timeLeave == 0) && (HasGameStatus() || gameStatus == 0)
      modifies `bankerId, `bankerTime, `bankerWinScore, `bankerScore, `timeLeave, `gameStatus
      ensures bankerId == 0 && bankerTime == 0 && bankerWinScore == 0 && bankerScore == 0 && timeLeave == 0
          && gameStatus == 0
    {
      if Test(hasBits, 0xFF << 2) {
        bankerId := 0;
        bankerTime := 0;
        bankerWinScore := 0;
        bankerScore := 0;
        timeLeave := 0;
        gameStatus := 0;
      } else {
        NoneLow();
      }
    }

    lemma NoneHigh()
      requires !Test(hasBits, 0xFF << 9)
      ensures !HasBankerBuyinScore() && !HasNeedLeaveBanker()
    {
      GuardsTestTheirBits(hasBits);
    }

    /** Under its guard, the group of bit 9: a scalar the guard skips holds its default already. */
    method ClearHigh()
      requires (HasBankerBuyinScore() || bankerBuyinScore == 0) && (HasNeedLeaveBanker() || needLeaveBanker == 0)
      modifies `bankerBuyinScore, `needLeaveBanker
      ensures bankerBuyinScore == 0 && needLeaveBanker == 0
    {
      if Test(hasBits, 0xFF << 9) {
        bankerBuyinScore := 0;
        needLeaveBanker := 0;
      } else {
        NoneHigh();
      }
    }

    method ClearScalars()
      requires Valid()
      modifies `bankerId, `bankerTime, `bankerWinScore, `bankerScore, `timeLeave, `gameStatus, `bankerBuyinScore,
          `needLeaveBanker
      ensures bankerId == 0 && bankerTime == 0 && bankerWinScore == 0 && bankerScore == 0 && timeLeave == 0
          && gameStatus == 0 && bankerBuyinScore == 0 && needLeaveBanker == 0
    {
      hide *;
      Facts();
      ClearLow();
      ClearHigh();
    }

    method Clear()
      requires Valid()
      modifies this
      ensures Valid() && view == Fresh(GAME_INFO_PLAY) && tableCards == [] && cachedSize == old(cachedSize)
    {
      hide *;
      ClearScalars();
      allJettonScore := [];
      tableCards := [];
      selfJettonScore := [];
      hasBits, unknownFields := 0, [];
      view := Fresh(GAME_INFO_PLAY);
      IsFresh();
    }

    /** add_table_cards: a fresh element at the end of the list. */
    method AddTableCards()
      requires Valid()
      modifies this
      ensures Valid() && |tableCards| == |old(tableCards)| + 1 && tableCards[..|old(tableCards)|] == old(tableCards)
      ensures fresh(tableCards[|old(tableCards)|])
      ensures old(view.vals[1].Msgs?) && view == AddMsg(old(view), 1, Fresh(CARDS)) && cachedSize == old(cachedSize)
      ensures old(view).vals[1] == Msgs(old(Views(tableCards)))
          && Views(tableCards) == old(Views(tableCards)) + [Fresh(CARDS)]
    {
      hide *;
      GameInfoTable();
      Facts();
      FreshIsValid(CARDS);
      AddMsgIsValid(GAME_INFO_PLAY, view, 1, Fresh(CARDS));
      ListGrown(view, 1, Fresh(CARDS));
      tableCards := Append(tableCards);
      view := AddMsg(view, 1, Fresh(CARDS));
      OnlyCardsChanged();
    }

    // ------------------------------------------------------------------------------------- parsing

    method ParseScalar(num: nat, input: CodedInputStream) returns (ok: bool)
      requires Valid() && input.Valid() && num in {3, 4, 5, 6, 7, 8, 10, 11}
      modifies this, input`pos
      ensures Valid() && tableCards == old(tableCards) && input.Valid() && (ok ==> |input.Rest()| < |old(input.Rest())|)
      ensures AfterTag(input.Environment(), GAME_INFO_PLAY, num, VARINT, old(input.Rest()), old(view))
           == if ok then Parse(input.Environment(), GAME_INFO_PLAY, input.Rest(), view) else Fail(view)
    {
      hide Codec.Valid, BitsOf, MsgBaccaratGameInfoPlayRep.Tied, MsgBaccaratGameInfoPlayRep.Valid, Codec.Parse,
          Codec.AfterTag, ValidList, Views, Tables.GAME_INFO_PLAY;
      GameInfoTable();
      var k := if num in {5, 6, 10} then Int64 else UInt32;
      var x;
      ok, x := ReadPrimitive(input, k, GAME_INFO_PLAY, num, view);
      if !ok {
        return;
      }
      match num {
        case 3 => SetBankerId(x);
        case 4 => SetBankerTime(x);
        case 5 => SetBankerWinScore(x);
        case 6 => SetBankerScore(x);
        case 7 => SetTimeLeave(x);
        case 8 => SetGameStatus(x);
        case 10 => SetBankerBuyinScore(x);
        case 11 => SetNeedLeaveBanker(x);
      }
    }

    method ParseList(num: nat, wt: nat, input: CodedInputStream) returns (ok: bool)
      requires Valid() && input.Valid() && !input.legitimateEnd
      requires num in {1, 9} && (wt == VARINT || wt == LENGTH_DELIMITED)
      modifies this, input`pos, input`limit, input`legitimateEnd
      ensures Valid() && tableCards == old(tableCards) && input.Valid() && !input.legitimateEnd
      ensures ok ==> |input.Rest()| < |old(input.Rest())| && input.limit == old(input.limit)
      ensures AfterTag(input.Environment(), GAME_INFO_PLAY, num, wt, old(input.Rest()), old(view))
           == if ok then Parse(input.Environment(), GAME_INFO_PLAY, input.Rest(), view) else Fail(view)
    {
      hide Codec.Valid, BitsOf, MsgBaccaratGameInfoPlayRep.Tied, MsgBaccaratGameInfoPlayRep.Valid, Codec.Parse,
          Codec.AfterTag, ValidList, Views, Tables.GAME_INFO_PLAY;
      GameInfoTable();
      Facts();
      var k := Int64;
      var xs;
      if wt == VARINT {
        ok, xs := ReadRepeatedPrimitive(input, k, 8 * num, GAME_INFO_PLAY, num, view);
      } else {
        ok, xs := ReadPackedPrimitive(input, k, GAME_INFO_PLAY, num, view);
      }
      match num {
        case 1 => AddAllJettonScore(xs);
        case 9 => AddSelfJettonScore(xs);
      }
    }

    method ParseTableCards(input: CodedInputStream) returns (ok: bool)
      requires Valid() && input.Valid() && !input.legitimateEnd
      modifies this, input
      ensures Valid() && |tableCards| == |old(tableCards)| + 1 && tableCards[..|old(tableCards)|] == old(tableCards)
      ensures fresh(tableCards[|old(tableCards)|])
      ensures ok ==> input.Valid() && !input.legitimateEnd && input.limit == old(input.limit) && input.depth == old(input.depth)
      ensures ok ==> |input.Rest()| < |old(input.Rest())|
      ensures AfterTag(old(input.Environment()), GAME_INFO_PLAY, 2, LENGTH_DELIMITED, old(input.Rest()), old(view))
           == if ok then Parse(old(input.Environment()), GAME_INFO_PLAY, input.Rest(), view) else Fail(view)
    {
      hide *;
      GameInfoTable();
      Facts();
      ghost var m, had := view, Views(tableCards);
      AddTableCards();
      label added:
      ok := ReadLast(input, tableCards, GAME_INFO_PLAY, 2, m);
      ghost var x := Views(tableCards)[|tableCards| - 1];
      AfterElementMeans(old(input.Environment()), GAME_INFO_PLAY, 2, x, ok, if ok then input.Rest() else [], m);
      assert Views(tableCards) == had + [x];
      OtherElement(m, 1, Fresh(CARDS), x);
      AddMsgIsValid(GAME_INFO_PLAY, m, 1, x);
      view := AddMsg(m, 1, x);
      OnlyCardsChanged@added();
    }

    /** The switch: one field's payload, read into its field. */
    method ParseField(num: nat, wt: nat, input: CodedInputStream) returns (ok: bool)
      requires Valid() && input.Valid() && !input.legitimateEnd && GameInfoAccepts(num, wt)
      modifies this, input
      ensures Valid() && 1 <= num <= 11
      ensures forall i :: 0 <= i < |tableCards| ==> tableCards[i] in old(tableCards) || fresh(tableCards[i])
      ensures ok ==> input.Valid() && !input.legitimateEnd && input.limit == old(input.limit) && input.depth == old(input.depth)
      ensures ok ==> |input.Rest()| < |old(input.Rest())|
      ensures AfterTag(old(input.Environment()), GAME_INFO_PLAY, num, wt, old(input.Rest()), old(view))
           == if ok then Parse(old(input.Environment()), GAME_INFO_PLAY, input.Rest(), view) else Fail(view)
    {
      hide Codec.Valid, BitsOf, MsgBaccaratGameInfoPlayRep.Tied, MsgBaccaratGameInfoPlayRep.Valid, Codec.Parse,
          Codec.AfterTag, ValidList, Views, Codec.Shaped;
      if num == 2 {
        ok := ParseTableCards(input);
      } else if num in {1, 9} {
        ok := ParseList(num, wt, input);
      } else {
        ok := ParseScalar(num, input);
      }
    }

    /** The ExpectTag calls at the end of each case: a list's own tag, the next field's, or the end. */
    method ExpectNext(num: nat, input: CodedInputStream) returns (next: nat)
      requires input.Valid() && !input.legitimateEnd && 1 <= num <= 11
      modifies input`pos, input`legitimateEnd
      ensures input.Valid() && Followed(GAME_INFO_PLAY, next, old(input.Rest()), input.Rest(), input.legitimateEnd)
    {
      hide Generated.Followed, CodedInputStream.Rest, Tables.GAME_INFO_PLAY;
      GameInfoTable();
      next := 0;
      match num {
        case 1 => next := Jump(8, 1, input, GAME_INFO_PLAY);
        case 2 => next := Jump(18, 2, input, GAME_INFO_PLAY);
        case 9 => next := Jump(72, 9, input, GAME_INFO_PLAY);
        case _ => next := 0;
      }
      if next != 0 {
        return;
      }
      match num {
        case 1 => next := Jump(18, 2, input, GAME_INFO_PLAY);
        case 2 => next := Jump(24, 3, input, GAME_INFO_PLAY);
        case 3 => next := Jump(32, 4, input, GAME_INFO_PLAY);
        case 4 => next := Jump(40, 5, input, GAME_INFO_PLAY);
        case 5 => next := Jump(48, 6, input, GAME_INFO_PLAY);
        case 6 => next := Jump(56, 7, input, GAME_INFO_PLAY);
        case 7 => next := Jump(64, 8, input, GAME_INFO_PLAY);
        case 8 => next := Jump(72, 9, input, GAME_INFO_PLAY);
        case 9 => next := Jump(80, 10, input, GAME_INFO_PLAY);
        case 10 => next := Jump(88, 11, input, GAME_INFO_PLAY);
        case 11 => next := End(input, GAME_INFO_PLAY);
      }
    }

    /** Adds records at the end of the unknown fields. */
    method AddUnknownFields(rs: seq<Record>)
      requires Valid() && AllForeign(GAME_INFO_PLAY, rs)
      modifies this
      ensures Valid() && view == AddUnknowns(old(view), rs) && cachedSize == old(cachedSize)
          && tableCards == old(tableCards)
    {
      hide Codec.Valid, BitsOf, ValidList, Views, Tables.GAME_INFO_PLAY;
      AddUnknownsIsValid(GAME_INFO_PLAY, view, rs);
      unknownFields := unknownFields + rs;
      view := AddUnknowns(view, rs);
    }

    /** The end of the enclosing group ends the loop; anything else is kept, as far as it can be read. */
    method HandleUninterpreted(num: nat, wt: nat, input: CodedInputStream) returns (ok: bool, ended: bool)
      requires Valid() && input.Valid() && wt < 8 && 0 < 8 * num + wt < TWO_32 && !Accepts(GAME_INFO_PLAY, num, wt)
      modifies this, input`pos
      ensures Valid() && input.Valid() && (ok && !ended ==> |input.Rest()| <= |old(input.Rest())|) && tableCards == old(tableCards)
      ensures AfterTag(input.Environment(), GAME_INFO_PLAY, num, wt, old(input.Rest()), old(view))
           == if !ok then Fail(view)
              else if ended then Done(view, input.Rest(), EndGroupTag)
              else Parse(input.Environment(), GAME_INFO_PLAY, input.Rest(), view)
    {
      hide Codec.Valid, Codec.Accepts, Codec.Parse, Codec.AfterTag, MsgBaccaratGameInfoPlayRep.Tied,
          MsgBaccaratGameInfoPlayRep.Valid, ValidList, Views, Codec.Shaped;
      if wt == END_GROUP {
        EndGroupAfterTag(input.Environment(), GAME_INFO_PLAY, num, input.Rest(), view);
        return true, true;
      }
      ended := false;
      var kept;
      ok, kept := ReadUnknown(input, num, wt, GAME_INFO_PLAY, view);
      AddUnknownFields(kept);
    }

    /**
      The tag loop with its jumps: `jumped` holds when the tag of field `num` was matched by
      ExpectTag and the loop continues at that field's label. Whatever ExpectTag and ExpectAtEnd
      answer, the outcome is that of the loop without them.
     */
    method MergePartialFromCodedStream(input: CodedInputStream) returns (ok: bool)
      requires Valid() && input.Valid() && !input.legitimateEnd
      modifies this, input
      ensures Valid()
      ensures forall i :: 0 <= i < |tableCards| ==> tableCards[i] in old(tableCards) || fresh(tableCards[i])
      ensures ParsedAs(Parse(old(input.Environment()), GAME_INFO_PLAY, old(input.Rest()), old(view)), ok, view, input)
      ensures ok ==> input.limit == old(input.limit) && input.depth == old(input.depth)
    {
      hide MsgBaccaratGameInfoPlayRep.Tied, MsgBaccaratGameInfoPlayRep.Valid, ValidList, Views, Codec.Shaped,
          Codec.Valid, Codec.Parse, Codec.AfterTag, Codec.Accepts, Codec.OneByteTags, Generated.Followed,
        Wire.ReadTag, CodedInputStream.Rest;
      ghost var env, o := input.Environment(), Parse(input.Environment(), GAME_INFO_PLAY, input.Rest(), view);
      var num, wt, jumped := 0, 0, false;
      while true
        invariant Valid() && input.Valid() && !input.legitimateEnd && wt < 8
        invariant input.limit == old(input.limit) && input.depth == old(input.depth)
        invariant forall i :: 0 <= i < |tableCards| ==> tableCards[i] in old(tableCards) || fresh(tableCards[i])
        invariant jumped ==> Accepts(GAME_INFO_PLAY, num, wt)
        invariant o == if jumped then AfterTag(env, GAME_INFO_PLAY, num, wt, input.Rest(), view)
                       else Parse(env, GAME_INFO_PLAY, input.Rest(), view)
        decreases |input.Rest()|
      {
        if !jumped {
          ParseReadsTag(env, GAME_INFO_PLAY, input.Rest(), view);
          var tag := input.ReadTag();
          if tag == 0 {
            return true;
          }
          num, wt := tag / 8, tag % 8;
        }
        jumped := false;
        GameInfoSwitch(num, wt);
        if GameInfoAccepts(num, wt) {
          ok := ParseField(num, wt, input);
          if !ok {
            return;
          }
          ghost var at := input.Rest();
          var next := ExpectNext(num, input);
          TagsAreOneByte();
          FollowedMeans(env, GAME_INFO_PLAY, next, at, input.Rest(), input.legitimateEnd, view);
          if next == AT_END {
            return true;
          } else if next != 0 {
            num, wt, jumped := next, WireTypeOf(GAME_INFO_PLAY.fields[next - 1]), true;
          }
        } else {
          var ended;
          ok, ended := HandleUninterpreted(num, wt, input);
          if !ok || ended {
            return;
          }
        }
      }
    }

    // --------------------------------------------------------------------------------- serializing

    /** Adds the present scalars of the group of bit 2, under its guard. */
    method SizeLow(total: nat) returns (size: nat)
      requires Valid()
      ensures size == total + SizeAt(GAME_INFO_PLAY, view, 2) + SizeAt(GAME_INFO_PLAY, view, 3)
          + SizeAt(GAME_INFO_PLAY, view, 4) + SizeAt(GAME_INFO_PLAY, view, 5) + SizeAt(GAME_INFO_PLAY, view, 6)
          + SizeAt(GAME_INFO_PLAY, view, 7)
    {
      hide *;
      GameInfoTable();
      Facts();
      OptionalSize(GAME_INFO_PLAY, view, 2, UInt32, HasBankerId(), bankerId);
      OptionalSize(GAME_INFO_PLAY, view, 3, UInt32, HasBankerTime(), bankerTime);
      OptionalSize(GAME_INFO_PLAY, view, 4, Int64, HasBankerWinScore(), bankerWinScore);
      OptionalSize(GAME_INFO_PLAY, view, 5, Int64, HasBankerScore(), bankerScore);
      OptionalSize(GAME_INFO_PLAY, view, 6, UInt32, HasTimeLeave(), timeLeave);
      OptionalSize(GAME_INFO_PLAY, view, 7, UInt32, HasGameStatus(), gameStatus);
      size := total;
      if Test(hasBits, 0xFF << 2) {
        if HasBankerId() { size := size + 1 + KindSize(UInt32, bankerId); }
        assert size == total + SizeAt(GAME_INFO_PLAY, view, 2);
        if HasBankerTime() { size := size + 1 + KindSize(UInt32, bankerTime); }
        assert size == total + SizeAt(GAME_INFO_PLAY, view, 2) + SizeAt(GAME_INFO_PLAY, view, 3);
        if HasBankerWinScore() { size := size + 1 + KindSize(Int64, bankerWinScore); }
        assert size == total + SizeAt(GAME_INFO_PLAY, view, 2) + SizeAt(GAME_INFO_PLAY, view, 3)
            + SizeAt(GAME_INFO_PLAY, view, 4);
        if HasBankerScore() { size := size + 1 + KindSize(Int64, bankerScore); }
        assert size == total + SizeAt(GAME_INFO_PLAY, view, 2) + SizeAt(GAME_INFO_PLAY, view, 3)
            + SizeAt(GAME_INFO_PLAY, view, 4) + SizeAt(GAME_INFO_PLAY, view, 5);
        if HasTimeLeave() { size := size + 1 + KindSize(UInt32, timeLeave); }
        assert size == total + SizeAt(GAME_INFO_PLAY, view, 2) + SizeAt(GAME_INFO_PLAY, view, 3)
            + SizeAt(GAME_INFO_PLAY, view, 4) + SizeAt(GAME_INFO_PLAY, view, 5) + SizeAt(GAME_INFO_PLAY, view, 6);
        if HasGameStatus() { size := size + 1 + KindSize(UInt32, gameStatus); }
        assert size == total + SizeAt(GAME_INFO_PLAY, view, 2) + SizeAt(GAME_INFO_PLAY, view, 3)
            + SizeAt(GAME_INFO_PLAY, view, 4) + SizeAt(GAME_INFO_PLAY, view, 5) + SizeAt(GAME_INFO_PLAY, view, 6)
            + SizeAt(GAME_INFO_PLAY, view, 7);
      } else {
        NoneLow();
      }
    }

    /** Adds the present scalars of the group of bit 9, under its guard. */
    method SizeHigh(total: nat) returns (size: nat)
      requires Valid()
      ensures size == total + SizeAt(GAME_INFO_PLAY, view, 9) + SizeAt(GAME_INFO_PLAY, view, 10)
    {
      hide *;
      GameInfoTable();
      Facts();
      OptionalSize(GAME_INFO_PLAY, view, 9, Int64, HasBankerBuyinScore(), bankerBuyinScore);
      OptionalSize(GAME_INFO_PLAY, view, 10, UInt32, HasNeedLeaveBanker(), needLeaveBanker);
      size := total;
      if Test(hasBits, 0xFF << 9) {
        if HasBankerBuyinScore() { size := size + 1 + KindSize(Int64, bankerBuyinScore); }
        assert size == total + SizeAt(GAME_INFO_PLAY, view, 9);
        if HasNeedLeaveBanker() { size := size + 1 + KindSize(UInt32, needLeaveBanker); }
        assert size == total + SizeAt(GAME_INFO_PLAY, view, 9) + SizeAt(GAME_INFO_PLAY, view, 10);
      } else {
        NoneHigh();
      }
    }

    method SizeLists(total: nat) returns (size: nat)
      requires Valid()
      ensures size == total + SizeAt(GAME_INFO_PLAY, view, 8)
    {
      hide *;
      GameInfoTable();
      Facts();
      ListSizeAt(GAME_INFO_PLAY, view, 8, Int64, selfJettonScore);
      size := total;
      var listSize;
      listSize := ListSize(Int64, selfJettonScore);
      size := size + listSize;
    }

    /** The scalars under their group guards, then the lists; every element is left with its size cached. */
    method ByteSize() returns (size: nat)
      requires Valid()
      modifies this`cachedSize, tableCards`cachedSize
      ensures Valid() && SizesAreCurrent(tableCards) && size == Sizes.ByteSize(GAME_INFO_PLAY, view) && cachedSize == size
    {
      hide *;
      GameInfoTable();
      Facts();
      GameInfoSize(view);
      MessagesSizeAt(GAME_INFO_PLAY, view, 1, CARDS, Views(tableCards));
      size := SizeLow(0);
      size := SizeHigh(size);
      ListSizeAt(GAME_INFO_PLAY, view, 0, Int64, allJettonScore);
      var allJettonScoreSize := ListSize(Int64, allJettonScore);
      size := size + allJettonScoreSize;
      var cardsSize := SizeAll(tableCards);
      size := size + cardsSize;
      size := SizeLists(size);
      size := size + UnknownSize(unknownFields);
      cachedSize := size;
    }

    lemma CardsAreSized()
      requires Valid() && Sizes.ByteSize(GAME_INFO_PLAY, view) < TWO_31
      ensures forall j :: 0 <= j < |tableCards| ==> Codec.Valid(CARDS, Views(tableCards)[j])
      ensures MsgsSize(CARDS, Views(tableCards)) < TWO_31
          && |Serialize(GAME_INFO_PLAY, view)| == Sizes.ByteSize(GAME_INFO_PLAY, view)
    {
      hide *;
      GameInfoTable();
      Facts();
      GameInfoSize(view);
      MessagesSizeAt(GAME_INFO_PLAY, view, 1, CARDS, Views(tableCards));
      GameInfoTagsAreOneByte();
      ByteSizeIsExact(GAME_INFO_PLAY, view);
    }

    /** Second phase, in field order, up to field 5: the cached sizes must be current. */
    method SerializeFirst(buf: array<Byte>, at: nat, ghost was: seq<Byte>) returns (end: nat)
      requires Valid() && SizesAreCurrent(tableCards) && buf[..] == was && Codec.Valid(GAME_INFO_PLAY, view)
          && |GAME_INFO_PLAY.fields| == 11
      requires Sizes.ByteSize(GAME_INFO_PLAY, view) < TWO_31 && at + Sizes.ByteSize(GAME_INFO_PLAY, view) <= buf.Length
      modifies buf
      ensures HasWritten(buf, end, was, at, GAME_INFO_PLAY, view, 5)
    {
      hide *;
      GameInfoTable();
      Facts();
      CardsAreSized();
      NothingWritten(buf, was, at, GAME_INFO_PLAY, view);
      end := at;
      end := WriteList(1, Int64, allJettonScore, buf, end, was, at, GAME_INFO_PLAY, view);
      end := WriteAll(2, tableCards, buf, end, was, at, GAME_INFO_PLAY, view);
      end := WriteOptional(3, UInt32, HasBankerId(), bankerId, buf, end, was, at, GAME_INFO_PLAY, view);
      end := WriteOptional(4, UInt32, HasBankerTime(), bankerTime, buf, end, was, at, GAME_INFO_PLAY, view);
      end := WriteOptional(5, Int64, HasBankerWinScore(), bankerWinScore, buf, end, was, at, GAME_INFO_PLAY, view);
    }

    /** Second phase: with the cached sizes current, exactly the serialized bytes. */
    method SerializeWithCachedSizesToArray(buf: array<Byte>, at: nat) returns (end: nat)
      requires Valid() && SizesAreCurrent(tableCards)
      requires Sizes.ByteSize(GAME_INFO_PLAY, view) < TWO_31 && at + Sizes.ByteSize(GAME_INFO_PLAY, view) <= buf.Length
      modifies buf
      ensures end == at + Sizes.ByteSize(GAME_INFO_PLAY, view)
      ensures buf[..end] == old(buf[..at]) + Serialize(GAME_INFO_PLAY, view)
      ensures buf[end..] == old(buf[..])[end..]
    {
      hide *;
      GameInfoTable();
      ghost var was := buf[..];
      Facts();
      CardsAreSized();
      end := SerializeFirst(buf, at, was);
      end := WriteOptional(6, Int64, HasBankerScore(), bankerScore, buf, end, was, at, GAME_INFO_PLAY, view);
      end := WriteOptional(7, UInt32, HasTimeLeave(), timeLeave, buf, end, was, at, GAME_INFO_PLAY, view);
      end := WriteOptional(8, UInt32, HasGameStatus(), gameStatus, buf, end, was, at, GAME_INFO_PLAY, view);
      end := WriteList(9, Int64, selfJettonScore, buf, end, was, at, GAME_INFO_PLAY, view);
      end := WriteOptional(10, Int64, HasBankerBuyinScore(), bankerBuyinScore, buf, end, was, at, GAME_INFO_PLAY, view);
      end := WriteOptional(11, UInt32, HasNeedLeaveBanker(), needLeaveBanker, buf, end, was, at, GAME_INFO_PLAY, view);
      end := WriteUnknown(unknownFields, buf, end, was, at, GAME_INFO_PLAY, view);
    }

    // --------------------------------------------------------------------------- from and to arrays

    /** MessageLite::SerializeToArray: both phases, if the bytes fit. */
    method SerializeToArray(buf: array<Byte>, size: nat) returns (ok: bool)
      requires Valid() && size <= buf.Length && size < TWO_31
      modifies this`cachedSize, tableCards`cachedSize, buf
      ensures Valid() && view == old(view)
      ensures ok <==> Sizes.ByteSize(GAME_INFO_PLAY, view) <= size
      ensures ok ==> |Serialize(GAME_INFO_PLAY, view)| == Sizes.ByteSize(GAME_INFO_PLAY, view)
      ensures ok ==> buf[..] == Serialize(GAME_INFO_PLAY, view) + old(buf[..])[Sizes.ByteSize(GAME_INFO_PLAY, view)..]
      ensures !ok ==> buf[..] == old(buf[..])
    {
      hide *;
      var n := ByteSize();
      ok := n <= size;
      if ok {
        TagsAreOneByte();
        ByteSizeIsExact(GAME_INFO_PLAY, view);
        ghost var was := buf[..];
        var end := SerializeWithCachedSizesToArray(buf, 0);
        assert was[..0] + Serialize(GAME_INFO_PLAY, view) == Serialize(GAME_INFO_PLAY, view);
        assert buf[..] == buf[..end] + buf[end..];
      }
    }

    /** MessageLite::ParseFromArray: the whole input must be one message. */
    method ParseFromArray(bytes: seq<Byte>, depth: nat, clamp: bool) returns (ok: bool)
      requires Valid()
      modifies this
      ensures Valid() && forall i :: 0 <= i < |tableCards| ==> fresh(tableCards[i])
      ensures view == Parse(Env(depth, clamp), GAME_INFO_PLAY, bytes, Fresh(GAME_INFO_PLAY)).m
      ensures ok == Parse(Env(depth, clamp), GAME_INFO_PLAY, bytes, Fresh(GAME_INFO_PLAY)).Complete()
    {
      hide MsgBaccaratGameInfoPlayRep.Tied, MsgBaccaratGameInfoPlayRep.Valid, ValidList, Views, BitsOf, Codec.Valid,
          Codec.Parse, Codec.Fresh, CodedInputStream.Rest;
      Clear();
      var input := new CodedInputStream(bytes, depth, clamp);
      ok := MergePartialFromCodedStream(input);
      ok := ok && input.legitimateEnd;
    }

    // ------------------------------------------------------------------------------------- merging

    /** `if (from.has_f()) set_f(from.f());` */
    method MergeOptional(k: nat, i: nat, from: MsgBaccaratGameInfoPlayRep, ghost a: Msg, ghost order: seq<nat>)
      requires Valid() && from.Valid() && from != this && i in {2, 3, 4, 5, 6, 7, 9, 10}
      requires Visits(GAME_INFO_PLAY, order) && k < |order| && order[k] == i
      requires Shaped(GAME_INFO_PLAY, a) && view == MergedTo(GAME_INFO_PLAY, a, from.view, order, k)
      modifies this
      ensures Valid() && view == MergedTo(GAME_INFO_PLAY, a, from.view, order, k + 1)
          && cachedSize == old(cachedSize) && tableCards == old(tableCards)
    {
      hide *;
      GameInfoTable();
      from.Facts();
      MergeStep(GAME_INFO_PLAY, a, from.view, order, k);
      match i {
        case 2 => if from.HasBankerId() { SetBankerId(from.bankerId); }
        case 3 => if from.HasBankerTime() { SetBankerTime(from.bankerTime); }
        case 4 => if from.HasBankerWinScore() { SetBankerWinScore(from.bankerWinScore); }
        case 5 => if from.HasBankerScore() { SetBankerScore(from.bankerScore); }
        case 6 => if from.HasTimeLeave() { SetTimeLeave(from.timeLeave); }
        case 7 => if from.HasGameStatus() { SetGameStatus(from.gameStatus); }
        case 9 => if from.HasBankerBuyinScore() { SetBankerBuyinScore(from.bankerBuyinScore); }
        case 10 => if from.HasNeedLeaveBanker() { SetNeedLeaveBanker(from.needLeaveBanker); }
      }
    }

    method MergeLists(from: MsgBaccaratGameInfoPlayRep, ghost a: Msg, ghost order: seq<nat>)
      requires Valid() && from.Valid() && from != this && view == a && Shaped(GAME_INFO_PLAY, a)
          && order == GameInfoMergeOrder()
      modifies this
      ensures Valid() && view == MergedTo(GAME_INFO_PLAY, a, from.view, order, 3) && cachedSize == old(cachedSize)
      ensures forall i :: 0 <= i < |tableCards| ==> tableCards[i] in old(tableCards) || fresh(tableCards[i])
    {
      hide *;
      GameInfoTable();
      GameInfoVisits();
      from.Facts();
      MergeEnds(GAME_INFO_PLAY, a, from.view, order);
      MergeIntsStep(GAME_INFO_PLAY, a, from.view, order, 0, from.allJettonScore);
      AddAllJettonScore(from.allJettonScore);
      MergeMsgsStep(GAME_INFO_PLAY, a, from.view, order, 1, Views(from.tableCards));
      MergeTableCards(from.tableCards);
      MergeIntsStep(GAME_INFO_PLAY, a, from.view, order, 2, from.selfJettonScore);
      AddSelfJettonScore(from.selfJettonScore);
    }

    method MergeTableCards(theirs: seq<MsgCards>)
      requires Valid() && ValidList(theirs)
      modifies this
      ensures Valid() && old(view.vals[1].Msgs?) && view == Set(old(view), 1, Msgs(old(view).vals[1].ms + Views(theirs)))
      ensures cachedSize == old(cachedSize)
      ensures forall i :: 0 <= i < |tableCards| ==> tableCards[i] in old(tableCards) || fresh(tableCards[i])
    {
      hide Codec.Valid, BitsOf, MsgCards.Valid, Views, ValidList, Tables.GAME_INFO_PLAY,
          MsgBaccaratGameInfoPlayRep.Tied, MsgBaccaratGameInfoPlayRep.Valid, Codec.Shaped;
      GameInfoTable();
      ghost var m := view;
      Facts();
      ViewsAreValid(theirs);
      AddMsgsIsValid(GAME_INFO_PLAY, m, 1, CARDS, Views(theirs));
      tableCards := MergeList(tableCards, theirs);
      view := Set(m, 1, Msgs(m.vals[1].ms + Views(theirs)));
      OnlyCardsChanged();
    }

    method MergeLow(from: MsgBaccaratGameInfoPlayRep, ghost a: Msg, ghost order: seq<nat>)
      requires Valid() && from.Valid() && from != this && Shaped(GAME_INFO_PLAY, a) && order == GameInfoMergeOrder()
      requires view == MergedTo(GAME_INFO_PLAY, a, from.view, order, 3)
      modifies this
      ensures Valid() && view == MergedTo(GAME_INFO_PLAY, a, from.view, order, 9)
          && cachedSize == old(cachedSize) && tableCards == old(tableCards)
    {
      hide *;
      GameInfoVisits();
      from.Facts();
      if Test(from.hasBits, 0xFF << 2) {
        MergeOptional(3, 2, from, a, order);
        MergeOptional(4, 3, from, a, order);
        MergeOptional(5, 4, from, a, order);
        MergeOptional(6, 5, from, a, order);
        MergeOptional(7, 6, from, a, order);
        MergeOptional(8, 7, from, a, order);
      } else {
        from.NoneLow();
        AbsentKeeps(GAME_INFO_PLAY, a, from.view, order, 3, 9);
      }
    }

    method MergeHigh(from: MsgBaccaratGameInfoPlayRep, ghost a: Msg, ghost order: seq<nat>)
      requires Valid() && from.Valid() && from != this && Shaped(GAME_INFO_PLAY, a) && order == GameInfoMergeOrder()
      requires view == MergedTo(GAME_INFO_PLAY, a, from.view, order, 9)
      modifies this
      ensures Valid() && view == MergedTo(GAME_INFO_PLAY, a, from.view, order, 11)
          && cachedSize == old(cachedSize) && tableCards == old(tableCards)
    {
      hide *;
      GameInfoVisits();
      from.Facts();
      if Test(from.hasBits, 0xFF << 9) {
        MergeOptional(9, 9, from, a, order);
        MergeOptional(10, 10, from, a, order);
      } else {
        from.NoneHigh();
        AbsentKeeps(GAME_INFO_PLAY, a, from.view, order, 9, 11);
      }
    }

    /** Lists are appended first; then each group of scalars that has any present. */
    method MergeFrom(from: MsgBaccaratGameInfoPlayRep)
      requires Valid() && from.Valid() && from != this
      modifies this
      ensures Valid() && view == Merge(GAME_INFO_PLAY, old(view), from.view) && cachedSize == old(cachedSize)
      ensures forall i :: 0 <= i < |tableCards| ==> tableCards[i] in old(tableCards) || fresh(tableCards[i])
    {
      hide *;
      GameInfoVisits();
      ghost var a, b, order := view, from.view, GameInfoMergeOrder();
      Facts();
      from.Facts();
      MergeEnds(GAME_INFO_PLAY, a, b, order);
      MergeKeepsValid(GAME_INFO_PLAY, a, b);
      MergeLists(from, a, order);
      MergeLow(from, a, order);
      MergeHigh(from, a, order);
      AddUnknownFields(from.unknownFields);
    }

    method CopyFrom(from: MsgBaccaratGameInfoPlayRep)
      requires Valid() && from.Valid()
      modifies this
      ensures Valid() && view == old(from.view) && cachedSize == old(cachedSize)
      ensures from != this ==> forall i :: 0 <= i < |tableCards| ==> fresh(tableCards[i])
    {
      hide Codec.Valid, BitsOf, MsgBaccaratGameInfoPlayRep.Tied, MsgBaccaratGameInfoPlayRep.Valid, Codec.Merge,
          Codec.Shaped, ValidList, Views, Tables.GAME_INFO_PLAY;
      if from == this {
        return;
      }
      Clear();
      MergeFrom(from);
      CopyIsExactlyForDefaults(GAME_INFO_PLAY, from.view);
    }

    method SwapScalars(other: MsgBaccaratGameInfoPlayRep)
      requires other != this
      modifies `bankerId, `bankerTime, `bankerWinScore, `bankerScore, `timeLeave, `gameStatus, `bankerBuyinScore,
          `needLeaveBanker, other`bankerId, other`bankerTime, other`bankerWinScore, other`bankerScore,
          other`timeLeave, other`gameStatus, other`bankerBuyinScore, other`needLeaveBanker
      ensures bankerId == old(other.bankerId) && other.bankerId == old(bankerId)
      ensures bankerTime == old(other.bankerTime) && other.bankerTime == old(bankerTime)
      ensures bankerWinScore == old(other.bankerWinScore) && other.bankerWinScore == old(bankerWinScore)
      ensures bankerScore == old(other.bankerScore) && other.bankerScore == old(bankerScore)
      ensures timeLeave == old(other.timeLeave) && other.timeLeave == old(timeLeave)
      ensures gameStatus == old(other.gameStatus) && other.gameStatus == old(gameStatus)
      ensures bankerBuyinScore == old(other.bankerBuyinScore) && other.bankerBuyinScore == old(bankerBuyinScore)
      ensures needLeaveBanker == old(other.needLeaveBanker) && other.needLeaveBanker == old(needLeaveBanker)
    {
      hide *;
      bankerId, other.bankerId := other.bankerId, bankerId;
      bankerTime, other.bankerTime := other.bankerTime, bankerTime;
      bankerWinScore, other.bankerWinScore := other.bankerWinScore, bankerWinScore;
      bankerScore, other.bankerScore := other.bankerScore, bankerScore;
      timeLeave, other.timeLeave := other.timeLeave, timeLeave;
      gameStatus, other.gameStatus := other.gameStatus, gameStatus;
      bankerBuyinScore, other.bankerBuyinScore := other.bankerBuyinScore, bankerBuyinScore;
      needLeaveBanker, other.needLeaveBanker := other.needLeaveBanker, needLeaveBanker;
    }

    method SwapLists(other: MsgBaccaratGameInfoPlayRep)
      requires other != this
      modifies `tableCards, other`tableCards, `allJettonScore, `selfJettonScore, other`allJettonScore,
          other`selfJettonScore
      ensures tableCards == old(other.tableCards) && other.tableCards == old(tableCards)
      ensures allJettonScore == old(other.allJettonScore) && other.allJettonScore == old(allJettonScore)
      ensures selfJettonScore == old(other.selfJettonScore) && other.selfJettonScore == old(selfJettonScore)
    {
      hide *;
      tableCards, other.tableCards := other.tableCards, tableCards;
      allJettonScore, other.allJettonScore := other.allJettonScore, allJettonScore;
      selfJettonScore, other.selfJettonScore := other.selfJettonScore, selfJettonScore;
    }

    method SwapRest(other: MsgBaccaratGameInfoPlayRep)
      requires other != this
      modifies `hasBits, `unknownFields, `cachedSize, `view, other`hasBits, other`unknownFields, other`cachedSize,
          other`view
      ensures hasBits == old(other.hasBits) && other.hasBits == old(hasBits)
      ensures unknownFields == old(other.unknownFields) && other.unknownFields == old(unknownFields)
      ensures cachedSize == old(other.cachedSize) && other.cachedSize == old(cachedSize)
      ensures view == old(other.view) && other.view == old(view)
    {
      hide *;
      hasBits, other.hasBits := other.hasBits, hasBits;
      unknownFields, other.unknownFields := other.unknownFields, unknownFields;
      cachedSize, other.cachedSize := other.cachedSize, cachedSize;
      view, other.view := other.view, view;
    }

    /** With all the fields of another message come its ties. */
    twostate lemma HoldsAllOf(other: MsgBaccaratGameInfoPlayRep)
      requires old(other.Valid()) && view == old(other.view) && hasBits == old(other.hasBits)
          && unknownFields == old(other.unknownFields)
      requires tableCards == old(other.tableCards) && ValidList(tableCards)
          && Views(tableCards) == old(Views(other.tableCards))
      requires allJettonScore == old(other.allJettonScore)
      requires bankerId == old(other.bankerId)
      requires bankerTime == old(other.bankerTime)
      requires bankerWinScore == old(other.bankerWinScore)
      requires bankerScore == old(other.bankerScore)
      requires timeLeave == old(other.timeLeave)
      requires gameStatus == old(other.gameStatus)
      requires selfJettonScore == old(other.selfJettonScore)
      requires bankerBuyinScore == old(other.bankerBuyinScore)
      requires needLeaveBanker == old(other.needLeaveBanker)
      ensures Valid()
    {
      hide Codec.Valid, BitsOf, ValidList, Views, Tables.GAME_INFO_PLAY;
    }

    method SwapFields(other: MsgBaccaratGameInfoPlayRep)
      requires other != this
      modifies this, other
      ensures allJettonScore == old(other.allJettonScore) && other.allJettonScore == old(allJettonScore)
      ensures tableCards == old(other.tableCards) && other.tableCards == old(tableCards)
      ensures bankerId == old(other.bankerId) && other.bankerId == old(bankerId)
      ensures bankerTime == old(other.bankerTime) && other.bankerTime == old(bankerTime)
      ensures bankerWinScore == old(other.bankerWinScore) && other.bankerWinScore == old(bankerWinScore)
      ensures bankerScore == old(other.bankerScore) && other.bankerScore == old(bankerScore)
      ensures timeLeave == old(other.timeLeave) && other.timeLeave == old(timeLeave)
      ensures gameStatus == old(other.gameStatus) && other.gameStatus == old(gameStatus)
      ensures selfJettonScore == old(other.selfJettonScore) && other.selfJettonScore == old(selfJettonScore)
      ensures bankerBuyinScore == old(other.bankerBuyinScore) && other.bankerBuyinScore == old(bankerBuyinScore)
      ensures needLeaveBanker == old(other.needLeaveBanker) && other.needLeaveBanker == old(needLeaveBanker)
      ensures hasBits == old(other.hasBits) && other.hasBits == old(hasBits)
      ensures unknownFields == old(other.unknownFields) && other.unknownFields == old(unknownFields)
      ensures cachedSize == old(other.cachedSize) && other.cachedSize == old(cachedSize)
      ensures view == old(other.view) && other.view == old(view)
    {
      hide *;
      SwapScalars(other);
      SwapLists(other);
      SwapRest(other);
    }

    method Swap(other: MsgBaccaratGameInfoPlayRep)
      requires Valid() && other.Valid()
      modifies this, other
      ensures Valid() && other.Valid()
      ensures view == old(other.view) && other.view == old(view)
      ensures tableCards == old(other.tableCards) && other.tableCards == old(tableCards)
      ensures cachedSize == old(other.cachedSize) && other.cachedSize == old(cachedSize)
    {
      hide *;
      if other != this {
        SwapFields(other);
        HoldsAllOf(other);
        other.HoldsAllOf(this);
      }
    }
  }

  /**
    One object into bytes and the bytes into another: it comes back equal exactly when the recursion limit
    allows its nesting.
   */
  method ThereAndBack(msg: MsgBaccaratGameInfoPlayRep, depth: nat,
      clamp: bool) returns (back: MsgBaccaratGameInfoPlayRep, ok: bool)
    requires msg.Valid() && Sizes.ByteSize(GAME_INFO_PLAY, msg.view) < TWO_31
    modifies msg`cachedSize, msg.tableCards`cachedSize
    ensures msg.Valid() && msg.view == old(msg.view) && back.Valid() && fresh(back)
    ensures ok <==> Fits(GAME_INFO_PLAY, msg.view, depth)
    ensures ok ==> back.view == msg.view
  {
    hide MsgBaccaratGameInfoPlayRep.Tied, MsgBaccaratGameInfoPlayRep.Valid, ValidList, Views, BitsOf, Codec.Valid,
        Codec.Parse, Codec.Fresh, Codec.Serialize, Codec.Fits, Sizes.ByteSize, OneByteTags;
    TagsAreOneByte();
    var n := msg.ByteSize();
    var buf := new Byte[n];
    ok := msg.SerializeToArray(buf, n);
    assert buf[..] == Serialize(GAME_INFO_PLAY, msg.view);
    RoundTripExactlyWhenItFits(Env(depth, clamp), GAME_INFO_PLAY, msg.view);
    back := new MsgBaccaratGameInfoPlayRep();
    ok := back.ParseFromArray(buf[..], depth, clamp);
  }

  // ------------------------------------------------------------------------------------ the field table

  /** The cases of the switch. */
  predicate GameInfoAccepts(num: nat, wt: nat) {
    if num == 2 then wt == LENGTH_DELIMITED
    else if num in {1, 9} then wt == VARINT || wt == LENGTH_DELIMITED
    else 1 <= num <= 11 && wt == VARINT
  }

  lemma GameInfoSwitch(num: nat, wt: nat)
    ensures Accepts(GAME_INFO_PLAY, num, wt) <==> GameInfoAccepts(num, wt)
  {
  }

  lemma GameInfoFresh()
    ensures |Fresh(GAME_INFO_PLAY).vals| == 11 && Fresh(GAME_INFO_PLAY).unknown == []
    ensures Fresh(GAME_INFO_PLAY).vals[0] == Ints([])
    ensures Fresh(GAME_INFO_PLAY).vals[1] == Msgs([])
    ensures Fresh(GAME_INFO_PLAY).vals[2] == Scalar(false, 0)
    ensures Fresh(GAME_INFO_PLAY).vals[3] == Scalar(false, 0)
    ensures Fresh(GAME_INFO_PLAY).vals[4] == Scalar(false, 0)
    ensures Fresh(GAME_INFO_PLAY).vals[5] == Scalar(false, 0)
    ensures Fresh(GAME_INFO_PLAY).vals[6] == Scalar(false, 0)
    ensures Fresh(GAME_INFO_PLAY).vals[7] == Scalar(false, 0)
    ensures Fresh(GAME_INFO_PLAY).vals[8] == Ints([])
    ensures Fresh(GAME_INFO_PLAY).vals[9] == Scalar(false, 0)
    ensures Fresh(GAME_INFO_PLAY).vals[10] == Scalar(false, 0)
  {
  }

  /** The order in which MergeFrom visits the fields. */
  function GameInfoMergeOrder(): seq<nat> { [0, 1, 8, 2, 3, 4, 5, 6, 7, 9, 10] }

  lemma GameInfoVisits()
    ensures Visits(GAME_INFO_PLAY, GameInfoMergeOrder())
    ensures |GameInfoMergeOrder()| == 11
    ensures GameInfoMergeOrder()[0] == 0
    ensures GameInfoMergeOrder()[1] == 1
    ensures GameInfoMergeOrder()[2] == 8
    ensures GameInfoMergeOrder()[3] == 2
    ensures GameInfoMergeOrder()[4] == 3
    ensures GameInfoMergeOrder()[5] == 4
    ensures GameInfoMergeOrder()[6] == 5
    ensures GameInfoMergeOrder()[7] == 6
    ensures GameInfoMergeOrder()[8] == 7
    ensures GameInfoMergeOrder()[9] == 9
    ensures GameInfoMergeOrder()[10] == 10
  {
    hide Tables.GAME_INFO_PLAY;
    GameInfoTable();
    var order := GameInfoMergeOrder();
    assert order[0] == 0;
    assert order[1] == 1;
    assert order[2] == 8;
    assert order[3] == 2;
    assert order[4] == 3;
    assert order[5] == 4;
    assert order[6] == 5;
    assert order[7] == 6;
    assert order[8] == 7;
    assert order[9] == 9;
    assert order[10] == 10;
  }

  /** The fields in the order in which ByteSize visits them. */
  lemma GameInfoSize(m: Msg)
    requires Codec.Valid(GAME_INFO_PLAY, m)
    ensures AllStorable(m.unknown)
    ensures Sizes.ByteSize(GAME_INFO_PLAY, m) == SizeAt(GAME_INFO_PLAY, m, 2) + SizeAt(GAME_INFO_PLAY, m, 3)
        + SizeAt(GAME_INFO_PLAY, m, 4) + SizeAt(GAME_INFO_PLAY, m, 5) + SizeAt(GAME_INFO_PLAY, m, 6)
        + SizeAt(GAME_INFO_PLAY, m, 7) + SizeAt(GAME_INFO_PLAY, m, 9) + SizeAt(GAME_INFO_PLAY, m, 10)
        + SizeAt(GAME_INFO_PLAY, m, 0) + SizeAt(GAME_INFO_PLAY, m, 1) + SizeAt(GAME_INFO_PLAY, m, 8)
        + UnknownSize(m.unknown)
  {
    hide Codec.Valid, BitsOf, Generated.SizeAt, Sizes.ByteSize, Tables.GAME_INFO_PLAY;
    GameInfoTable();
    var order: seq<nat> := [2, 3, 4, 5, 6, 7, 9, 10, 0, 1, 8];
    var t := Totals(GAME_INFO_PLAY, m, order);
    assert order[0] == 2;
    assert order[1] == 3;
    assert order[2] == 4;
    assert order[3] == 5;
    assert order[4] == 6;
    assert order[5] == 7;
    assert order[6] == 9;
    assert order[7] == 10;
    assert order[8] == 0;
    assert order[9] == 1;
    assert order[10] == 8;
  }

  lemma GameInfoTagsAreOneByte()
    ensures OneByteTags(GAME_INFO_PLAY)
  {
    TagsAreOneByte();
  }
}
