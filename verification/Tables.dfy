/** The field tables of the messages, as their generated parse loops and serializers list them. */
module Tables {
  import opened Codec

  // baccarat_play_log: player_pair, banker_pair, player_count, banker_count, is_small, is_super_six, index
  const PLAY_LOG := Schema([
    Optional(UInt32), Optional(UInt32), Optional(UInt32), Optional(UInt32),
    Optional(UInt32), Optional(UInt32), Optional(UInt32)])

  // msg_baccarat_play_log_rep: logs
  const PLAY_LOG_REP := Schema([Nested(PLAY_LOG)])

  // msg_cards: cards; bainiu_play_log (seats_win) has the same table
  const CARDS := Schema([Repeated(UInt32)])

  // msg_bainiu_play_log_rep: logs
  const BAINIU_PLAY_LOG_REP := Schema([Nested(CARDS)])

  // msg_baccarat_apply_list: player_ids, apply_score
  const APPLY_LIST := Schema([Repeated(UInt32), Repeated(Int64)])

  // msg_baccarat_game_info_play_rep: all_jetton_score, table_cards, banker_id, banker_time,
  // banker_win_score, banker_score, time_leave, game_status, self_jetton_score, banker_buyin_score,
  // need_leave_banker
  const GAME_INFO_PLAY := Schema([
    Repeated(Int64), Nested(CARDS), Optional(UInt32), Optional(UInt32), Optional(Int64), Optional(Int64),
    Optional(UInt32), Optional(UInt32), Repeated(Int64), Optional(Int64), Optional(UInt32)])

  // msg_bainiu_game_end: time_leave, table_cards, card_types, banker_win_score, banker_total_score,
  // banker_time, user_score, player_score, win_multiple, rand_card, settle_accounts_type,
  // total_gamecount, area_wincount, area_lostcount
  const GAME_END := Schema([
    Optional(UInt32), Nested(CARDS), Repeated(UInt32), Optional(Int64), Optional(Int64), Optional(UInt32),
    Optional(Int64), Repeated(Int64), Repeated(Int32), Optional(UInt32), Optional(UInt32), Optional(UInt32),
    Repeated(UInt32), Repeated(UInt32)])

  /** The constant 1 per tag in every generated ByteSize is right for these messages. */
  lemma TagsAreOneByte()
    ensures OneByteTags(PLAY_LOG) && OneByteTags(PLAY_LOG_REP) && OneByteTags(CARDS) && OneByteTags(BAINIU_PLAY_LOG_REP)
    ensures OneByteTags(APPLY_LIST) && OneByteTags(GAME_INFO_PLAY) && OneByteTags(GAME_END)
  {
  }

  lemma PlayLogTable()
    ensures |PLAY_LOG.fields| == 7 && forall i :: 0 <= i < 7 ==> PLAY_LOG.fields[i] == Optional(UInt32)
  {
  }

  lemma GameEndTable()
    ensures |GAME_END.fields| == 14
    ensures GAME_END.fields[0] == Optional(UInt32)
    ensures GAME_END.fields[1] == Nested(CARDS)
    ensures GAME_END.fields[2] == Repeated(UInt32)
    ensures GAME_END.fields[3] == Optional(Int64)
    ensures GAME_END.fields[4] == Optional(Int64)
    ensures GAME_END.fields[5] == Optional(UInt32)
    ensures GAME_END.fields[6] == Optional(Int64)
    ensures GAME_END.fields[7] == Repeated(Int64)
    ensures GAME_END.fields[8] == Repeated(Int32)
    ensures GAME_END.fields[9] == Optional(UInt32)
    ensures GAME_END.fields[10] == Optional(UInt32)
    ensures GAME_END.fields[11] == Optional(UInt32)
    ensures GAME_END.fields[12] == Repeated(UInt32)
    ensures GAME_END.fields[13] == Repeated(UInt32)
  {
  }

  lemma GameInfoTable()
    ensures |GAME_INFO_PLAY.fields| == 11
    ensures GAME_INFO_PLAY.fields[0] == Repeated(Int64)
    ensures GAME_INFO_PLAY.fields[1] == Nested(CARDS)
    ensures GAME_INFO_PLAY.fields[2] == Optional(UInt32)
    ensures GAME_INFO_PLAY.fields[3] == Optional(UInt32)
    ensures GAME_INFO_PLAY.fields[4] == Optional(Int64)
    ensures GAME_INFO_PLAY.fields[5] == Optional(Int64)
    ensures GAME_INFO_PLAY.fields[6] == Optional(UInt32)
    ensures GAME_INFO_PLAY.fields[7] == Optional(UInt32)
    ensures GAME_INFO_PLAY.fields[8] == Repeated(Int64)
    ensures GAME_INFO_PLAY.fields[9] == Optional(Int64)
    ensures GAME_INFO_PLAY.fields[10] == Optional(UInt32)
  {
  }
}
