/** How large the play logs and their reply can get, and so how long their length prefixes are. */
module SizeBounds {
  import opened Codec
  import opened Sizes
  import opened Generated
  import opened Tables

  predicate NoUnknowns(ms: seq<Msg>) { forall j :: 0 <= j < |ms| ==> ms[j].unknown == [] }

  lemma ScalarIsSmall(m: Msg, i: nat)
    requires Valid(PLAY_LOG, m) && i < 7
    ensures SizeAt(PLAY_LOG, m, i) <= 6
    ensures SizeAt(PLAY_LOG, m, i) == 0 <==> !m.vals[i].has
  {
    PlayLogTable();
    DefaultBehindClearBit(PLAY_LOG, m, i);
    OptionalSize(PLAY_LOG, m, i, UInt32, m.vals[i].has, m.vals[i].v);
  }

  lemma {:induction false} ScalarsAreSmall(m: Msg, n: nat)
    requires Valid(PLAY_LOG, m) && n <= 7
    ensures FieldsSize(PLAY_LOG, m, n) <= 6 * n
    ensures FieldsSize(PLAY_LOG, m, n) == 0 <==> forall i :: 0 <= i < n ==> !m.vals[i].has
  {
    if n > 0 {
      ScalarsAreSmall(m, n - 1);
      ScalarIsSmall(m, n - 1);
    }
  }

  lemma AbsentMeansFresh(m: Msg)
    requires Valid(PLAY_LOG, m) && m.unknown == []
    ensures |m.vals| == 7 && forall i :: 0 <= i < 7 ==> m.vals[i].Scalar?
    ensures m == Fresh(PLAY_LOG) <==> forall i :: 0 <= i < 7 ==> !m.vals[i].has
  {
    PlayLogTable();
    forall i | 0 <= i < 7
      ensures m.vals[i].Scalar? && (m.vals[i] == Fresh(PLAY_LOG).vals[i] <==> !m.vals[i].has)
    {
      DefaultBehindClearBit(PLAY_LOG, m, i);
    }
    if forall i :: 0 <= i < 7 ==> !m.vals[i].has {
      assert m.vals == Fresh(PLAY_LOG).vals;
    }
  }

  /** A log without unknown records takes at most 42 bytes, and none exactly when it is empty. */
  lemma PlayLogIsSmall(m: Msg)
    requires Valid(PLAY_LOG, m) && m.unknown == []
    ensures Sizes.ByteSize(PLAY_LOG, m) <= 42
    ensures Sizes.ByteSize(PLAY_LOG, m) == 0 <==> m == Fresh(PLAY_LOG)
    ensures LengthDelimitedSize(Sizes.ByteSize(PLAY_LOG, m)) == 1 + Sizes.ByteSize(PLAY_LOG, m)
  {
    hide Codec.Valid, Codec.Fresh;
    PlayLogTable();
    ScalarsAreSmall(m, 7);
    AbsentMeansFresh(m);
  }

  lemma {:induction false} LogsAreSmall(ms: seq<Msg>)
    requires NoUnknowns(ms) && forall j :: 0 <= j < |ms| ==> Valid(PLAY_LOG, ms[j])
    ensures |ms| <= MsgsSize(PLAY_LOG, ms) <= 43 * |ms|
  {
    if ms != [] {
      LogsAreSmall(ms[..|ms| - 1]);
      PlayLogIsSmall(ms[|ms| - 1]);
    }
  }

  /** A reply of n logs, without unknown records, takes between 2n and 44n bytes. */
  lemma ReplyIsBounded(ms: seq<Msg>)
    requires Valid(PLAY_LOG_REP, Msg([Msgs(ms)], [])) && NoUnknowns(ms)
    ensures 2 * |ms| <= Sizes.ByteSize(PLAY_LOG_REP, Msg([Msgs(ms)], [])) <= 44 * |ms|
  {
    var m, order: seq<nat> := Msg([Msgs(ms)], []), [0];
    var t := Totals(PLAY_LOG_REP, m, order);
    assert order[0] == 0;
    MessagesSizeAt(PLAY_LOG_REP, m, 0, PLAY_LOG, ms);
    LogsAreSmall(ms);
  }
}
