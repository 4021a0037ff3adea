/**
  Runs and objects meet: a program carried out on real logs and replies, with their presence bits, cached
  sizes, jumping parse loops and lists of elements, leaves in them exactly the messages that the run of the
  same program computes on values.
 */
module Programs {
  import opened Codec
  import opened Invariants
  import opened Merging
  import opened Stream
  import opened Tables
  import opened BaccaratPlayLogs
  import opened Heaps

  // ----------------------------------------------------------------------------------------- edits of an object

  /** Each edit of a log is the method of its class. */
  method EditLog(log: BaccaratPlayLog, e: Edit)
    requires log.Valid() && Enabled(PLAY_LOG, e, log.view)
    modifies log
    ensures log.Valid() && log.view == ApplyEdit(PLAY_LOG, e, old(log.view))
  {
    hide BaccaratPlayLog.Valid, Codec.Valid, Codec.Parse, CodedInputStream.Rest;
    TwoTables();
    match e
    case SetScalar(i, x) =>
      if i == 0 { log.SetPlayerPair(x); }
      else if i == 1 { log.SetBankerPair(x); }
      else if i == 2 { log.SetPlayerCount(x); }
      else if i == 3 { log.SetBankerCount(x); }
      else if i == 4 { log.SetIsSmall(x); }
      else if i == 5 { log.SetIsSuperSix(x); }
      else { log.SetIndex(x); }
    case ClearScalar(i) =>
      if i == 0 { log.ClearPlayerPair(); }
      else if i == 1 { log.ClearBankerPair(); }
      else if i == 2 { log.ClearPlayerCount(); }
      else if i == 3 { log.ClearBankerCount(); }
      else if i == 4 { log.ClearIsSmall(); }
      else if i == 5 { log.ClearIsSuperSix(); }
      else { log.ClearIndex(); }
    case ClearAll => log.Clear();
    case ParseInto(env, bs) =>
      var input := new CodedInputStream(bs, env.depth, env.clamp);
      var ok := log.MergePartialFromCodedStream(input);
    case AddInt(_, _) => assert false;
    case SetInt(_, _, _) => assert false;
    case ClearList(_) => assert false;
    case AddNested(_) => assert false;
  }

  /** Each edit of a reply is the method of its class; logs it gains are new objects. */
  method EditReply(rep: MsgBaccaratPlayLogRep, e: Edit)
    requires rep.Valid() && Enabled(PLAY_LOG_REP, e, rep.View())
    modifies rep
    ensures rep.Valid() && rep.View() == ApplyEdit(PLAY_LOG_REP, e, old(rep.View()))
    ensures forall i :: 0 <= i < |rep.logs| ==> rep.logs[i] in old(rep.logs) || fresh(rep.logs[i])
  {
    hide MsgBaccaratPlayLogRep.Valid, Codec.Valid, Codec.Parse, CodedInputStream.Rest, Views;
    TwoTables();
    match e
    case ClearList(_) => rep.ClearLogs();
    case AddNested(_) => rep.AddLogs();
    case ClearAll => rep.Clear();
    case ParseInto(env, bs) =>
      var input := new CodedInputStream(bs, env.depth, env.clamp);
      var ok := rep.MergePartialFromCodedStream(input);
    case SetScalar(_, _) => assert false;
    case ClearScalar(_) => assert false;
    case AddInt(_, _) => assert false;
    case SetInt(_, _, _) => assert false;
  }

  // ----------------------------------------------------------------------------------- operations on logs

  /** Two places on a heap, or one place twice. */
  datatype Spots = Spots(hs: seq<Handle>, t: nat, j: nat, t': nat, j': nat)

  /** All logs are valid, and those at other places are what they were. */
  twostate predicate OnlyAt(p: Spots)
    requires RepliesUntouched(p.hs)
    reads Replies(p.hs), AllLogs(p.hs)
  {
    forall u, k :: 0 <= u < |p.hs| && 0 <= k < |Logs(p.hs[u])| ==>
      && Logs(p.hs[u])[k].Valid()
      && ((u != p.t || k != p.j) && (u != p.t' || k != p.j') ==> Logs(p.hs[u])[k].view == old(Logs(p.hs[u])[k].view))
  }

  // Each operation on logs in two steps: what it does to the objects, and that the run does the same.

  method EditLogAtInPlace(hs: seq<Handle>, t: nat, j: nat, log: BaccaratPlayLog, e: Edit)
    requires log.Valid() && Enabled(PLAY_LOG, e, log.view)
    requires Heap(hs) && t < |hs| && j < |Logs(hs[t])| && Logs(hs[t])[j] == log
    modifies AllLogs(hs)
    ensures RepliesUntouched(hs) && OnlyAt(Spots(hs, t, j, t, j))
    ensures log.view == ApplyEdit(PLAY_LOG, e, old(log.view))
  {
    hide BaccaratPlayLog.Valid, Codec.Merge, ApplyEdit, Heap, Enabled, AllLogs, Replies;
    AllLogsAreValid(hs);
    OthersAreApart(hs, t, j);
    EditLog(log, e);
    forall u, k | 0 <= u < |hs| && 0 <= k < |Logs(hs[u])| && (u != t || k != j)
      ensures Logs(hs[u])[k].Valid() && Logs(hs[u])[k].view == old(Logs(hs[u])[k].view)
    {
      LogStays(Logs(hs[u])[k]);
    }
  }

  method EditLogAt(hs: seq<Handle>, at: Ref, e: Edit)
    requires Heap(hs) && Refers(ObjsOf(hs), at) && At(ObjsOf(hs), at).s == PLAY_LOG
        && Enabled(PLAY_LOG, e, At(ObjsOf(hs), at).m)
    modifies AllLogs(hs)
    ensures Heap(hs) && Known(old(ObjsOf(hs))) && ObjsOf(hs) == RunOne(EditAt(at, e), old(ObjsOf(hs)))
    ensures OnlyOwnLogs(hs)
  {
    hide BaccaratPlayLog.Valid, Codec.Merge, ApplyEdit, RunOne, CanRun, Refers, At, Heap, StandsFor,
        ObjsOf, Known, Enabled, AllLogs, Replies, LogsIn;
    ghost var os := ObjsOf(hs);
    HeapDetermines(hs, os);
    StandsForParts(hs, os);
    LogAt(hs, at);
    LogEdited(os, at, e, ApplyEdit(PLAY_LOG, e, At(os, at).m));
    EditLogAtInPlace(hs, at.t, Place(at), Logs(hs[at.t])[Place(at)], e);
    HeapStays(hs);
    LogsStand(hs, os, RunOne(EditAt(at, e), os));
  }

  method MergeLogsInPlace(hs: seq<Handle>, t: nat, j: nat, log: BaccaratPlayLog,
                          t': nat, j': nat, from: BaccaratPlayLog)
    requires log.Valid() && from.Valid() && log != from
    requires Heap(hs) && t < |hs| && j < |Logs(hs[t])| && Logs(hs[t])[j] == log
    requires t' < |hs| && j' < |Logs(hs[t'])| && Logs(hs[t'])[j'] == from
    modifies AllLogs(hs)
    ensures RepliesUntouched(hs) && OnlyAt(Spots(hs, t, j, t, j))
    ensures log.view == Merge(PLAY_LOG, old(log.view), old(from.view))
  {
    hide BaccaratPlayLog.Valid, Codec.Merge, ApplyEdit, Heap, Enabled, AllLogs, Replies;
    AllLogsAreValid(hs);
    OthersAreApart(hs, t, j);
    log.MergeFrom(from);
    forall u, k | 0 <= u < |hs| && 0 <= k < |Logs(hs[u])| && (u != t || k != j)
      ensures Logs(hs[u])[k].Valid() && Logs(hs[u])[k].view == old(Logs(hs[u])[k].view)
    {
      LogStays(Logs(hs[u])[k]);
    }
  }

  method MergeLogs(hs: seq<Handle>, at: Ref, from: Ref)
    requires Heap(hs) && OfOneType(ObjsOf(hs), at, from) && At(ObjsOf(hs), at).s == PLAY_LOG && at != from
    modifies AllLogs(hs)
    ensures Heap(hs) && Known(old(ObjsOf(hs))) && ObjsOf(hs) == RunOne(MergeFrom(at, from), old(ObjsOf(hs)))
    ensures OnlyOwnLogs(hs)
  {
    hide BaccaratPlayLog.Valid, Codec.Merge, ApplyEdit, RunOne, CanRun, Refers, At, Heap, StandsFor,
        ObjsOf, Known, Enabled, AllLogs, Replies, LogsIn;
    ghost var os := ObjsOf(hs);
    HeapDetermines(hs, os);
    StandsForParts(hs, os);
    LogAt(hs, at);
    LogAt(hs, from);
    if at.t == from.t && Place(at) == Place(from) {
      OnePlaceOneRef(os, at, from);
    }
    OthersAreApart(hs, at.t, Place(at));
    LogMerged(os, at, from, Merge(PLAY_LOG, At(os, at).m, At(os, from).m));
    MergeLogsInPlace(hs, at.t, Place(at), Logs(hs[at.t])[Place(at)],
        from.t, Place(from), Logs(hs[from.t])[Place(from)]);
    HeapStays(hs);
    LogsStand(hs, os, RunOne(MergeFrom(at, from), os));
  }

  method CopyLogsInPlace(hs: seq<Handle>, t: nat, j: nat, log: BaccaratPlayLog,
                         t': nat, j': nat, from: BaccaratPlayLog)
    requires log.Valid() && from.Valid()
    requires Heap(hs) && t < |hs| && j < |Logs(hs[t])| && Logs(hs[t])[j] == log
    requires t' < |hs| && j' < |Logs(hs[t'])| && Logs(hs[t'])[j'] == from
    modifies AllLogs(hs)
    ensures RepliesUntouched(hs) && OnlyAt(Spots(hs, t, j, t, j))
    ensures log.view == old(from.view)
  {
    hide BaccaratPlayLog.Valid, Codec.Merge, ApplyEdit, Heap, Enabled, AllLogs, Replies;
    AllLogsAreValid(hs);
    OthersAreApart(hs, t, j);
    log.CopyFrom(from);
    forall u, k | 0 <= u < |hs| && 0 <= k < |Logs(hs[u])| && (u != t || k != j)
      ensures Logs(hs[u])[k].Valid() && Logs(hs[u])[k].view == old(Logs(hs[u])[k].view)
    {
      LogStays(Logs(hs[u])[k]);
    }
  }

  method CopyLogs(hs: seq<Handle>, at: Ref, from: Ref)
    requires Heap(hs) && OfOneType(ObjsOf(hs), at, from) && At(ObjsOf(hs), at).s == PLAY_LOG
    modifies AllLogs(hs)
    ensures Heap(hs) && Known(old(ObjsOf(hs))) && ObjsOf(hs) == RunOne(CopyFrom(at, from), old(ObjsOf(hs)))
    ensures OnlyOwnLogs(hs)
  {
    hide BaccaratPlayLog.Valid, Codec.Merge, ApplyEdit, RunOne, CanRun, Refers, At, Heap, StandsFor,
        ObjsOf, Known, Enabled, AllLogs, Replies, LogsIn;
    ghost var os := ObjsOf(hs);
    HeapDetermines(hs, os);
    StandsForParts(hs, os);
    LogAt(hs, at);
    LogAt(hs, from);
    LogCopied(os, at, from, At(os, from).m);
    CopyLogsInPlace(hs, at.t, Place(at), Logs(hs[at.t])[Place(at)],
        from.t, Place(from), Logs(hs[from.t])[Place(from)]);
    HeapStays(hs);
    LogsStand(hs, os, RunOne(CopyFrom(at, from), os));
  }

  method SwapLogsInPlace(hs: seq<Handle>, t: nat, j: nat, log: BaccaratPlayLog,
                         t': nat, j': nat, from: BaccaratPlayLog)
    requires log.Valid() && from.Valid()
    requires Heap(hs) && t < |hs| && j < |Logs(hs[t])| && Logs(hs[t])[j] == log
    requires t' < |hs| && j' < |Logs(hs[t'])| && Logs(hs[t'])[j'] == from
    modifies AllLogs(hs)
    ensures RepliesUntouched(hs) && OnlyAt(Spots(hs, t, j, t', j'))
    ensures log.view == old(from.view) && from.view == old(log.view)
  {
    hide BaccaratPlayLog.Valid, Codec.Merge, ApplyEdit, Heap, Enabled, AllLogs, Replies;
    AllLogsAreValid(hs);
    OthersAreApart(hs, t, j);
    OthersAreApart(hs, t', j');
    log.Swap(from);
    forall u, k | 0 <= u < |hs| && 0 <= k < |Logs(hs[u])| && (u != t || k != j) && (u != t' || k != j')
      ensures Logs(hs[u])[k].Valid() && Logs(hs[u])[k].view == old(Logs(hs[u])[k].view)
    {
      LogStays(Logs(hs[u])[k]);
    }
  }

  method SwapLogs(hs: seq<Handle>, at: Ref, other: Ref)
    requires Heap(hs) && OfOneType(ObjsOf(hs), at, other) && At(ObjsOf(hs), at).s == PLAY_LOG
    modifies AllLogs(hs)
    ensures Heap(hs) && Known(old(ObjsOf(hs))) && ObjsOf(hs) == RunOne(Swap(at, other), old(ObjsOf(hs)))
    ensures OnlyOwnLogs(hs)
  {
    hide BaccaratPlayLog.Valid, Codec.Merge, ApplyEdit, RunOne, CanRun, Refers, At, Heap, StandsFor,
        ObjsOf, Known, Enabled, AllLogs, Replies, LogsIn;
    ghost var os := ObjsOf(hs);
    HeapDetermines(hs, os);
    StandsForParts(hs, os);
    LogAt(hs, at);
    LogAt(hs, other);
    LogsSwapped(os, at, other);
    SwapLogsInPlace(hs, at.t, Place(at), Logs(hs[at.t])[Place(at)],
        other.t, Place(other), Logs(hs[other.t])[Place(other)]);
    HeapStays(hs);
    LogsStand(hs, os, RunOne(Swap(at, other), os));
  }

  // -------------------------------------------------------------------------------------- operations on replies

  /** A step that changed one reply, whose new logs are its old ones or new objects. */
  twostate lemma ReplyChanged(p: Spots)
    requires old(Heap(p.hs)) && p.t < |p.hs| && p.hs[p.t].OfReply? && p.hs[p.t].rep.Valid()
    requires forall i :: 0 <= i < |p.hs[p.t].rep.logs| ==>
      p.hs[p.t].rep.logs[i] in old(p.hs[p.t].rep.logs) || fresh(p.hs[p.t].rep.logs[i])
    requires forall u :: 0 <= u < |p.hs| && u != p.t ==> HandleUntouched(p.hs[u])
    ensures Heap(p.hs)
    ensures ObjsOf(p.hs) == old(ObjsOf(p.hs))[p.t := Obj(PLAY_LOG_REP, p.hs[p.t].rep.View())]
  {
    hide BaccaratPlayLog.Valid, MsgBaccaratPlayLogRep.Valid, ObjOf, ValidHandle;
    assert old(ValidHandle(p.hs[p.t])) && forall u :: 0 <= u < |p.hs| ==> old(ValidHandle(p.hs[u]));
    ReplyStands(p.hs[p.t]);
    forall u | 0 <= u < |p.hs|
      ensures ValidHandle(p.hs[u])
      ensures u != p.t ==> ObjOf(p.hs[u]) == old(ObjOf(p.hs[u])) && Logs(p.hs[u]) == old(Logs(p.hs[u]))
    {
      if u != p.t {
        UntouchedStays(p.hs[u]);
      }
    }
    NewLogsAreApart(p);
  }

  twostate lemma NewLogsAreApart(p: Spots)
    requires old(Heap(p.hs)) && p.t < |p.hs| && p.hs[p.t].OfReply?
    requires forall i :: 0 <= i < |p.hs[p.t].rep.logs| ==>
      p.hs[p.t].rep.logs[i] in old(p.hs[p.t].rep.logs) || fresh(p.hs[p.t].rep.logs[i])
    requires forall u :: 0 <= u < |p.hs| && u != p.t ==> Logs(p.hs[u]) == old(Logs(p.hs[u]))
    ensures forall u, i, k :: 0 <= u < |p.hs| && u != p.t && 0 <= i < |Logs(p.hs[p.t])| && 0 <= k < |Logs(p.hs[u])| ==>
      Logs(p.hs[p.t])[i] != Logs(p.hs[u])[k]
  {
    hide ValidHandle;
    forall u, i, k | 0 <= u < |p.hs| && u != p.t && 0 <= i < |Logs(p.hs[p.t])| && 0 <= k < |Logs(p.hs[u])|
      ensures Logs(p.hs[p.t])[i] != Logs(p.hs[u])[k]
    {
      var l := Logs(p.hs[p.t])[i];
      if l in old(p.hs[p.t].rep.logs) {
        var i' :| 0 <= i' < |old(Logs(p.hs[p.t]))| && old(Logs(p.hs[p.t]))[i'] == l;
        assert old(Logs(p.hs[u]))[k] != l;
      }
    }
  }

  twostate lemma GainedLogsAreOwn(p: Spots)
    requires p.t < |p.hs| && p.hs[p.t].OfReply?
    requires forall i :: 0 <= i < |p.hs[p.t].rep.logs| ==>
      p.hs[p.t].rep.logs[i] in old(p.hs[p.t].rep.logs) || fresh(p.hs[p.t].rep.logs[i])
    requires forall u :: 0 <= u < |p.hs| && u != p.t ==> HandleUntouched(p.hs[u])
    ensures OnlyOwnLogs(p.hs)
  {
    hide AllLogs, Replies;
    forall u, j | 0 <= u < |p.hs| && 0 <= j < |Logs(p.hs[u])|
      ensures Logs(p.hs[u])[j] in old(AllLogs(p.hs)) || fresh(Logs(p.hs[u])[j])
    {
      var l := Logs(p.hs[u])[j];
      if u != p.t {
        assert Logs(p.hs[u]) == old(Logs(p.hs[u]));
      } else if l in old(p.hs[p.t].rep.logs) {
        var i :| 0 <= i < |old(Logs(p.hs[u]))| && old(Logs(p.hs[u]))[i] == l;
      }
    }
  }

  lemma ReplyStands(h: Handle)
    requires h.OfReply? && h.rep.Valid()
    ensures ValidHandle(h) && ObjOf(h) == Obj(PLAY_LOG_REP, h.rep.View())
  {
  }

  twostate predicate HandleUntouched(h: Handle)
    reads if h.OfReply? then {h.rep} else {}
    reads Logs(h)
  {
    && (h.OfReply? ==> unchanged(h.rep))
    && forall j :: 0 <= j < |old(Logs(h))| ==> unchanged(old(Logs(h)[j]))
  }

  twostate lemma UntouchedStays(h: Handle)
    requires old(ValidHandle(h)) && HandleUntouched(h)
    ensures ValidHandle(h) && ObjOf(h) == old(ObjOf(h)) && Logs(h) == old(Logs(h))
  {
  }

  /** A step that exchanged the contents of two replies. */
  twostate lemma RepliesExchanged(p: Spots)
    requires old(Heap(p.hs)) && p.t < |p.hs| && p.hs[p.t].OfReply?
    requires p.t' < |p.hs| && p.hs[p.t'].OfReply? && p.t != p.t'
    requires p.hs[p.t].rep.Valid() && p.hs[p.t'].rep.Valid()
    requires Logs(p.hs[p.t]) == old(Logs(p.hs[p.t'])) && Logs(p.hs[p.t']) == old(Logs(p.hs[p.t]))
    requires forall u :: 0 <= u < |p.hs| && u != p.t && u != p.t' ==> HandleUntouched(p.hs[u])
    ensures Heap(p.hs)
    ensures ObjsOf(p.hs) == old(ObjsOf(p.hs))[p.t := Obj(PLAY_LOG_REP, p.hs[p.t].rep.View())]
                                             [p.t' := Obj(PLAY_LOG_REP, p.hs[p.t'].rep.View())]
  {
    hide BaccaratPlayLog.Valid, MsgBaccaratPlayLogRep.Valid, ObjOf, ValidHandle;
    ReplyStands(p.hs[p.t]);
    ReplyStands(p.hs[p.t']);
    assert forall u :: 0 <= u < |p.hs| ==> old(ValidHandle(p.hs[u]));
    forall u | 0 <= u < |p.hs|
      ensures ValidHandle(p.hs[u])
      ensures u != p.t && u != p.t' ==> ObjOf(p.hs[u]) == old(ObjOf(p.hs[u])) && Logs(p.hs[u]) == old(Logs(p.hs[u]))
    {
      if u != p.t && u != p.t' {
        UntouchedStays(p.hs[u]);
      }
    }
    ExchangedLogsAreApart(p);
  }

  twostate lemma ExchangedLogsAreApart(p: Spots)
    requires old(Heap(p.hs)) && p.t < |p.hs| && p.t' < |p.hs| && p.t != p.t'
    requires Logs(p.hs[p.t]) == old(Logs(p.hs[p.t'])) && Logs(p.hs[p.t']) == old(Logs(p.hs[p.t]))
    requires forall u :: 0 <= u < |p.hs| && u != p.t && u != p.t' ==> Logs(p.hs[u]) == old(Logs(p.hs[u]))
    ensures forall u, v, j, k :: 0 <= u < v < |p.hs| && 0 <= j < |Logs(p.hs[u])| && 0 <= k < |Logs(p.hs[v])| ==>
      Logs(p.hs[u])[j] != Logs(p.hs[v])[k]
  {
    hide ValidHandle;
    forall u, v, j, k | 0 <= u < v < |p.hs| && 0 <= j < |Logs(p.hs[u])| && 0 <= k < |Logs(p.hs[v])|
      ensures Logs(p.hs[u])[j] != Logs(p.hs[v])[k]
    {
      var u' := if u == p.t then p.t' else if u == p.t' then p.t else u;
      var v' := if v == p.t then p.t' else if v == p.t' then p.t else v;
      assert Logs(p.hs[u]) == old(Logs(p.hs[u'])) && Logs(p.hs[v]) == old(Logs(p.hs[v']));
      assert old(Logs(p.hs[u'])[j]) != old(Logs(p.hs[v'])[k]);
    }
  }

  /** The run before and after a step at a reply. */
  lemma ReplyUpdated(os: seq<Obj>, r: Ref, x: Msg)
    requires Known(os) && Refers(os, r) && At(os, r).s == PLAY_LOG_REP && Shaped(PLAY_LOG_REP, x)
    ensures Update(os, r, x) == os[r.t := Obj(PLAY_LOG_REP, x)]
    ensures At(os, r) == os[r.t]
  {
    KnownRef(os, r);
  }

  lemma ReplyAt(hs: seq<Handle>, at: Ref)
    requires Heap(hs) && Refers(ObjsOf(hs), at) && At(ObjsOf(hs), at).s == PLAY_LOG_REP
    ensures at.t < |hs| && hs[at.t].OfReply? && hs[at.t].rep.Valid() && At(ObjsOf(hs), at).m == hs[at.t].rep.View()
    ensures Known(ObjsOf(hs)) && at.path == []
  {
    hide LogsIn;
    HeapDetermines(hs, ObjsOf(hs));
    KnownRef(ObjsOf(hs), at);
    TwoTables();
    assert HandleIs(hs[at.t], ObjsOf(hs)[at.t]);
    assert ValidHandle(hs[at.t]);
  }

  lemma RepliesAreApart(hs: seq<Handle>, t: nat)
    requires Heap(hs) && t < |hs| && hs[t].OfReply?
    ensures forall u :: 0 <= u < |hs| && u != t && hs[u].OfReply? ==> hs[u].rep != hs[t].rep
  {
  }

  method EditReplyAt(hs: seq<Handle>, at: Ref, e: Edit)
    requires Heap(hs) && Refers(ObjsOf(hs), at) && At(ObjsOf(hs), at).s == PLAY_LOG_REP
        && Enabled(PLAY_LOG_REP, e, At(ObjsOf(hs), at).m)
    modifies Replies(hs)
    ensures Heap(hs) && Known(old(ObjsOf(hs))) && ObjsOf(hs) == RunOne(EditAt(at, e), old(ObjsOf(hs)))
    ensures OnlyOwnLogs(hs)
  {
    hide MsgBaccaratPlayLogRep.Valid, MsgBaccaratPlayLogRep.View, ApplyEdit, Refers, At, Heap, ObjsOf, Known,
        Enabled, AllLogs,
      Replies;
    ghost var os := ObjsOf(hs);
    ReplyAt(hs, at);
    ReplyUpdated(os, at, ApplyEdit(PLAY_LOG_REP, e, At(os, at).m));
    RepliesAreApart(hs, at.t);
    EditReply(hs[at.t].rep, e);
    GainedLogsAreOwn(Spots(hs, at.t, 0, 0, 0));
    ReplyChanged(Spots(hs, at.t, 0, 0, 0));
  }

  method MergeReplies(hs: seq<Handle>, at: Ref, from: Ref)
    requires Heap(hs) && OfOneType(ObjsOf(hs), at, from) && At(ObjsOf(hs), at).s == PLAY_LOG_REP && at != from
    modifies Replies(hs)
    ensures Heap(hs) && Known(old(ObjsOf(hs))) && ObjsOf(hs) == RunOne(MergeFrom(at, from), old(ObjsOf(hs)))
    ensures OnlyOwnLogs(hs)
  {
    hide MsgBaccaratPlayLogRep.Valid, MsgBaccaratPlayLogRep.View, Refers, At, Heap, ObjsOf, Known, AllLogs, Replies,
        Codec.Merge;
    ghost var os := ObjsOf(hs);
    ReplyAt(hs, at);
    ReplyAt(hs, from);
    ReplyUpdated(os, at, Merge(PLAY_LOG_REP, At(os, at).m, At(os, from).m));
    RepliesAreApart(hs, at.t);
    hs[at.t].rep.MergeFrom(hs[from.t].rep);
    GainedLogsAreOwn(Spots(hs, at.t, 0, 0, 0));
    ReplyChanged(Spots(hs, at.t, 0, 0, 0));
  }

  method CopyReplies(hs: seq<Handle>, at: Ref, from: Ref)
    requires Heap(hs) && OfOneType(ObjsOf(hs), at, from) && At(ObjsOf(hs), at).s == PLAY_LOG_REP
    modifies Replies(hs)
    ensures Heap(hs) && Known(old(ObjsOf(hs))) && ObjsOf(hs) == RunOne(CopyFrom(at, from), old(ObjsOf(hs)))
    ensures OnlyOwnLogs(hs)
  {
    hide MsgBaccaratPlayLogRep.Valid, MsgBaccaratPlayLogRep.View, Refers, At, Heap, ObjsOf, Known, AllLogs, Replies,
        Codec.Merge,
      Codec.Valid;
    ghost var os := ObjsOf(hs);
    ReplyAt(hs, at);
    if at == from {
      return;
    }
    ReplyAt(hs, from);
    CopyIsExactlyForDefaults(PLAY_LOG_REP, At(os, from).m);
    ReplyUpdated(os, at, At(os, from).m);
    RepliesAreApart(hs, at.t);
    hs[at.t].rep.CopyFrom(hs[from.t].rep);
    ReplyChanged(Spots(hs, at.t, 0, 0, 0));
  }

  method SwapReplies(hs: seq<Handle>, at: Ref, other: Ref)
    requires Heap(hs) && OfOneType(ObjsOf(hs), at, other) && At(ObjsOf(hs), at).s == PLAY_LOG_REP
    modifies Replies(hs)
    ensures Heap(hs) && Known(old(ObjsOf(hs))) && ObjsOf(hs) == RunOne(Swap(at, other), old(ObjsOf(hs)))
    ensures OnlyOwnLogs(hs)
  {
    hide MsgBaccaratPlayLogRep.Valid, MsgBaccaratPlayLogRep.View, Refers, At, Heap, ObjsOf, Known, AllLogs, Replies,
        Update;
    ghost var os := ObjsOf(hs);
    ReplyAt(hs, at);
    if at == other {
      return;
    }
    ReplyAt(hs, other);
    RepliesSwap(os, at, other);
    RepliesAreApart(hs, at.t);
    RepliesAreApart(hs, other.t);
    hs[at.t].rep.Swap(hs[other.t].rep);
    RepliesExchanged(Spots(hs, at.t, 0, other.t, 0));
  }

  lemma RepliesSwap(os: seq<Obj>, at: Ref, other: Ref)
    requires Known(os) && OfOneType(os, at, other) && At(os, at).s == PLAY_LOG_REP && at != other
    ensures RunOne(Swap(at, other), os)
         == os[at.t := Obj(PLAY_LOG_REP, At(os, other).m)][other.t := Obj(PLAY_LOG_REP, At(os, at).m)]
  {
    KnownRef(os, at);
    KnownRef(os, other);
    UpdateLeavesOthers(os, at, other, At(os, other).m);
    ReplyUpdated(os, at, At(os, other).m);
    ReplyUpdated(Update(os, at, At(os, other).m), other, At(os, at).m);
  }

  // ------------------------------------------------------------------------------------------- whole programs

  lemma {:induction false} WhereALogIs(hs: seq<Handle>, l: BaccaratPlayLog) returns (t: nat)
    requires l in AllLogs(hs)
    ensures t < |hs| && l in Logs(hs[t])
  {
    if l in AllLogs(hs[..|hs| - 1]) {
      t := WhereALogIs(hs[..|hs| - 1], l);
    } else {
      t := |hs| - 1;
      IsElement(Logs(hs[t]), l);
    }
  }

  lemma {:induction false} IsElement(ls: seq<BaccaratPlayLog>, l: BaccaratPlayLog)
    ensures l in Elements(ls) <==> l in ls
  {
    if ls != [] {
      IsElement(ls[..|ls| - 1], l);
      assert ls == ls[..|ls| - 1] + [ls[|ls| - 1]];
    }
  }

  lemma HeapGrows(hs: seq<Handle>, h: Handle)
    requires Heap(hs) && ValidHandle(h)
    requires forall t :: 0 <= t < |hs| && hs[t].OfReply? && h.OfReply? ==> hs[t].rep != h.rep
    requires forall t, j, k :: 0 <= t < |hs| && 0 <= j < |Logs(hs[t])| && 0 <= k < |Logs(h)| ==>
      Logs(hs[t])[j] != Logs(h)[k]
    ensures Heap(hs + [h]) && ObjsOf(hs + [h]) == ObjsOf(hs) + [ObjOf(h)]
  {
    hide ValidHandle;
    var all := hs + [h];
    assert all[..|all| - 1] == hs && all[|all| - 1] == h;
    assert forall t :: 0 <= t < |hs| ==> all[t] == hs[t];
  }

  twostate lemma NothingChanged(hs: seq<Handle>)
    requires old(Heap(hs)) && forall u :: 0 <= u < |hs| ==> HandleUntouched(hs[u])
    ensures Heap(hs) && ObjsOf(hs) == old(ObjsOf(hs)) && forall u :: 0 <= u < |hs| ==> Logs(hs[u]) == old(Logs(hs[u]))
  {
    hide ValidHandle, ObjOf;
    forall u | 0 <= u < |hs|
      ensures ValidHandle(hs[u]) && ObjOf(hs[u]) == old(ObjOf(hs[u])) && Logs(hs[u]) == old(Logs(hs[u]))
    {
      assert old(ValidHandle(hs[u]));
      UntouchedStays(hs[u]);
    }
  }

  method NewLog(hs: seq<Handle>) returns (all: seq<Handle>)
    requires Heap(hs)
    ensures Heap(all) && Known(old(ObjsOf(hs))) && ObjsOf(all) == RunOne(New(PLAY_LOG), old(ObjsOf(hs)))
    ensures |all| == |hs| + 1 && all[..|hs|] == hs && all[|hs|].OfLog? && fresh(all[|hs|].log)
    ensures forall t :: 0 <= t < |hs| ==> Logs(hs[t]) == old(Logs(hs[t]))
  {
    hide BaccaratPlayLog.Valid, MsgBaccaratPlayLogRep.Valid, Heap, ObjsOf, AllLogs, Replies;
    HeapDetermines(hs, ObjsOf(hs));
    var log := new BaccaratPlayLog();
    NothingChanged(hs);
    HeapGrows(hs, OfLog(log));
    all := hs + [OfLog(log)];
  }

  method NewReply(hs: seq<Handle>) returns (all: seq<Handle>)
    requires Heap(hs)
    ensures Heap(all) && Known(old(ObjsOf(hs))) && ObjsOf(all) == RunOne(New(PLAY_LOG_REP), old(ObjsOf(hs)))
    ensures |all| == |hs| + 1 && all[..|hs|] == hs && all[|hs|].OfReply? && fresh(all[|hs|].rep)
        && all[|hs|].rep.logs == []
    ensures forall t :: 0 <= t < |hs| ==> Logs(hs[t]) == old(Logs(hs[t]))
  {
    hide BaccaratPlayLog.Valid, MsgBaccaratPlayLogRep.Valid, MsgBaccaratPlayLogRep.View, Heap, ObjsOf, AllLogs, Replies;
    HeapDetermines(hs, ObjsOf(hs));
    var rep := new MsgBaccaratPlayLogRep();
    NothingChanged(hs);
    HeapGrows(hs, OfReply(rep));
    all := hs + [OfReply(rep)];
  }

  /** The methods of the classes, on whatever objects the operation names. */
  method Perform(hs: seq<Handle>, op: Op) returns (all: seq<Handle>)
    requires Heap(hs) && Known(ObjsOf(hs)) && CanRun(op, ObjsOf(hs))
    requires op.New? ==> op.s == PLAY_LOG || op.s == PLAY_LOG_REP
    modifies Replies(hs), AllLogs(hs)
    ensures Heap(all) && ObjsOf(all) == RunOne(op, old(ObjsOf(hs)))
    ensures |hs| <= |all| && all[..|hs|] == hs && OnlyOwnLogs(hs)
    ensures forall t :: |hs| <= t < |all| ==>
      (all[t].OfReply? ==> fresh(all[t].rep)) && forall j :: 0 <= j < |Logs(all[t])| ==> fresh(Logs(all[t])[j])
  {
    hide Heap, ObjsOf, Known, AllLogs, Replies, RunOne, Refers, At, Enabled, BaccaratPlayLog.Valid,
        MsgBaccaratPlayLogRep.Valid;
    ghost var os := ObjsOf(hs);
    all := hs;
    match op
    case New(s) =>
      if s == PLAY_LOG {
        all := NewLog(hs);
      } else {
        all := NewReply(hs);
      }
    case EditAt(at, e) =>
      KnownRef(os, at);
      IsLogExactly(hs, at);
      if IsLog(hs, at) { EditLogAt(hs, at, e); } else { EditReplyAt(hs, at, e); }
    case MergeFrom(at, from) =>
      KnownRef(os, at);
      IsLogExactly(hs, at);
      if IsLog(hs, at) { MergeLogs(hs, at, from); } else { MergeReplies(hs, at, from); }
    case CopyFrom(at, from) =>
      KnownRef(os, at);
      IsLogExactly(hs, at);
      if IsLog(hs, at) { CopyLogs(hs, at, from); } else { CopyReplies(hs, at, from); }
    case Swap(at, other) =>
      KnownRef(os, at);
      IsLogExactly(hs, at);
      if IsLog(hs, at) { SwapLogs(hs, at, other); } else { SwapReplies(hs, at, other); }
  }

  predicate IsLog(hs: seq<Handle>, at: Ref)
    requires at.t < |hs|
  {
    hs[at.t].OfLog? || at.path != []
  }

  lemma IsLogExactly(hs: seq<Handle>, at: Ref)
    requires Heap(hs) && Refers(ObjsOf(hs), at)
    ensures at.t < |hs| && (IsLog(hs, at) <==> At(ObjsOf(hs), at).s == PLAY_LOG)
  {
    hide LogsIn;
    var os := ObjsOf(hs);
    HeapDetermines(hs, os);
    KnownRef(os, at);
    TwoTables();
    assert HandleIs(hs[at.t], os[at.t]);
  }

  /** Every operation can run when its turn comes, and makes no objects but logs and replies. */
  predicate RunsThrough(ops: seq<Op>, os: seq<Obj>)
    requires AllShaped(os)
    decreases |ops|
  {
    ops == [] ||
    (CanRun(ops[0], os) && (ops[0].New? ==> ops[0].s == PLAY_LOG || ops[0].s == PLAY_LOG_REP)
     && RunsThrough(ops[1..], RunOne(ops[0], os)))
  }

  /** All objects of the heap were made by this program. */
  twostate predicate AllNew(new hs: seq<Handle>)
    reads Replies(hs)
  {
    && (forall t :: 0 <= t < |hs| && hs[t].OfReply? ==> fresh(hs[t].rep))
    && (forall t, j :: 0 <= t < |hs| && 0 <= j < |Logs(hs[t])| ==> fresh(Logs(hs[t])[j]))
  }

  twostate lemma NewObjects(new hs: seq<Handle>)
    requires AllNew(hs)
    ensures (forall r :: r in Replies(hs) ==> fresh(r)) && forall l :: l in AllLogs(hs) ==> fresh(l)
  {
    forall r | r in Replies(hs)
      ensures fresh(r)
    {
      var t := WhereAReplyIs(hs, r);
    }
    forall l | l in AllLogs(hs)
      ensures fresh(l)
    {
      var t := WhereALogIs(hs, l);
      var j :| 0 <= j < |Logs(hs[t])| && Logs(hs[t])[j] == l;
    }
  }

  lemma {:induction false} WhereAReplyIs(hs: seq<Handle>, r: MsgBaccaratPlayLogRep) returns (t: nat)
    requires r in Replies(hs)
    ensures t < |hs| && hs[t] == OfReply(r)
  {
    if r in Replies(hs[..|hs| - 1]) {
      t := WhereAReplyIs(hs[..|hs| - 1], r);
    } else {
      t := |hs| - 1;
    }
  }

  lemma EmptyHeap()
    ensures Heap([]) && ObjsOf([]) == [] && Known(ObjsOf([]))
  {
  }

  /**
    A whole program on objects: it starts with none, makes its logs and replies as it goes, and leaves in them
    the messages of the run.
   */
  method Execute(ops: seq<Op>) returns (hs: seq<Handle>)
    requires RunsThrough(ops, [])
    ensures Heap(hs) && ObjsOf(hs) == Run(ops, [])
  {
    hide Heap, ObjsOf, Known, AllLogs, Replies, RunOne, CanRun, RunsThrough, Run;
    hs := [];
    EmptyHeap();
    var i := 0;
    assert ops[0..] == ops;
    while i < |ops|
      invariant 0 <= i <= |ops| && Heap(hs) && Known(ObjsOf(hs))
      invariant RunsThrough(ops[i..], ObjsOf(hs)) && Run(ops[i..], ObjsOf(hs)) == Run(ops, [])
      invariant AllNew(hs)
    {
      RunStep(ops[i..], ObjsOf(hs));
      assert ops[i..][0] == ops[i] && ops[i..][1..] == ops[i + 1..];
      NewObjects(hs);
      ghost var had := hs;
      hs := Perform(hs, ops[i]);
      assert AllNew(hs) by {
        forall t, j | 0 <= t < |hs| && 0 <= j < |Logs(hs[t])|
          ensures fresh(Logs(hs[t])[j])
        {
          assert t < |had| ==> hs[t] == had[t];
        }
        forall t | 0 <= t < |hs| && hs[t].OfReply?
          ensures fresh(hs[t].rep)
        {
          assert t < |had| ==> hs[t] == had[t];
        }
      }
      HeapDetermines(hs, ObjsOf(hs));
      StandsForParts(hs, ObjsOf(hs));
      i := i + 1;
    }
    RunEnds(ops[i..], ObjsOf(hs));
  }

  lemma RunStep(ops: seq<Op>, os: seq<Obj>)
    requires Known(os) && RunsThrough(ops, os) && ops != []
    ensures CanRun(ops[0], os) && (ops[0].New? ==> ops[0].s == PLAY_LOG || ops[0].s == PLAY_LOG_REP)
    ensures RunsThrough(ops[1..], RunOne(ops[0], os)) && Run(ops, os) == Run(ops[1..], RunOne(ops[0], os))
  {
  }

  lemma RunEnds(ops: seq<Op>, os: seq<Obj>)
    requires AllShaped(os) && ops == []
    ensures Run(ops, os) == os
  {
  }
}
