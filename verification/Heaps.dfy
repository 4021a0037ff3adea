/**
  Logs and replies on the heap, and when they stand for the messages of a run: every object is valid and stands
  at one place only, and its message is the one the run has there.
 */
module Heaps {
  import opened Codec
  import opened Invariants
  import opened Merging
  import opened Tables
  import opened BaccaratPlayLogs

  // ------------------------------------------------------------------------------------- objects on the heap

  /** Whatever a program may hold: a log of its own, or a reply with the logs it owns. */
  datatype Handle = OfLog(log: BaccaratPlayLog) | OfReply(rep: MsgBaccaratPlayLogRep)

  /** The logs at a handle: itself, or the elements of the reply. */
  function Logs(h: Handle): (ls: seq<BaccaratPlayLog>)
    reads if h.OfReply? then {h.rep} else {}
    ensures h.OfLog? ==> ls == [h.log]
    ensures h.OfReply? ==> ls == h.rep.logs
  {
    match h
    case OfLog(log) => [log]
    case OfReply(rep) => rep.logs
  }

  function Replies(hs: seq<Handle>): (all: set<MsgBaccaratPlayLogRep>)
    ensures forall t :: 0 <= t < |hs| && hs[t].OfReply? ==> hs[t].rep in all
  {
    if hs == [] then {}
    else
      var h := hs[|hs| - 1];
      Replies(hs[..|hs| - 1]) + if h.OfReply? then {h.rep} else {}
  }

  ghost function Elements(ls: seq<BaccaratPlayLog>): (all: set<BaccaratPlayLog>)
    ensures forall j :: 0 <= j < |ls| ==> ls[j] in all
  {
    if ls == [] then {} else Elements(ls[..|ls| - 1]) + {ls[|ls| - 1]}
  }

  ghost function AllLogs(hs: seq<Handle>): (all: set<BaccaratPlayLog>)
    reads Replies(hs)
    ensures forall t, j :: 0 <= t < |hs| && 0 <= j < |Logs(hs[t])| ==> Logs(hs[t])[j] in all
  {
    if hs == [] then {} else AllLogs(hs[..|hs| - 1]) + Elements(Logs(hs[|hs| - 1]))
  }

  ghost predicate ValidHandle(h: Handle)
    reads if h.OfReply? then {h.rep} else {}
    reads Logs(h)
  {
    match h
    case OfLog(log) =>
      assert Logs(h)[0] == log;
      log.Valid()
    case OfReply(rep) => rep.Valid()
  }

  /** Every object is valid and stands at one place only. */
  ghost predicate Heap(hs: seq<Handle>)
    reads Replies(hs), AllLogs(hs)
  {
    && (forall t :: 0 <= t < |hs| ==> ValidHandle(hs[t]))
    && (forall t, u :: 0 <= t < u < |hs| && hs[t].OfReply? && hs[u].OfReply? ==> hs[t].rep != hs[u].rep)
    && (forall t, u, j, k :: 0 <= t < u < |hs| && 0 <= j < |Logs(hs[t])| && 0 <= k < |Logs(hs[u])|
          ==> Logs(hs[t])[j] != Logs(hs[u])[k])
  }

  ghost function ObjOf(h: Handle): (o: Obj)
    reads if h.OfReply? then {h.rep} else {}
    reads Logs(h)
  {
    match h
    case OfLog(log) =>
      assert Logs(h)[0] == log;
      Obj(PLAY_LOG, log.view)
    case OfReply(rep) => Obj(PLAY_LOG_REP, rep.View())
  }

  /** The messages the objects stand for. */
  ghost function ObjsOf(hs: seq<Handle>): (os: seq<Obj>)
    reads Replies(hs), AllLogs(hs)
    ensures |os| == |hs| && forall t :: 0 <= t < |hs| ==> os[t] == ObjOf(hs[t])
  {
    if hs == [] then [] else ObjsOf(hs[..|hs| - 1]) + [ObjOf(hs[|hs| - 1])]
  }

  // --------------------------------------------------------------------------------- where the logs are in a run

  /** The run holds nothing but logs and replies. */
  predicate Known(os: seq<Obj>): (k: bool)
    ensures k ==> AllShaped(os)
  {
    AllShaped(os) && forall t :: 0 <= t < |os| ==> os[t].s == PLAY_LOG || os[t].s == PLAY_LOG_REP
  }

  lemma TwoTables()
    ensures PLAY_LOG != PLAY_LOG_REP && |PLAY_LOG_REP.fields| == 1 && PLAY_LOG_REP.fields[0] == Nested(PLAY_LOG)
    ensures |PLAY_LOG.fields| == 7 && forall i :: 0 <= i < 7 ==> PLAY_LOG.fields[i] == Optional(UInt32)
  {
    assert PLAY_LOG.fields[0] == Optional(UInt32);
  }

  /** The logs of an object of a run, as Logs has them of a handle. */
  function LogsIn(o: Obj): seq<Msg>
    requires Shaped(o.s, o.m) && (o.s == PLAY_LOG || o.s == PLAY_LOG_REP)
  {
    if o.s == PLAY_LOG then [o.m]
    else
      TwoTables();
      assert HasShape(PLAY_LOG_REP.fields[0], o.m.vals[0]);
      o.m.vals[0].ms
  }

  /** Which of the logs at its handle a reference means. */
  function Place(r: Ref): nat { if r.path == [] then 0 else r.path[0].j }

  lemma NothingInALog(o: Obj, path: seq<Step>)
    requires o.s == PLAY_LOG && Reaches(o, path)
    ensures path == []
  {
    TwoTables();
  }

  lemma LogRef(os: seq<Obj>, r: Ref)
    requires Known(os) && Refers(os, r) && At(os, r).s == PLAY_LOG
    ensures Place(r) < |LogsIn(os[r.t])| && At(os, r).m == LogsIn(os[r.t])[Place(r)]
    ensures if os[r.t].s == PLAY_LOG then r.path == [] else |r.path| == 1 && r.path[0].i == 0
  {
    TwoTables();
    if os[r.t].s == PLAY_LOG {
      NothingInALog(os[r.t], r.path);
    } else if r.path != [] {
      var child := Child(os[r.t], r.path[0]);
      NothingInALog(child, r.path[1..]);
      assert At(os, r) == Get(child, []);
    }
  }

  lemma KnownRef(os: seq<Obj>, r: Ref)
    requires Known(os) && Refers(os, r)
    ensures At(os, r).s == PLAY_LOG || At(os, r).s == PLAY_LOG_REP
    ensures At(os, r).s == PLAY_LOG_REP ==> r.path == [] && At(os, r) == os[r.t]
  {
    TwoTables();
    if os[r.t].s == PLAY_LOG {
      NothingInALog(os[r.t], r.path);
    } else if r.path != [] {
      var child := Child(os[r.t], r.path[0]);
      NothingInALog(child, r.path[1..]);
      assert At(os, r) == Get(child, []);
    }
  }

  /** The same types, the same number of logs in each, and the same unknown records in the replies. */
  predicate SameFrame(os: seq<Obj>, os': seq<Obj>)
    requires Known(os) && Known(os')
  {
    && |os'| == |os|
    && forall t :: 0 <= t < |os| ==>
         && os'[t].s == os[t].s && |LogsIn(os'[t])| == |LogsIn(os[t])|
         && (os[t].s == PLAY_LOG_REP ==> os'[t].m.unknown == os[t].m.unknown)
  }

  lemma SameLogsSameObjs(os: seq<Obj>, os': seq<Obj>)
    requires Known(os) && Known(os') && SameFrame(os, os')
    requires forall t, j :: 0 <= t < |os| && 0 <= j < |LogsIn(os[t])| ==> LogsIn(os'[t])[j] == LogsIn(os[t])[j]
    ensures os' == os
  {
    TwoTables();
    forall t | 0 <= t < |os|
      ensures os'[t] == os[t]
    {
      assert LogsIn(os'[t]) == LogsIn(os[t]);
      if os[t].s == PLAY_LOG {
        assert LogsIn(os[t])[0] == os[t].m && LogsIn(os'[t])[0] == os'[t].m;
      } else {
        assert HasShape(PLAY_LOG_REP.fields[0], os[t].m.vals[0]) && HasShape(PLAY_LOG_REP.fields[0], os'[t].m.vals[0]);
        assert os[t].m.vals == os'[t].m.vals;
      }
    }
  }

  /** `os'` is `os` with `x` as the log at `r`. */
  predicate LogsAre(os: seq<Obj>, os': seq<Obj>, r: Ref, x: Msg)
    requires Known(os)
  {
    && Known(os') && SameFrame(os, os') && r.t < |os| && Place(r) < |LogsIn(os[r.t])|
    && forall t, j :: 0 <= t < |os| && 0 <= j < |LogsIn(os[t])| ==>
         LogsIn(os'[t])[j] == if t == r.t && j == Place(r) then x else LogsIn(os[t])[j]
  }

  /** Updating a log in a run changes that log and no other. */
  lemma LogUpdated(os: seq<Obj>, r: Ref, x: Msg)
    requires Known(os) && Refers(os, r) && At(os, r).s == PLAY_LOG && Shaped(PLAY_LOG, x)
    ensures LogsAre(os, Update(os, r, x), r, x)
  {
    LogRef(os, r);
    TwoTables();
  }

  lemma LogEdited(os: seq<Obj>, r: Ref, e: Edit, x: Msg)
    requires Known(os) && Refers(os, r) && At(os, r).s == PLAY_LOG && Enabled(PLAY_LOG, e, At(os, r).m)
    requires x == ApplyEdit(PLAY_LOG, e, At(os, r).m)
    ensures AllShaped(os) && CanRun(EditAt(r, e), os) && LogsAre(os, RunOne(EditAt(r, e), os), r, x)
  {
    LogUpdated(os, r, x);
  }

  lemma LogMerged(os: seq<Obj>, at: Ref, from: Ref, x: Msg)
    requires Known(os) && OfOneType(os, at, from) && At(os, at).s == PLAY_LOG && at != from
    requires x == Merge(PLAY_LOG, At(os, at).m, At(os, from).m)
    ensures AllShaped(os) && CanRun(MergeFrom(at, from), os) && LogsAre(os, RunOne(MergeFrom(at, from), os), at, x)
  {
    LogUpdated(os, at, x);
  }

  lemma LogCopied(os: seq<Obj>, at: Ref, from: Ref, x: Msg)
    requires Known(os) && OfOneType(os, at, from) && At(os, at).s == PLAY_LOG
    requires x == At(os, from).m && Codec.Valid(PLAY_LOG, x)
    ensures AllShaped(os) && CanRun(CopyFrom(at, from), os) && LogsAre(os, RunOne(CopyFrom(at, from), os), at, x)
  {
    CopyIsExactlyForDefaults(PLAY_LOG, x);
    LogUpdated(os, at, x);
    LogRef(os, at);
  }

  /** `os'` is `os` with the logs at `r` and `q` exchanged. */
  predicate LogsExchanged(os: seq<Obj>, os': seq<Obj>, r: Ref, q: Ref)
    requires Known(os) && r.t < |os| && Place(r) < |LogsIn(os[r.t])| && q.t < |os| && Place(q) < |LogsIn(os[q.t])|
  {
    && Known(os') && SameFrame(os, os')
    && forall t, j :: 0 <= t < |os| && 0 <= j < |LogsIn(os[t])| ==>
         LogsIn(os'[t])[j]
         == if t == r.t && j == Place(r) then LogsIn(os[q.t])[Place(q)]
            else if t == q.t && j == Place(q) then LogsIn(os[r.t])[Place(r)]
            else LogsIn(os[t])[j]
  }

  lemma OnePlaceOneRef(os: seq<Obj>, r: Ref, q: Ref)
    requires Known(os) && OfOneType(os, r, q) && At(os, r).s == PLAY_LOG && r.t == q.t && Place(r) == Place(q)
    ensures r == q
  {
    LogRef(os, r);
    LogRef(os, q);
    if r.path != [] {
      assert r.path == [r.path[0]] && q.path == [q.path[0]];
    }
  }

  lemma LogsSwapped(os: seq<Obj>, at: Ref, other: Ref)
    requires Known(os) && OfOneType(os, at, other) && At(os, at).s == PLAY_LOG
    ensures AllShaped(os) && CanRun(Swap(at, other), os)
    ensures at.t < |os| && Place(at) < |LogsIn(os[at.t])| && other.t < |os| && Place(other) < |LogsIn(os[other.t])|
    ensures LogsExchanged(os, RunOne(Swap(at, other), os), at, other)
  {
    hide LogsIn, Reaches, Codec.Shaped;
    LogRef(os, at);
    LogRef(os, other);
    if at != other {
      var x, y := At(os, at), At(os, other);
      var half := Update(os, at, y.m);
      UpdateLeavesOthers(os, at, other, y.m);
      LogUpdated(os, at, y.m);
      LogUpdated(half, other, x.m);
    }
  }

  // ----------------------------------------------------------------------------------------- heap and run agree

  lemma HandleStandsFor(h: Handle)
    requires ValidHandle(h)
    ensures var o := ObjOf(h);
            && (o.s == PLAY_LOG || o.s == PLAY_LOG_REP) && (h.OfLog? <==> o.s == PLAY_LOG) && Shaped(o.s, o.m)
            && |LogsIn(o)| == |Logs(h)| && (forall j :: 0 <= j < |Logs(h)| ==> LogsIn(o)[j] == Logs(h)[j].view)
            && (h.OfReply? ==> o.m == h.rep.View() && o.m.unknown == h.rep.unknownFields)
  {
    TwoTables();
  }

  /** The run `os` has at each handle what the objects there stand for. */
  ghost predicate StandsFor(hs: seq<Handle>, os: seq<Obj>)
    reads Replies(hs), AllLogs(hs)
  {
    && Known(os) && |os| == |hs|
    && forall t :: 0 <= t < |hs| ==> HandleIs(hs[t], os[t])
  }

  ghost predicate HandleIs(h: Handle, o: Obj)
    reads if h.OfReply? then {h.rep} else {}
    reads Logs(h)
    requires Shaped(o.s, o.m) && (o.s == PLAY_LOG || o.s == PLAY_LOG_REP)
  {
    && (h.OfLog? <==> o.s == PLAY_LOG) && |LogsIn(o)| == |Logs(h)|
    && (forall j :: 0 <= j < |Logs(h)| ==> LogsIn(o)[j] == Logs(h)[j].view)
    && (h.OfReply? ==> o.m.unknown == h.rep.unknownFields)
  }

  lemma HandleDetermines(h: Handle, o: Obj)
    requires ValidHandle(h) && Shaped(o.s, o.m) && (o.s == PLAY_LOG || o.s == PLAY_LOG_REP)
    ensures HandleIs(h, o) <==> o == ObjOf(h)
  {
    hide BaccaratPlayLog.Valid, MsgBaccaratPlayLogRep.Valid, Codec.Shaped;
    HandleStandsFor(h);
    TwoTables();
    if HandleIs(h, o) {
      assert LogsIn(o) == LogsIn(ObjOf(h));
      SameLogsSameObjs([ObjOf(h)], [o]);
      assert [o][0] == [ObjOf(h)][0];
    }
  }

  /** There is one such run. */
  lemma HeapDetermines(hs: seq<Handle>, os: seq<Obj>)
    requires Heap(hs)
    ensures StandsFor(hs, os) <==> os == ObjsOf(hs)
  {
    hide ValidHandle, ObjOf, LogsIn, HandleIs;
    assert forall t :: 0 <= t < |hs| ==> ValidHandle(hs[t]);
    forall t | 0 <= t < |hs|
      ensures var o := ObjOf(hs[t]);
        Shaped(o.s, o.m) && (o.s == PLAY_LOG || o.s == PLAY_LOG_REP) && HandleIs(hs[t], o)
    {
      HandleStandsFor(hs[t]);
      HandleDetermines(hs[t], ObjOf(hs[t]));
    }
    if StandsFor(hs, os) {
      forall t | 0 <= t < |hs|
        ensures os[t] == ObjsOf(hs)[t]
      {
        HandleDetermines(hs[t], os[t]);
      }
    }
  }

  /** Two places, two logs. */
  lemma PlacesAreApart(hs: seq<Handle>, t: nat, j: nat, u: nat, k: nat)
    requires Heap(hs) && t < |hs| && u < |hs| && j < |Logs(hs[t])| && k < |Logs(hs[u])| && (t != u || j != k)
    ensures Logs(hs[t])[j] != Logs(hs[u])[k]
  {
    if t == u {
      assert ValidHandle(hs[t]);
    }
  }

  twostate lemma HandleStays(h: Handle)
    requires old(ValidHandle(h)) && (h.OfReply? ==> unchanged(h.rep))
    requires forall j :: 0 <= j < |Logs(h)| ==> Logs(h)[j].Valid()
    ensures ValidHandle(h) && Logs(h) == old(Logs(h))
  {
    hide BaccaratPlayLog.Valid;
    match h
    case OfLog(log) => assert Logs(h)[0] == log;
    case OfReply(rep) =>
      assert old(ValidList(rep.logs));
      assert forall j :: 0 <= j < |rep.logs| ==> Logs(h)[j] == rep.logs[j];
      assert forall j :: 0 <= j < |rep.logs| ==> rep.logs[j].Valid();
      assert forall i, j :: 0 <= i < j < |rep.logs| ==> rep.logs[i] != rep.logs[j];
      assert ValidList(rep.logs);
  }

  twostate predicate RepliesUntouched(hs: seq<Handle>)
    reads Replies(hs)
  {
    forall t :: 0 <= t < |hs| && hs[t].OfReply? ==> unchanged(hs[t].rep)
  }

  /** A heap of which only logs were changed is still one. */
  twostate lemma HeapStays(hs: seq<Handle>)
    requires old(Heap(hs))
    requires RepliesUntouched(hs)
    requires forall t, j :: 0 <= t < |hs| && 0 <= j < |Logs(hs[t])| ==> Logs(hs[t])[j].Valid()
    ensures Heap(hs) && forall t :: 0 <= t < |hs| ==> Logs(hs[t]) == old(Logs(hs[t]))
  {
    hide BaccaratPlayLog.Valid, ValidHandle;
    forall t | 0 <= t < |hs|
      ensures Logs(hs[t]) == old(Logs(hs[t])) && ValidHandle(hs[t])
    {
      assert old(ValidHandle(hs[t]));
      HandleStays(hs[t]);
    }
  }

  /** The log a reference means. */
  lemma LogAt(hs: seq<Handle>, at: Ref)
    requires Heap(hs) && Refers(ObjsOf(hs), at) && At(ObjsOf(hs), at).s == PLAY_LOG
    ensures at.t < |hs| && Place(at) < |Logs(hs[at.t])| && Logs(hs[at.t])[Place(at)].Valid()
    ensures Logs(hs[at.t])[Place(at)].view == At(ObjsOf(hs), at).m
  {
    HeapDetermines(hs, ObjsOf(hs));
    LogRef(ObjsOf(hs), at);
    assert ValidHandle(hs[at.t]);
  }

  lemma AllLogsAreValid(hs: seq<Handle>)
    requires Heap(hs)
    ensures forall t, j :: 0 <= t < |hs| && 0 <= j < |Logs(hs[t])| ==> Logs(hs[t])[j].Valid()
  {
    hide BaccaratPlayLog.Valid;
    forall t, j | 0 <= t < |hs| && 0 <= j < |Logs(hs[t])|
      ensures Logs(hs[t])[j].Valid()
    {
      assert ValidHandle(hs[t]);
    }
  }

  lemma OthersAreApart(hs: seq<Handle>, t: nat, j: nat)
    requires Heap(hs) && t < |hs| && j < |Logs(hs[t])|
    ensures forall u, k :: 0 <= u < |hs| && 0 <= k < |Logs(hs[u])| && (u != t || k != j) ==>
      Logs(hs[u])[k] != Logs(hs[t])[j]
  {
    forall u, k | 0 <= u < |hs| && 0 <= k < |Logs(hs[u])| && (u != t || k != j)
      ensures Logs(hs[u])[k] != Logs(hs[t])[j]
    {
      PlacesAreApart(hs, t, j, u, k);
    }
  }

  /** The run has the view of each log where the log is. */
  ghost predicate ViewsAre(hs: seq<Handle>, os: seq<Obj>)
    requires Known(os) && |os| == |hs|
    reads Replies(hs), AllLogs(hs)
  {
    forall t, j :: 0 <= t < |hs| && 0 <= j < |Logs(hs[t])| ==>
      j < |LogsIn(os[t])| && Logs(hs[t])[j].view == LogsIn(os[t])[j]
  }

  /** The run has the same types and unknown records, and as many logs, as there are at each handle. */
  ghost predicate FrameIs(hs: seq<Handle>, os: seq<Obj>)
    requires Known(os) && |os| == |hs|
    reads Replies(hs)
  {
    forall t :: 0 <= t < |hs| ==>
      && (hs[t].OfLog? <==> os[t].s == PLAY_LOG) && |LogsIn(os[t])| == |Logs(hs[t])|
      && (hs[t].OfReply? ==> os[t].m.unknown == hs[t].rep.unknownFields)
  }

  lemma StandsForParts(hs: seq<Handle>, os: seq<Obj>)
    ensures StandsFor(hs, os) <==> Known(os) && |os| == |hs| && FrameIs(hs, os) && ViewsAre(hs, os)
  {
    hide LogsIn;
    if StandsFor(hs, os) {
      forall t, j | 0 <= t < |hs| && 0 <= j < |Logs(hs[t])|
        ensures j < |LogsIn(os[t])| && Logs(hs[t])[j].view == LogsIn(os[t])[j]
      {
        assert HandleIs(hs[t], os[t]);
      }
      forall t | 0 <= t < |hs|
        ensures HandleIs(hs[t], os[t])
      {
      }
    }
  }

  lemma SameFrameIs(hs: seq<Handle>, os: seq<Obj>, os': seq<Obj>)
    requires Known(os) && Known(os') && SameFrame(os, os') && |os| == |hs| && FrameIs(hs, os)
    ensures FrameIs(hs, os')
  {
    hide LogsIn;
  }

  lemma LogsStand(hs: seq<Handle>, os: seq<Obj>, os': seq<Obj>)
    requires Heap(hs) && Known(os) && Known(os') && |os| == |hs| && FrameIs(hs, os) && SameFrame(os, os')
    requires ViewsAre(hs, os')
    ensures ObjsOf(hs) == os'
  {
    hide Known, FrameIs, ViewsAre, StandsFor, LogsIn, ObjsOf, Heap, AllLogs, Replies;
    SameFrameIs(hs, os, os');
    StandsForParts(hs, os');
    HeapDetermines(hs, os');
  }

  twostate lemma LogStays(log: BaccaratPlayLog)
    requires old(log.Valid()) && unchanged(log)
    ensures log.Valid() && log.view == old(log.view)
  {
  }

  /** No object comes from outside: the logs on the heap were on it before, or are new. */
  twostate predicate OnlyOwnLogs(hs: seq<Handle>)
    reads Replies(hs), AllLogs(hs)
  {
    forall t, j :: 0 <= t < |hs| && 0 <= j < |Logs(hs[t])| ==>
      Logs(hs[t])[j] in old(AllLogs(hs)) || fresh(Logs(hs[t])[j])
  }
}
