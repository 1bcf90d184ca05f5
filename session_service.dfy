/**
  SessionService (src/main/services/session.ts) over the session table of the
  current schema. Its reads answer from the table itself, soft-deleted rows
  included; its writes are stubs: `set` refuses, `stop` is empty, and `start`
  guards its UPDATE with getOpenSessions(), which always answers 0.
*/
module SessionService {
  import opened Wrappers
  import opened Sorting
  import opened Schema

  /** Session: the columns the service selects. */
  datatype SessionModel = SessionModel(id: int, taskId: int, startTime: int, endTime: Option<int>)

  function ModelOf(s: Session): SessionModel {
    SessionModel(s.id, s.taskId, s.startTime, s.endTime)
  }

  /** WHERE end_time IS NULL ORDER BY id DESC LIMIT 1: the open row with the largest id. */
  function NewestOpen(ss: seq<Session>): (r: Option<Session>)
    ensures r.Some? ==> r.value in ss && r.value.endTime.None?
    ensures r.Some? ==> forall s :: s in ss && s.endTime.None? ==> s.id <= r.value.id
    ensures r.None? <==> forall s :: s in ss ==> s.endTime.Some?
  {
    if ss == [] then None
    else
      var rest := NewestOpen(ss[1..]);
      assert forall s :: s in ss <==> s == ss[0] || s in ss[1..];
      if ss[0].endTime.None? && (rest.None? || rest.value.id < ss[0].id) then Some(ss[0]) else rest
  }

  /** UPDATE session SET end_time = ? WHERE end_time IS NULL: an open row is written through
      CHECK session_time_order and the triggers, a closed row is left alone, and a row the
      CHECK rejects fails the whole statement. */
  function CloseOpenRows(ss: seq<Session>, now: int, stamp: int): (r: Result<seq<Session>, DbError>)
    ensures r.Failure? <==> exists i :: 0 <= i < |ss| && ss[i].endTime.None? && now < ss[i].startTime
    ensures r.Failure? ==> r.error == CheckViolation
    ensures r.Success? ==> |r.value| == |ss|
    ensures r.Success? ==> forall i :: 0 <= i < |ss| && ss[i].endTime.Some? ==> r.value[i] == ss[i]
    ensures r.Success? ==> forall i :: 0 <= i < |ss| && ss[i].endTime.None? ==>
      r.value[i] == ss[i].(endTime := Some(now), audit := ss[i].audit.(updatedAt := stamp))
  {
    if ss == [] then Success([])
    else
      var rest := CloseOpenRows(ss[1..], now, stamp);
      assert forall i :: 1 <= i < |ss| ==> ss[i] == ss[1..][i - 1];
      var head := if ss[0].endTime.Some? then Success(ss[0])
                  else UpdateSession(ss[0], ss[0].startTime, Some(now), ss[0].audit, stamp);
      match head
      case Failure(e) => Failure(e)
      case Success(s) =>
        match rest
        case Failure(e) => Failure(e)
        case Success(tail) => Success([s] + tail)
  }

  /** ORDER BY id DESC. */
  predicate IdDesc(a: SessionModel, b: SessionModel) {
    a.id >= b.id
  }

  lemma IdDescOrder()
    ensures IsTotal(IdDesc) && IsTransitive(IdDesc)
  {
  }

  class SessionService {
    const db: Store

    constructor (db: Store)
      ensures this.db == db
    {
      this.db := db;
    }

    /** getOne: the newest open session, or null when every session is closed. */
    function GetOne(): (r: Option<SessionModel>)
      reads db
      ensures r.Some? ==> exists s :: s in db.tables.sessions && s.endTime.None? && r.value == ModelOf(s)
      ensures r.Some? ==> forall s :: s in db.tables.sessions && s.endTime.None? ==> s.id <= r.value.id
      ensures r.None? <==> forall s :: s in db.tables.sessions ==> s.endTime.Some?
    {
      match NewestOpen(db.tables.sessions)
      case None => None
      case Some(s) => Some(ModelOf(s))
    }

    /** set: refuses every list and writes nothing. */
    method Set(data: seq<SessionModel>) returns (ok: bool)
      ensures !ok
    {
      ok := false;
    }

    /** getOpenSessions: runs a count query, discards its result and answers 0. */
    method GetOpenSessions() returns (n: int)
      ensures n == 0
    {
      n := 0;
    }

    /** start: the UPDATE that would close open sessions only runs when getOpenSessions()
        answers a positive count, which it never does, so start changes nothing and cannot
        fail. */
    method Start(task: int, now: int, stamp: int) returns (r: Result<(), DbError>)
      modifies db
      ensures r == Success(()) && db.tables == old(db.tables)
    {
      var open := GetOpenSessions();
      var t := db.tables;
      var update := CloseOpenRows(t.sessions, now, stamp);
      db.tables := if open > 0 then (match update
                                     case Success(ss) => t.(sessions := ss)
                                     case Failure(_) => t)
                   else t;
      r := if open > 0 then (match update
                             case Success(_) => Success(())
                             case Failure(e) => Failure(e))
           else Success(());
    }

    /** stop: an empty body. */
    method Stop(now: int)
      modifies db
      ensures db.tables == old(db.tables)
    {
    }

    /** get: every session row, open and closed, newest id first. */
    function Get(): (r: seq<SessionModel>)
      reads db
      ensures multiset(r) == multiset(MapSeq(db.tables.sessions, ModelOf))
      ensures forall i, j :: 0 <= i <= j < |r| ==> r[i].id >= r[j].id
    {
      IdDescOrder();
      var r := SortBy(MapSeq(db.tables.sessions, ModelOf), IdDesc);
      forall i, j | 0 <= i <= j < |r|
        ensures r[i].id >= r[j].id
      {
        SortedPairwise(r, IdDesc, i, j);
      }
      r
    }
  }

  function IdOf(m: SessionModel): int {
    m.id
  }

  /** Rowids increase along the table, so `get` is the table read backwards, the last
      session inserted first. */
  lemma GetNewestFirst(svc: SessionService)
    requires Valid(svc.db.tables)
    ensures svc.Get() == Reverse(MapSeq(svc.db.tables.sessions, ModelOf))
  {
    var ms := MapSeq(svc.db.tables.sessions, ModelOf);
    assert forall i, j :: 0 <= i < j < |ms| ==> IdOf(ms[i]) < IdOf(ms[j]);
    DescendingIsReverse(ms, svc.Get(), IdOf);
  }

  /** `getOne` reports a session nobody has stopped, even one that was soft-deleted: it reads
      the table, not the view. */
  lemma GetOneSeesDeletedSession(svc: SessionService, s: Session)
    requires svc.db.tables.sessions == [s]
    requires s.endTime.None? && !s.audit.active
    ensures svc.GetOne() == Some(ModelOf(s))
  {
  }
}
