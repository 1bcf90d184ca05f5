/**
  The older database class DB (src/main/data.ts) with its own schema: project and
  session tables without soft-delete columns, the updated_at triggers, the
  session CHECK, and the view v_session. The class keeps the project and
  session tables as fields and changes them in place; its task table, which it
  never writes, is a field too because session's foreign key reads it. The clock is a parameter: `now`
  is Date.now() in milliseconds, `stamp` is CURRENT_TIMESTAMP.
*/
module LegacyStore {
  import opened Wrappers
  import opened Text
  import opened Sorting
  import opened Schema

  datatype LegacyProject = LegacyProject(id: int, name: string, companyId: int, createdAt: int, updatedAt: int)
  datatype LegacyTask = LegacyTask(id: int, name: string, projectId: int, createdAt: int, updatedAt: int)
  datatype LegacySession = LegacySession(id: int, taskId: int, startTime: int, endTime: Option<int>,
                                         createdAt: int, updatedAt: int)

  /** SessionRow: a row of v_session. */
  datatype SessionRow = SessionRow(id: int, project: string, start: int, end: Option<int>)

  /** The columns an INSERT INTO project names; a column it leaves out is NULL. */
  datatype ProjectInsert = ProjectInsert(name: string, companyId: Option<int>)

  /** INSERT OR IGNORE INTO project: a NULL company_id (NOT NULL, no default) or a name over
      32 characters is a conflict that IGNORE resolves by skipping the row. SQLite draws the
      AUTOINCREMENT rowid before it checks the constraints, so the counter `top` advances
      either way. */
  function InsertProjectRow(rows: seq<LegacyProject>, top: int, p: ProjectInsert, stamp: int): (r: (seq<LegacyProject>, int))
    ensures r.1 == top + 1
    ensures p.companyId.None? || !NameFits(p.name) ==> r.0 == rows
    ensures p.companyId.Some? && NameFits(p.name) ==>
      r.0 == rows + [LegacyProject(top + 1, p.name, p.companyId.value, stamp, stamp)]
  {
    if p.companyId.None? || !NameFits(p.name) then (rows, top + 1)
    else (rows + [LegacyProject(top + 1, p.name, p.companyId.value, stamp, stamp)], top + 1)
  }

  /** `INSERT OR IGNORE INTO project(name)` never adds a row, whatever the name, yet each
      such statement uses up one AUTOINCREMENT value. */
  lemma NameOnlyInsertIgnored(rows: seq<LegacyProject>, top: int, name: string, stamp: int)
    ensures InsertProjectRow(rows, top, ProjectInsert(name, None), stamp) == (rows, top + 1)
  {
  }

  // ---------------------------------------------------------------------------
  // UPDATE session SET end_time = ? WHERE end_time IS NULL

  /** One row under the UPDATE: an open row gets the end time, and trg_session_updated_at
      refreshes updated_at because the statement did not set it. */
  function CloseOne(s: LegacySession, now: int, stamp: int): LegacySession {
    if s.endTime.None? then s.(endTime := Some(now), updatedAt := Touch(s.updatedAt, s.updatedAt, stamp)) else s
  }

  function CloseOpen(ss: seq<LegacySession>, now: int, stamp: int): (r: seq<LegacySession>)
    ensures |r| == |ss|
    ensures forall i :: 0 <= i < |ss| ==> r[i] == CloseOne(ss[i], now, stamp)
  {
    seq(|ss|, i requires 0 <= i < |ss| => CloseOne(ss[i], now, stamp))
  }

  /** CHECK session_time_order holds for every row the UPDATE writes; otherwise the statement
      fails and changes nothing. */
  predicate CanClose(ss: seq<LegacySession>, now: int) {
    forall i :: 0 <= i < |ss| ==> ss[i].endTime.None? ==> ss[i].startTime <= now
  }

  function OpenCount(ss: seq<LegacySession>): nat {
    if ss == [] then 0 else (if ss[0].endTime.None? then 1 else 0) + OpenCount(ss[1..])
  }

  lemma {:induction false} OpenCountZero(ss: seq<LegacySession>)
    ensures OpenCount(ss) == 0 <==> forall i :: 0 <= i < |ss| ==> ss[i].endTime.Some?
  {
    if ss != [] {
      OpenCountZero(ss[1..]);
      assert forall i :: 1 <= i < |ss| ==> ss[i] == ss[1..][i - 1];
    }
  }

  lemma {:induction false} OpenCountAppend(ss: seq<LegacySession>, x: LegacySession)
    ensures OpenCount(ss + [x]) == OpenCount(ss) + (if x.endTime.None? then 1 else 0)
  {
    if ss == [] {
      assert ss + [x] == [x];
      assert [x][1..] == [];
    } else {
      assert (ss + [x])[1..] == ss[1..] + [x];
      OpenCountAppend(ss[1..], x);
    }
  }

  /** Rowids increase and stay at or below the AUTOINCREMENT counter; every row meets the CHECK. */
  ghost predicate SessionsWellFormed(ss: seq<LegacySession>, top: int) {
    && (forall i :: 0 <= i < |ss| ==> ss[i].id <= top && TimeOrdered(ss[i].startTime, ss[i].endTime))
    && (forall i, j :: 0 <= i < j < |ss| ==> ss[i].id < ss[j].id)
  }

  /** After the UPDATE no session is open; closed rows are untouched; an open row keeps its
      id, task and start and ends at `now`; and when nothing was open nothing changes. */
  lemma CloseOpenEffect(ss: seq<LegacySession>, now: int, stamp: int)
    ensures OpenCount(CloseOpen(ss, now, stamp)) == 0
    ensures forall i :: 0 <= i < |ss| && ss[i].endTime.Some? ==> CloseOpen(ss, now, stamp)[i] == ss[i]
    ensures forall i :: 0 <= i < |ss| && ss[i].endTime.None? ==>
      var c := CloseOpen(ss, now, stamp)[i];
      c.id == ss[i].id && c.taskId == ss[i].taskId && c.startTime == ss[i].startTime
      && c.endTime == Some(now) && c.createdAt == ss[i].createdAt && c.updatedAt == stamp
    ensures OpenCount(ss) == 0 ==> CloseOpen(ss, now, stamp) == ss
  {
    OpenCountZero(CloseOpen(ss, now, stamp));
    OpenCountZero(ss);
  }

  /** Closing when the CHECK allows it keeps the table well formed. */
  lemma CloseOpenWellFormed(ss: seq<LegacySession>, top: int, now: int, stamp: int)
    requires SessionsWellFormed(ss, top) && CanClose(ss, now)
    ensures SessionsWellFormed(CloseOpen(ss, now, stamp), top)
  {
  }

  /** The table after a successful start: every earlier session closed, one new open row. */
  function Started(ss: seq<LegacySession>, top: int, taskId: int, now: int, stamp: int): seq<LegacySession> {
    CloseOpen(ss, now, stamp) + [LegacySession(top + 1, taskId, now, None, stamp, stamp)]
  }

  /** After start exactly one session is open, it is the newest row and has the largest id,
      and the table stays well formed. */
  lemma StartedOneOpen(ss: seq<LegacySession>, top: int, taskId: int, now: int, stamp: int)
    requires SessionsWellFormed(ss, top) && CanClose(ss, now)
    ensures var r := Started(ss, top, taskId, now, stamp);
      && OpenCount(r) == 1
      && r[|r| - 1].endTime.None? && r[|r| - 1].startTime == now
      && (forall i :: 0 <= i < |r| - 1 ==> r[i].id < r[|r| - 1].id && r[i].endTime.Some?)
      && SessionsWellFormed(r, top + 1)
  {
    var c := CloseOpen(ss, now, stamp);
    CloseOpenEffect(ss, now, stamp);
    OpenCountZero(c);
    OpenCountAppend(c, LegacySession(top + 1, taskId, now, None, stamp, stamp));
  }

  // ---------------------------------------------------------------------------
  // Reads

  function LegacyProjectId(p: LegacyProject): int { p.id }
  function LegacyProjectName(p: LegacyProject): string { p.name }
  function LegacyTaskId(t: LegacyTask): int { t.id }

  /** A session's v_session row: JOIN project p ON p.id = s.task_id. */
  function ViewRowOf(s: LegacySession, ps: seq<LegacyProject>): Option<SessionRow> {
    match FindBy(ps, LegacyProjectId, s.taskId)
    case None => None
    case Some(p) => Some(SessionRow(s.id, p.name, s.startTime, s.endTime))
  }

  /** v_session: the sessions that have a joined project, in rowid order. */
  function SessionView(ss: seq<LegacySession>, ps: seq<LegacyProject>): (r: seq<SessionRow>)
    ensures |r| <= |ss|
    ensures forall v :: v in r <==> exists i :: 0 <= i < |ss| && ViewRowOf(ss[i], ps) == Some(v)
  {
    if ss == [] then []
    else
      var rest := SessionView(ss[1..], ps);
      assert forall i :: 1 <= i < |ss| ==> ss[i] == ss[1..][i - 1];
      match ViewRowOf(ss[0], ps)
      case None => rest
      case Some(v) => [v] + rest
  }

  function OpenRows(rows: seq<SessionRow>): (r: seq<SessionRow>)
    ensures forall v :: v in r <==> v in rows && v.end.None?
  {
    if rows == [] then []
    else if rows[0].end.None? then [rows[0]] + OpenRows(rows[1..]) else OpenRows(rows[1..])
  }

  /** ORDER BY id DESC. */
  predicate IdDesc(a: SessionRow, b: SessionRow) {
    a.id >= b.id
  }

  lemma IdDescOrder()
    ensures IsTotal(IdDesc) && IsTransitive(IdDesc)
  {
  }

  function Names(ps: seq<LegacyProject>): (r: seq<string>)
    ensures |r| == |ps| && forall i :: 0 <= i < |ps| ==> r[i] == ps[i].name
  {
    seq(|ps|, i requires 0 <= i < |ps| => ps[i].name)
  }

  lemma StrLeqOrder()
    ensures IsTotal(StrLeq) && IsTransitive(StrLeq)
  {
    forall a: string, b: string
      ensures StrLeq(a, b) || StrLeq(b, a)
    {
      StrLeqTotal(a, b);
    }
    forall a: string, b: string, c: string | StrLeq(a, b) && StrLeq(b, c)
      ensures StrLeq(a, c)
    {
      StrLeqTransitive(a, b, c);
    }
  }

  class LegacyDb {
    var projects: seq<LegacyProject>
    var projectSeq: int
    var sessions: seq<LegacySession>
    var sessionSeq: int
    /** Table task: no method of the class writes it. */
    var tasks: seq<LegacyTask>

    ghost predicate Valid()
      reads this
    {
      SessionsWellFormed(sessions, sessionSeq)
    }

    constructor ()
      ensures projects == [] && sessions == [] && tasks == [] && projectSeq == 0 && sessionSeq == 0
      ensures Valid()
    {
      projects, projectSeq := [], 0;
      sessions, sessionSeq := [], 0;
      tasks := [];
    }

    /** getProjects: every project name, in ascending BINARY order. */
    function GetProjects(): (names: seq<string>)
      reads this
      ensures multiset(names) == multiset(Names(projects))
      ensures forall i, j :: 0 <= i <= j < |names| ==> StrLeq(names[i], names[j])
    {
      StrLeqOrder();
      var r := SortBy(Names(projects), StrLeq);
      forall i, j | 0 <= i <= j < |r|
        ensures StrLeq(r[i], r[j])
      {
        SortedPairwise(r, StrLeq, i, j);
      }
      r
    }

    /** ensureProject: INSERT OR IGNORE INTO project(name), which skips the row but uses up
        one AUTOINCREMENT value. */
    method EnsureProject(name: string, stamp: int)
      modifies this
      ensures projects == old(projects) && projectSeq == old(projectSeq) + 1
      ensures sessions == old(sessions) && sessionSeq == old(sessionSeq) && tasks == old(tasks)
    {
      var (rows, top) := InsertProjectRow(projects, projectSeq, ProjectInsert(name, None), stamp);
      projects, projectSeq := rows, top;
    }

    /** setProjects: the same insert for each name, in one transaction: no row is added, and
        the counter advances once per name. */
    method SetProjects(list: seq<string>, stamp: int)
      modifies this
      ensures projects == old(projects) && projectSeq == old(projectSeq) + |list|
      ensures sessions == old(sessions) && sessionSeq == old(sessionSeq) && tasks == old(tasks)
    {
      for i := 0 to |list|
        invariant projects == old(projects) && projectSeq == old(projectSeq) + i
        invariant sessions == old(sessions) && sessionSeq == old(sessionSeq) && tasks == old(tasks)
      {
        EnsureProject(list[i], stamp);
      }
    }

    /** getOpenSession: the open v_session row with the largest id, or null. */
    function GetOpenSession(): (r: Option<SessionRow>)
      reads this
      ensures r.Some? ==> r.value in SessionView(sessions, projects) && r.value.end.None?
      ensures r.Some? ==> forall v :: v in SessionView(sessions, projects) && v.end.None? ==> v.id <= r.value.id
      ensures r.None? <==> forall v :: v in SessionView(sessions, projects) ==> v.end.Some?
    {
      IdDescOrder();
      var open := OpenRows(SessionView(sessions, projects));
      var sorted := SortBy(open, IdDesc);
      if sorted == [] then
        assert forall v :: v in open <==> v in sorted by {
          assert forall v :: v in open <==> v in multiset(open);
        }
        None
      else
        assert sorted[0] in multiset(open);
        forall v | v in open
          ensures v.id <= sorted[0].id
        {
          assert v in multiset(sorted);
          var j :| 0 <= j < |sorted| && sorted[j] == v;
          SortedPairwise(sorted, IdDesc, 0, j);
        }
        Some(sorted[0])
    }

    /** getSessions: every v_session row, newest id first. */
    function GetSessions(): (r: seq<SessionRow>)
      reads this
      ensures multiset(r) == multiset(SessionView(sessions, projects))
      ensures forall i, j :: 0 <= i <= j < |r| ==> r[i].id >= r[j].id
    {
      IdDescOrder();
      var r := SortBy(SessionView(sessions, projects), IdDesc);
      forall i, j | 0 <= i <= j < |r|
        ensures r[i].id >= r[j].id
      {
        SortedPairwise(r, IdDesc, i, j);
      }
      r
    }

    /** stop: UPDATE session SET end_time = now WHERE end_time IS NULL. */
    method Stop(now: int, stamp: int) returns (r: Result<(), DbError>)
      modifies this
      ensures CanClose(old(sessions), now) ==> r.Success? && sessions == CloseOpen(old(sessions), now, stamp)
      ensures !CanClose(old(sessions), now) ==> r == Failure(CheckViolation) && sessions == old(sessions)
      ensures projects == old(projects) && projectSeq == old(projectSeq) && sessionSeq == old(sessionSeq)
      ensures tasks == old(tasks)
      ensures old(Valid()) ==> Valid()
    {
      var closed: seq<LegacySession> := [];
      var ok := true;
      var i := 0;
      while i < |sessions|
        invariant 0 <= i <= |sessions|
        invariant |closed| == i
        invariant forall j :: 0 <= j < i ==> closed[j] == CloseOne(sessions[j], now, stamp)
        invariant ok <==> forall j :: 0 <= j < i ==> sessions[j].endTime.None? ==> sessions[j].startTime <= now
      {
        var s := sessions[i];
        if s.endTime.None? && s.startTime > now {
          ok := false;
        }
        closed := closed + [CloseOne(s, now, stamp)];
        i := i + 1;
      }
      if ok {
        assert closed == CloseOpen(sessions, now, stamp);
        if Valid() {
          CloseOpenWellFormed(sessions, sessionSeq, now, stamp);
        }
        sessions := closed;
        r := Success(());
      } else {
        r := Failure(CheckViolation);
      }
    }

    /** start as written: the INSERT names a column project_id that the session table does
        not have, so preparing it fails after the UPDATE has already closed every open
        session. */
    method StartAsWritten(project: string, now: int, stamp: int) returns (r: Result<(), DbError>)
      modifies this
      ensures r.Failure?
      ensures CanClose(old(sessions), now) ==> r == Failure(NoSuchColumn("project_id"))
      ensures CanClose(old(sessions), now) ==> sessions == CloseOpen(old(sessions), now, stamp) && OpenCount(sessions) == 0
      ensures !CanClose(old(sessions), now) ==> r == Failure(CheckViolation) && sessions == old(sessions)
      ensures projects == old(projects) && projectSeq == old(projectSeq) + 1
      ensures sessionSeq == old(sessionSeq) && tasks == old(tasks)
    {
      EnsureProject(project, stamp);
      var closed := Stop(now, stamp);
      if closed.Failure? {
        return closed;
      }
      CloseOpenEffect(old(sessions), now, stamp);
      r := Failure(NoSuchColumn("project_id"));
    }

    /** start as intended: close every open session, then open one for the named project
        (INSERT INTO session(task_id, start_time)). A name with no project row leaves
        task_id NULL, which the NOT NULL constraint rejects; a project id that is no task's
        id breaks fk_session_task (foreign keys are on). A failed INSERT is undone, but the
        earlier statements of `start` stay done. */
    method Start(project: string, now: int, stamp: int) returns (r: Result<(), DbError>)
      requires Valid()
      modifies this
      ensures !CanClose(old(sessions), now) ==> r == Failure(CheckViolation) && sessions == old(sessions)
      ensures CanClose(old(sessions), now) && FindBy(old(projects), LegacyProjectName, project).None? ==>
        r == Failure(NotNullViolation) && sessions == CloseOpen(old(sessions), now, stamp)
      ensures CanClose(old(sessions), now) && FindBy(old(projects), LegacyProjectName, project).Some?
              && FindBy(old(tasks), LegacyTaskId, FindBy(old(projects), LegacyProjectName, project).value.id).None? ==>
        r == Failure(ForeignKeyViolation) && sessions == CloseOpen(old(sessions), now, stamp)
      ensures CanClose(old(sessions), now) && FindBy(old(projects), LegacyProjectName, project).Some?
              && FindBy(old(tasks), LegacyTaskId, FindBy(old(projects), LegacyProjectName, project).value.id).Some? ==>
        r.Success? && sessionSeq == old(sessionSeq) + 1
        && sessions == Started(old(sessions), old(sessionSeq), FindBy(old(projects), LegacyProjectName, project).value.id, now, stamp)
      ensures r.Failure? ==> sessionSeq == old(sessionSeq)
      ensures old(tasks) == [] ==> r.Failure?
      ensures projects == old(projects) && projectSeq == old(projectSeq) + 1 && tasks == old(tasks) && Valid()
    {
      EnsureProject(project, stamp);
      var closed := Stop(now, stamp);
      if closed.Failure? {
        return closed;
      }
      match FindBy(projects, LegacyProjectName, project)
      case None =>
        r := Failure(NotNullViolation);
      case Some(p) =>
        if FindBy(tasks, LegacyTaskId, p.id).None? {
          r := Failure(ForeignKeyViolation);
        } else {
          StartedOneOpen(old(sessions), sessionSeq, p.id, now, stamp);
          sessions := sessions + [LegacySession(sessionSeq + 1, p.id, now, None, stamp, stamp)];
          sessionSeq := sessionSeq + 1;
          r := Success(());
        }
    }
  }
}
