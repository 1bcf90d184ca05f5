/**
  The relational schema that src/main/services/data.ts creates: the company,
  project, task and session tables with their CHECK constraints, the
  AUTOINCREMENT counters, and the two audit triggers every table carries
  (refresh updated_at, stamp deleted_at on deactivation). A table is a sequence
  of rows in rowid order. CURRENT_TIMESTAMP is a parameter `stamp` (whole
  seconds); Date.now() is a parameter `now` (milliseconds).
*/
module Schema {
  import opened Wrappers

  /** CHECK (length(name) <= 32) on company, project and task. */
  const MaxNameLength := 32

  /** The soft-delete flag and the audit timestamps every table has. */
  datatype Audit = Audit(active: bool, deletedAt: Option<int>, createdAt: int, updatedAt: int)

  datatype Company = Company(id: int, name: string, audit: Audit)
  datatype Project = Project(id: int, name: string, companyId: int, audit: Audit)
  datatype Task = Task(id: int, name: string, projectId: int, audit: Audit)
  /** start_time and end_time are epoch milliseconds; end_time NULL means the session is open. */
  datatype Session = Session(id: int, taskId: int, startTime: int, endTime: Option<int>, audit: Audit)

  /** The database: the four tables and each table's AUTOINCREMENT high-water mark. */
  datatype Tables = Tables(
    companies: seq<Company>, projects: seq<Project>, tasks: seq<Task>, sessions: seq<Session>,
    companySeq: int, projectSeq: int, taskSeq: int, sessionSeq: int)

  /** Why a statement failed. */
  datatype DbError = CheckViolation | NotNullViolation | ForeignKeyViolation | NoSuchColumn(column: string)

  function EmptyTables(): Tables {
    Tables([], [], [], [], 0, 0, 0, 0)
  }

  predicate NameFits(name: string) {
    |name| <= MaxNameLength
  }

  /** CHECK (end_time IS NULL OR end_time >= start_time). */
  predicate TimeOrdered(startTime: int, endTime: Option<int>) {
    endTime.None? || endTime.value >= startTime
  }

  /** The column defaults of a new row: active, not deleted, both timestamps now. */
  function NewAudit(stamp: int): (a: Audit)
    ensures a.active && a.deletedAt.None? && a.createdAt == a.updatedAt == stamp
  {
    Audit(true, None, stamp, stamp)
  }

  /** trg_*_updated_at: when the statement left updated_at as it was, it becomes the current time. */
  function Touch(before: int, after: int, stamp: int): (r: int)
    ensures after == before ==> r == stamp
    ensures after != before ==> r == after
  {
    if after == before then stamp else after
  }

  /** Both AFTER UPDATE triggers of one table applied to the row an UPDATE wrote. On an
      active-to-inactive change the *_deleted_at_on_deactivate trigger runs a nested UPDATE
      of deleted_at; that nested statement leaves updated_at as it found it, so
      trg_*_updated_at (not itself on the trigger stack, which is all that
      recursive_triggers = OFF suppresses) fires for it and sets updated_at to the current
      time, whatever value the outer statement wrote. */
  function AfterUpdate(before: Audit, after: Audit, stamp: int): (r: Audit)
    ensures r.active == after.active && r.createdAt == after.createdAt
    ensures before.active && !after.active ==> r.deletedAt == Some(stamp) && r.updatedAt == stamp
    ensures !(before.active && !after.active) ==>
      r.deletedAt == after.deletedAt && r.updatedAt == Touch(before.updatedAt, after.updatedAt, stamp)
  {
    if before.active && !after.active then after.(deletedAt := Some(stamp), updatedAt := stamp)
    else after.(updatedAt := Touch(before.updatedAt, after.updatedAt, stamp))
  }

  /** A deactivating UPDATE ends with updated_at at the current time even when the statement
      itself wrote some other value there. */
  lemma DeactivationOverridesWrittenUpdatedAt(before: Audit, after: Audit, stamp: int)
    requires before.active && !after.active && after.updatedAt != before.updatedAt
    ensures AfterUpdate(before, after, stamp).updatedAt == stamp
    ensures after.updatedAt != stamp ==> AfterUpdate(before, after, stamp).updatedAt != after.updatedAt
  {
  }

  /** An UPDATE that leaves updated_at alone has it set to the current time, and after any
      UPDATE the row's updated_at differs from its old value unless the clock itself still
      reads that value. */
  lemma UpdateRefreshesUpdatedAt(before: Audit, after: Audit, stamp: int)
    ensures !(before.active && !after.active) && after.updatedAt == before.updatedAt ==>
      AfterUpdate(before, after, stamp).updatedAt == stamp
    ensures stamp != before.updatedAt ==> AfterUpdate(before, after, stamp).updatedAt != before.updatedAt
  {
  }

  /** Deactivating stamps deleted_at; an update that leaves a row inactive, or reactivates it,
      keeps the deleted_at the statement wrote. */
  lemma SoftDeleteStampsOnce(before: Audit, after: Audit, stamp: int)
    ensures !before.active ==> AfterUpdate(before, after, stamp).deletedAt == after.deletedAt
    ensures before.active && !after.active ==> AfterUpdate(before, after, stamp).deletedAt == Some(stamp)
  {
  }

  /** `UPDATE session SET start_time = ?, end_time = ?, <audit columns> WHERE id = ?` on one
      row: CHECK session_time_order rejects the statement, otherwise the row holds the written
      columns with the audit columns fixed by the triggers. No statement of the program writes
      id or task_id, so the row keeps both. */
  function UpdateSession(before: Session, startTime: int, endTime: Option<int>, audit: Audit, stamp: int)
    : (r: Result<Session, DbError>)
    ensures r.Failure? <==> !TimeOrdered(startTime, endTime)
    ensures r.Failure? ==> r.error == CheckViolation
    ensures r.Success? ==> TimeOrdered(r.value.startTime, r.value.endTime)
    ensures r.Success? ==> r.value.id == before.id && r.value.taskId == before.taskId
    ensures r.Success? ==> r.value.startTime == startTime && r.value.endTime == endTime
    ensures r.Success? ==> r.value.audit == AfterUpdate(before.audit, audit, stamp)
  {
    if TimeOrdered(startTime, endTime)
    then Success(before.(startTime := startTime, endTime := endTime, audit := AfterUpdate(before.audit, audit, stamp)))
    else Failure(CheckViolation)
  }

  /** `UPDATE company SET name = ?, <audit columns> WHERE id = ?` on one row: CHECK
      company_name_len, then the triggers. Project and task rows are updated by the same rule. */
  function UpdateCompany(before: Company, name: string, audit: Audit, stamp: int): (r: Result<Company, DbError>)
    ensures r.Failure? <==> !NameFits(name)
    ensures r.Failure? ==> r.error == CheckViolation
    ensures r.Success? ==> r.value.id == before.id && r.value.name == name
    ensures r.Success? ==> r.value.audit == AfterUpdate(before.audit, audit, stamp)
  {
    if NameFits(name)
    then Success(before.(name := name, audit := AfterUpdate(before.audit, audit, stamp)))
    else Failure(CheckViolation)
  }

  /** Soft-deleting a session keeps its time data and marks it deleted now. */
  lemma SoftDeleteSessionKeepsTimes(s: Session, stamp: int)
    requires s.audit.active && TimeOrdered(s.startTime, s.endTime)
    ensures var r := UpdateSession(s, s.startTime, s.endTime, s.audit.(active := false), stamp);
      && r.Success?
      && r.value.id == s.id && r.value.taskId == s.taskId
      && r.value.startTime == s.startTime && r.value.endTime == s.endTime
      && !r.value.audit.active && r.value.audit.deletedAt == Some(stamp)
      && r.value.audit.updatedAt == stamp
  {
  }

  predicate CompanyExists(t: Tables, id: int) {
    exists i :: 0 <= i < |t.companies| && t.companies[i].id == id
  }

  predicate ProjectExists(t: Tables, id: int) {
    exists i :: 0 <= i < |t.projects| && t.projects[i].id == id
  }

  predicate TaskExists(t: Tables, id: int) {
    exists i :: 0 <= i < |t.tasks| && t.tasks[i].id == id
  }

  // ---------------------------------------------------------------------------
  // Table invariants: every row meets its CHECKs, rowids increase and stay below the
  // AUTOINCREMENT counter, and every foreign key names an existing row.

  ghost predicate CompaniesValid(rows: seq<Company>, top: int) {
    && (forall i :: 0 <= i < |rows| ==> NameFits(rows[i].name) && rows[i].id <= top)
    && (forall i, j :: 0 <= i < j < |rows| ==> rows[i].id < rows[j].id)
  }

  ghost predicate ProjectsValid(rows: seq<Project>, top: int) {
    && (forall i :: 0 <= i < |rows| ==> NameFits(rows[i].name) && rows[i].id <= top)
    && (forall i, j :: 0 <= i < j < |rows| ==> rows[i].id < rows[j].id)
  }

  ghost predicate TasksValid(rows: seq<Task>, top: int) {
    && (forall i :: 0 <= i < |rows| ==> NameFits(rows[i].name) && rows[i].id <= top)
    && (forall i, j :: 0 <= i < j < |rows| ==> rows[i].id < rows[j].id)
  }

  ghost predicate SessionsValid(rows: seq<Session>, top: int) {
    && (forall i :: 0 <= i < |rows| ==> TimeOrdered(rows[i].startTime, rows[i].endTime) && rows[i].id <= top)
    && (forall i, j :: 0 <= i < j < |rows| ==> rows[i].id < rows[j].id)
  }

  /** fk_project_company, fk_task_project and fk_session_task (foreign_keys = ON). */
  ghost predicate KeysResolve(t: Tables) {
    && (forall i :: 0 <= i < |t.projects| ==> CompanyExists(t, t.projects[i].companyId))
    && (forall i :: 0 <= i < |t.tasks| ==> ProjectExists(t, t.tasks[i].projectId))
    && (forall i :: 0 <= i < |t.sessions| ==> TaskExists(t, t.sessions[i].taskId))
  }

  ghost predicate Valid(t: Tables) {
    && CompaniesValid(t.companies, t.companySeq)
    && ProjectsValid(t.projects, t.projectSeq)
    && TasksValid(t.tasks, t.taskSeq)
    && SessionsValid(t.sessions, t.sessionSeq)
    && KeysResolve(t)
  }

  // ---------------------------------------------------------------------------
  // INSERT OR IGNORE: a row that breaks a CHECK is skipped; a foreign key that matches no
  // row fails the statement (ON CONFLICT does not apply to foreign keys).

  /** INSERT OR IGNORE INTO company(name) VALUES (?). SQLite draws the AUTOINCREMENT rowid
      before it checks the constraints, so a skipped row still uses up one counter value. */
  function InsertCompany(t: Tables, name: string, stamp: int): (r: Tables)
    ensures r.companySeq == t.companySeq + 1
    ensures !NameFits(name) ==> r == t.(companySeq := t.companySeq + 1)
    ensures NameFits(name) ==> r == t.(companies := t.companies + [Company(t.companySeq + 1, name, NewAudit(stamp))],
                                       companySeq := t.companySeq + 1)
  {
    var u := t.(companySeq := t.companySeq + 1);
    if NameFits(name) then u.(companies := t.companies + [Company(u.companySeq, name, NewAudit(stamp))]) else u
  }

  lemma InsertCompanyValid(t: Tables, name: string, stamp: int)
    requires Valid(t)
    ensures Valid(InsertCompany(t, name, stamp))
  {
    var u := InsertCompany(t, name, stamp);
    forall id | CompanyExists(t, id)
      ensures CompanyExists(u, id)
    {
      var k :| 0 <= k < |t.companies| && t.companies[k].id == id;
      assert u.companies[k] == t.companies[k];
    }
  }


  /** INSERT OR IGNORE INTO project(name, company_id) VALUES (?, ?). A skipped row uses up one
      AUTOINCREMENT value; a failed statement is undone, counter included. */
  function InsertProject(t: Tables, name: string, companyId: int, stamp: int): (r: Result<Tables, DbError>)
    ensures !NameFits(name) ==> r == Success(t.(projectSeq := t.projectSeq + 1))
    ensures NameFits(name) && !CompanyExists(t, companyId) ==> r == Failure(ForeignKeyViolation)
    ensures NameFits(name) && CompanyExists(t, companyId) ==>
      r == Success(t.(projects := t.projects + [Project(t.projectSeq + 1, name, companyId, NewAudit(stamp))],
                      projectSeq := t.projectSeq + 1))
    ensures r.Success? ==> r.value.projectSeq == t.projectSeq + 1
  {
    if !NameFits(name) then Success(t.(projectSeq := t.projectSeq + 1))
    else if !CompanyExists(t, companyId) then Failure(ForeignKeyViolation)
    else Success(t.(projects := t.projects + [Project(t.projectSeq + 1, name, companyId, NewAudit(stamp))],
                    projectSeq := t.projectSeq + 1))
  }

  lemma InsertProjectValid(t: Tables, name: string, companyId: int, stamp: int)
    requires Valid(t)
    ensures InsertProject(t, name, companyId, stamp).Success? ==> Valid(InsertProject(t, name, companyId, stamp).value)
  {
    if InsertProject(t, name, companyId, stamp).Success? {
      var u := InsertProject(t, name, companyId, stamp).value;
      forall id | ProjectExists(t, id)
        ensures ProjectExists(u, id)
      {
        var k :| 0 <= k < |t.projects| && t.projects[k].id == id;
        assert u.projects[k] == t.projects[k];
      }
    }
  }

  // ---------------------------------------------------------------------------
  // Lookup: the first row, in table order, with a given key. By primary key, ids are unique,
  // so the first row with the id is the row.

  function FindBy<T, K(==)>(rows: seq<T>, key: T -> K, k: K): (r: Option<T>)
    ensures r.Some? ==> r.value in rows && key(r.value) == k
    ensures r.None? <==> forall i :: 0 <= i < |rows| ==> key(rows[i]) != k
  {
    if rows == [] then None else if key(rows[0]) == k then Some(rows[0]) else FindBy(rows[1..], key, k)
  }

  function TaskId(r: Task): int { r.id }
  function ProjectId(r: Project): int { r.id }
  function CompanyId(r: Company): int { r.id }

  /** The shared database handle every service holds. */
  class Store {
    var tables: Tables

    /** A freshly created, empty database. */
    constructor ()
      ensures tables == EmptyTables() && Valid(tables)
    {
      tables := EmptyTables();
    }
  }
}
