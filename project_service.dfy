/**
  ProjectService (src/main/services/project.ts). `set` inserts every trimmed
  (name, company_id) pair inside one transaction with INSERT OR IGNORE: an
  over-long name is skipped, but a company_id that matches no company breaks
  the foreign key, which OR IGNORE does not cover, so the statement throws and
  the transaction rolls back. `get` and `getOne` are modelled twice: as written
  (a misspelt column; a lookup by name instead of id) and as evidently intended.
*/
module ProjectService {
  import opened Wrappers
  import opened Text
  import opened Sorting
  import opened Schema

  /** Project: id, name and company_id. */
  datatype ProjectModel = ProjectModel(id: int, name: string, companyId: int)

  /** ProjectRow: what `set` is given. */
  datatype ProjectRow = ProjectRow(name: string, companyId: int)

  function ModelOf(p: Project): ProjectModel {
    ProjectModel(p.id, p.name, p.companyId)
  }

  /** ORDER BY name, under SQLite's BINARY collation. */
  predicate ByName(a: ProjectModel, b: ProjectModel) {
    StrLeq(a.name, b.name)
  }

  lemma ByNameOrder()
    ensures IsTotal(ByName) && IsTransitive(ByName)
  {
    forall a: ProjectModel, b: ProjectModel
      ensures ByName(a, b) || ByName(b, a)
    {
      StrLeqTotal(a.name, b.name);
    }
    forall a: ProjectModel, b: ProjectModel, c: ProjectModel | ByName(a, b) && ByName(b, c)
      ensures ByName(a, c)
    {
      StrLeqTransitive(a.name, b.name, c.name);
    }
  }

  function ProjectName(p: Project): string { p.name }

  // ---------------------------------------------------------------------------
  // set: the transaction, statement by statement.

  /** The pairs the statements bind: each name trimmed, each company id as given. */
  function TrimmedRows(inputs: seq<ProjectRow>): (r: seq<ProjectRow>)
    ensures |r| == |inputs|
    ensures forall i :: 0 <= i < |inputs| ==> r[i] == ProjectRow(Trim(inputs[i].name), inputs[i].companyId)
  {
    seq(|inputs|, i requires 0 <= i < |inputs| => ProjectRow(Trim(inputs[i].name), inputs[i].companyId))
  }

  /** The transaction after one INSERT OR IGNORE per row, in order; the first statement that
      throws ends it. */
  function InsertAll(t: Tables, rows: seq<ProjectRow>, stamp: int): Result<Tables, DbError> {
    if rows == [] then Success(t)
    else
      match InsertAll(t, rows[..|rows| - 1], stamp)
      case Failure(e) => Failure(e)
      case Success(u) => InsertProject(u, rows[|rows| - 1].name, rows[|rows| - 1].companyId, stamp)
  }

  /** A row whose INSERT would break the foreign key: its name passes the CHECK, and no
      company has its company_id. */
  predicate Orphan(t: Tables, row: ProjectRow) {
    NameFits(row.name) && !CompanyExists(t, row.companyId)
  }

  /** The rows the table receives: those whose name passes CHECK project_name_len. */
  function KeptRows(rows: seq<ProjectRow>): (r: seq<ProjectRow>)
    ensures |r| <= |rows|
    ensures forall x :: x in r <==> x in rows && NameFits(x.name)
  {
    if rows == [] then []
    else
      var x := rows[|rows| - 1];
      KeptRows(rows[..|rows| - 1]) + (if NameFits(x.name) then [x] else [])
  }

  /** The rows a completed transaction adds after the AUTOINCREMENT counter `top`: every
      statement draws the next counter value, and the rows whose name passes the CHECK keep
      theirs. */
  function NewProjects(top: int, rows: seq<ProjectRow>, stamp: int): seq<Project> {
    if rows == [] then []
    else
      var x := rows[|rows| - 1];
      NewProjects(top, rows[..|rows| - 1], stamp)
        + (if NameFits(x.name) then [Project(top + |rows|, x.name, x.companyId, NewAudit(stamp))] else [])
  }

  /** The new rows follow the kept rows in order, with increasing ids inside the range the
      list draws. */
  lemma {:induction false} NewProjectsShape(top: int, rows: seq<ProjectRow>, stamp: int)
    ensures var r := NewProjects(top, rows, stamp);
      && |r| == |KeptRows(rows)|
      && (forall i :: 0 <= i < |r| ==>
            ProjectRow(r[i].name, r[i].companyId) == KeptRows(rows)[i] && top < r[i].id <= top + |rows|)
      && (forall i, j :: 0 <= i < j < |r| ==> r[i].id < r[j].id)
  {
    if rows != [] {
      NewProjectsShape(top, rows[..|rows| - 1], stamp);
    }
  }

  /** A new row is exactly a row of the list whose name passes the CHECK, with the id its
      position in the whole list gives it. */
  lemma {:induction false} NewProjectsMembers(top: int, rows: seq<ProjectRow>, stamp: int)
    ensures forall p :: p in NewProjects(top, rows, stamp) <==>
      exists i :: 0 <= i < |rows| && NameFits(rows[i].name)
                  && p == Project(top + 1 + i, rows[i].name, rows[i].companyId, NewAudit(stamp))
  {
    if rows != [] {
      var init := rows[..|rows| - 1];
      var x := rows[|rows| - 1];
      NewProjectsMembers(top, init, stamp);
      var r := NewProjects(top, rows, stamp);
      var r0 := NewProjects(top, init, stamp);
      forall p | p in r
        ensures exists i :: 0 <= i < |rows| && NameFits(rows[i].name)
                            && p == Project(top + 1 + i, rows[i].name, rows[i].companyId, NewAudit(stamp))
      {
        if p in r0 {
          var i :| 0 <= i < |init| && NameFits(init[i].name)
                   && p == Project(top + 1 + i, init[i].name, init[i].companyId, NewAudit(stamp));
          assert rows[i] == init[i];
        } else {
          assert NameFits(x.name) && p == Project(top + 1 + (|rows| - 1), rows[|rows| - 1].name, rows[|rows| - 1].companyId, NewAudit(stamp));
        }
      }
      forall p | exists i :: 0 <= i < |rows| && NameFits(rows[i].name)
                             && p == Project(top + 1 + i, rows[i].name, rows[i].companyId, NewAudit(stamp))
        ensures p in r
      {
        var i :| 0 <= i < |rows| && NameFits(rows[i].name)
                 && p == Project(top + 1 + i, rows[i].name, rows[i].companyId, NewAudit(stamp));
        if i < |init| {
          assert init[i] == rows[i];
          assert p in r0;
        }
      }
    }
  }

  /** A transaction that completes appends one fresh active row per row whose name fits, in
      order, advances the counter once per row, kept or skipped, and touches no other table. */
  lemma {:induction false} InsertAllAppends(t: Tables, rows: seq<ProjectRow>, stamp: int)
    ensures InsertAll(t, rows, stamp).Success? ==>
      InsertAll(t, rows, stamp).value ==
        t.(projects := t.projects + NewProjects(t.projectSeq, rows, stamp),
           projectSeq := t.projectSeq + |rows|)
  {
    if rows == [] {
      assert t.projects + [] == t.projects;
    } else if InsertAll(t, rows, stamp).Success? {
      var init := rows[..|rows| - 1];
      var x := rows[|rows| - 1];
      InsertAllAppends(t, init, stamp);
      assert t.projects + NewProjects(t.projectSeq, rows, stamp)
          == (t.projects + NewProjects(t.projectSeq, init, stamp))
             + (if NameFits(x.name) then [Project(t.projectSeq + |rows|, x.name, x.companyId, NewAudit(stamp))] else []);
    }
  }

  /** Project inserts never change the company table, whether the transaction completes or
      not. */
  lemma {:induction false} InsertAllKeepsCompanies(t: Tables, rows: seq<ProjectRow>, stamp: int)
    ensures InsertAll(t, rows, stamp).Success? ==> InsertAll(t, rows, stamp).value.companies == t.companies
  {
    if rows != [] {
      InsertAllKeepsCompanies(t, rows[..|rows| - 1], stamp);
    }
  }

  /** The transaction throws exactly when some row would break the foreign key against the
      company table it started with, and then with the foreign-key error. */
  lemma {:induction false} InsertAllFails(t: Tables, rows: seq<ProjectRow>, stamp: int)
    ensures InsertAll(t, rows, stamp).Failure? <==> exists i :: 0 <= i < |rows| && Orphan(t, rows[i])
    ensures InsertAll(t, rows, stamp).Failure? ==> InsertAll(t, rows, stamp).error == ForeignKeyViolation
  {
    if rows != [] {
      var init := rows[..|rows| - 1];
      var x := rows[|rows| - 1];
      InsertAllFails(t, init, stamp);
      InsertAllKeepsCompanies(t, init, stamp);
      if InsertAll(t, init, stamp).Success? {
        var u := InsertAll(t, init, stamp).value;
        assert CompanyExists(u, x.companyId) == CompanyExists(t, x.companyId);
      }
      if exists i :: 0 <= i < |init| && Orphan(t, init[i]) {
        var i :| 0 <= i < |init| && Orphan(t, init[i]);
        assert rows[i] == init[i];
      }
      if exists i :: 0 <= i < |rows| && Orphan(t, rows[i]) {
        var i :| 0 <= i < |rows| && Orphan(t, rows[i]);
        if i < |init| {
          assert init[i] == rows[i];
        }
      }
    }
  }

  /** A completed transaction keeps every table invariant. */
  lemma {:induction false} InsertAllValid(t: Tables, rows: seq<ProjectRow>, stamp: int)
    requires Valid(t)
    ensures InsertAll(t, rows, stamp).Success? ==> Valid(InsertAll(t, rows, stamp).value)
  {
    if rows != [] {
      var init := rows[..|rows| - 1];
      InsertAllValid(t, init, stamp);
      if InsertAll(t, init, stamp).Success? {
        var x := rows[|rows| - 1];
        InsertProjectValid(InsertAll(t, init, stamp).value, x.name, x.companyId, stamp);
      }
    }
  }

  // ---------------------------------------------------------------------------
  // getOne as written: `WHERE name = ?` bound to the id. better-sqlite3 binds a JavaScript
  // number as a REAL, and the name column has TEXT affinity, so the REAL is compared as the
  // text SQLite prints for it.

  /** The text of a whole-number REAL: the digits, then ".0" (7.0 prints as "7.0"). */
  function RealText(n: int): (r: string)
    ensures |r| >= 3 && r[|r| - 2..] == ".0"
    ensures r[..|r| - 2] == IntDecimal(n)
  {
    IntDecimal(n) + ".0"
  }

  /** The id of the first project whose name is the id's REAL text, or null. */
  function GetOneAsWritten(t: Tables, id: int): (r: Option<int>)
    ensures r.Some? ==> exists p :: p in t.projects && p.name == RealText(id) && p.id == r.value
    ensures r.None? <==> forall i :: 0 <= i < |t.projects| ==> t.projects[i].name != RealText(id)
  {
    match FindBy(t.projects, ProjectName, RealText(id))
    case None => None
    case Some(p) => Some(p.id)
  }

  /** A project that exists is not found by its id, a project named "7" is not found by id
      7 either, and one named "7.0" is. */
  lemma GetOneAsWrittenCounterexample(stamp: int)
    ensures var t := EmptyTables().(projects := [Project(1, "Alpha", 1, NewAudit(stamp))], projectSeq := 1);
      GetOneAsWritten(t, 1).None?
    ensures var t := EmptyTables().(projects := [Project(1, "7", 1, NewAudit(stamp))], projectSeq := 1);
      GetOneAsWritten(t, 7).None?
    ensures var t := EmptyTables().(projects := [Project(1, "7.0", 1, NewAudit(stamp))], projectSeq := 1);
      GetOneAsWritten(t, 7) == Some(1)
  {
    assert IntDecimal(1) == "1";
    assert IntDecimal(7) == "7";
    assert RealText(7) == "7.0";
  }

  class ProjectService {
    const db: Store

    constructor (db: Store)
      ensures this.db == db
    {
      this.db := db;
    }

    /** get as written: the query names a column comnpany_id, which the project table does
        not have, so preparing it throws whatever the table holds. */
    function GetAsWritten(): (r: Result<seq<ProjectModel>, DbError>)
      reads db
      ensures r == Failure(NoSuchColumn("comnpany_id"))
    {
      Failure(NoSuchColumn("comnpany_id"))
    }

    /** get as intended: every project, active or not, ordered by name. */
    function Get(): (r: seq<ProjectModel>)
      reads db
      ensures multiset(r) == multiset(MapSeq(db.tables.projects, ModelOf))
      ensures forall i, j :: 0 <= i <= j < |r| ==> StrLeq(r[i].name, r[j].name)
    {
      ByNameOrder();
      var r := SortBy(MapSeq(db.tables.projects, ModelOf), ByName);
      forall i, j | 0 <= i <= j < |r|
        ensures StrLeq(r[i].name, r[j].name)
      {
        SortedPairwise(r, ByName, i, j);
      }
      r
    }

    /** getOne as intended: the id of the project with that id, or null. */
    function GetOne(id: int): (r: Option<int>)
      reads db
      ensures r.Some? ==> r.value == id && exists p :: p in db.tables.projects && p.id == id
      ensures r.None? <==> forall i :: 0 <= i < |db.tables.projects| ==> db.tables.projects[i].id != id
    {
      match FindBy(db.tables.projects, ProjectId, id)
      case None => None
      case Some(p) => Some(p.id)
    }

    /** set: the whole list in one transaction. A statement that throws rolls every earlier
        insert back and the error reaches the caller; otherwise the answer is true. */
    method Set(inputs: seq<ProjectRow>, stamp: int) returns (r: Result<bool, DbError>)
      modifies db
      ensures InsertAll(old(db.tables), TrimmedRows(inputs), stamp).Success? ==>
        r == Success(true) && db.tables == InsertAll(old(db.tables), TrimmedRows(inputs), stamp).value
      ensures InsertAll(old(db.tables), TrimmedRows(inputs), stamp).Failure? ==>
        r == Failure(InsertAll(old(db.tables), TrimmedRows(inputs), stamp).error) && db.tables == old(db.tables)
      ensures r.Failure? <==> exists i :: 0 <= i < |inputs| && Orphan(old(db.tables), TrimmedRows(inputs)[i])
      ensures r.Failure? ==> r.error == ForeignKeyViolation
    {
      ghost var rows := TrimmedRows(inputs);
      var before := db.tables;
      InsertAllFails(before, rows, stamp);
      var i := 0;
      while i < |inputs|
        invariant 0 <= i <= |inputs|
        invariant InsertAll(before, rows[..i], stamp) == Success(db.tables)
      {
        var row := ProjectRow(Trim(inputs[i].name), inputs[i].companyId);
        InsertAllStep(before, rows, i, db.tables, stamp);
        var next := InsertProject(db.tables, row.name, row.companyId, stamp);
        if next.Failure? {
          InsertAllStops(before, rows, i + 1, stamp);
          assert rows[..|inputs|] == rows;
          db.tables := before;
          return Failure(next.error);
        }
        db.tables := next.value;
        i := i + 1;
      }
      assert rows[..i] == rows;
      r := Success(true);
    }
  }

  /** One more statement of the transaction, after the earlier ones have completed. */
  lemma InsertAllStep(t: Tables, rows: seq<ProjectRow>, i: int, u: Tables, stamp: int)
    requires 0 <= i < |rows|
    requires InsertAll(t, rows[..i], stamp) == Success(u)
    ensures InsertAll(t, rows[..i + 1], stamp) == InsertProject(u, rows[i].name, rows[i].companyId, stamp)
  {
    assert rows[..i + 1][..i] == rows[..i];
  }

  /** Once a prefix of the statements has thrown, the whole transaction has. */
  lemma {:induction false} InsertAllStops(t: Tables, rows: seq<ProjectRow>, n: int, stamp: int)
    requires 0 <= n <= |rows|
    requires InsertAll(t, rows[..n], stamp).Failure?
    ensures InsertAll(t, rows, stamp) == InsertAll(t, rows[..n], stamp)
  {
    if n < |rows| {
      assert rows[..|rows| - 1][..n] == rows[..n];
      InsertAllStops(t, rows[..|rows| - 1], n, stamp);
    } else {
      assert rows[..n] == rows;
    }
  }

  /** An empty table lists nothing. */
  lemma GetEmpty(svc: ProjectService)
    requires svc.db.tables.projects == []
    ensures svc.Get() == []
  {
    assert |svc.Get()| == |multiset(svc.Get())| == |multiset(MapSeq(svc.db.tables.projects, ModelOf))| == 0;
  }
}
