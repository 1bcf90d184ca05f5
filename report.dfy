/**
  ReportService (src/main/services/report.ts). `get(false)` reads the daily-totals
  view and reports every row as not deleted; `get(true)` runs the same pipeline
  without the active filters and flags each group that has a soft-deleted
  session, task, project or company among its segments. Both order by
  total_seconds descending. The service only reads, so every operation is a
  function of the tables.
*/
module Report {
  import opened Wrappers
  import opened Sorting
  import opened Schema
  import opened Grouping
  import opened DailyTotals

  /** ReportModel; `day` is the UTC day number the report prints as 'YYYY-MM-DD'. */
  datatype ReportRow = ReportRow(companyName: string, projectName: string, taskName: string,
                                 day: int, totalSeconds: nat, isDeleted: bool)

  /** A view row with `0 AS is_deleted`. */
  function FromView(v: ViewRow): ReportRow {
    ReportRow(v.companyName, v.projectName, v.taskName, v.day, v.totalSeconds, false)
  }

  /** A group of the include-deleted query; its task id is grouped on but not selected. */
  function FromGroup(g: Group): ReportRow {
    ReportRow(g.key.companyName, g.key.projectName, g.key.taskName, g.key.day, g.total, g.deleted)
  }

  function FromViews(vs: seq<ViewRow>): (r: seq<ReportRow>)
    ensures |r| == |vs|
    ensures forall i :: 0 <= i < |vs| ==> r[i] == FromView(vs[i])
  {
    if vs == [] then [] else [FromView(vs[0])] + FromViews(vs[1..])
  }

  function FromGroups(gs: seq<Group>): (r: seq<ReportRow>)
    ensures |r| == |gs|
    ensures forall i :: 0 <= i < |gs| ==> r[i] == FromGroup(gs[i])
  {
    if gs == [] then [] else [FromGroup(gs[0])] + FromGroups(gs[1..])
  }

  /** ORDER BY total_seconds DESC. */
  predicate ByTotalDesc(a: ReportRow, b: ReportRow) {
    a.totalSeconds >= b.totalSeconds
  }

  lemma ByTotalDescOrder()
    ensures IsTotal(ByTotalDesc) && IsTransitive(ByTotalDesc)
  {
  }

  /** The rows before ORDER BY total_seconds DESC. */
  function Unordered(t: Tables, includeDeleted: bool): seq<ReportRow> {
    if includeDeleted then FromGroups(GroupRows(JoinedRows(t, true)))
    else FromViews(DailyTotalsView(t))
  }

  /** ReportService.get(includeDeleted). */
  function Get(t: Tables, includeDeleted: bool): (r: seq<ReportRow>)
    ensures multiset(r) == multiset(Unordered(t, includeDeleted))
    ensures forall i, j :: 0 <= i <= j < |r| ==> r[i].totalSeconds >= r[j].totalSeconds
  {
    ByTotalDescOrder();
    var r := SortBy(Unordered(t, includeDeleted), ByTotalDesc);
    forall i, j | 0 <= i <= j < |r|
      ensures r[i].totalSeconds >= r[j].totalSeconds
    {
      SortedPairwise(r, ByTotalDesc, i, j);
    }
    r
  }

  /** ReportService.set: ignores its rows and answers true. */
  function Set(data: seq<ReportRow>): (ok: bool)
    ensures ok
  {
    true
  }

  /** ReportService.getOne: the empty object `{}`, which carries no row. */
  function GetOne(): (r: Reply<ReportRow>)
    ensures r == EmptyObject
  {
    EmptyObject
  }

  // ---------------------------------------------------------------------------

  /** The default report is the view, row for row, with is_deleted 0 everywhere. */
  lemma DefaultIsView(t: Tables)
    ensures forall r :: r in Get(t, false) <==> exists v :: v in DailyTotalsView(t) && r == FromView(v)
    ensures forall r :: r in Get(t, false) ==> !r.isDeleted
    ensures |Get(t, false)| == |DailyTotalsView(t)|
  {
    var vs := DailyTotalsView(t);
    forall r
      ensures r in Get(t, false) <==> exists v :: v in vs && r == FromView(v)
    {
      assert r in Get(t, false) <==> r in multiset(FromViews(vs));
      if r in FromViews(vs) {
        var i :| 0 <= i < |vs| && FromViews(vs)[i] == r;
        assert vs[i] in vs;
      }
      if exists v :: v in vs && r == FromView(v) {
        var v :| v in vs && r == FromView(v);
        var i :| 0 <= i < |vs| && vs[i] == v;
        assert FromViews(vs)[i] == r;
      }
    }
    assert |Get(t, false)| == |multiset(FromViews(vs))|;
  }

  /** In the include-deleted report every row is one group of the unfiltered pipeline: its
      total is the SUM over the group's segments, and it is flagged deleted exactly when one
      of those segments has an inactive session, task, project or company. */
  lemma IncludeDeletedRows(t: Tables)
    ensures var rows := JoinedRows(t, true);
      forall r :: r in Get(t, true) ==> exists k ::
        && HasKey(rows, k)
        && r == ReportRow(k.companyName, k.projectName, k.taskName, k.day, TotalFor(rows, k), AnyDeleted(rows, k))
  {
    var rows := JoinedRows(t, true);
    forall r | r in Get(t, true)
      ensures exists k ::
        && HasKey(rows, k)
        && r == ReportRow(k.companyName, k.projectName, k.taskName, k.day, TotalFor(rows, k), AnyDeleted(rows, k))
    {
      assert r in multiset(Unordered(t, true));
      GroupedRow(rows, r);
    }
  }

  /** One row built from GROUP BY over `rows` is the SUM and MAX of one key present in them. */
  lemma GroupedRow(rows: seq<Keyed>, r: ReportRow)
    requires r in FromGroups(GroupRows(rows))
    ensures exists k ::
      && HasKey(rows, k)
      && r == ReportRow(k.companyName, k.projectName, k.taskName, k.day, TotalFor(rows, k), AnyDeleted(rows, k))
  {
    var gs := GroupRows(rows);
    var i :| 0 <= i < |gs| && FromGroups(gs)[i] == r;
    var k := gs[i].key;
    GroupAt(gs, i);
    HasGroupAt(gs, k);
    assert HasKey(rows, k);
  }

  /** A segment that joins, lands in group k, and has an inactive session, task, project or
      company. */
  predicate FlagsDeleted(t: Tables, seg: Segment, k: GroupKey) {
    && Joins(t, seg.span.taskId, true)
    && KeyOf(ChainOf(t, seg.span.taskId).value, seg.day) == k
    && (!seg.span.sessionActive || !ChainActive(ChainOf(t, seg.span.taskId).value))
  }

  /** MAX(CASE WHEN s.session_is_active = 0 OR t.is_active = 0 OR … THEN 1 ELSE 0 END) is 1
      for a group exactly when one of its segments is flagged. */
  lemma {:induction false} DeletedFlagMeaning(t: Tables, segs: seq<Segment>, k: GroupKey)
    ensures AnyDeleted(Join(t, segs, true), k) <==> exists i :: 0 <= i < |segs| && FlagsDeleted(t, segs[i], k)
  {
    if segs != [] {
      var rest := Join(t, segs[1..], true);
      DeletedFlagMeaning(t, segs[1..], k);
      if exists i :: 0 <= i < |segs[1..]| && FlagsDeleted(t, segs[1..][i], k) {
        var i :| 0 <= i < |segs[1..]| && FlagsDeleted(t, segs[1..][i], k);
        assert FlagsDeleted(t, segs[i + 1], k);
      }
      forall i | 1 <= i < |segs| && FlagsDeleted(t, segs[i], k)
        ensures exists j :: 0 <= j < |segs[1..]| && FlagsDeleted(t, segs[1..][j], k)
      {
        assert segs[1..][i - 1] == segs[i];
      }
      match JoinSegment(t, segs[0], true)
      case None =>
      case Some(r) =>
        assert Join(t, segs, true) == [r] + rest;
        assert ([r] + rest)[1..] == rest;
    }
  }

  /** The include-deleted report flags a row exactly when a segment of its group has an
      inactive session, task, project or company. */
  lemma IncludeDeletedFlag(t: Tables)
    ensures forall k ::
      AnyDeleted(JoinedRows(t, true), k) <==> exists i :: 0 <= i < |SegmentsOf(t, true)| && FlagsDeleted(t, SegmentsOf(t, true)[i], k)
  {
    var segs := SegmentsOf(t, true);
    forall k
      ensures AnyDeleted(JoinedRows(t, true), k) <==> exists i :: 0 <= i < |segs| && FlagsDeleted(t, segs[i], k)
    {
      DeletedFlagMeaning(t, segs, k);
    }
  }

  /** Both reports account for every second of the sessions they count: the default one for
      the closed active sessions under active rows, the other for all closed sessions whose
      task, project and company exist. */
  lemma GetConservation(t: Tables, includeDeleted: bool)
    requires SessionsOrdered(t.sessions)
    ensures SumBy(Get(t, includeDeleted), TotalOf) == ClosedSeconds(t, t.sessions, includeDeleted)
  {
    ByTotalDescOrder();
    SortBySum(Unordered(t, includeDeleted), ByTotalDesc, TotalOf);
    if includeDeleted {
      var gs := GroupRows(JoinedRows(t, true));
      FromGroupsSum(gs);
      PipelineSeconds(t, t.sessions, true);
    } else {
      FromViewsSum(DailyTotalsView(t));
      ViewConservation(t);
    }
  }

  function TotalOf(r: ReportRow): int {
    r.totalSeconds
  }

  lemma {:induction false} FromGroupsSum(gs: seq<Group>)
    ensures SumBy(FromGroups(gs), TotalOf) == SumGroups(gs)
  {
    if gs != [] {
      FromGroupsSum(gs[1..]);
      assert FromGroups(gs)[1..] == FromGroups(gs[1..]);
    }
  }

  lemma {:induction false} FromViewsSum(vs: seq<ViewRow>)
    ensures SumBy(FromViews(vs), TotalOf) == SumBy(vs, TotalSecondsOf)
  {
    if vs != [] {
      FromViewsSum(vs[1..]);
      assert FromViews(vs)[1..] == FromViews(vs[1..]);
    }
  }

  /** With no session rows both reports are empty. */
  lemma EmptyReport(t: Tables, includeDeleted: bool)
    requires t.sessions == []
    ensures Get(t, includeDeleted) == []
  {
    assert Normalize(t.sessions, includeDeleted) == [];
    assert JoinedRows(t, includeDeleted) == [];
    assert |Unordered(t, includeDeleted)| == 0;
  }

  /** The running session (end_time NULL) changes neither report. */
  lemma GetIgnoresOpenSession(t: Tables, o: Session, includeDeleted: bool)
    requires o.endTime.None?
    ensures Get(t.(sessions := t.sessions + [o]), includeDeleted) == Get(t, includeDeleted)
  {
    ViewIgnoresOpenSession(t, o);
    NormalizeSkipsOpen(t.sessions, o, true);
    JoinReadsCatalog(t.(sessions := t.sessions + [o]), t, SegmentsOf(t, true), true);
  }

  /** The report, with or without soft-deleted rows, depends only on the closed sessions, in
      table order, and the catalog tables: open sessions anywhere in the table do not show. */
  lemma GetReadsClosedSessions(t: Tables, u: Tables, includeDeleted: bool)
    requires t.tasks == u.tasks && t.projects == u.projects && t.companies == u.companies
    requires FedSessions(t.sessions, true) == FedSessions(u.sessions, true)
    ensures Get(t, includeDeleted) == Get(u, includeDeleted)
  {
    FedSessionsNarrow(t.sessions);
    FedSessionsNarrow(u.sessions);
    ViewReadsFedSessions(t, u);
    NormalizeReadsFedSessions(t.sessions, true);
    NormalizeReadsFedSessions(u.sessions, true);
    assert SegmentsOf(t, true) == SegmentsOf(u, true);
    JoinReadsCatalog(t, u, SegmentsOf(t, true), true);
  }
}
