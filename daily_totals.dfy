/**
  The report view v_task_daily_totals_exact (src/main/services/data.ts): closed
  sessions are converted to whole seconds, expanded into one row per UTC calendar
  day they touch, clamped to that day's [00:00, 24:00) window, joined to their
  task, project and company, and summed per (company, project, task, day).

  Days are day numbers since 1970-01-01 (UTC): DATE(x, 'unixepoch') is the floor
  of x / 86400, and STRFTIME('%s', day) is day * 86400. The same pipeline, kept
  inactive rows, serves the "include deleted" report (src/main/services/report.ts),
  so every stage takes a flag that says whether soft-deleted rows take part.
*/
module DailyTotals {
  import opened Wrappers
  import opened Text
  import opened Sorting
  import opened Schema
  import opened Grouping

  const SecondsPerDay := 86400

  /** SQLite's integer division: the quotient truncated toward zero. */
  function TruncDiv(a: int, b: int): (q: int)
    requires b > 0
    ensures a >= 0 ==> 0 <= a - q * b < b
    ensures a < 0 ==> -b < a - q * b <= 0
  {
    if a >= 0 then a / b else -((-a) / b)
  }

  /** CAST(ms / 1000 AS INTEGER). */
  function ToSeconds(ms: int): int {
    TruncDiv(ms, 1000)
  }

  /** Truncation keeps the order of times. */
  lemma ToSecondsMonotone(a: int, c: int)
    requires a <= c
    ensures ToSeconds(a) <= ToSeconds(c)
  {
  }

  /** STRFTIME('%s', day): the first second of a day. */
  function DayStart(day: int): int {
    day * SecondsPerDay
  }

  /** DATE(s, 'unixepoch'): the day whose [00:00, 24:00) window holds second s. */
  function DayOf(s: int): (d: int)
    ensures DayStart(d) <= s < DayStart(d + 1)
  {
    s / SecondsPerDay
  }

  lemma DayOfMonotone(s: int, u: int)
    requires s <= u
    ensures DayOf(s) <= DayOf(u)
  {
    assert DayStart(DayOf(s)) < DayStart(DayOf(u) + 1);
  }

  // ---------------------------------------------------------------------------
  // normalized

  /** A row of the CTE `normalized`: a closed session in whole seconds. */
  datatype Span = Span(id: int, taskId: int, sessionActive: bool, startS: int, endS: int)

  /** WHERE end_time IS NOT NULL [AND is_active = 1]. */
  predicate Feeds(s: Session, keepInactive: bool) {
    s.endTime.Some? && (keepInactive || s.audit.active)
  }

  function SpanOf(s: Session): Span
    requires s.endTime.Some?
  {
    Span(s.id, s.taskId, s.audit.active, ToSeconds(s.startTime), ToSeconds(s.endTime.value))
  }

  /** A session whose end is not before its start still ends no earlier in whole seconds. */
  lemma SpanOrdered(s: Session)
    requires s.endTime.Some? && TimeOrdered(s.startTime, s.endTime)
    ensures SpanOf(s).startS <= SpanOf(s).endS
  {
    ToSecondsMonotone(s.startTime, s.endTime.value);
  }

  /** The CTE `normalized`, in session order: exactly the closed (and, unless kept, active)
      sessions. */
  function Normalize(sessions: seq<Session>, keepInactive: bool): (r: seq<Span>)
    ensures |r| <= |sessions|
    ensures forall n :: n in r <==> exists s :: s in sessions && Feeds(s, keepInactive) && n == SpanOf(s)
  {
    if sessions == [] then []
    else
      var rest := Normalize(sessions[1..], keepInactive);
      assert forall s :: s in sessions <==> s == sessions[0] || s in sessions[1..];
      if Feeds(sessions[0], keepInactive) then [SpanOf(sessions[0])] + rest else rest
  }

  // ---------------------------------------------------------------------------
  // expanded

  /** A row of the CTE `expanded`: a span paired with one day it touches. */
  datatype DayRow = DayRow(span: Span, day: int)

  /**
    The recursive step's condition DATETIME(day, '+1 day') < DATE(end_s, 'unixepoch', '+1 day').
    The left side is the next midnight written "YYYY-MM-DD 00:00:00", the right side a bare
    date; as text the first is smaller exactly when its date is earlier, because a date that
    equals a longer string's prefix sorts first.
  */
  predicate Continues(day: int, endS: int) {
    day + 1 < DayOf(endS) + 1
  }

  /** The rows the recursive CTE produces for one span from `day` on. */
  function ExpandFrom(n: Span, day: int): (r: seq<DayRow>)
    decreases DayOf(n.endS) - day
    ensures |r| == (if day < DayOf(n.endS) then DayOf(n.endS) - day else 0) + 1
    ensures forall i :: 0 <= i < |r| ==> r[i] == DayRow(n, day + i)
  {
    [DayRow(n, day)] + if Continues(day, n.endS) then ExpandFrom(n, day + 1) else []
  }

  /** The anchor row starts at the day of start_s. */
  function Expand(n: Span): seq<DayRow> {
    ExpandFrom(n, DayOf(n.startS))
  }

  /** A span gets one row for each day from its first to its last second, both included,
      and a span that ends at a midnight still gets a row for that day. */
  lemma ExpandDays(n: Span)
    requires n.startS <= n.endS
    ensures |Expand(n)| == DayOf(n.endS) - DayOf(n.startS) + 1
    ensures Expand(n)[0].day == DayOf(n.startS)
    ensures Expand(n)[|Expand(n)| - 1].day == DayOf(n.endS)
  {
    DayOfMonotone(n.startS, n.endS);
  }

  function Expanded(ns: seq<Span>): seq<DayRow> {
    if ns == [] then [] else Expand(ns[0]) + Expanded(ns[1..])
  }

  // ---------------------------------------------------------------------------
  // per_day and segments

  /** A row of the CTE `segments`: a span's part that falls in one day. */
  datatype Segment = Segment(span: Span, day: int, segStart: int, segEnd: int)

  function Max(a: int, b: int): int { if a >= b then a else b }
  function Min(a: int, b: int): int { if a <= b then a else b }

  /** MAX(start_s, day_start_s), MIN(end_s, day_end_s). */
  function Clamp(r: DayRow): Segment {
    Segment(r.span, r.day, Max(r.span.startS, DayStart(r.day)), Min(r.span.endS, DayStart(r.day + 1)))
  }

  function Segments(rows: seq<DayRow>): (r: seq<Segment>)
    ensures |r| == |rows|
  {
    if rows == [] then [] else [Clamp(rows[0])] + Segments(rows[1..])
  }

  /** CASE WHEN seg_end - seg_start > 0 THEN seg_end - seg_start ELSE 0 END. */
  function Contribution(seg: Segment): nat {
    if seg.segEnd - seg.segStart > 0 then seg.segEnd - seg.segStart else 0
  }

  /** A day's segment lies inside both the day and the span, so it is never longer than a day
      nor than the span. */
  lemma SegmentWithinDay(r: DayRow)
    ensures var seg := Clamp(r);
      && DayStart(r.day) <= seg.segStart && seg.segEnd <= DayStart(r.day + 1)
      && r.span.startS <= seg.segStart && seg.segEnd <= r.span.endS
      && Contribution(seg) <= SecondsPerDay
      && Contribution(seg) <= Max(r.span.endS - r.span.startS, 0)
  {
  }

  /** A span that ends exactly at a midnight still has a row for the day that midnight opens,
      and that row contributes nothing. */
  lemma MidnightEndRow(n: Span)
    requires n.startS < n.endS && n.endS == DayStart(DayOf(n.endS))
    ensures var last := Expand(n)[|Expand(n)| - 1];
      last.day == DayOf(n.endS) && Contribution(Clamp(last)) == 0
  {
    ExpandDays(n);
  }

  /** The seconds a list of day rows contributes. */
  function RowsSeconds(rows: seq<DayRow>): nat {
    if rows == [] then 0 else Contribution(Clamp(rows[0])) + RowsSeconds(rows[1..])
  }

  lemma {:induction false} ExpandFromSeconds(n: Span, d: int)
    requires n.startS <= n.endS
    requires DayOf(n.startS) <= d <= DayOf(n.endS)
    ensures RowsSeconds(ExpandFrom(n, d)) == n.endS - Max(n.startS, DayStart(d))
    decreases DayOf(n.endS) - d
  {
    var r := ExpandFrom(n, d);
    assert r[0] == DayRow(n, d);
    if d < DayOf(n.endS) {
      ExpandFromSeconds(n, d + 1);
      assert r[1..] == ExpandFrom(n, d + 1);
      assert DayStart(d + 1) <= DayStart(DayOf(n.endS));
      assert DayStart(DayOf(n.startS) + 1) <= DayStart(d + 1);
    } else {
      assert r[1..] == [];
    }
  }

  /** Conservation: the day segments of a span add up to its whole length, whatever days
      it crosses. */
  lemma SpanSeconds(n: Span)
    requires n.startS <= n.endS
    ensures RowsSeconds(Expand(n)) == n.endS - n.startS
  {
    DayOfMonotone(n.startS, n.endS);
    ExpandFromSeconds(n, DayOf(n.startS));
  }

  /** A span whose end lies before its start (which the CHECK on session rules out) adds
      nothing. */
  lemma ReversedSpanSeconds(n: Span)
    requires n.endS < n.startS
    ensures RowsSeconds(Expand(n)) == 0
  {
    DayOfMonotone(n.endS, n.startS);
    var r := Expand(n);
    assert r[1..] == [];
  }

  // ---------------------------------------------------------------------------
  // The joins: JOIN task t ON t.id = s.task_id, JOIN project p ON p.id = t.project_id,
  // JOIN company c ON c.id = p.company_id. Ids are primary keys, so at most one row of each
  // table matches and the first match is the match.

  datatype Chain = Chain(task: Task, project: Project, company: Company)

  /** Which task, project and company a session's task_id leads to, if all three exist. */
  function ChainOf(t: Tables, taskId: int): (r: Option<Chain>)
    ensures r.Some? ==> r.value.task.id == taskId && r.value.task in t.tasks
    ensures r.Some? ==> r.value.project.id == r.value.task.projectId && r.value.project in t.projects
    ensures r.Some? ==> r.value.company.id == r.value.project.companyId && r.value.company in t.companies
  {
    match FindBy(t.tasks, TaskId, taskId)
    case None => None
    case Some(task) =>
      match FindBy(t.projects, ProjectId, task.projectId)
      case None => None
      case Some(project) =>
        match FindBy(t.companies, CompanyId, project.companyId)
        case None => None
        case Some(company) => Some(Chain(task, project, company))
  }

  predicate ChainActive(c: Chain) {
    c.task.audit.active && c.project.audit.active && c.company.audit.active
  }

  /** Whether the segments of a task survive the joins: the view also demands
      is_active = 1 of task, project and company. */
  predicate Joins(t: Tables, taskId: int, keepInactive: bool) {
    ChainOf(t, taskId).Some? && (keepInactive || ChainActive(ChainOf(t, taskId).value))
  }

  function KeyOf(c: Chain, day: int): GroupKey {
    GroupKey(c.company.name, c.project.name, c.task.name, c.task.id, day)
  }

  /** One segment after the joins: its group key, its seconds, and the is_deleted CASE. */
  function JoinSegment(t: Tables, seg: Segment, keepInactive: bool): Option<Keyed> {
    if !Joins(t, seg.span.taskId, keepInactive) then None
    else
      var c := ChainOf(t, seg.span.taskId).value;
      Some(Keyed(KeyOf(c, seg.day), Contribution(seg), !seg.span.sessionActive || !ChainActive(c)))
  }

  function Join(t: Tables, segs: seq<Segment>, keepInactive: bool): seq<Keyed> {
    if segs == [] then []
    else
      var rest := Join(t, segs[1..], keepInactive);
      match JoinSegment(t, segs[0], keepInactive)
      case None => rest
      case Some(k) => [k] + rest
  }

  /** normalized → expanded → segments, over the session table. */
  function SegmentsOf(t: Tables, keepInactive: bool): seq<Segment> {
    Segments(Expanded(Normalize(t.sessions, keepInactive)))
  }

  /** The segments after the joins. */
  function JoinedRows(t: Tables, keepInactive: bool): seq<Keyed> {
    Join(t, SegmentsOf(t, keepInactive), keepInactive)
  }

  // ---------------------------------------------------------------------------
  // The view's rows

  /** A row of v_task_daily_totals_exact (total_hours is left out). */
  datatype ViewRow = ViewRow(companyName: string, projectName: string, taskName: string, taskId: int,
                             day: int, totalSeconds: nat)

  function ViewRowOf(g: Group): ViewRow {
    ViewRow(g.key.companyName, g.key.projectName, g.key.taskName, g.key.taskId, g.key.day, g.total)
  }

  function RowKey(v: ViewRow): GroupKey {
    GroupKey(v.companyName, v.projectName, v.taskName, v.taskId, v.day)
  }

  function ViewRows(gs: seq<Group>): (r: seq<ViewRow>)
    ensures |r| == |gs|
    ensures forall i :: 0 <= i < |gs| ==> r[i] == ViewRowOf(gs[i])
  {
    if gs == [] then [] else [ViewRowOf(gs[0])] + ViewRows(gs[1..])
  }

  /** ORDER BY c.name, p.name, t.name, s.day. Day strings "YYYY-MM-DD" sort as the day
      numbers do. */
  predicate ViewLeq(a: ViewRow, b: ViewRow) {
    if a.companyName != b.companyName then StrLeq(a.companyName, b.companyName)
    else if a.projectName != b.projectName then StrLeq(a.projectName, b.projectName)
    else if a.taskName != b.taskName then StrLeq(a.taskName, b.taskName)
    else a.day <= b.day
  }

  lemma ViewLeqTotal()
    ensures IsTotal(ViewLeq)
  {
    forall a: ViewRow, b: ViewRow
      ensures ViewLeq(a, b) || ViewLeq(b, a)
    {
      StrLeqTotal(a.companyName, b.companyName);
      StrLeqTotal(a.projectName, b.projectName);
      StrLeqTotal(a.taskName, b.taskName);
    }
  }

  /** A strict step in the first differing name decides the order. */
  lemma StrStep(x: string, y: string, z: string)
    requires StrLeq(x, y) && StrLeq(y, z)
    ensures StrLeq(x, z)
    ensures x == z ==> x == y
  {
    StrLeqTransitive(x, y, z);
    if x == z {
      StrLeqAntisymmetric(x, y);
    }
  }

  lemma ViewLeqTransitive()
    ensures IsTransitive(ViewLeq)
  {
    forall a: ViewRow, b: ViewRow, c: ViewRow | ViewLeq(a, b) && ViewLeq(b, c)
      ensures ViewLeq(a, c)
    {
      if a.companyName != b.companyName && b.companyName != c.companyName {
        StrStep(a.companyName, b.companyName, c.companyName);
      } else if a.companyName == b.companyName == c.companyName {
        if a.projectName != b.projectName && b.projectName != c.projectName {
          StrStep(a.projectName, b.projectName, c.projectName);
        } else if a.projectName == b.projectName == c.projectName {
          if a.taskName != b.taskName && b.taskName != c.taskName {
            StrStep(a.taskName, b.taskName, c.taskName);
          }
        }
      }
    }
  }

  /** v_task_daily_totals_exact. */
  function DailyTotalsView(t: Tables): seq<ViewRow> {
    ViewLeqTotal();
    SortBy(ViewRows(GroupRows(JoinedRows(t, false))), ViewLeq)
  }

  // ---------------------------------------------------------------------------
  // Conservation through the pipeline

  /** Every session row meets CHECK session_time_order. */
  predicate SessionsOrdered(ss: seq<Session>) {
    forall i :: 0 <= i < |ss| ==> TimeOrdered(ss[i].startTime, ss[i].endTime)
  }

  /** The reference figure: the whole-second length of every closed session the report
      counts, added up session by session without any day splitting. */
  function ClosedSeconds(t: Tables, ss: seq<Session>, keepInactive: bool): int {
    if ss == [] then 0
    else
      var s := ss[0];
      (if Feeds(s, keepInactive) && Joins(t, s.taskId, keepInactive)
       then ToSeconds(s.endTime.value) - ToSeconds(s.startTime) else 0)
      + ClosedSeconds(t, ss[1..], keepInactive)
  }

  lemma SegmentsConcat(a: seq<DayRow>, b: seq<DayRow>)
    ensures Segments(a + b) == Segments(a) + Segments(b)
  {
    if a == [] {
      assert a + b == b;
    } else {
      assert (a + b)[1..] == a[1..] + b;
    }
  }

  lemma JoinConcat(t: Tables, a: seq<Segment>, b: seq<Segment>, keepInactive: bool)
    ensures Join(t, a + b, keepInactive) == Join(t, a, keepInactive) + Join(t, b, keepInactive)
  {
    if a == [] {
      assert a + b == b;
    } else {
      assert (a + b)[1..] == a[1..] + b;
    }
  }

  /** The rows of one span all join alike: all of their seconds, or none. */
  lemma {:induction false} SpanJoinSeconds(t: Tables, rows: seq<DayRow>, n: Span, keepInactive: bool)
    requires forall i :: 0 <= i < |rows| ==> rows[i].span == n
    ensures SumKeyed(Join(t, Segments(rows), keepInactive))
         == if Joins(t, n.taskId, keepInactive) then RowsSeconds(rows) else 0
  {
    if rows != [] {
      SpanJoinSeconds(t, rows[1..], n, keepInactive);
      assert Segments(rows)[1..] == Segments(rows[1..]);
    }
  }

  lemma {:induction false} PipelineSeconds(t: Tables, ss: seq<Session>, keepInactive: bool)
    requires SessionsOrdered(ss)
    ensures SumKeyed(Join(t, Segments(Expanded(Normalize(ss, keepInactive))), keepInactive))
         == ClosedSeconds(t, ss, keepInactive)
  {
    if ss != [] {
      var rest := Normalize(ss[1..], keepInactive);
      PipelineSeconds(t, ss[1..], keepInactive);
      if Feeds(ss[0], keepInactive) {
        var n := SpanOf(ss[0]);
        assert Normalize(ss, keepInactive) == [n] + rest;
        assert ([n] + rest)[1..] == rest;
        assert Expanded([n] + rest) == Expand(n) + Expanded(rest);
        SegmentsConcat(Expand(n), Expanded(rest));
        JoinConcat(t, Segments(Expand(n)), Segments(Expanded(rest)), keepInactive);
        SumKeyedConcat(Join(t, Segments(Expand(n)), keepInactive), Join(t, Segments(Expanded(rest)), keepInactive));
        SpanJoinSeconds(t, Expand(n), n, keepInactive);
        SpanOrdered(ss[0]);
        SpanSeconds(n);
      }
    }
  }

  function TotalSecondsOf(v: ViewRow): int {
    v.totalSeconds
  }

  lemma {:induction false} ViewRowsSum(gs: seq<Group>)
    ensures SumBy(ViewRows(gs), TotalSecondsOf) == SumGroups(gs)
  {
    if gs != [] {
      ViewRowsSum(gs[1..]);
      assert ViewRows(gs)[1..] == ViewRows(gs[1..]);
    }
  }

  /** Conservation: the view's totals add up to the whole-second lengths of the closed,
      active sessions of active tasks of active projects of active companies; splitting at
      midnight neither loses nor invents a second. */
  lemma ViewConservation(t: Tables)
    requires SessionsOrdered(t.sessions)
    ensures SumBy(DailyTotalsView(t), TotalSecondsOf) == ClosedSeconds(t, t.sessions, false)
  {
    var gs := GroupRows(JoinedRows(t, false));
    ViewLeqTotal();
    SortBySum(ViewRows(gs), ViewLeq, TotalSecondsOf);
    ViewRowsSum(gs);
    PipelineSeconds(t, t.sessions, false);
  }

  // ---------------------------------------------------------------------------
  // What each view row is

  /** A joined row's key names task, project and company its session leads to, and
      without kept inactive rows all three are active. */
  lemma {:induction false} JoinKeys(t: Tables, segs: seq<Segment>, keepInactive: bool, k: GroupKey)
    requires HasKey(Join(t, segs, keepInactive), k)
    ensures Joins(t, k.taskId, keepInactive)
    ensures KeyOf(ChainOf(t, k.taskId).value, k.day) == k
  {
    var rest := Join(t, segs[1..], keepInactive);
    match JoinSegment(t, segs[0], keepInactive)
    case None =>
      JoinKeys(t, segs[1..], keepInactive, k);
    case Some(r) =>
      assert Join(t, segs, keepInactive) == [r] + rest;
      assert ([r] + rest)[1..] == rest;
      if r.key != k {
        JoinKeys(t, segs[1..], keepInactive, k);
      }
  }

  lemma ViewRowsKeys(gs: seq<Group>)
    requires DistinctKeys(gs)
    ensures NoDuplicates(ViewRows(gs))
    ensures forall i :: 0 <= i < |gs| ==> RowKey(ViewRows(gs)[i]) == gs[i].key
  {
    forall i, j | 0 <= i < j < |gs|
      ensures ViewRows(gs)[i] != ViewRows(gs)[j]
    {
      DistinctKeysPairwise(gs, i, j);
    }
  }

  /** Each row of the view is one (company, project, task, day) group: no group appears
      twice, every group of the joined segments appears, its total is the SUM over exactly
      its segments, and its task, project and company are active. */
  lemma ViewRowsAreGroups(t: Tables)
    ensures var v, rows := DailyTotalsView(t), JoinedRows(t, false);
      && (forall i, j :: 0 <= i < j < |v| ==> RowKey(v[i]) != RowKey(v[j]))
      && (forall i :: 0 <= i < |v| ==> HasKey(rows, RowKey(v[i])) && v[i].totalSeconds == TotalFor(rows, RowKey(v[i])))
      && (forall k :: HasKey(rows, k) ==> exists i :: 0 <= i < |v| && RowKey(v[i]) == k)
      && (forall i :: 0 <= i < |v| ==>
            ChainOf(t, v[i].taskId).Some? && ChainActive(ChainOf(t, v[i].taskId).value)
            && KeyOf(ChainOf(t, v[i].taskId).value, v[i].day) == RowKey(v[i]))
  {
    var rows := JoinedRows(t, false);
    var gs := GroupRows(rows);
    var w := ViewRows(gs);
    ViewLeqTotal();
    var v := SortBy(w, ViewLeq);
    GroupRowsCorrect(rows);
    ViewRowsKeys(gs);
    NoDuplicatesPermutation(w, v);
    forall i | 0 <= i < |v|
      ensures exists a :: 0 <= a < |gs| && v[i] == w[a]
    {
      assert v[i] in multiset(w);
    }
    forall i, j | 0 <= i < j < |v|
      ensures RowKey(v[i]) != RowKey(v[j])
    {
      var a :| 0 <= a < |gs| && v[i] == w[a];
      var b :| 0 <= b < |gs| && v[j] == w[b];
      if a != b {
        if a < b { DistinctKeysPairwise(gs, a, b); } else { DistinctKeysPairwise(gs, b, a); }
      }
    }
    forall i | 0 <= i < |v|
      ensures HasKey(rows, RowKey(v[i])) && v[i].totalSeconds == TotalFor(rows, RowKey(v[i]))
      ensures ChainOf(t, v[i].taskId).Some? && ChainActive(ChainOf(t, v[i].taskId).value)
      ensures KeyOf(ChainOf(t, v[i].taskId).value, v[i].day) == RowKey(v[i])
    {
      var a :| 0 <= a < |gs| && v[i] == w[a];
      assert HasKey(rows, gs[a].key);
      JoinKeys(t, SegmentsOf(t, false), false, gs[a].key);
    }
    forall k | HasKey(rows, k)
      ensures exists i :: 0 <= i < |v| && RowKey(v[i]) == k
    {
      var a :| 0 <= a < |gs| && gs[a].key == k;
      assert w[a] in multiset(v);
      var i :| 0 <= i < |v| && v[i] == w[a];
    }
  }

  /** The view is in ORDER BY company, project, task, day order, any two rows apart. */
  lemma ViewOrdered(t: Tables, i: int, j: int)
    requires 0 <= i <= j < |DailyTotalsView(t)|
    ensures ViewLeq(DailyTotalsView(t)[i], DailyTotalsView(t)[j])
  {
    ViewLeqTotal();
    ViewLeqTransitive();
    SortedPairwise(DailyTotalsView(t), ViewLeq, i, j);
  }

  /** The running session (end_time NULL) never shows in the view. */
  lemma {:induction false} NormalizeSkipsOpen(ss: seq<Session>, o: Session, keepInactive: bool)
    requires o.endTime.None?
    ensures Normalize(ss + [o], keepInactive) == Normalize(ss, keepInactive)
  {
    if ss == [] {
      assert ss + [o] == [o];
      assert [o][1..] == [];
    } else {
      assert (ss + [o])[1..] == ss[1..] + [o];
      NormalizeSkipsOpen(ss[1..], o, keepInactive);
    }
  }

  /** The sessions the CTE `normalized` reads, in table order: the closed ones (and, unless
      kept, only the active ones). */
  function FedSessions(ss: seq<Session>, keepInactive: bool): (r: seq<Session>)
    ensures |r| <= |ss|
    ensures forall s :: s in r <==> s in ss && Feeds(s, keepInactive)
  {
    if ss == [] then []
    else
      assert forall s :: s in ss <==> s == ss[0] || s in ss[1..];
      (if Feeds(ss[0], keepInactive) then [ss[0]] else []) + FedSessions(ss[1..], keepInactive)
  }

  /** `normalized` depends only on the sessions it reads: open (and, unless kept, inactive)
      sessions leave it unchanged wherever they stand in the table. */
  lemma {:induction false} NormalizeReadsFedSessions(ss: seq<Session>, keepInactive: bool)
    ensures Normalize(ss, keepInactive) == Normalize(FedSessions(ss, keepInactive), keepInactive)
  {
    if ss != [] {
      NormalizeReadsFedSessions(ss[1..], keepInactive);
      var f := FedSessions(ss, keepInactive);
      if Feeds(ss[0], keepInactive) {
        assert f == [ss[0]] + FedSessions(ss[1..], keepInactive);
        assert f[0] == ss[0] && f[1..] == FedSessions(ss[1..], keepInactive);
      } else {
        assert f == FedSessions(ss[1..], keepInactive);
      }
    }
  }

  /** The active closed sessions are the active ones among the closed sessions. */
  lemma {:induction false} FedSessionsNarrow(ss: seq<Session>)
    ensures FedSessions(FedSessions(ss, true), false) == FedSessions(ss, false)
  {
    if ss != [] {
      FedSessionsNarrow(ss[1..]);
      var f := FedSessions(ss, true);
      if Feeds(ss[0], true) {
        assert f == [ss[0]] + FedSessions(ss[1..], true);
        assert f[0] == ss[0] && f[1..] == FedSessions(ss[1..], true);
      } else {
        assert f == FedSessions(ss[1..], true);
      }
    }
  }

  /** The joins read only tables task, project and company. */
  lemma JoinReadsCatalog(t: Tables, u: Tables, segs: seq<Segment>, keepInactive: bool)
    requires t.tasks == u.tasks && t.projects == u.projects && t.companies == u.companies
    ensures Join(t, segs, keepInactive) == Join(u, segs, keepInactive)
  {
    if segs != [] {
      assert ChainOf(t, segs[0].span.taskId) == ChainOf(u, segs[0].span.taskId);
      JoinReadsCatalog(t, u, segs[1..], keepInactive);
    }
  }

  lemma ViewIgnoresOpenSession(t: Tables, o: Session)
    requires o.endTime.None?
    ensures DailyTotalsView(t.(sessions := t.sessions + [o])) == DailyTotalsView(t)
  {
    NormalizeSkipsOpen(t.sessions, o, false);
    var t' := t.(sessions := t.sessions + [o]);
    JoinReadsCatalog(t', t, SegmentsOf(t, false), false);
  }

  /** Two databases with the same task, project and company tables and the same closed active
      sessions, in the same order, have the same view, whatever open or soft-deleted sessions
      either holds and wherever they stand. */
  lemma ViewReadsFedSessions(t: Tables, u: Tables)
    requires t.tasks == u.tasks && t.projects == u.projects && t.companies == u.companies
    requires FedSessions(t.sessions, false) == FedSessions(u.sessions, false)
    ensures DailyTotalsView(t) == DailyTotalsView(u)
  {
    NormalizeReadsFedSessions(t.sessions, false);
    NormalizeReadsFedSessions(u.sessions, false);
    assert SegmentsOf(t, false) == SegmentsOf(u, false);
    JoinReadsCatalog(t, u, SegmentsOf(t, false), false);
  }

  /** One active company, project and task, and one session of that task from 22:00 on
      8 January 2022 to 02:00 the next day (UTC). */
  function MidnightTables(): Tables {
    Tables([Company(1, "Acme", NewAudit(0))], [Project(1, "Web", 1, NewAudit(0))], [Task(1, "Dev", 1, NewAudit(0))],
           [Session(1, 1, 1641679200000, Some(1641693600000), NewAudit(0))], 1, 1, 1, 1)
  }

  /** The session is cut at midnight into two two-hour segments. */
  lemma MidnightSegments()
    ensures var n := Span(1, 1, true, 1641679200, 1641693600);
      SegmentsOf(MidnightTables(), false)
        == [Segment(n, 19000, 1641679200, 1641686400), Segment(n, 19001, 1641686400, 1641693600)]
  {
    var t := MidnightTables();
    var n := Span(1, 1, true, 1641679200, 1641693600);
    assert t.sessions[1..] == [];
    assert Normalize(t.sessions, false) == [n];
    assert DayOf(n.startS) == 19000 && DayOf(n.endS) == 19001;
    var rows := Expand(n);
    assert rows == [DayRow(n, 19000), DayRow(n, 19001)];
    assert Expanded([n]) == rows;
  }

  /** Both segments join to the same task, project and company. */
  lemma MidnightJoined()
    ensures JoinedRows(MidnightTables(), false)
      == [Keyed(GroupKey("Acme", "Web", "Dev", 1, 19000), 7200, false),
          Keyed(GroupKey("Acme", "Web", "Dev", 1, 19001), 7200, false)]
  {
    var t := MidnightTables();
    var n := Span(1, 1, true, 1641679200, 1641693600);
    MidnightSegments();
    var segs := SegmentsOf(t, false);
    assert ChainOf(t, 1) == Some(Chain(t.tasks[0], t.projects[0], t.companies[0]));
    assert segs[1..][1..] == [];
    assert Join(t, segs[1..], false) == [Keyed(GroupKey("Acme", "Web", "Dev", 1, 19001), 7200, false)];
  }

  /** GROUP BY keeps the two days apart; the fold meets the later day first. */
  lemma MidnightGroups()
    ensures GroupRows(JoinedRows(MidnightTables(), false))
      == [Group(GroupKey("Acme", "Web", "Dev", 1, 19001), 7200, false),
          Group(GroupKey("Acme", "Web", "Dev", 1, 19000), 7200, false)]
  {
    MidnightJoined();
    var k0, k1 := GroupKey("Acme", "Web", "Dev", 1, 19000), GroupKey("Acme", "Web", "Dev", 1, 19001);
    var rows := [Keyed(k0, 7200, false), Keyed(k1, 7200, false)];
    assert rows[1..] == [Keyed(k1, 7200, false)];
    assert GroupRows(rows[1..]) == [Group(k1, 7200, false)];
  }

  /** A session from 22:00 to 02:00 the next day (UTC) of an active task yields two view
      rows of two hours each, the earlier day first. */
  lemma AcrossMidnightExample()
    ensures var co, pr, tk := Company(1, "Acme", NewAudit(0)), Project(1, "Web", 1, NewAudit(0)), Task(1, "Dev", 1, NewAudit(0));
      var se := Session(1, 1, 1641679200000, Some(1641693600000), NewAudit(0));
      DailyTotalsView(Tables([co], [pr], [tk], [se], 1, 1, 1, 1))
        == [ViewRow("Acme", "Web", "Dev", 1, 19000, 7200), ViewRow("Acme", "Web", "Dev", 1, 19001, 7200)]
  {
    MidnightGroups();
    var k0, k1 := GroupKey("Acme", "Web", "Dev", 1, 19000), GroupKey("Acme", "Web", "Dev", 1, 19001);
    var g0, g1 := Group(k0, 7200, false), Group(k1, 7200, false);
    var v0, v1 := ViewRow("Acme", "Web", "Dev", 1, 19000, 7200), ViewRow("Acme", "Web", "Dev", 1, 19001, 7200);
    assert ViewRows([g1, g0]) == [v1, v0];
    ViewLeqTotal();
    assert SortBy([v0], ViewLeq) == [v0];
    assert SortBy([v1, v0], ViewLeq) == Insert(v1, [v0], ViewLeq);
  }
}
