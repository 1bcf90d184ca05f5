# Punch-In time tracker: verified model of the data layer

Punch-In is a desktop time tracker. The user starts a timer on a task, stops it, and later
reads a report of time per company, project, task and calendar day. Everything lives in an
SQLite database of four tables: company, project, task and session. This project models
that data layer in Dafny. It covers:

- **The schema.** Rows, CHECK constraints, foreign keys, AUTOINCREMENT ids, and the
  `updated_at` / `deleted_at` triggers of the current schema (`Schema`).
- **The daily-totals view.** `v_task_daily_totals_exact` cuts every closed session into
  per-day segments and sums them per task and day (`DailyTotals`, with the grouping step in
  `Grouping`).
- **The report service.** It reads that view. With "include deleted" it runs the same
  pipeline without the soft-delete filters and flags rows that touch a deleted entity
  (`Report`).
- **The four entity services.** Sessions, companies, projects and tasks (`SessionService`,
  `CompanyService`, `ProjectService`, `TaskService`). Each is a class holding the shared
  database handle (`Schema.Store`). Writes change `db.tables` in place.
- **The older database class.** `DB` in `src/main/data.ts` has its own schema, its own
  timer start/stop and the `v_session` view (`LegacyStore.LegacyDb`, a class whose
  project, task and session tables are fields).
- **The duration display helpers.** `msToHMS` and `elapsedNow` (`Time`).

Conventions used throughout the model:

- Ids are SQLite rowids. Each table keeps its AUTOINCREMENT counter in `Tables`.
- Times are epoch milliseconds (`start_time`, `end_time`, `now`), as the code stores
  `Date.now()`.
- `CURRENT_TIMESTAMP` is an integer parameter `stamp`. One statement or transaction sees
  one value.
- Statement failures are a `Result` carrying a `DbError`: CHECK, NOT NULL, foreign key, or
  unknown column.
- Text is `seq<char>`. `ORDER BY name` is SQLite's BINARY collation (`Text.StrLeq`).
  `String.prototype.trim` is `Text.Trim`, over the whitespace characters of `Text.IsSpace`.

The daily-totals view is proved to do four things:

- It conserves time: the totals add up to the whole-second length of every session
  counted.
- It keys every row by one (company, project, task, day) group, with no duplicates.
- It keeps its ORDER BY.
- It reads only the closed, active sessions, so the running session never shows.

The report has the same conservation law in both modes. Its deleted flag is proved to mean
exactly "some segment of the group has an inactive session, task, project or company".

## Model

| member | source | states |
|---|---|---|
| Time.Seconds | src/renderer/lib/time.ts:4 | the shown seconds are the floor of ms/1000 for non-negative input and 0 for anything below one second, negatives included |
| Time.Fields | src/renderer/lib/time.ts:4-7 | minutes and seconds are below 60 and hours·3600 + minutes·60 + seconds is the whole-second count |
| Time.MsToHMS | src/shared/time.ts:3-9 | the text is at least 8 characters with ':' at the third- and sixth-last positions (hours may exceed two digits) |
| Time.MsToHMSRoundTrip | src/renderer/lib/time.ts:3-9 | parsing the formatted text gives back exactly the hours, minutes and seconds of the duration; its length is the padded hour field plus 6 |
| Time.MsToHMSTotal | src/shared/time.ts:3-9 | the text always parses, and the fields read back add up to the whole seconds of the clamped duration |
| Time.SingleDigitFields | src/renderer/lib/time.ts:5-8 | fields below ten print as 0d:0d:0d, each padded with one leading zero |
| Time.MsToHMSExamples | src/renderer/lib/time.ts:3-9 | 0, -5000 and 999 ms print 00:00:00; 1000, 61000, 3600000 and 3661000 ms print 00:00:01, 00:01:01, 01:00:00, 01:01:01 |
| Time.ElapsedNow | src/renderer/lib/time.ts:11-13 | a non-zero result only for a running timer with a non-zero start, and then start + result is now |
| Time.ElapsedPositive | src/shared/time.ts:11-13 | a running timer whose start lies in the past shows a positive elapsed time |
| Text.TrimIsCore | src/main/services/company.ts:63 | trim removes only whitespace, from both ends, and leaves no whitespace at either end |
| Text.TrimEmptyIffBlank | src/main/services/company.ts:64 | the trimmed name is empty exactly when the name is all whitespace |
| Text.TrimIdempotent | src/main/services/company.ts:63 | trimming twice is trimming once |
| Text.DecimalRoundTrip | src/main/services/project.ts:28 | the decimal text of a natural number reads back as that number |
| Text.IntDecimalInjective | src/main/services/project.ts:28 | different integers print differently, so for ids below 10^15 in magnitude their REAL texts differ and a name matches at most one id |
| Schema.NewAudit | src/main/services/data.ts:120-123 | a new row is active, not deleted, and created and updated now |
| Schema.Touch | src/main/services/data.ts:131-139 | an UPDATE that changed updated_at keeps it; one that left it alone gets the current time |
| Schema.AfterUpdate | src/main/services/data.ts:131-149 | both triggers together: active and created_at as written; on an active-to-inactive change deleted_at and updated_at both become the current time, because the nested deleted_at UPDATE fires the updated_at trigger again; otherwise deleted_at as written and updated_at touched |
| Schema.DeactivationOverridesWrittenUpdatedAt | src/main/services/data.ts:131-149 | a deactivating UPDATE that writes its own updated_at still ends with updated_at at the current time, not the written value |
| Schema.UpdateRefreshesUpdatedAt | src/main/services/data.ts:131-139 | an UPDATE that neither deactivates the row nor writes updated_at leaves it at the current time; when the clock has moved on, every UPDATE leaves a different updated_at |
| Schema.SoftDeleteStampsOnce | src/main/services/data.ts:141-149 | deactivating stamps deleted_at now; updating an already inactive row leaves deleted_at as written |
| Schema.UpdateSession | src/main/services/data.ts:234-273 | an UPDATE of a session's non-key columns fails, with the CHECK error, exactly when it breaks end_time ≥ start_time; on success the row keeps its id and task_id, holds the written times, and its audit columns follow the triggers |
| Schema.UpdateCompany | src/main/services/data.ts:117-149 | an UPDATE of a company's non-key columns fails, with the CHECK error, exactly when the name exceeds 32 characters; on success the row keeps its id, holds the written name, and its audit columns follow the triggers |
| Schema.SoftDeleteSessionKeepsTimes | src/main/services/data.ts:265-273 | soft-deleting a valid session succeeds, keeps its id, task and times, and marks it inactive and deleted now |
| Schema.InsertCompany | src/main/services/data.ts:117-125 | every statement uses up one AUTOINCREMENT value; INSERT OR IGNORE skips a name over 32 characters, and otherwise appends an active row whose id is that value |
| Schema.InsertCompanyValid | src/main/services/data.ts:117-125 | the insert keeps ids increasing and bounded by the counter, names within the CHECK |
| Schema.InsertProject | src/main/services/data.ts:152-166 | an over-long name is skipped but uses up one counter value; a missing company is a foreign-key failure that leaves tables and counter as they were; otherwise an active row with the next id is appended |
| Schema.InsertProjectValid | src/main/services/data.ts:152-166 | a successful insert keeps every table invariant, including that each project's company, each task's project and each session's task exists |
| Schema.FindBy | src/main/services/data.ts:338-340 | a row with the given key (here the primary key of task, project or company) if one exists, None exactly when none has it |
| Schema.Store.constructor | src/main/services/data.ts:109-115 | a new database has four empty tables and meets every invariant |
| DailyTotals.TruncDiv | src/main/services/data.ts:286-287 | SQLite integer division: the remainder has the sign of the dividend and is smaller than the divisor |
| DailyTotals.ToSecondsMonotone | src/main/services/data.ts:286-287 | converting milliseconds to seconds keeps the order of times |
| DailyTotals.DayOf | src/main/services/data.ts:296 | DATE(s, 'unixepoch') is the day whose [00:00, 24:00) window holds second s |
| DailyTotals.DayOfMonotone | src/main/services/data.ts:296 | a later second never falls on an earlier day |
| DailyTotals.SpanOrdered | src/main/services/data.ts:248 | a session meeting the time-order CHECK still ends no earlier than it starts in whole seconds |
| DailyTotals.Normalize | src/main/services/data.ts:282-291 | `normalized` holds exactly the closed, active sessions in whole seconds (all closed ones when inactive rows are kept) |
| DailyTotals.ExpandFrom | src/main/services/data.ts:294-305 | the recursive CTE yields one row per day from the anchor day through the end day, consecutively |
| DailyTotals.ExpandDays | src/main/services/data.ts:294-305 | a session gets one row per day from its first to its last second, both included |
| DailyTotals.MidnightEndRow | src/main/services/data.ts:304 | a session ending exactly at midnight still gets a row for the day that midnight opens, and that row contributes 0 seconds |
| DailyTotals.SegmentWithinDay | src/main/services/data.ts:308-326 | each segment's contribution is at most a day and at most the session's length |
| DailyTotals.SpanSeconds | src/main/services/data.ts:294-335 | the per-day contributions of one session add up to its whole length, whatever days it crosses |
| DailyTotals.ReversedSpanSeconds | src/main/services/data.ts:335 | a session with end before start contributes nothing |
| DailyTotals.ChainOf | src/main/services/data.ts:338-340 | the joined task row has the session's task id; the joined project has that row's project id; the joined company has that project's company id; all three are present in their tables |
| DailyTotals.ViewLeqTotal | src/main/services/data.ts:342 | ORDER BY company, project, task, day compares any two rows |
| DailyTotals.ViewLeqTransitive | src/main/services/data.ts:342 | that order is transitive |
| DailyTotals.PipelineSeconds | src/main/services/data.ts:282-340 | the joined segments carry exactly the seconds of the sessions whose task, project and company join |
| DailyTotals.ViewConservation | src/main/services/data.ts:279-342 | the view's totals add up to the whole-second lengths of the closed active sessions of active tasks in active projects of active companies |
| DailyTotals.ViewRowsAreGroups | src/main/services/data.ts:329-341 | no two view rows share a key; each row's total is the SUM over exactly its group; every group appears; each row's task, project and company are active |
| DailyTotals.ViewOrdered | src/main/services/data.ts:342 | the view is in ORDER BY company, project, task, day order |
| DailyTotals.NormalizeSkipsOpen | src/main/services/data.ts:289 | a session with end_time NULL adds no normalized row |
| DailyTotals.ViewIgnoresOpenSession | src/main/services/data.ts:279-342 | the running session changes nothing in the view |
| DailyTotals.FedSessions | src/main/services/data.ts:282-291 | the sessions `normalized` reads: exactly the closed (and, unless kept, active) sessions, in table order |
| DailyTotals.NormalizeReadsFedSessions | src/main/services/data.ts:282-291 | `normalized` is the same whether or not the open and filtered-out sessions are in the table, wherever they stand |
| DailyTotals.FedSessionsNarrow | src/main/services/data.ts:289-290 | the closed active sessions are the active ones among the closed sessions |
| DailyTotals.ViewReadsFedSessions | src/main/services/data.ts:279-342 | two databases with the same catalog tables and the same closed active sessions have the same view, whatever open or soft-deleted sessions either holds |
| DailyTotals.AcrossMidnightExample | src/main/services/data.ts:279-342 | a 22:00-to-02:00 session yields two two-hour rows, the earlier day first |
| Grouping.AddRow | src/main/services/data.ts:341 | adding a row to the groups adds its seconds to the matching group, or opens a new group for its key |
| Grouping.GroupRows | src/main/services/data.ts:335-341 | GROUP BY gives groups with distinct keys |
| Grouping.GroupRowsCorrect | src/main/services/data.ts:335-341 | a group exists exactly for each key present; its total is the SUM and its flag the MAX over exactly its rows; the group totals add up to all rows' seconds |
| Report.Get | src/main/services/report.ts:26-114 | the report holds the rows of the chosen query, in ORDER BY total_seconds DESC order |
| Report.Set | src/main/services/report.ts:23 | set ignores its rows and answers true |
| Report.GetOne | src/main/services/report.ts:24 | getOne yields the empty object `{}`, never a report row |
| Report.DefaultIsView | src/main/services/report.ts:27-36 | the default report is the view, row for row, each with is_deleted 0 |
| Report.IncludeDeletedRows | src/main/services/report.ts:41-106 | each include-deleted row is one group of the unfiltered pipeline, with that group's SUM as its total |
| Report.DeletedFlagMeaning | src/main/services/report.ts:96-100 | the MAX(CASE …) flag is set exactly when a segment of the group has an inactive session, task, project or company |
| Report.IncludeDeletedFlag | src/main/services/report.ts:96-100 | the same property over the whole include-deleted query |
| Report.GetConservation | src/main/services/report.ts:26-114 | in both modes the report's totals add up to the whole-second lengths of the sessions that mode counts |
| Report.EmptyReport | src/main/services/report.ts:26-114 | with no sessions both reports are empty |
| Report.GetIgnoresOpenSession | src/main/services/report.ts:52 | the running session changes neither report |
| Report.GetReadsClosedSessions | src/main/services/report.ts:26-114 | in both modes the report depends only on the catalog tables and the closed sessions, so open sessions anywhere in the table do not show |
| LegacyStore.InsertProjectRow | src/main/data.ts:117-123 | INSERT OR IGNORE into the old project table always uses up one AUTOINCREMENT value; it skips a row with NULL company_id or an over-long name, and otherwise appends one with that value as id |
| LegacyStore.NameOnlyInsertIgnored | src/main/data.ts:50-52 | inserting only a name never adds a project, because company_id is NOT NULL, yet it advances the counter by one |
| LegacyStore.CloseOpenEffect | src/main/data.ts:71-73 | after the UPDATE no session is open; closed rows are untouched; open rows keep id, task and start and end now; with nothing open nothing changes |
| LegacyStore.CloseOpenWellFormed | src/main/data.ts:179 | closing keeps ids increasing and every row within the time-order CHECK |
| LegacyStore.StartedOneOpen | src/main/data.ts:63-69 | after a start exactly one session is open; it is the newest, has the largest id and starts now; the table stays well formed |
| LegacyStore.SessionView | src/main/data.ts:192-198 | v_session holds exactly the sessions whose task_id matches a project id, with that project's name |
| LegacyStore.OpenRows | src/main/data.ts:57 | exactly the rows with end NULL |
| LegacyStore.LegacyDb.constructor | src/main/data.ts:84-202 | a fresh database has empty project, task and session tables and is well formed |
| LegacyStore.LegacyDb.GetProjects | src/main/data.ts:37-40 | every project name, each once per row, in ascending BINARY order |
| LegacyStore.LegacyDb.EnsureProject | src/main/data.ts:50-52 | ensureProject adds no row to any table and advances the project counter by one |
| LegacyStore.LegacyDb.SetProjects | src/main/data.ts:42-48 | setProjects adds no row, whatever the list, and advances the project counter once per name |
| LegacyStore.LegacyDb.GetOpenSession | src/main/data.ts:54-61 | the open v_session row with the largest id, None exactly when every v_session row is closed |
| LegacyStore.LegacyDb.GetSessions | src/main/data.ts:75-77 | every v_session row, newest id first |
| LegacyStore.LegacyDb.Stop | src/main/data.ts:71-73 | stop closes every open session at now, or fails on the CHECK and changes nothing; well-formedness is kept |
| LegacyStore.LegacyDb.StartAsWritten | src/main/data.ts:63-69 | start as written always fails on the unknown column project_id, after it has already closed every open session |
| LegacyStore.LegacyDb.Start | src/main/data.ts:63-69 | start as intended: every earlier session is closed; then one new open session for the named project's id, if a task has that id; without a project row, the NOT NULL failure; without such a task, the fk_session_task failure; on a database whose task table is empty it always fails |
| SessionService.NewestOpen | src/main/services/session.ts:25-31 | the open row with the largest id; None exactly when every row is closed |
| SessionService.SessionService.GetOne | src/main/services/session.ts:24-33 | the newest open session read from the table itself; null exactly when every session is closed |
| SessionService.SessionService.Set | src/main/services/session.ts:35 | set refuses every list |
| SessionService.SessionService.GetOpenSessions | src/main/services/session.ts:56-60 | the count it answers is always 0 |
| SessionService.CloseOpenRows | src/main/services/session.ts:41 | the guarded UPDATE fails exactly when an open session started after `now`; otherwise open rows end at `now` with updated_at refreshed and closed rows stay as they were |
| SessionService.SessionService.Start | src/main/services/session.ts:37-46 | start never runs its guarded UPDATE, so it cannot fail and leaves every table as it was |
| SessionService.SessionService.Stop | src/main/services/session.ts:48-50 | stop leaves every table as it was |
| SessionService.SessionService.Get | src/main/services/session.ts:52-54 | every session row, open and closed, active or not, highest id first |
| SessionService.GetNewestFirst | src/main/services/session.ts:53 | with rowids increasing along the table, get is the table read backwards |
| SessionService.GetOneSeesDeletedSession | src/main/services/session.ts:24-33 | a soft-deleted session that was never stopped is still reported as the open one |
| CompanyService.CompanyService.GetOne | src/main/services/company.ts:18-26 | the company with that id, active or not, or null exactly when no row has it |
| CompanyService.CompanyService.Set | src/main/services/company.ts:28-40 | set answers true, and the table becomes the one INSERT OR IGNORE per trimmed name leaves |
| CompanyService.TrimmedNames | src/main/services/company.ts:32-34 | the bound names are the list's names, each trimmed, in order |
| CompanyService.KeptNames | src/main/services/company.ts:29 | a name reaches the table exactly when it fits the 32-character CHECK |
| CompanyService.NewCompaniesShape | src/main/services/company.ts:29-35 | the new rows carry the kept names in order, with increasing ids inside the range of counter values the list draws |
| CompanyService.NewCompaniesMembers | src/main/services/company.ts:29-35 | a new row is exactly a list name that fits the CHECK, with the id its position in the whole list gives it |
| CompanyService.InsertAllAppends | src/main/services/company.ts:29-35 | the transaction appends those rows and advances the counter once per name, kept or skipped; nothing else changes |
| CompanyService.SkippedNameUsesId | src/main/services/company.ts:29-35 | after an over-long name, "Acme" is stored with id 2 on an empty table |
| CompanyService.InsertAllValid | src/main/services/company.ts:29-35 | the transaction keeps every table invariant |
| CompanyService.TrimmedNamesExample | src/main/services/company.ts:33 | a blank name is bound as "" and a padded one as its core |
| CompanyService.KeptNamesExample | src/main/services/company.ts:28 | empty and duplicate names are stored; only an over-long one is skipped |
| CompanyService.CompanyService.Get | src/main/services/company.ts:42-44 | every company row, active or not, highest id first |
| CompanyService.GetNewestFirst | src/main/services/company.ts:43 | with rowids increasing along the table, get is the table read backwards |
| CompanyService.CompanyService.Remove | src/main/services/company.ts:47-54 | remove answers false exactly for a model without an id or with id 0 |
| CompanyService.CompanyService.RemoveMany | src/main/services/company.ts:56-58 | removeMany refuses |
| CompanyService.CompanyService.ToCompanyModel | src/main/services/company.ts:60-70 | the loop builds exactly the trimmed, non-empty names as new models, in order |
| CompanyService.CompanyModelsMeaning | src/main/services/company.ts:60-70 | no more models than names; each has no id and a non-empty name already trimmed; a name is produced exactly when it is the trim of some non-blank input |
| CompanyService.CompanyModelsConcat | src/main/services/company.ts:62-67 | converting a concatenation converts the parts in turn, so input order is kept |
| CompanyService.CompanyModelsExamples | src/main/services/company.ts:60-70 | ["Company 1", "", "   ", "Company 2"] gives the two companies; ["  Company 1  "] gives "Company 1" |
| ProjectService.ProjectService.GetAsWritten | src/main/services/project.ts:22-25 | get as written always fails on the unknown column comnpany_id |
| ProjectService.ProjectService.Get | src/main/services/project.ts:22-25 | get as intended: every project row, active or not, in BINARY name order |
| ProjectService.RealText | src/main/services/project.ts:28 | the text a whole-number REAL prints as: the integer's decimal digits followed by ".0" |
| ProjectService.GetOneAsWritten | src/main/services/project.ts:27-30 | getOne as written returns the id of a project whose NAME is the id's REAL text ("7.0" for 7), None exactly when no name is |
| ProjectService.GetOneAsWrittenCounterexample | src/main/services/project.ts:28 | a project with id 1 named "Alpha" is not found by id 1; one named "7" is not found by id 7; one named "7.0" is |
| ProjectService.ProjectService.GetOne | src/main/services/project.ts:27-30 | getOne as intended: the id exactly when a project has it, null exactly when none does |
| ProjectService.TrimmedRows | src/main/services/project.ts:37-38 | each bound row is the input's trimmed name with its company id, in order |
| ProjectService.KeptRows | src/main/services/project.ts:34 | a row reaches the table exactly when its name fits the CHECK |
| ProjectService.InsertAllFails | src/main/services/project.ts:36-42 | the transaction throws exactly when some row names a company that does not exist, and then with the foreign-key error |
| ProjectService.InsertAllKeepsCompanies | src/main/services/project.ts:36-42 | project inserts never change the company table |
| ProjectService.NewProjectsShape | src/main/services/project.ts:36-42 | the new rows follow the kept rows in order, with increasing ids inside the range of counter values the list draws |
| ProjectService.NewProjectsMembers | src/main/services/project.ts:36-42 | a new row is exactly a list row whose name fits the CHECK, with the id its position in the whole list gives it |
| ProjectService.InsertAllAppends | src/main/services/project.ts:36-42 | a completed transaction appends those rows and advances the counter once per row, kept or skipped |
| ProjectService.InsertAllValid | src/main/services/project.ts:36-42 | a completed transaction keeps every table invariant |
| ProjectService.InsertAllStops | src/main/services/project.ts:36-42 | once a prefix of the statements has thrown, the whole transaction has thrown with the same error |
| ProjectService.ProjectService.Set | src/main/services/project.ts:32-45 | set answers true with the rows inserted, or the transaction throws, every earlier insert is rolled back, and the error comes back; it throws exactly when some trimmed row with a fitting name names a missing company, and then with the foreign-key error |
| ProjectService.GetEmpty | src/main/services/project.ts:22-25 | an empty table lists nothing |
| TaskService.ActiveTasks | src/main/services/task.ts:28 | exactly the active tasks, never more than the table holds |
| TaskService.TaskService.GetOne | src/main/services/task.ts:20-22 | getOne yields the empty object `{}`, never a task |
| TaskService.TaskService.Get | src/main/services/task.ts:24-30 | exactly the active tasks, each once per row, highest id first |
| TaskService.TaskService.Set | src/main/services/task.ts:32-35 | set refuses |
| TaskService.ActiveTasksIncreasing | src/main/services/task.ts:28 | filtering keeps table order, so ids still increase |
| TaskService.GetNewestFirst | src/main/services/task.ts:24-30 | get is the active tasks read backwards |
| TaskService.GetEmpty | src/main/services/task.ts:24-30 | an empty table lists nothing |

## Left out

- `total_hours` (src/main/services/data.ts:336): `ROUND(… / 3600.0, 2)` is floating point. Only `total_seconds` is modelled.
- Day text: the `day` column is a day number. Rendering it as 'YYYY-MM-DD', and the DATETIME arithmetic behind it, are not modelled. Comparing two date texts is taken to be comparing two day numbers. This holds for four-digit years.
- `fmtWallClock` (src/renderer/lib/time.ts:15-24) formats in the local time zone through `Date`. It is not part of this model.
- Clocks are parameters. `Date.now()` is the parameter `now`. `CURRENT_TIMESTAMP` is the parameter `stamp`, one value per statement or transaction.
- LegacyStore.LegacyDb.Start reads `Date.now()` twice in the source (the UPDATE, then the INSERT). The model uses one `now` for both.
- Opening the database file, the WAL pragma, `mkdir` and `close` (DB constructors in both data.ts files) are I/O. `createScema` is represented by the empty tables it creates.
- The commented-out block at src/main/services/data.ts:32-99 (an earlier copy of the legacy methods) is not live code and is not modelled.
- Logging (`console.log`/`console.info`) and `getOpenSessions`' discarded count query have no effect on state and are left out.
- Ties in every `ORDER BY` (equal totals, names or keys) have an order SQLite does not fix. The model picks one order. The contracts state only what the ORDER BY guarantees, plus the permutation.
- The old schema's company table, the foreign keys from project and task, and the AFTER UPDATE triggers on company and task are not modelled: the `DB` class never writes those tables. Its task table is modelled only as the table fk_session_task reads.
- CompanyService.CompanyService.Set: the services follow the code where the component tests expect otherwise. `get` and `getOne` do not filter inactive companies. `set([])` answers true. The same goes for ProjectService's `get` (no active filter).
- ProjectService.RealText: a whole-number REAL prints as its digits plus ".0" only below 10^15 in magnitude. From 10^15 on, SQLite's `%!.15g` switches to exponent form ("1.0e+15") and rounds to 15 significant digits, so distinct ids can print alike; the model does not spell this out.
- ProjectService.GetOneAsWritten: a whole-number REAL prints as its digits plus ".0" only below 10^15 in magnitude; above that SQLite switches to exponent form ("1.0e+15"), which the model does not spell out.
- Schema.UpdateSession: an UPDATE that writes `id` or `task_id` is not modelled. Primary-key uniqueness, fk_session_task and ON UPDATE CASCADE would apply to it. No statement of the program writes those columns, so the function takes only the other columns.
- Schema.UpdateCompany: an UPDATE that writes `id` is not modelled. Primary-key uniqueness and the ON UPDATE CASCADE into project would apply to it. No statement of the program writes that column, so the function takes only the other columns.
- ProjectService.ProjectService.Set: a `ProjectRow` without `company_id` (bound as NULL, which NOT NULL rejects) is not modelled. Company ids are always present.
- SessionService.GetOneSeesDeletedSession: states the behaviour for one concrete table shape only. The general statement is the `GetOne` contract.
- The renderer's `State` type is reduced to the two fields `elapsedNow` reads (`running`, `startTs`). A `startTs` of 0 counts as absent, as JavaScript truthiness makes it.
- Better-sqlite3's row objects are modelled as datatypes holding the selected columns. Type coercion (the `Date` fields of `SessionRow`) is not modelled.
- Services hold the shared `Store` handle as a constant. The `db ?? null` guard of their constructors (a null handle) is not modelled.

## Findings

| source | as written | input that shows it | evidently intended | confidence | as-written member | corrected member |
|---|---|---|---|---|---|---|
| src/main/data.ts:68 | `INSERT INTO session(project_id, start_time)` names a column the session table (src/main/data.ts:167-180) does not have, so every `start` throws, after the UPDATE on line 66 has already closed the open session | `start("Web")` with any tables: the result is a failure for column project_id, and the previously running session is now closed | insert `(task_id, start_time)`, leaving one open session for the new timer when a task row has the project's id (fk_session_task) | not executed | LegacyStore.LegacyDb.StartAsWritten | LegacyStore.LegacyDb.Start |
| src/main/services/project.ts:23 | `SELECT id, name, comnpany_id FROM project` misspells `company_id`, so `get` always throws | any call of `get()` | select `company_id` and list the projects by name | not executed | ProjectService.ProjectService.GetAsWritten | ProjectService.ProjectService.Get |
| src/main/services/project.ts:28 | `WHERE name = ?` is bound to the numeric id, which the driver binds as a REAL and the TEXT column compares as "7.0", so a project is looked up by a name of that form | a project (id 1, name "Alpha"): `getOne(1)` is null; a project named "7" is not found by `getOne(7)`, one named "7.0" is | `WHERE id = ?` | not executed | ProjectService.GetOneAsWrittenCounterexample | ProjectService.ProjectService.GetOne |
