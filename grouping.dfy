/**
  GROUP BY c.name, p.name, t.name, t.id, s.day with SUM(seconds) and MAX(is_deleted):
  the aggregation step shared by the report view and the "include deleted" report.
  Joined rows are folded into groups one by one; each group's total and flag are
  then exactly the SUM and the MAX over the rows that carry its key.
*/
module Grouping {

  /** The grouping columns. */
  datatype GroupKey = GroupKey(companyName: string, projectName: string, taskName: string, taskId: int, day: int)

  /** One joined segment: its key, its clamped seconds, and whether any row it came from is
      soft-deleted. */
  datatype Keyed = Keyed(key: GroupKey, seconds: nat, deleted: bool)

  /** One output group: SUM(seconds) and MAX(deleted). */
  datatype Group = Group(key: GroupKey, total: nat, deleted: bool)

  // ---------------------------------------------------------------------------
  // What SQL's aggregates mean, stated over the joined rows.

  /** SUM over the rows of one group. */
  function TotalFor(rows: seq<Keyed>, k: GroupKey): nat {
    if rows == [] then 0 else (if rows[0].key == k then rows[0].seconds else 0) + TotalFor(rows[1..], k)
  }

  /** MAX(CASE … THEN 1 ELSE 0 END) over the rows of one group. */
  predicate AnyDeleted(rows: seq<Keyed>, k: GroupKey) {
    rows != [] && ((rows[0].key == k && rows[0].deleted) || AnyDeleted(rows[1..], k))
  }

  predicate HasKey(rows: seq<Keyed>, k: GroupKey) {
    rows != [] && (rows[0].key == k || HasKey(rows[1..], k))
  }

  function SumKeyed(rows: seq<Keyed>): nat {
    if rows == [] then 0 else rows[0].seconds + SumKeyed(rows[1..])
  }

  lemma {:induction false} SumKeyedConcat(a: seq<Keyed>, b: seq<Keyed>)
    ensures SumKeyed(a + b) == SumKeyed(a) + SumKeyed(b)
  {
    if a != [] {
      assert (a + b)[1..] == a[1..] + b;
      SumKeyedConcat(a[1..], b);
    } else {
      assert a + b == b;
    }
  }

  // ---------------------------------------------------------------------------
  // The same, stated over a list of groups.

  predicate HasGroup(gs: seq<Group>, k: GroupKey) {
    gs != [] && (gs[0].key == k || HasGroup(gs[1..], k))
  }

  function GroupTotal(gs: seq<Group>, k: GroupKey): nat {
    if gs == [] then 0 else (if gs[0].key == k then gs[0].total else 0) + GroupTotal(gs[1..], k)
  }

  predicate GroupDeleted(gs: seq<Group>, k: GroupKey) {
    gs != [] && ((gs[0].key == k && gs[0].deleted) || GroupDeleted(gs[1..], k))
  }

  function SumGroups(gs: seq<Group>): nat {
    if gs == [] then 0 else gs[0].total + SumGroups(gs[1..])
  }

  /** No key is repeated. */
  predicate DistinctKeys(gs: seq<Group>) {
    gs == [] || (!HasGroup(gs[1..], gs[0].key) && DistinctKeys(gs[1..]))
  }

  lemma {:induction false} HasGroupAt(gs: seq<Group>, k: GroupKey)
    ensures HasGroup(gs, k) <==> exists i :: 0 <= i < |gs| && gs[i].key == k
  {
    if gs != [] {
      HasGroupAt(gs[1..], k);
      if HasGroup(gs[1..], k) {
        var i :| 0 <= i < |gs[1..]| && gs[1..][i].key == k;
        assert gs[i + 1].key == k;
      }
      forall i | 1 <= i < |gs| && gs[i].key == k
        ensures HasGroup(gs[1..], k)
      {
        assert gs[1..][i - 1].key == k;
      }
    }
  }

  /** Distinct keys in the pairwise sense: two positions never hold the same key. */
  lemma {:induction false} DistinctKeysPairwise(gs: seq<Group>, i: int, j: int)
    requires DistinctKeys(gs)
    requires 0 <= i < j < |gs|
    ensures gs[i].key != gs[j].key
  {
    if i == 0 {
      HasGroupAt(gs[1..], gs[0].key);
      assert gs[1..][j - 1] == gs[j];
    } else {
      DistinctKeysPairwise(gs[1..], i - 1, j - 1);
    }
  }

  /** With distinct keys, a group's own fields are the per-key total and flag. */
  lemma {:induction false} GroupAt(gs: seq<Group>, i: int)
    requires DistinctKeys(gs)
    requires 0 <= i < |gs|
    ensures GroupTotal(gs, gs[i].key) == gs[i].total
    ensures GroupDeleted(gs, gs[i].key) <==> gs[i].deleted
  {
    if i == 0 {
      NoGroup(gs[1..], gs[0].key);
    } else {
      GroupAt(gs[1..], i - 1);
      assert gs[1..][i - 1] == gs[i];
      HasGroupAt(gs[1..], gs[i].key);
      assert gs[0].key != gs[i].key;
    }
  }

  lemma {:induction false} NoGroup(gs: seq<Group>, k: GroupKey)
    requires !HasGroup(gs, k)
    ensures GroupTotal(gs, k) == 0 && !GroupDeleted(gs, k)
  {
    if gs != [] {
      NoGroup(gs[1..], k);
    }
  }

  // ---------------------------------------------------------------------------
  // The fold.

  /** Adds one row to its group, opening the group when its key is new. */
  function AddRow(gs: seq<Group>, r: Keyed): (res: seq<Group>)
    requires DistinctKeys(gs)
    ensures DistinctKeys(res)
    ensures forall k :: HasGroup(res, k) <==> HasGroup(gs, k) || k == r.key
    ensures forall k :: GroupTotal(res, k) == GroupTotal(gs, k) + (if k == r.key then r.seconds else 0)
    ensures forall k :: GroupDeleted(res, k) <==> GroupDeleted(gs, k) || (k == r.key && r.deleted)
    ensures SumGroups(res) == SumGroups(gs) + r.seconds
  {
    if gs == [] then
      var res := [Group(r.key, r.seconds, r.deleted)];
      assert res[1..] == [];
      res
    else if gs[0].key == r.key then
      var res := [Group(r.key, gs[0].total + r.seconds, gs[0].deleted || r.deleted)] + gs[1..];
      assert res[1..] == gs[1..];
      NoGroup(gs[1..], r.key);
      res
    else
      var rest := AddRow(gs[1..], r);
      var res := [gs[0]] + rest;
      assert res[1..] == rest;
      res
  }

  /** The groups of the joined rows, each holding SUM and MAX over exactly its rows. */
  function GroupRows(rows: seq<Keyed>): (gs: seq<Group>)
    ensures DistinctKeys(gs)
    ensures forall k :: HasGroup(gs, k) <==> HasKey(rows, k)
    ensures forall k :: GroupTotal(gs, k) == TotalFor(rows, k)
    ensures forall k :: GroupDeleted(gs, k) <==> AnyDeleted(rows, k)
    ensures SumGroups(gs) == SumKeyed(rows)
  {
    if rows == [] then [] else AddRow(GroupRows(rows[1..]), rows[0])
  }

  /** What GROUP BY promises, group by group: one group per key that occurs, none twice,
      and each group's total and flag are the SUM and MAX over its rows; the totals
      together add up to all the rows' seconds. */
  lemma GroupRowsCorrect(rows: seq<Keyed>)
    ensures var gs := GroupRows(rows);
      && (forall i, j :: 0 <= i < j < |gs| ==> gs[i].key != gs[j].key)
      && (forall i :: 0 <= i < |gs| ==> gs[i].total == TotalFor(rows, gs[i].key))
      && (forall i :: 0 <= i < |gs| ==> (gs[i].deleted <==> AnyDeleted(rows, gs[i].key)))
      && (forall k :: HasKey(rows, k) <==> exists i :: 0 <= i < |gs| && gs[i].key == k)
      && SumGroups(gs) == SumKeyed(rows)
  {
    var gs := GroupRows(rows);
    forall i, j | 0 <= i < j < |gs|
      ensures gs[i].key != gs[j].key
    {
      DistinctKeysPairwise(gs, i, j);
    }
    forall i | 0 <= i < |gs|
      ensures gs[i].total == TotalFor(rows, gs[i].key)
      ensures gs[i].deleted <==> AnyDeleted(rows, gs[i].key)
    {
      GroupAt(gs, i);
    }
    forall k
      ensures HasKey(rows, k) <==> exists i :: 0 <= i < |gs| && gs[i].key == k
    {
      HasGroupAt(gs, k);
    }
  }
}
