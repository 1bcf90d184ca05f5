/**
  TaskService (src/main/services/task.ts): lists the active tasks, newest first.
  `getOne` hands back an empty record and `set` is not implemented.
*/
module TaskService {
  import opened Wrappers
  import opened Sorting
  import opened Schema

  /** WHERE is_active = 1, in table order. */
  function ActiveTasks(ts: seq<Task>): (r: seq<Task>)
    ensures forall x :: x in r <==> x in ts && x.audit.active
    ensures |r| <= |ts|
  {
    if ts == [] then []
    else if ts[0].audit.active then [ts[0]] + ActiveTasks(ts[1..])
    else ActiveTasks(ts[1..])
  }

  /** ORDER BY id DESC. */
  predicate IdDesc(a: Task, b: Task) {
    a.id >= b.id
  }

  lemma IdDescOrder()
    ensures IsTotal(IdDesc) && IsTransitive(IdDesc)
  {
  }

  /** Ids strictly increase along the rows, as rowids do along a table. */
  predicate IdsIncreasing(ts: seq<Task>) {
    forall i, j :: 0 <= i < j < |ts| ==> ts[i].id < ts[j].id
  }

  function IdOf(t: Task): int {
    t.id
  }

  class TaskService {
    const db: Store

    constructor (db: Store)
      ensures this.db == db
    {
      this.db := db;
    }

    /** getOne: the empty object `{}`, never a task. */
    function GetOne(): (r: Reply<Task>)
      ensures r == EmptyObject
    {
      EmptyObject
    }

    /** get: the active tasks, highest id first. */
    function Get(): (r: seq<Task>)
      reads db
      ensures multiset(r) == multiset(ActiveTasks(db.tables.tasks))
      ensures forall x :: x in r <==> x in db.tables.tasks && x.audit.active
      ensures forall i, j :: 0 <= i <= j < |r| ==> r[i].id >= r[j].id
    {
      IdDescOrder();
      var r := SortBy(ActiveTasks(db.tables.tasks), IdDesc);
      forall i, j | 0 <= i <= j < |r|
        ensures r[i].id >= r[j].id
      {
        SortedPairwise(r, IdDesc, i, j);
      }
      forall x
        ensures x in r <==> x in ActiveTasks(db.tables.tasks)
      {
        SortByMembers(ActiveTasks(db.tables.tasks), IdDesc, x);
      }
      r
    }

    /** set: not implemented; refuses and writes nothing. */
    method Set() returns (ok: bool)
      ensures !ok
    {
      ok := false;
    }
  }

  /** A row with a smaller id than every row after it keeps the ids increasing. */
  lemma ConsIncreasing(a: Task, rest: seq<Task>)
    requires IdsIncreasing(rest)
    requires forall x :: x in rest ==> a.id < x.id
    ensures IdsIncreasing([a] + rest)
  {
    var r := [a] + rest;
    forall i, j | 0 <= i < j < |r|
      ensures r[i].id < r[j].id
    {
      assert r[j] == rest[j - 1];
      if i > 0 {
        assert r[i] == rest[i - 1];
      } else {
        assert rest[j - 1] in rest;
      }
    }
  }

  /** Filtering keeps table order, so ids still increase along the filtered rows. */
  lemma {:induction false} ActiveTasksIncreasing(ts: seq<Task>)
    requires IdsIncreasing(ts)
    ensures IdsIncreasing(ActiveTasks(ts))
  {
    if ts != [] {
      ActiveTasksIncreasing(ts[1..]);
      var rest := ActiveTasks(ts[1..]);
      forall x | x in rest
        ensures ts[0].id < x.id
      {
        var k :| 0 <= k < |ts[1..]| && ts[1..][k] == x;
        assert ts[k + 1] == x;
      }
      if ts[0].audit.active {
        ConsIncreasing(ts[0], rest);
      }
    }
  }

  /** With rowids increasing along the table, `get` is the active tasks read backwards. */
  lemma GetNewestFirst(svc: TaskService)
    requires Valid(svc.db.tables)
    ensures svc.Get() == Reverse(ActiveTasks(svc.db.tables.tasks))
  {
    var r := ActiveTasks(svc.db.tables.tasks);
    assert IdsIncreasing(svc.db.tables.tasks);
    ActiveTasksIncreasing(svc.db.tables.tasks);
    forall i, j | 0 <= i < j < |r|
      ensures IdOf(r[i]) < IdOf(r[j])
    {
      assert r[i].id < r[j].id;
    }
    DescendingIsReverse(r, svc.Get(), IdOf);
  }

  /** An empty table lists nothing. */
  lemma GetEmpty(svc: TaskService)
    requires svc.db.tables.tasks == []
    ensures svc.Get() == []
  {
    assert |svc.Get()| == |multiset(svc.Get())| == |multiset(ActiveTasks(svc.db.tables.tasks))| == 0;
  }
}
