/** Task CRUD of the store (database.py:68-103): creation with a trimmed,
    unique name, listing by name, partial update and the cascading delete. */
module Tasks {
  import opened Seqs
  import opened Text
  import opened Schema

  function TaskNames(tasks: seq<Task>): set<string>
  {
    set t | t in tasks :: t.name
  }

  /** create_task (database.py:68-74): the name is stored trimmed, the
      UNIQUE constraint on it is the only way the INSERT fails, and the row
      gets the next AUTOINCREMENT id, `is_active = 1` and the creation time. */
  function CreateTask(db: Db, name: string, color: string := DefaultColor, now: int): (r: (Db, Result<nat>))
    ensures r.1.Err? <==> Strip(name) in TaskNames(db.tasks)
    ensures r.1.Err? ==> r.0 == db && r.1.error == DuplicateName
    ensures r.0.entries == db.entries && r.0.segments == db.segments
  {
    var n := Strip(name);
    if n in TaskNames(db.tasks) then (db, Err(DuplicateName))
    else
      var tid := db.nextTaskId;
      (db.(tasks := db.tasks + [Task(tid, n, color, true, now)], nextTaskId := tid + 1), Ok(tid))
  }

  /** A created task can be found by its id, under its trimmed name; the
      rows that existed are kept as they were. */
  lemma CreateTaskStoresTrimmed(db: Db, name: string, color: string, now: int)
    requires Valid(db)
    requires CreateTask(db, name, color, now).1.Ok?
    ensures var (db', r) := CreateTask(db, name, color, now);
      && r.value !in TaskIds(db.tasks)
      && FindTask(db'.tasks, r.value) == Some(Task(r.value, Strip(name), color, true, now))
      && db'.tasks[..|db.tasks|] == db.tasks
      && Strip(FindTask(db'.tasks, r.value).value.name) == FindTask(db'.tasks, r.value).value.name
  {
    var (db', r) := CreateTask(db, name, color, now);
    var t := Task(r.value, Strip(name), color, true, now);
    assert db'.tasks == db.tasks + [t];
    forall u | u in db.tasks ensures u.id < r.value {
      var i :| 0 <= i < |db.tasks| && db.tasks[i] == u;
    }
    var f := FindTask(db'.tasks, r.value);
    KeyedAppend(db.tasks, t, TaskKey, db.nextTaskId);
    KeyedUnique(db'.tasks, TaskKey, db'.nextTaskId, f.value, t);
    StripIdempotent(name);
  }

  lemma CreateTaskKeepsValid(db: Db, name: string, color: string, now: int)
    requires Valid(db)
    ensures Valid(CreateTask(db, name, color, now).0)
  {
    var (db', r) := CreateTask(db, name, color, now);
    if r.Ok? {
      var t := Task(db.nextTaskId, Strip(name), color, true, now);
      assert db'.tasks == db.tasks + [t];
      KeyedAppend(db.tasks, t, TaskKey, db.nextTaskId);
      forall i, j | 0 <= i < j < |db'.tasks| ensures DistinctNames(db'.tasks[i], db'.tasks[j]) {
        if j == |db.tasks| {
          assert db'.tasks[i] in db.tasks;
        }
      }
      assert TaskIds(db.tasks) <= TaskIds(db'.tasks);
    }
  }

  // ---------------------------------------------------------------------------
  // update_task (database.py:87-96).

  /** One task row after the UPDATEs for the arguments that were passed. */
  function Revise(t: Task, name: Option<string>, color: Option<string>, isActive: Option<bool>): Task
  {
    t.(name := if name.Some? then Strip(name.value) else t.name,
       color := if color.Some? then color.value else t.color,
       isActive := if isActive.Some? then isActive.value else t.isActive)
  }

  /** The renaming UPDATE hits the UNIQUE constraint: the row exists and
      another row already carries the trimmed name. */
  predicate RenameClashes(tasks: seq<Task>, id: nat, name: Option<string>)
  {
    name.Some? && id in TaskIds(tasks) &&
    exists t :: t in tasks && t.id != id && t.name == Strip(name.value)
  }

  /** update_task: on a clash nothing is written (the transaction is never
      committed); otherwise only the passed fields of row `id` change. */
  function UpdateTask(db: Db, id: nat, name: Option<string>, color: Option<string>, isActive: Option<bool>)
    : (r: (Db, Result<()>))
    ensures r.1.Err? <==> RenameClashes(db.tasks, id, name)
    ensures r.1.Err? ==> r.0 == db && r.1.error == DuplicateName
    ensures r.0.entries == db.entries && r.0.segments == db.segments
    ensures |r.0.tasks| == |db.tasks|
  {
    if RenameClashes(db.tasks, id, name) then (db, Err(DuplicateName))
    else
      var ts := seq(|db.tasks|, i requires 0 <= i < |db.tasks| =>
        if db.tasks[i].id == id then Revise(db.tasks[i], name, color, isActive) else db.tasks[i]);
      (db.(tasks := ts), Ok(()))
  }

  /** Only the fields actually passed change, only on row `id`; ids and
      creation times never change and every other row is untouched. */
  lemma UpdateTaskTouchesOnlyPassed(db: Db, id: nat, name: Option<string>, color: Option<string>, isActive: Option<bool>)
    ensures var ts := UpdateTask(db, id, name, color, isActive).0.tasks;
      forall i :: 0 <= i < |ts| ==>
        && ts[i].id == db.tasks[i].id
        && ts[i].createdAt == db.tasks[i].createdAt
        && (ts[i].id != id ==> ts[i] == db.tasks[i])
        && (name.None? ==> ts[i].name == db.tasks[i].name)
        && (color.None? ==> ts[i].color == db.tasks[i].color)
        && (isActive.None? ==> ts[i].isActive == db.tasks[i].isActive)
  {
  }

  /** A successful update stores exactly the passed values on row `id`. */
  lemma UpdateTaskStoresPassed(db: Db, id: nat, name: Option<string>, color: Option<string>, isActive: Option<bool>)
    requires UpdateTask(db, id, name, color, isActive).1.Ok?
    ensures var ts := UpdateTask(db, id, name, color, isActive).0.tasks;
      forall i :: 0 <= i < |ts| && ts[i].id == id ==>
        && (name.Some? ==> ts[i].name == Strip(name.value))
        && (color.Some? ==> ts[i].color == color.value)
        && (isActive.Some? ==> ts[i].isActive == isActive.value)
  {
  }

  /** A successful update keeps any two task names apart. */
  lemma UpdateKeepsNamesApart(db: Db, id: nat, name: Option<string>, color: Option<string>, isActive: Option<bool>,
                              i: int, j: int)
    requires Valid(db)
    requires UpdateTask(db, id, name, color, isActive).1.Ok?
    requires 0 <= i < j < |db.tasks|
    ensures var ts := UpdateTask(db, id, name, color, isActive).0.tasks;
      DistinctNames(ts[i], ts[j])
  {
    var ts := UpdateTask(db, id, name, color, isActive).0.tasks;
    var a, b := db.tasks[i], db.tasks[j];
    assert DistinctNames(a, b) && TaskKey(a) < TaskKey(b);
    if name.Some? && a.id == id {
      assert b in db.tasks;
    } else if name.Some? && b.id == id {
      assert a in db.tasks;
    }
  }

  lemma UpdateTaskKeepsValid(db: Db, id: nat, name: Option<string>, color: Option<string>, isActive: Option<bool>)
    requires Valid(db)
    ensures Valid(UpdateTask(db, id, name, color, isActive).0)
  {
    var (db', r) := UpdateTask(db, id, name, color, isActive);
    if r.Ok? {
      var ts := db'.tasks;
      assert forall i :: 0 <= i < |ts| ==> ts[i].id == db.tasks[i].id;
      forall i, j | 0 <= i < j < |ts| ensures DistinctNames(ts[i], ts[j]) {
        UpdateKeepsNamesApart(db, id, name, color, isActive, i, j);
      }
      forall k | k in TaskIds(db.tasks) ensures k in TaskIds(ts) {
        var t :| t in db.tasks && t.id == k;
        var i :| 0 <= i < |db.tasks| && db.tasks[i] == t;
        assert ts[i].id == k;
      }
    }
  }

  // ---------------------------------------------------------------------------
  // delete_task (database.py:99-103) with the ON DELETE CASCADE of
  // database.py:51 and database.py:59.

  /** Ids of the entries that belong to task `tid`. */
  function EntriesOfTask(entries: seq<Entry>, tid: nat): set<nat>
  {
    set e | e in entries && e.taskId == tid :: e.id
  }

  function DeleteTask(db: Db, tid: nat): (r: Db)
    ensures r.nextTaskId == db.nextTaskId && r.nextEntryId == db.nextEntryId
    ensures r.nextSegmentId == db.nextSegmentId
  {
    var removed := EntriesOfTask(db.entries, tid);
    db.(tasks := Filter(db.tasks, (t: Task) => t.id != tid),
        entries := Filter(db.entries, (e: Entry) => e.taskId != tid),
        segments := Filter(db.segments, OwnerNotIn(removed)))
  }

  /** An entry that survives the delete is not one of the deleted ones. */
  lemma SurvivorNotRemoved(db: Db, tid: nat, e: Entry)
    requires Valid(db) && e in db.entries && e.taskId != tid
    ensures e.id !in EntriesOfTask(db.entries, tid)
  {
    if e.id in EntriesOfTask(db.entries, tid) {
      var e2 :| e2 in db.entries && e2.taskId == tid && e2.id == e.id;
      KeyedUnique(db.entries, EntryKey, db.nextEntryId, e, e2);
    }
  }

  /** The cascade: the task, all of its entries and all of their segments are
      gone, and every other row of every table is still there. */
  lemma DeleteTaskCascades(db: Db, tid: nat)
    requires Valid(db)
    ensures var db' := DeleteTask(db, tid);
      && tid !in TaskIds(db'.tasks)
      && (forall t :: t in db'.tasks <==> t in db.tasks && t.id != tid)
      && (forall e :: e in db'.entries <==> e in db.entries && e.taskId != tid)
      && (forall s :: s in db'.segments <==> s in db.segments && s.entryId in EntryIds(db'.entries))
  {
    var db' := DeleteTask(db, tid);
    var removed := EntriesOfTask(db.entries, tid);
    forall s | s in db.segments
      ensures s.entryId !in removed <==> s.entryId in EntryIds(db'.entries)
    {
      var e :| e in db.entries && e.id == s.entryId;
      if e.taskId != tid {
        SurvivorNotRemoved(db, tid, e);
        assert e in db'.entries;
      } else {
        assert s.entryId in removed;
      }
    }
  }

  lemma DeleteTaskKeepsValid(db: Db, tid: nat)
    requires Valid(db)
    ensures Valid(DeleteTask(db, tid))
  {
    var db' := DeleteTask(db, tid);
    DeleteTaskCascades(db, tid);
    KeyedFilter(db.tasks, (t: Task) => t.id != tid, TaskKey, db.nextTaskId);
    KeyedFilter(db.entries, (e: Entry) => e.taskId != tid, EntryKey, db.nextEntryId);
    KeyedFilter(db.segments, OwnerNotIn(EntriesOfTask(db.entries, tid)), SegmentKey, db.nextSegmentId);
    FilterKeepsOrder(db.tasks, (t: Task) => t.id != tid, DistinctNames);
    forall e | e in db'.entries ensures e.taskId in TaskIds(db'.tasks) {
      var t :| t in db.tasks && t.id == e.taskId;
    }
  }

  /** An entry that survives the cascade keeps its consistency. */
  lemma DeleteTaskKeepsEntry(db: Db, tid: nat, e: Entry)
    requires Valid(db) && TimerInv(db)
    requires e in DeleteTask(db, tid).entries
    ensures EntryConsistent(DeleteTask(db, tid).segments, e)
  {
    var removed := EntriesOfTask(db.entries, tid);
    assert e in db.entries;
    var k :| 0 <= k < |db.entries| && db.entries[k] == e;
    assert EntryConsistent(db.segments, e);
    SurvivorNotRemoved(db, tid, e);
    SegmentsOfFiltered(db.segments, OwnerNotIn(removed), e.id);
    ConsistentFrame(db.segments, DeleteTask(db, tid).segments, e);
  }

  lemma DeleteTaskKeepsTimerInv(db: Db, tid: nat)
    requires Valid(db) && TimerInv(db)
    ensures TimerInv(DeleteTask(db, tid))
  {
    var db' := DeleteTask(db, tid);
    FilterKeepsOrder(db.entries, (e: Entry) => e.taskId != tid, NotBothRunning);
    forall i | 0 <= i < |db'.entries| ensures EntryConsistent(db'.segments, db'.entries[i]) {
      DeleteTaskKeepsEntry(db, tid, db'.entries[i]);
    }
  }

  /** Task writes leave the entries and segments alone, so they keep the
      timer invariant along with the schema's. */
  lemma CreateTaskPreserves(db: Db, name: string, color: string, now: int)
    requires Valid(db) && TimerInv(db)
    ensures Valid(CreateTask(db, name, color, now).0) && TimerInv(CreateTask(db, name, color, now).0)
  {
    CreateTaskKeepsValid(db, name, color, now);
  }

  lemma UpdateTaskPreserves(db: Db, id: nat, name: Option<string>, color: Option<string>, isActive: Option<bool>)
    requires Valid(db) && TimerInv(db)
    ensures Valid(UpdateTask(db, id, name, color, isActive).0)
    ensures TimerInv(UpdateTask(db, id, name, color, isActive).0)
  {
    UpdateTaskKeepsValid(db, id, name, color, isActive);
  }

  lemma DeleteTaskPreserves(db: Db, tid: nat)
    requires Valid(db) && TimerInv(db)
    ensures Valid(DeleteTask(db, tid)) && TimerInv(DeleteTask(db, tid))
  {
    DeleteTaskKeepsValid(db, tid);
    DeleteTaskKeepsTimerInv(db, tid);
  }

  // ---------------------------------------------------------------------------
  // get_tasks (database.py:77-84).

  function ByName(a: Task, b: Task): bool { NameLe(a.name, b.name) }

  lemma ByNameOrder()
    ensures TotalPreorder(ByName)
  {
    NameOrder();
  }

  function Listed(activeOnly: bool): Task -> bool
  {
    (t: Task) => !activeOnly || t.isActive
  }

  /** get_tasks: the task rows (only the active ones when `activeOnly`),
      ordered by name. */
  function GetTasks(db: Db, activeOnly: bool): (r: seq<Task>)
    ensures forall t :: t in r <==> t in db.tasks && (!activeOnly || t.isActive)
    ensures Sorted(r, ByName)
  {
    ByNameOrder();
    var f := Filter(db.tasks, Listed(activeOnly));
    var r := Sort(f, ByName);
    assert forall t :: t in r <==> t in multiset(r);
    assert forall t :: t in f <==> t in multiset(f);
    r
  }

  /** In a valid store every task is listed exactly once and names strictly
      increase, so the listing is determined by the table's contents. */
  lemma GetTasksListsEachOnce(db: Db, activeOnly: bool)
    requires Valid(db)
    ensures var r := GetTasks(db, activeOnly);
      forall i, j :: 0 <= i < j < |r| ==> r[i].name != r[j].name && NameLe(r[i].name, r[j].name)
  {
    ByNameOrder();
    var f := Filter(db.tasks, Listed(activeOnly));
    var r := GetTasks(db, activeOnly);
    FilterKeepsOrder(db.tasks, Listed(activeOnly), DistinctNames);
    forall i, j | 0 <= i < j < |r| ensures r[i].name != r[j].name {
      assert r[i] in multiset(f) && r[j] in multiset(f);
      DistinctFromMultiset(f, r, i, j);
    }
  }

  /** Two positions of a permutation of a name-distinct sequence hold
      different names. */
  lemma DistinctFromMultiset(f: seq<Task>, r: seq<Task>, i: int, j: int)
    requires forall a, b :: 0 <= a < b < |f| ==> DistinctNames(f[a], f[b])
    requires multiset(r) == multiset(f) && 0 <= i < j < |r|
    ensures r[i].name != r[j].name
  {
    if r[i].name == r[j].name {
      assert r[i] in multiset(f) && r[j] in multiset(f);
      var a :| 0 <= a < |f| && f[a] == r[i];
      var b :| 0 <= b < |f| && f[b] == r[j];
      if a == b {
        // r holds the same row twice, so f must too.
        assert r[i] == r[j];
        var m := multiset(r)[r[i]];
        assert m >= 2 by {
          assert r == r[..i] + [r[i]] + r[i + 1..j] + [r[j]] + r[j + 1..];
        }
        MultiplicityOne(f, a);
      }
    }
  }

  /** In a name-distinct sequence every row occurs once. */
  lemma MultiplicityOne(f: seq<Task>, a: int)
    requires forall x, y :: 0 <= x < y < |f| ==> DistinctNames(f[x], f[y])
    requires 0 <= a < |f|
    ensures multiset(f)[f[a]] == 1
  {
    assert f == f[..a] + [f[a]] + f[a + 1..];
    assert forall x :: 0 <= x < a ==> f[x] != f[a] by {
      forall x | 0 <= x < a ensures f[x] != f[a] {
        assert DistinctNames(f[x], f[a]);
      }
    }
    assert forall y :: a < y < |f| ==> f[y] != f[a] by {
      forall y | a < y < |f| ensures f[y] != f[a] {
        assert DistinctNames(f[a], f[y]);
      }
    }
    assert f[a] !in multiset(f[..a]);
    assert f[a] !in multiset(f[a + 1..]);
  }
}
