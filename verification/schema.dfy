/** The three tables of the time-tracking store (database.py:34-60) as
    values: rows keep their AUTOINCREMENT ids and table order, and the
    counters stand for SQLite's `sqlite_sequence`. Timestamps are whole
    seconds since 0001-01-01T00:00:00 local time; a date is a day ordinal as
    in Python's `date.toordinal()`, so `DATE(start_time)` is `DayOf`. */
module Schema {
  import opened Seqs

  datatype Option<T> = None | Some(value: T)

  const SecondsPerDay: int := 86400

  /** The date (day ordinal, 0001-01-01 is day 1) of a timestamp. */
  function DayOf(t: int): int
  {
    t / SecondsPerDay + 1
  }

  /** The three values the status column admits (database.py:47-48). */
  datatype Status = Active | Paused | Completed
  {
    /** The states the single global timer can be in. */
    predicate IsRunning() { this == Active || this == Paused }
  }

  datatype Task = Task(id: nat, name: string, color: string, isActive: bool, createdAt: int)

  datatype Entry = Entry(
    id: nat,
    taskId: nat,
    startTime: int,
    endTime: Option<int>,
    status: Status,
    totalSeconds: int,
    notes: string)

  /** A segment without an end (a NULL end column) is still running. */
  datatype Segment = Segment(id: nat, entryId: nat, start: int, end: Option<int>)

  datatype Db = Db(
    tasks: seq<Task>,
    entries: seq<Entry>,
    segments: seq<Segment>,
    nextTaskId: nat,
    nextEntryId: nat,
    nextSegmentId: nat)

  /** The failures the store raises: UNIQUE and FOREIGN KEY violations
      (sqlite3.IntegrityError) and the two ValueErrors of database.py. */
  datatype Error =
    | DuplicateName     // UNIQUE constraint on tasks.name
    | UnknownTask       // FOREIGN KEY time_entries.task_id
    | UnknownEntry      // FOREIGN KEY time_segments.entry_id
    | TimerRunning      // start_entry while a timer runs (database.py:136-138)
    | EndNotAfterStart  // add_manual_entry with a non-positive span (database.py:219-220)

  datatype Result<T> = Ok(value: T) | Err(error: Error)

  const DefaultColor: string := "#4CAF50"

  /** A freshly created database: empty tables, AUTOINCREMENT starts at 1. */
  function EmptyDb(): Db
  {
    Db([], [], [], 1, 1, 1)
  }

  function TaskIds(tasks: seq<Task>): set<nat>
  {
    set t | t in tasks :: t.id
  }

  function EntryIds(entries: seq<Entry>): set<nat>
  {
    set e | e in entries :: e.id
  }

  function TaskKey(t: Task): int { t.id }
  function EntryKey(e: Entry): int { e.id }
  function SegmentKey(s: Segment): int { s.id }

  /** Row ids grow strictly along the table and stay below the counter. */
  ghost predicate Keyed<T>(s: seq<T>, key: T -> int, next: nat)
  {
    && (forall i, j :: 0 <= i < j < |s| ==> key(s[i]) < key(s[j]))
    && (forall i :: 0 <= i < |s| ==> 0 <= key(s[i]) < next)
  }

  lemma KeyedAppend<T>(s: seq<T>, x: T, key: T -> int, next: nat)
    requires Keyed(s, key, next) && key(x) == next
    ensures Keyed(s + [x], key, next + 1)
  {
  }

  /** Deleting rows keeps the remaining ids ordered and below the counter. */
  lemma KeyedFilter<T(!new)>(s: seq<T>, p: T -> bool, key: T -> int, next: nat)
    requires Keyed(s, key, next)
    ensures Keyed(Filter(s, p), key, next)
  {
    var f := Filter(s, p);
    FilterKeepsOrder(s, p, (a: T, b: T) => key(a) < key(b));
    forall i | 0 <= i < |f| ensures 0 <= key(f[i]) < next {
      assert f[i] in s;
      var k :| 0 <= k < |s| && s[k] == f[i];
    }
  }

  lemma KeyedUnique<T>(s: seq<T>, key: T -> int, next: nat, x: T, y: T)
    requires Keyed(s, key, next) && x in s && y in s && key(x) == key(y)
    ensures x == y
  {
    var i :| 0 <= i < |s| && s[i] == x;
    var j :| 0 <= j < |s| && s[j] == y;
    assert !(i < j) && !(j < i);
  }

  predicate DistinctNames(a: Task, b: Task)
  {
    a.name != b.name
  }

  /** The schema's own guarantees: ids are AUTOINCREMENT keys, task names are
      UNIQUE (database.py:36), and with `PRAGMA foreign_keys = ON`
      (database.py:16) every entry names a task (database.py:51) and every
      segment names an entry (database.py:59). */
  ghost predicate Valid(db: Db)
  {
    && Keyed(db.tasks, TaskKey, db.nextTaskId)
    && Keyed(db.entries, EntryKey, db.nextEntryId)
    && Keyed(db.segments, SegmentKey, db.nextSegmentId)
    && (forall i, j :: 0 <= i < j < |db.tasks| ==> DistinctNames(db.tasks[i], db.tasks[j]))
    && (forall e :: e in db.entries ==> e.taskId in TaskIds(db.tasks))
    && (forall s :: s in db.segments ==> s.entryId in EntryIds(db.entries))
  }

  // ---------------------------------------------------------------------------
  // Segment accounting.

  /** The segments of one entry, in table order. */
  function SegmentsOf(segs: seq<Segment>, eid: nat): (r: seq<Segment>)
    ensures forall s :: s in r <==> s in segs && s.entryId == eid
  {
    Filter(segs, (s: Segment) => s.entryId == eid)
  }

  lemma SegmentsOfAppend(segs: seq<Segment>, x: Segment, eid: nat)
    ensures SegmentsOf(segs + [x], eid) == SegmentsOf(segs, eid) + (if x.entryId == eid then [x] else [])
  {
    FilterAppend(segs, x, (s: Segment) => s.entryId == eid);
  }

  /** The test a cascading delete applies to a segment row: its entry is
      not among the deleted ones. */
  function OwnerNotIn(removed: set<nat>): Segment -> bool
  {
    (s: Segment) => s.entryId !in removed
  }

  /** Deleting segment rows that do not belong to `eid` leaves the segments
      of `eid` as they were. */
  lemma {:induction false} SegmentsOfFiltered(segs: seq<Segment>, keep: Segment -> bool, eid: nat)
    requires forall s :: s in segs && s.entryId == eid ==> keep(s)
    ensures SegmentsOf(Filter(segs, keep), eid) == SegmentsOf(segs, eid)
  {
    if segs != [] {
      var s', x := segs[..|segs| - 1], segs[|segs| - 1];
      assert segs == s' + [x];
      SegmentsOfFiltered(s', keep, eid);
      FilterAppend(s', x, keep);
      SegmentsOfAppend(s', x, eid);
      if keep(x) {
        SegmentsOfAppend(Filter(s', keep), x, eid);
      } else {
        assert Filter(segs, keep) == Filter(s', keep);
      }
    }
  }

  /** `end - start` for a segment with both endpoints, 0 otherwise (the
      `if st and en` test of database.py:192 and database.py:208). */
  function ClosedSpan(s: Segment): int
  {
    if s.end.Some? then s.end.value - s.start else 0
  }

  function OpenMark(s: Segment): int
  {
    if s.end.None? then 1 else 0
  }

  /** Seconds recorded in the closed segments of entry `eid`. */
  function ClosedSum(segs: seq<Segment>, eid: nat): int
  {
    SumOf(SegmentsOf(segs, eid), ClosedSpan)
  }

  /** Number of still-running segments of entry `eid`. */
  function OpenCount(segs: seq<Segment>, eid: nat): int
  {
    SumOf(SegmentsOf(segs, eid), OpenMark)
  }

  /** One entry agrees with its segments: an active entry has exactly one
      open segment and any other entry none; only a completed entry has an
      end time; a completed entry's total is the sum of its closed segments
      and any other entry's total is still 0. */
  ghost predicate EntryConsistent(segs: seq<Segment>, e: Entry)
  {
    && OpenCount(segs, e.id) == (if e.status == Active then 1 else 0)
    && (e.endTime.Some? <==> e.status == Completed)
    && e.totalSeconds == (if e.status == Completed then ClosedSum(segs, e.id) else 0)
  }

  predicate NotBothRunning(a: Entry, b: Entry)
  {
    !(a.status.IsRunning() && b.status.IsRunning())
  }

  /** At most one entry in the whole store is active or paused. */
  ghost predicate SingleTimer(es: seq<Entry>)
  {
    forall i, j :: 0 <= i < j < |es| ==> NotBothRunning(es[i], es[j])
  }

  /** The timer's invariant. The store does not enforce it by itself; the
      transitions keep it under the preconditions their lemmas state. */
  ghost predicate TimerInv(db: Db)
  {
    && SingleTimer(db.entries)
    && (forall i :: 0 <= i < |db.entries| ==> EntryConsistent(db.segments, db.entries[i]))
  }

  /** Consistency of an entry depends only on its own segments. */
  lemma ConsistentFrame(segs: seq<Segment>, segs': seq<Segment>, e: Entry)
    requires SegmentsOf(segs', e.id) == SegmentsOf(segs, e.id)
    ensures EntryConsistent(segs', e) == EntryConsistent(segs, e)
  {
  }

  /** Every segment row names an entry id below the entry counter. */
  lemma SegmentOwnersBelowCounter(db: Db)
    requires Valid(db)
    ensures forall s :: s in db.segments ==> s.entryId < db.nextEntryId
  {
    forall s | s in db.segments ensures s.entryId < db.nextEntryId {
      var e :| e in db.entries && e.id == s.entryId;
      var i :| 0 <= i < |db.entries| && db.entries[i] == e;
    }
  }

  lemma NoSegmentsOfFreshEntry(db: Db)
    requires Valid(db)
    ensures SegmentsOf(db.segments, db.nextEntryId) == []
  {
    SegmentOwnersBelowCounter(db);
    FilterNone(db.segments, (s: Segment) => s.entryId == db.nextEntryId);
  }

  lemma EntryIdsBelowCounter(db: Db)
    requires Valid(db)
    ensures forall e :: e in db.entries ==> e.id < db.nextEntryId
  {
    forall e | e in db.entries ensures e.id < db.nextEntryId {
      var i :| 0 <= i < |db.entries| && db.entries[i] == e;
    }
  }

  /** The first entry, in table order, that is active or paused: the row
      start_entry's guard looks for (database.py:133-135). */
  function FindRunning(entries: seq<Entry>): (r: Option<nat>)
    ensures r.None? <==> forall e :: e in entries ==> !e.status.IsRunning()
    ensures r.Some? ==> r.value < |entries| && entries[r.value].status.IsRunning()
    ensures r.Some? ==> forall k :: 0 <= k < r.value ==> !entries[k].status.IsRunning()
  {
    if entries == [] then None
    else
      var r := FindRunning(entries[..|entries| - 1]);
      if r.Some? then r
      else if entries[|entries| - 1].status.IsRunning() then Some(|entries| - 1)
      else None
  }

  /** The task row with id `id`, if any (ids are unique in a valid store). */
  function FindTask(tasks: seq<Task>, id: nat): (r: Option<Task>)
    ensures r.None? <==> id !in TaskIds(tasks)
    ensures r.Some? ==> r.value in tasks && r.value.id == id
  {
    if tasks == [] then None
    else if tasks[|tasks| - 1].id == id then Some(tasks[|tasks| - 1])
    else
      assert forall t :: t in tasks ==> t in tasks[..|tasks| - 1] || t == tasks[|tasks| - 1];
      FindTask(tasks[..|tasks| - 1], id)
  }
}
