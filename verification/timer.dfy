/** The timer state machine of the store (database.py:108-234): start,
    pause, resume and stop of an entry, manual entries, the active-entry
    query and the elapsed-time computation, each as a function from the
    tables before to the tables after. `now` is the wall-clock reading the
    source takes with `datetime.now()`. */
module Timer {
  import opened Seqs
  import opened Schema

  // ---------------------------------------------------------------------------
  // Row updates shared by the transitions.

  /** The status of entry `id` set to `st`; other rows as they were. */
  function SetStatus(es: seq<Entry>, id: nat, st: Status): (r: seq<Entry>)
    ensures |r| == |es|
    ensures forall i :: 0 <= i < |es| ==>
      r[i] == if es[i].id == id then es[i].(status := st) else es[i]
  {
    seq(|es|, i requires 0 <= i < |es| => if es[i].id == id then es[i].(status := st) else es[i])
  }

  /** The completing UPDATE of stop_entry: status, end time and total. */
  function Complete(es: seq<Entry>, id: nat, now: int, total: int): (r: seq<Entry>)
    ensures |r| == |es|
    ensures forall i :: 0 <= i < |es| ==>
      r[i] == if es[i].id == id
              then es[i].(status := Completed, endTime := Some(now), totalSeconds := total)
              else es[i]
  {
    seq(|es|, i requires 0 <= i < |es| =>
      if es[i].id == id
      then es[i].(status := Completed, endTime := Some(now), totalSeconds := total)
      else es[i])
  }

  function CloseAt(s: Segment, now: int): Segment
  {
    if s.end.None? then s.(end := Some(now)) else s
  }

  /** Every still-open segment of entry `id` gets `now` as its end; other
      segments as they were. */
  function CloseOpen(segs: seq<Segment>, id: nat, now: int): (r: seq<Segment>)
    ensures |r| == |segs|
    ensures forall i :: 0 <= i < |segs| ==>
      r[i] == if segs[i].entryId == id then CloseAt(segs[i], now) else segs[i]
  {
    seq(|segs|, i requires 0 <= i < |segs| =>
      if segs[i].entryId == id then CloseAt(segs[i], now) else segs[i])
  }

  // ---------------------------------------------------------------------------
  // Elapsed time (database.py:202-212).

  /** What one segment contributes to the elapsed time: its span when
      closed, the live span up to `now` when open and the entry is active,
      nothing otherwise. */
  function SegElapsed(s: Segment, status: Status, now: int): int
  {
    if s.end.Some? then s.end.value - s.start
    else if status == Active then now - s.start
    else 0
  }

  function Elapsed(segs: seq<Segment>, status: Status, now: int): int
  {
    SumOf(segs, s => SegElapsed(s, status, now))
  }

  /** elapsed_seconds: the loop of database.py:204-211 over the entry's
      segments. */
  method ElapsedSeconds(segs: seq<Segment>, status: Status, now: int) returns (total: int)
    ensures total == Elapsed(segs, status, now)
  {
    total := 0;
    var i := 0;
    while i < |segs|
      invariant 0 <= i <= |segs|
      invariant total == Elapsed(segs[..i], status, now)
    {
      var seg := segs[i];
      if seg.end.Some? {
        total := total + (seg.end.value - seg.start);
      } else if status == Active {
        total := total + (now - seg.start);
      }
      assert segs[..i + 1] == segs[..i] + [seg];
      SumOfAppend(segs[..i], seg, s => SegElapsed(s, status, now));
      i := i + 1;
    }
    assert segs[..i] == segs;
  }

  /** While an entry is not active, its elapsed time is the sum of its closed
      segments, whatever the clock says: pausing freezes the display. */
  lemma ElapsedFrozenUnlessActive(segs: seq<Segment>, status: Status, now1: int, now2: int)
    requires status != Active
    ensures Elapsed(segs, status, now1) == Elapsed(segs, status, now2) == SumOf(segs, ClosedSpan)
  {
    SumOfSameFunction(segs, s => SegElapsed(s, status, now1), ClosedSpan);
    SumOfSameFunction(segs, s => SegElapsed(s, status, now2), ClosedSpan);
  }

  /** The elapsed time of an active entry never goes down as time passes. */
  lemma ElapsedMonotone(segs: seq<Segment>, status: Status, now1: int, now2: int)
    requires now1 <= now2
    ensures Elapsed(segs, status, now1) <= Elapsed(segs, status, now2)
  {
    SumOfMonotone(segs, s => SegElapsed(s, status, now1), s => SegElapsed(s, status, now2));
  }

  /** An active entry advances by `d` seconds for every open segment it has
      when `d` seconds pass; with the single open segment the timer keeps,
      exactly by `d`. */
  lemma {:induction false} ElapsedAdvance(segs: seq<Segment>, now: int, d: nat)
    ensures Elapsed(segs, Active, now + d) == Elapsed(segs, Active, now) + d * SumOf(segs, OpenMark)
  {
    if segs != [] {
      var s', x := segs[..|segs| - 1], segs[|segs| - 1];
      ElapsedAdvance(s', now, d);
      assert Elapsed(segs, Active, now + d) == Elapsed(s', Active, now + d) + SegElapsed(x, Active, now + d);
      assert Elapsed(segs, Active, now) == Elapsed(s', Active, now) + SegElapsed(x, Active, now);
      assert SumOf(segs, OpenMark) == SumOf(s', OpenMark) + OpenMark(x);
      assert d * SumOf(segs, OpenMark) == d * SumOf(s', OpenMark) + d * OpenMark(x);
    }
  }

  // ---------------------------------------------------------------------------
  // The transitions.

  /** start_entry (database.py:130-150). */
  function Start(db: Db, taskId: nat, notes: string := "", now: int): (r: (Db, Result<nat>))
    ensures r.1 == Err(TimerRunning) <==> exists e :: e in db.entries && e.status.IsRunning()
    ensures r.1.Err? ==> r.0 == db
    ensures r.1.Ok? <==> (forall e :: e in db.entries ==> !e.status.IsRunning()) && taskId in TaskIds(db.tasks)
    ensures r.1 == Err(UnknownTask) <==>
      (forall e :: e in db.entries ==> !e.status.IsRunning()) && taskId !in TaskIds(db.tasks)
    ensures r.1.Ok? ==> r.1.value == db.nextEntryId
    ensures r.1.Ok? ==> r.0.tasks == db.tasks && |r.0.entries| == |db.entries| + 1
  {
    if FindRunning(db.entries).Some? then (db, Err(TimerRunning))
    else if taskId !in TaskIds(db.tasks) then (db, Err(UnknownTask))
    else
      var eid := db.nextEntryId;
      var entry := Entry(eid, taskId, now, None, Active, 0, notes);
      var seg := Segment(db.nextSegmentId, eid, now, None);
      (db.(entries := db.entries + [entry], segments := db.segments + [seg],
           nextEntryId := eid + 1, nextSegmentId := db.nextSegmentId + 1),
       Ok(eid))
  }

  /** pause_entry (database.py:153-162): no status check, as in the source. */
  function Pause(db: Db, id: nat, now: int): (r: Db)
    ensures r.tasks == db.tasks
    ensures r.nextTaskId == db.nextTaskId && r.nextEntryId == db.nextEntryId && r.nextSegmentId == db.nextSegmentId
    ensures EntryIds(r.entries) == EntryIds(db.entries)
    ensures |r.segments| == |db.segments|
    ensures forall i :: 0 <= i < |r.segments| ==>
      && r.segments[i].id == db.segments[i].id && r.segments[i].entryId == db.segments[i].entryId
      && r.segments[i].start == db.segments[i].start
  {
    SetStatusIds(db.entries, id, Paused);
    db.(segments := CloseOpen(db.segments, id, now), entries := SetStatus(db.entries, id, Paused))
  }

  /** resume_entry (database.py:165-174): the INSERT of the new segment is
      what fails, through the foreign key, when the entry does not exist. */
  function Resume(db: Db, id: nat, now: int): (r: (Db, Result<()>))
    ensures r.1.Err? <==> id !in EntryIds(db.entries)
    ensures r.1.Err? ==> r.0 == db && r.1.error == UnknownEntry
  {
    if id !in EntryIds(db.entries) then (db, Err(UnknownEntry))
    else
      var seg := Segment(db.nextSegmentId, id, now, None);
      (db.(segments := db.segments + [seg], entries := SetStatus(db.entries, id, Active),
           nextSegmentId := db.nextSegmentId + 1),
       Ok(()))
  }

  /** stop_entry (database.py:177-199). */
  function Stop(db: Db, id: nat, now: int): (r: Db)
    ensures r.tasks == db.tasks
    ensures r.nextTaskId == db.nextTaskId && r.nextEntryId == db.nextEntryId && r.nextSegmentId == db.nextSegmentId
    ensures EntryIds(r.entries) == EntryIds(db.entries)
    ensures |r.segments| == |db.segments|
    ensures forall e :: e in r.entries && e.id == id ==> e.status == Completed && e.endTime == Some(now)
    ensures forall e :: e in r.entries && e.id != id ==> e in db.entries
  {
    var segs := CloseOpen(db.segments, id, now);
    CompleteIds(db.entries, id, now, ClosedSum(segs, id));
    db.(segments := segs, entries := Complete(db.entries, id, now, ClosedSum(segs, id)))
  }

  /** add_manual_entry (database.py:217-234): validation first, then the
      INSERT whose foreign key names the task. */
  function AddManual(db: Db, taskId: nat, start: int, end: int, notes: string := ""): (r: (Db, Result<nat>))
    ensures r.1 == Err(EndNotAfterStart) <==> end <= start
    ensures r.1.Ok? <==> start < end && taskId in TaskIds(db.tasks)
    ensures r.1 == Err(UnknownTask) <==> start < end && taskId !in TaskIds(db.tasks)
    ensures r.1.Ok? ==> r.1.value == db.nextEntryId
    ensures r.1.Err? ==> r.0 == db
  {
    if end - start <= 0 then (db, Err(EndNotAfterStart))
    else if taskId !in TaskIds(db.tasks) then (db, Err(UnknownTask))
    else
      var eid := db.nextEntryId;
      var entry := Entry(eid, taskId, start, Some(end), Completed, end - start, notes);
      var seg := Segment(db.nextSegmentId, eid, start, Some(end));
      (db.(entries := db.entries + [entry], segments := db.segments + [seg],
           nextEntryId := eid + 1, nextSegmentId := db.nextSegmentId + 1),
       Ok(eid))
  }

  // ---------------------------------------------------------------------------
  // get_active_entry (database.py:108-127).

  datatype ActiveView = ActiveView(entry: Entry, taskName: string, taskColor: string, segments: seq<Segment>)

  function ByStartDesc(a: Entry, b: Entry): bool { a.startTime >= b.startTime }
  function BySegmentStart(a: Segment, b: Segment): bool { a.start <= b.start }

  /** An entry the active-entry query can return: running, with its task. */
  predicate Joinable(tasks: seq<Task>, e: Entry)
  {
    e.status.IsRunning() && e.taskId in TaskIds(tasks)
  }

  /** The rows of the active-entry query before ordering. */
  function Candidates(db: Db): (r: seq<Entry>)
    ensures forall e :: e in r <==> e in db.entries && Joinable(db.tasks, e)
  {
    Filter(db.entries, (e: Entry) => Joinable(db.tasks, e))
  }

  lemma ActiveOrders()
    ensures TotalPreorder(ByStartDesc) && TotalPreorder(BySegmentStart)
  {
  }

  /** Running entries joined with their task, the latest start first, with
      the entry's segments in order of start. */
  function GetActiveEntry(db: Db): (r: Option<ActiveView>)
    ensures r.None? <==> forall e :: e in db.entries ==> !Joinable(db.tasks, e)
    ensures r.Some? ==>
      && r.value.entry in db.entries
      && Joinable(db.tasks, r.value.entry)
      && (forall e :: e in db.entries && Joinable(db.tasks, e) ==> e.startTime <= r.value.entry.startTime)
    ensures r.Some? ==>
      && r.value.taskName == FindTask(db.tasks, r.value.entry.taskId).value.name
      && r.value.taskColor == FindTask(db.tasks, r.value.entry.taskId).value.color
      && Sorted(r.value.segments, BySegmentStart)
      && multiset(r.value.segments) == multiset(SegmentsOf(db.segments, r.value.entry.id))
  {
    var running := Candidates(db);
    if running == [] then None
    else
      ActiveOrders();
      SortHead(running, ByStartDesc);
      var e := Sort(running, ByStartDesc)[0];
      var t := FindTask(db.tasks, e.taskId).value;
      Some(ActiveView(e, t.name, t.color, Sort(SegmentsOf(db.segments, e.id), BySegmentStart)))
  }

  /** Under the timer invariant two running entries are the same entry. */
  lemma RunningIsUnique(db: Db, a: Entry, b: Entry)
    requires SingleTimer(db.entries)
    requires a in db.entries && b in db.entries && a.status.IsRunning() && b.status.IsRunning()
    ensures a == b
  {
    var i :| 0 <= i < |db.entries| && db.entries[i] == a;
    var j :| 0 <= j < |db.entries| && db.entries[j] == b;
    assert i == j;
  }

  /** The reordered segments of the active view give the same elapsed time
      as the entry's segments in table order. */
  lemma ActiveViewElapsed(db: Db, now: int)
    requires GetActiveEntry(db).Some?
    ensures var v := GetActiveEntry(db).value;
      Elapsed(v.segments, v.entry.status, now) == Elapsed(SegmentsOf(db.segments, v.entry.id), v.entry.status, now)
  {
    var v := GetActiveEntry(db).value;
    SumOfPermutation(v.segments, SegmentsOf(db.segments, v.entry.id), s => SegElapsed(s, v.entry.status, now));
  }

  /** In a store that keeps the timer invariant, the active-entry query
      returns the one running entry, and its elapsed time is that of the
      entry's segments as the table holds them. */
  lemma ActiveEntryIsTheTimer(db: Db, now: int)
    requires Valid(db) && TimerInv(db)
    ensures GetActiveEntry(db).None? <==> forall e :: e in db.entries ==> !e.status.IsRunning()
    ensures GetActiveEntry(db).Some? ==>
      var v := GetActiveEntry(db).value;
      && (forall e :: e in db.entries && e.status.IsRunning() ==> e == v.entry)
      && Elapsed(v.segments, v.entry.status, now) == Elapsed(SegmentsOf(db.segments, v.entry.id), v.entry.status, now)
  {
    var r := GetActiveEntry(db);
    if r.Some? {
      var v := r.value;
      forall e | e in db.entries && e.status.IsRunning() ensures e == v.entry {
        RunningIsUnique(db, e, v.entry);
      }
      ActiveViewElapsed(db, now);
    }
  }

  // ---------------------------------------------------------------------------
  // Facts about the segment updates.

  lemma CloseOpenAppend(segs: seq<Segment>, x: Segment, id: nat, now: int)
    ensures CloseOpen(segs + [x], id, now)
         == CloseOpen(segs, id, now) + [if x.entryId == id then CloseAt(x, now) else x]
  {
  }

  lemma {:induction false} CloseOpenOther(segs: seq<Segment>, id: nat, now: int, eid: nat)
    requires eid != id
    ensures SegmentsOf(CloseOpen(segs, id, now), eid) == SegmentsOf(segs, eid)
  {
    if segs != [] {
      var s', x := segs[..|segs| - 1], segs[|segs| - 1];
      assert segs == s' + [x];
      CloseOpenAppend(s', x, id, now);
      CloseOpenOther(s', id, now, eid);
      SegmentsOfAppend(s', x, eid);
      SegmentsOfAppend(CloseOpen(s', id, now), if x.entryId == id then CloseAt(x, now) else x, eid);
    }
  }

  /** One more segment closed at `now` keeps the closed segments free of
      open ones, and adds its elapsed time to their closed sum. */
  lemma CloseStep(closed: seq<Segment>, own: seq<Segment>, x: Segment, now: int)
    requires SumOf(closed, OpenMark) == 0 && SumOf(closed, ClosedSpan) == Elapsed(own, Active, now)
    ensures SumOf(closed + [CloseAt(x, now)], OpenMark) == 0
    ensures SumOf(closed + [CloseAt(x, now)], ClosedSpan) == Elapsed(own + [x], Active, now)
  {
    SumOfAppend(closed, CloseAt(x, now), OpenMark);
    SumOfAppend(closed, CloseAt(x, now), ClosedSpan);
    SumOfAppend(own, x, s => SegElapsed(s, Active, now));
  }

  /** After closing the open segments of `id` at `now`, that entry has no
      open segment left, and its closed sum is what its elapsed time was at
      `now` while active. */
  lemma {:induction false} CloseOpenSelf(segs: seq<Segment>, id: nat, now: int)
    ensures OpenCount(CloseOpen(segs, id, now), id) == 0
    ensures ClosedSum(CloseOpen(segs, id, now), id) == Elapsed(SegmentsOf(segs, id), Active, now)
  {
    var closed', own' := SegmentsOf(CloseOpen(segs, id, now), id), SegmentsOf(segs, id);
    if segs == [] {
      assert closed' == [] && own' == [];
    } else {
      var s', x := segs[..|segs| - 1], segs[|segs| - 1];
      assert segs == s' + [x];
      var x' := if x.entryId == id then CloseAt(x, now) else x;
      CloseOpenAppend(s', x, id, now);
      CloseOpenSelf(s', id, now);
      SegmentsOfAppend(s', x, id);
      SegmentsOfAppend(CloseOpen(s', id, now), x', id);
      var closed, own := SegmentsOf(CloseOpen(s', id, now), id), SegmentsOf(s', id);
      if x.entryId == id {
        assert closed' == closed + [x'] && own' == own + [x];
        CloseStep(closed, own, x, now);
      } else {
        assert closed' == closed && own' == own;
      }
    }
  }

  lemma SetStatusIds(es: seq<Entry>, id: nat, st: Status)
    ensures EntryIds(SetStatus(es, id, st)) == EntryIds(es)
  {
    var r := SetStatus(es, id, st);
    forall k | k in EntryIds(es) ensures k in EntryIds(r) {
      var e :| e in es && e.id == k;
      var i :| 0 <= i < |es| && es[i] == e;
      assert r[i].id == k;
    }
    forall k | k in EntryIds(r) ensures k in EntryIds(es) {
      var e :| e in r && e.id == k;
      var i :| 0 <= i < |r| && r[i] == e;
      assert es[i].id == k;
    }
  }

  lemma CompleteIds(es: seq<Entry>, id: nat, now: int, total: int)
    ensures EntryIds(Complete(es, id, now, total)) == EntryIds(es)
  {
    var r := Complete(es, id, now, total);
    forall k | k in EntryIds(es) ensures k in EntryIds(r) {
      var e :| e in es && e.id == k;
      var i :| 0 <= i < |es| && es[i] == e;
      assert r[i].id == k;
    }
    forall k | k in EntryIds(r) ensures k in EntryIds(es) {
      var e :| e in r && e.id == k;
      var i :| 0 <= i < |r| && r[i] == e;
      assert es[i].id == k;
    }
  }

  /** Updating entry rows in place, keeping ids and task ids, keeps Valid. */
  lemma ValidAfterEntryUpdate(db: Db, es': seq<Entry>, segs': seq<Segment>, nextSeg: nat)
    requires Valid(db)
    requires |es'| == |db.entries|
    requires forall i :: 0 <= i < |es'| ==> es'[i].id == db.entries[i].id && es'[i].taskId == db.entries[i].taskId
    requires Keyed(segs', SegmentKey, nextSeg)
    requires forall s :: s in segs' ==> s.entryId in EntryIds(db.entries)
    ensures Valid(db.(entries := es', segments := segs', nextSegmentId := nextSeg))
  {
    forall e | e in es' ensures e.taskId in TaskIds(db.tasks) {
      var i :| 0 <= i < |es'| && es'[i] == e;
      assert db.entries[i] in db.entries;
    }
    forall k | k in EntryIds(db.entries) ensures k in EntryIds(es') {
      var e :| e in db.entries && e.id == k;
      var i :| 0 <= i < |db.entries| && db.entries[i] == e;
      assert es'[i].id == k;
    }
  }

  lemma CloseOpenKeepsOwners(db: Db, id: nat, now: int)
    requires Valid(db)
    ensures Keyed(CloseOpen(db.segments, id, now), SegmentKey, db.nextSegmentId)
    ensures forall s :: s in CloseOpen(db.segments, id, now) ==> s.entryId in EntryIds(db.entries)
  {
    var c := CloseOpen(db.segments, id, now);
    forall s | s in c ensures s.entryId in EntryIds(db.entries) {
      var i :| 0 <= i < |c| && c[i] == s;
      assert db.segments[i] in db.segments;
    }
  }

  // ---------------------------------------------------------------------------
  // What each transition promises.

  /** A successful start leaves exactly one running entry, the new one, with
      start time `now` and one open segment starting at `now`; rows that
      existed are untouched. */
  lemma StartOpensTheTimer(db: Db, taskId: nat, notes: string, now: int)
    requires Valid(db)
    requires Start(db, taskId, notes, now).1.Ok?
    ensures var (db', r) := Start(db, taskId, notes, now);
      && (forall e :: e in db'.entries ==> (e.status.IsRunning() <==> e.id == r.value))
      && db'.entries == db.entries + [Entry(r.value, taskId, now, None, Active, 0, notes)]
      && db'.segments == db.segments + [Segment(db.nextSegmentId, r.value, now, None)]
      && SegmentsOf(db'.segments, r.value) == [Segment(db.nextSegmentId, r.value, now, None)]
  {
    var (db', r) := Start(db, taskId, notes, now);
    NoSegmentsOfFreshEntry(db);
    SegmentsOfAppend(db.segments, Segment(db.nextSegmentId, r.value, now, None), r.value);
    EntryIdsBelowCounter(db);
  }

  /** Appending one entry and one segment of it keeps the older entries'
      consistency. */
  lemma AppendKeepsOthersConsistent(db: Db, entry: Entry, seg: Segment)
    requires Valid(db) && TimerInv(db)
    requires entry.id == db.nextEntryId && seg.entryId == entry.id
    ensures forall i :: 0 <= i < |db.entries| ==>
      EntryConsistent(db.segments + [seg], (db.entries + [entry])[i])
  {
    EntryIdsBelowCounter(db);
    forall i | 0 <= i < |db.entries|
      ensures EntryConsistent(db.segments + [seg], (db.entries + [entry])[i])
    {
      var e := db.entries[i];
      assert e in db.entries;
      SegmentsOfAppend(db.segments, seg, e.id);
      ConsistentFrame(db.segments, db.segments + [seg], e);
    }
  }

  lemma StartKeepsValid(db: Db, taskId: nat, notes: string, now: int)
    requires Valid(db)
    ensures Valid(Start(db, taskId, notes, now).0)
  {
    var (db', r) := Start(db, taskId, notes, now);
    if r.Ok? {
      var eid := r.value;
      KeyedAppend(db.entries, Entry(eid, taskId, now, None, Active, 0, notes), EntryKey, db.nextEntryId);
      KeyedAppend(db.segments, Segment(db.nextSegmentId, eid, now, None), SegmentKey, db.nextSegmentId);
      assert db'.entries == db.entries + [Entry(eid, taskId, now, None, Active, 0, notes)];
      assert EntryIds(db'.entries) == EntryIds(db.entries) + {eid};
    }
  }

  lemma StartKeepsTimerInv(db: Db, taskId: nat, notes: string, now: int)
    requires Valid(db) && TimerInv(db)
    ensures TimerInv(Start(db, taskId, notes, now).0)
  {
    if FindRunning(db.entries).None? && taskId in TaskIds(db.tasks) {
      var eid := db.nextEntryId;
      var seg := Segment(db.nextSegmentId, eid, now, None);
      var entry := Entry(eid, taskId, now, None, Active, 0, notes);
      NoSegmentsOfFreshEntry(db);
      SegmentsOfAppend(db.segments, seg, eid);
      assert SumOf([seg], OpenMark) == SumOf([], OpenMark) + OpenMark(seg);
      assert EntryConsistent(db.segments + [seg], entry);
      AppendKeepsTimerInv(db, entry, seg);
    }
  }

  /** Starting a timer keeps both invariants. */
  lemma StartPreserves(db: Db, taskId: nat, notes: string, now: int)
    requires Valid(db) && TimerInv(db)
    ensures Valid(Start(db, taskId, notes, now).0) && TimerInv(Start(db, taskId, notes, now).0)
  {
    StartKeepsValid(db, taskId, notes, now);
    StartKeepsTimerInv(db, taskId, notes, now);
  }

  /** Pausing closes every open segment of the entry, marks it paused and
      touches no other entry's segments. */
  lemma PauseClosesSegments(db: Db, id: nat, now: int)
    ensures OpenCount(Pause(db, id, now).segments, id) == 0
    ensures ClosedSum(Pause(db, id, now).segments, id) == Elapsed(SegmentsOf(db.segments, id), Active, now)
    ensures forall i :: 0 <= i < |db.segments| && db.segments[i].entryId == id && db.segments[i].end.None? ==>
      Pause(db, id, now).segments[i].end == Some(now)
    ensures forall i :: 0 <= i < |db.entries| && db.entries[i].id != id ==> Pause(db, id, now).entries[i] == db.entries[i]
    ensures forall eid :: eid != id ==> SegmentsOf(Pause(db, id, now).segments, eid) == SegmentsOf(db.segments, eid)
    ensures forall e :: e in Pause(db, id, now).entries && e.id == id ==> e.status == Paused
    ensures forall i :: 0 <= i < |db.entries| && db.entries[i].id == id ==>
      Pause(db, id, now).entries[i] == db.entries[i].(status := Paused)
    ensures forall i :: 0 <= i < |db.segments| && db.segments[i].end.Some? ==> Pause(db, id, now).segments[i] == db.segments[i]
  {
    CloseOpenSelf(db.segments, id, now);
    forall eid | eid != id
      ensures SegmentsOf(Pause(db, id, now).segments, eid) == SegmentsOf(db.segments, eid)
    {
      CloseOpenOther(db.segments, id, now, eid);
    }
  }

  /** One row after a pause agrees with its segments, when the paused entry
      was not completed. */
  lemma PauseRowConsistent(db: Db, id: nat, now: int, i: nat)
    requires TimerInv(db) && i < |db.entries|
    requires db.entries[i].id == id ==> db.entries[i].status != Completed
    ensures EntryConsistent(Pause(db, id, now).segments, Pause(db, id, now).entries[i])
  {
    var e := db.entries[i];
    assert e in db.entries;
    PauseClosesSegments(db, id, now);
    if e.id != id {
      ConsistentFrame(db.segments, Pause(db, id, now).segments, e);
    }
  }

  /** Pausing an entry that is not completed keeps both invariants. */
  lemma PausePreserves(db: Db, id: nat, now: int)
    requires Valid(db) && TimerInv(db)
    requires forall e :: e in db.entries && e.id == id ==> e.status != Completed
    ensures Valid(Pause(db, id, now)) && TimerInv(Pause(db, id, now))
  {
    var db' := Pause(db, id, now);
    CloseOpenKeepsOwners(db, id, now);
    ValidAfterEntryUpdate(db, db'.entries, db'.segments, db.nextSegmentId);
    forall i | 0 <= i < |db'.entries| ensures EntryConsistent(db'.segments, db'.entries[i]) {
      PauseRowConsistent(db, id, now, i);
    }
    assert SingleTimer(db'.entries) by {
      forall i | 0 <= i < |db.entries|
        ensures db'.entries[i].status.IsRunning() <==> db.entries[i].status.IsRunning()
      {
        assert db.entries[i] in db.entries;
      }
    }
  }

  /** Resuming an existing entry opens exactly one new segment at `now` and
      makes the entry active. */
  lemma ResumeOpensSegment(db: Db, id: nat, now: int)
    requires id in EntryIds(db.entries)
    ensures var db' := Resume(db, id, now).0;
      && SegmentsOf(db'.segments, id) == SegmentsOf(db.segments, id) + [Segment(db.nextSegmentId, id, now, None)]
      && (forall eid :: eid != id ==> SegmentsOf(db'.segments, eid) == SegmentsOf(db.segments, eid))
      && (forall e :: e in db'.entries && e.id == id ==> e.status == Active)
      && db'.tasks == db.tasks
      && db'.segments == db.segments + [Segment(db.nextSegmentId, id, now, None)]
      && db'.nextSegmentId == db.nextSegmentId + 1
      && db'.nextTaskId == db.nextTaskId && db'.nextEntryId == db.nextEntryId
      && |db'.entries| == |db.entries|
      && (forall i :: 0 <= i < |db.entries| && db.entries[i].id != id ==> db'.entries[i] == db.entries[i])
      && (forall i :: 0 <= i < |db.entries| && db.entries[i].id == id ==> db'.entries[i] == db.entries[i].(status := Active))
  {
    var seg := Segment(db.nextSegmentId, id, now, None);
    SegmentsOfAppend(db.segments, seg, id);
    forall eid | eid != id
      ensures SegmentsOf(db.segments + [seg], eid) == SegmentsOf(db.segments, eid)
    {
      SegmentsOfAppend(db.segments, seg, eid);
    }
  }

  lemma ResumeKeepsValid(db: Db, id: nat, now: int)
    requires Valid(db)
    ensures Valid(Resume(db, id, now).0)
  {
    var (db', r) := Resume(db, id, now);
    if r.Ok? {
      var seg := Segment(db.nextSegmentId, id, now, None);
      KeyedAppend(db.segments, seg, SegmentKey, db.nextSegmentId);
      assert db'.segments == db.segments + [seg];
      ValidAfterEntryUpdate(db, db'.entries, db'.segments, db.nextSegmentId + 1);
    }
  }

  lemma ResumeRowConsistent(db: Db, id: nat, now: int, i: nat)
    requires TimerInv(db) && id in EntryIds(db.entries) && i < |db.entries|
    requires db.entries[i].id == id ==> db.entries[i].status == Paused
    ensures EntryConsistent(Resume(db, id, now).0.segments, Resume(db, id, now).0.entries[i])
  {
    var db' := Resume(db, id, now).0;
    var e := db.entries[i];
    assert EntryConsistent(db.segments, e);
    ResumeOpensSegment(db, id, now);
    if e.id != id {
      assert db'.entries[i] == e;
      ConsistentFrame(db.segments, db'.segments, e);
    } else {
      SumOfAppend(SegmentsOf(db.segments, id), Segment(db.nextSegmentId, id, now, None), OpenMark);
    }
  }

  lemma ResumeKeepsTimerInv(db: Db, id: nat, now: int)
    requires TimerInv(db)
    requires forall e :: e in db.entries && e.id == id ==> e.status == Paused
    ensures TimerInv(Resume(db, id, now).0)
  {
    var (db', r) := Resume(db, id, now);
    if r.Ok? {
      forall i | 0 <= i < |db'.entries| ensures EntryConsistent(db'.segments, db'.entries[i]) {
        assert db.entries[i] in db.entries;
        ResumeRowConsistent(db, id, now, i);
      }
      SetStatusKeepsRunning(db.entries, id, Active);
    }
  }

  /** Setting a running status on entries that are already running keeps
      the single timer. */
  lemma SetStatusKeepsRunning(es: seq<Entry>, id: nat, st: Status)
    requires SingleTimer(es) && st.IsRunning()
    requires forall e :: e in es && e.id == id ==> e.status.IsRunning()
    ensures SingleTimer(SetStatus(es, id, st))
  {
    var es' := SetStatus(es, id, st);
    forall i | 0 <= i < |es| ensures es'[i].status.IsRunning() == es[i].status.IsRunning() {
      assert es[i] in es;
    }
  }

  /** Resuming a paused entry keeps both invariants; in particular the entry
      still has exactly one open segment. */
  lemma ResumePreserves(db: Db, id: nat, now: int)
    requires Valid(db) && TimerInv(db)
    requires forall e :: e in db.entries && e.id == id ==> e.status == Paused
    ensures Valid(Resume(db, id, now).0) && TimerInv(Resume(db, id, now).0)
  {
    ResumeKeepsValid(db, id, now);
    ResumeKeepsTimerInv(db, id, now);
  }

  lemma {:induction false} NoOpenSegmentsFreezes(segs: seq<Segment>, now: int)
    requires SumOf(segs, OpenMark) == 0
    ensures Elapsed(segs, Paused, now) == Elapsed(segs, Active, now)
  {
    if segs != [] {
      var s', x := segs[..|segs| - 1], segs[|segs| - 1];
      SumOfNonNegative(s', OpenMark);
      NoOpenSegmentsFreezes(s', now);
    }
  }

  /** Stopping a running entry records as its total exactly what
      elapsed_seconds shows for it at that instant, leaves it no open
      segment and marks it completed at `now`. */
  lemma StopRecordsElapsed(db: Db, id: nat, now: int)
    requires TimerInv(db)
    ensures var db' := Stop(db, id, now);
      && OpenCount(db'.segments, id) == 0
      && forall i :: 0 <= i < |db.entries| && db.entries[i].id == id && db.entries[i].status.IsRunning() ==>
           db'.entries[i] == db.entries[i].(status := Completed, endTime := Some(now),
             totalSeconds := Elapsed(SegmentsOf(db.segments, id), db.entries[i].status, now))
  {
    CloseOpenSelf(db.segments, id, now);
    forall i | 0 <= i < |db.entries| && db.entries[i].id == id && db.entries[i].status == Paused
      ensures Elapsed(SegmentsOf(db.segments, id), Paused, now) == Elapsed(SegmentsOf(db.segments, id), Active, now)
    {
      assert EntryConsistent(db.segments, db.entries[i]);
      NoOpenSegmentsFreezes(SegmentsOf(db.segments, id), now);
    }
  }

  /** Stopping closes every open segment of the entry at `now`, so its
      closed sum is the elapsed time it showed while active; no other
      entry's row or segments change. */
  lemma StopClosesSegments(db: Db, id: nat, now: int)
    ensures OpenCount(Stop(db, id, now).segments, id) == 0
    ensures ClosedSum(Stop(db, id, now).segments, id) == Elapsed(SegmentsOf(db.segments, id), Active, now)
    ensures forall i :: 0 <= i < |db.segments| && db.segments[i].entryId == id && db.segments[i].end.None? ==>
      Stop(db, id, now).segments[i].end == Some(now)
    ensures forall eid :: eid != id ==> SegmentsOf(Stop(db, id, now).segments, eid) == SegmentsOf(db.segments, eid)
    ensures forall i :: 0 <= i < |db.entries| && db.entries[i].id != id ==> Stop(db, id, now).entries[i] == db.entries[i]
  {
    CloseOpenSelf(db.segments, id, now);
    forall eid | eid != id
      ensures SegmentsOf(Stop(db, id, now).segments, eid) == SegmentsOf(db.segments, eid)
    {
      CloseOpenOther(db.segments, id, now, eid);
    }
  }

  /** Stopping leaves every already-closed segment as it was. */
  lemma StopKeepsClosedSegments(db: Db, id: nat, now: int)
    ensures forall i :: 0 <= i < |db.segments| && db.segments[i].end.Some? ==> Stop(db, id, now).segments[i] == db.segments[i]
  {
  }

  /** Stopping keeps both invariants, from any state. */
  lemma StopKeepsValid(db: Db, id: nat, now: int)
    requires Valid(db)
    ensures Valid(Stop(db, id, now))
  {
    var db' := Stop(db, id, now);
    CloseOpenKeepsOwners(db, id, now);
    ValidAfterEntryUpdate(db, db'.entries, db'.segments, db.nextSegmentId);
  }

  lemma StopRowConsistent(db: Db, id: nat, now: int, i: nat)
    requires TimerInv(db) && i < |db.entries|
    ensures EntryConsistent(Stop(db, id, now).segments, Stop(db, id, now).entries[i])
  {
    var db' := Stop(db, id, now);
    var e := db.entries[i];
    assert EntryConsistent(db.segments, e);
    if e.id != id {
      assert db'.entries[i] == e;
      CloseOpenOther(db.segments, id, now, e.id);
      ConsistentFrame(db.segments, db'.segments, e);
    } else {
      CloseOpenSelf(db.segments, id, now);
    }
  }

  lemma StopKeepsTimerInv(db: Db, id: nat, now: int)
    requires TimerInv(db)
    ensures TimerInv(Stop(db, id, now))
  {
    var db' := Stop(db, id, now);
    forall i | 0 <= i < |db'.entries| ensures EntryConsistent(db'.segments, db'.entries[i]) {
      StopRowConsistent(db, id, now, i);
    }
    assert forall i :: 0 <= i < |db.entries| ==>
      (db'.entries[i].status.IsRunning() ==> db.entries[i].status.IsRunning());
  }

  /** Stopping keeps both invariants, from any state. */
  lemma StopPreserves(db: Db, id: nat, now: int)
    requires Valid(db) && TimerInv(db)
    ensures Valid(Stop(db, id, now)) && TimerInv(Stop(db, id, now))
  {
    StopKeepsValid(db, id, now);
    StopKeepsTimerInv(db, id, now);
  }

  /** A manual entry is created completed, with total `end - start` and a
      single closed segment spanning [start, end]. */
  lemma ManualEntryShape(db: Db, taskId: nat, start: int, end: int, notes: string)
    requires Valid(db)
    requires AddManual(db, taskId, start, end, notes).1.Ok?
    ensures var (db', r) := AddManual(db, taskId, start, end, notes);
      && start < end
      && db'.entries == db.entries + [Entry(r.value, taskId, start, Some(end), Completed, end - start, notes)]
      && SegmentsOf(db'.segments, r.value) == [Segment(db.nextSegmentId, r.value, start, Some(end))]
      && ClosedSum(db'.segments, r.value) == end - start
      && OpenCount(db'.segments, r.value) == 0
      && db'.tasks == db.tasks
      && db'.segments == db.segments + [Segment(db.nextSegmentId, r.value, start, Some(end))]
      && db'.nextSegmentId == db.nextSegmentId + 1 && db'.nextEntryId == db.nextEntryId + 1
  {
    var (db', r) := AddManual(db, taskId, start, end, notes);
    var seg := Segment(db.nextSegmentId, r.value, start, Some(end));
    NoSegmentsOfFreshEntry(db);
    SegmentsOfAppend(db.segments, seg, r.value);
    assert SumOf([seg], ClosedSpan) == SumOf([], ClosedSpan) + ClosedSpan(seg);
    assert SumOf([seg], OpenMark) == SumOf([], OpenMark) + OpenMark(seg);
  }

  lemma ManualKeepsValid(db: Db, taskId: nat, start: int, end: int, notes: string)
    requires Valid(db)
    ensures Valid(AddManual(db, taskId, start, end, notes).0)
  {
    var (db', r) := AddManual(db, taskId, start, end, notes);
    if r.Ok? {
      var eid := r.value;
      var entry := Entry(eid, taskId, start, Some(end), Completed, end - start, notes);
      KeyedAppend(db.entries, entry, EntryKey, db.nextEntryId);
      KeyedAppend(db.segments, Segment(db.nextSegmentId, eid, start, Some(end)), SegmentKey, db.nextSegmentId);
      assert db'.entries == db.entries + [entry];
      assert EntryIds(db'.entries) == EntryIds(db.entries) + {eid};
    }
  }

  lemma ManualKeepsTimerInv(db: Db, taskId: nat, start: int, end: int, notes: string)
    requires Valid(db) && TimerInv(db)
    ensures TimerInv(AddManual(db, taskId, start, end, notes).0)
  {
    var (db', r) := AddManual(db, taskId, start, end, notes);
    if r.Ok? {
      var eid := r.value;
      var seg := Segment(db.nextSegmentId, eid, start, Some(end));
      var entry := Entry(eid, taskId, start, Some(end), Completed, end - start, notes);
      ManualEntryShape(db, taskId, start, end, notes);
      AppendKeepsTimerInv(db, entry, seg);
    }
  }

  /** Appending a new entry with one segment of its own keeps the timer
      invariant when the new entry agrees with that segment and does not
      start a second timer. */
  lemma AppendKeepsTimerInv(db: Db, entry: Entry, seg: Segment)
    requires Valid(db) && TimerInv(db)
    requires entry.id == db.nextEntryId && seg.entryId == entry.id
    requires EntryConsistent(db.segments + [seg], entry)
    requires entry.status.IsRunning() ==> forall e :: e in db.entries ==> !e.status.IsRunning()
    ensures TimerInv(db.(entries := db.entries + [entry], segments := db.segments + [seg]))
  {
    var es', segs' := db.entries + [entry], db.segments + [seg];
    AppendKeepsOthersConsistent(db, entry, seg);
    forall i | 0 <= i < |es'| ensures EntryConsistent(segs', es'[i]) {
      if i == |db.entries| {
        assert es'[i] == entry;
      }
    }
    forall i, j | 0 <= i < j < |es'| ensures !(es'[i].status.IsRunning() && es'[j].status.IsRunning()) {
      if j == |db.entries| {
        assert es'[i] in db.entries;
      }
    }
  }

  /** Adding a manual entry keeps both invariants. */
  lemma ManualPreserves(db: Db, taskId: nat, start: int, end: int, notes: string)
    requires Valid(db) && TimerInv(db)
    ensures Valid(AddManual(db, taskId, start, end, notes).0) && TimerInv(AddManual(db, taskId, start, end, notes).0)
  {
    ManualKeepsValid(db, taskId, start, end, notes);
    ManualKeepsTimerInv(db, taskId, start, end, notes);
  }

  /** The worked example of stop_entry: started at t0, paused 30 seconds
      later, resumed at t0 + 90 and stopped at t0 + 150, the entry records
      the 30 + 60 = 90 seconds it ran. */
  lemma StopExample(t0: int)
    ensures var db0 := Db([Task(1, "work", DefaultColor, true, t0)], [], [], 2, 1, 1);
      var (db1, r1) := Start(db0, 1, "", t0);
      var db2 := Pause(db1, 1, t0 + 30);
      var (db3, r3) := Resume(db2, 1, t0 + 90);
      var db4 := Stop(db3, 1, t0 + 150);
      && r1 == Ok(1) && r3 == Ok(())
      && db4.entries == [Entry(1, 1, t0, Some(t0 + 150), Completed, 90, "")]
  {
    var ts := [Task(1, "work", DefaultColor, true, t0)];
    ExampleStart(ts, t0);
    ExamplePause(ts, t0);
    ExampleResume(ts, t0);
    ExampleStop(ts, t0);
  }

  lemma ExampleStart(ts: seq<Task>, t0: int)
    requires ts == [Task(1, "work", DefaultColor, true, t0)]
    ensures Start(Db(ts, [], [], 2, 1, 1), 1, "", t0)
         == (Db(ts, [Entry(1, 1, t0, None, Active, 0, "")], [Segment(1, 1, t0, None)], 2, 2, 2), Ok(1))
  {
    assert ts[0].id == 1;
    assert 1 in TaskIds(ts);
    assert FindRunning([]).None?;
    assert [] + [Entry(1, 1, t0, None, Active, 0, "")] == [Entry(1, 1, t0, None, Active, 0, "")];
    assert [] + [Segment(1, 1, t0, None)] == [Segment(1, 1, t0, None)];
  }

  lemma ExamplePause(ts: seq<Task>, t0: int)
    ensures Pause(Db(ts, [Entry(1, 1, t0, None, Active, 0, "")], [Segment(1, 1, t0, None)], 2, 2, 2), 1, t0 + 30)
         == Db(ts, [Entry(1, 1, t0, None, Paused, 0, "")], [Segment(1, 1, t0, Some(t0 + 30))], 2, 2, 2)
  {
    var es, segs := [Entry(1, 1, t0, None, Active, 0, "")], [Segment(1, 1, t0, None)];
    var es', segs' := SetStatus(es, 1, Paused), CloseOpen(segs, 1, t0 + 30);
    assert es[0].id == 1 && segs[0].entryId == 1;
    assert es'[0] == Entry(1, 1, t0, None, Paused, 0, "");
    assert segs'[0] == Segment(1, 1, t0, Some(t0 + 30));
    assert es' == [Entry(1, 1, t0, None, Paused, 0, "")];
    assert segs' == [Segment(1, 1, t0, Some(t0 + 30))];
  }

  lemma ExampleResume(ts: seq<Task>, t0: int)
    ensures Resume(Db(ts, [Entry(1, 1, t0, None, Paused, 0, "")], [Segment(1, 1, t0, Some(t0 + 30))], 2, 2, 2),
                   1, t0 + 90)
         == (Db(ts, [Entry(1, 1, t0, None, Active, 0, "")],
                [Segment(1, 1, t0, Some(t0 + 30)), Segment(2, 1, t0 + 90, None)], 2, 2, 3), Ok(()))
  {
    var es := [Entry(1, 1, t0, None, Paused, 0, "")];
    assert es[0].id == 1;
    var es' := SetStatus(es, 1, Active);
    assert es'[0] == Entry(1, 1, t0, None, Active, 0, "");
    assert es' == [Entry(1, 1, t0, None, Active, 0, "")];
    assert 1 in EntryIds(es);
    assert [Segment(1, 1, t0, Some(t0 + 30))] + [Segment(2, 1, t0 + 90, None)]
        == [Segment(1, 1, t0, Some(t0 + 30)), Segment(2, 1, t0 + 90, None)];
  }

  lemma ExampleStop(ts: seq<Task>, t0: int)
    ensures Stop(Db(ts, [Entry(1, 1, t0, None, Active, 0, "")],
                    [Segment(1, 1, t0, Some(t0 + 30)), Segment(2, 1, t0 + 90, None)], 2, 2, 3), 1, t0 + 150).entries
         == [Entry(1, 1, t0, Some(t0 + 150), Completed, 90, "")]
  {
    var c1, c2 := Segment(1, 1, t0, Some(t0 + 30)), Segment(2, 1, t0 + 90, Some(t0 + 150));
    var segs := CloseOpen([Segment(1, 1, t0, Some(t0 + 30)), Segment(2, 1, t0 + 90, None)], 1, t0 + 150);
    assert segs == [c1, c2];
    assert SegmentsOf(segs, 1) == segs by {
      FilterAppend([c1], c2, (s: Segment) => s.entryId == 1);
      FilterAppend([], c1, (s: Segment) => s.entryId == 1);
      assert [c1] + [c2] == segs && [] + [c1] == [c1];
    }
    assert SumOf(segs, ClosedSpan) == 90 by {
      SumOfAppend([c1], c2, ClosedSpan);
      SumOfAppend([], c1, ClosedSpan);
      assert [c1] + [c2] == segs && [] + [c1] == [c1];
    }
  }
}
