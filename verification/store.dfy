/** The store as the program uses it: one object whose three tables and
    AUTOINCREMENT counters every write operation of database.py updates in
    place, statement by statement. Each method is proved to leave exactly
    the state the matching transition function of Tasks, Timer or Entries
    describes, so every property proved about those functions holds of the
    object; the methods that keep the store's invariants say so too. */
module Store {
  import opened Seqs
  import opened Text
  import opened Schema
  import Tasks
  import Timer
  import Entries

  class TimeStore {
    var tasks: seq<Task>
    var entries: seq<Entry>
    var segments: seq<Segment>
    var nextTaskId: nat
    var nextEntryId: nat
    var nextSegmentId: nat

    /** The tables and counters as one value. */
    function State(): Db
      reads this
    {
      Db(tasks, entries, segments, nextTaskId, nextEntryId, nextSegmentId)
    }

    /** Both invariants of the store: the schema's (Schema.Valid) and the
        single timer's (Schema.TimerInv). */
    ghost predicate Invariant()
      reads this
    {
      Consistent(State())
    }

    /** init_db on a fresh database file (database.py:31-63): empty tables
        whose AUTOINCREMENT ids start at 1. */
    constructor ()
      ensures State() == EmptyDb()
      ensures Invariant()
    {
      tasks, entries, segments := [], [], [];
      nextTaskId, nextEntryId, nextSegmentId := 1, 1, 1;
    }

    /** create_task (database.py:68-74). */
    method CreateTask(name: string, color: string := DefaultColor, now: int) returns (r: Result<nat>)
      modifies this
      ensures (State(), r) == Tasks.CreateTask(old(State()), name, color, now)
      ensures old(Invariant()) ==> Invariant()
    {
      ghost var before := State();
      ghost var after := Tasks.CreateTask(before, name, color, now);
      var trimmed := Strip(name);
      if trimmed in Tasks.TaskNames(tasks) {
        r := Err(DuplicateName);
        assert after == (before, r);
        return;
      }
      var taskId := nextTaskId;
      tasks := tasks + [Task(taskId, trimmed, color, true, now)];
      nextTaskId := nextTaskId + 1;
      r := Ok(taskId);
      assert after.0 == State();
      if Consistent(before) {
        Tasks.CreateTaskPreserves(before, name, color, now);
      }
    }

    /** update_task (database.py:87-96): one UPDATE per argument passed; a
        rename onto another task's name fails before anything is
        committed. */
    method UpdateTask(id: nat, name: Option<string>, color: Option<string>, isActive: Option<bool>)
      returns (r: Result<()>)
      modifies this
      ensures (State(), r) == Tasks.UpdateTask(old(State()), id, name, color, isActive)
      ensures old(Invariant()) ==> Invariant()
    {
      ghost var before := State();
      if Tasks.RenameClashes(tasks, id, name) {
        r := Err(DuplicateName);
        return;
      }
      if name.Some? {
        var trimmed, ts := Strip(name.value), tasks;
        tasks := seq(|ts|, i requires 0 <= i < |ts| => if ts[i].id == id then ts[i].(name := trimmed) else ts[i]);
      }
      if color.Some? {
        var ts := tasks;
        tasks := seq(|ts|, i requires 0 <= i < |ts| => if ts[i].id == id then ts[i].(color := color.value) else ts[i]);
      }
      if isActive.Some? {
        var ts := tasks;
        tasks := seq(|ts|, i requires 0 <= i < |ts| =>
          if ts[i].id == id then ts[i].(isActive := isActive.value) else ts[i]);
      }
      r := Ok(());
      assert forall i :: 0 <= i < |tasks| ==>
        tasks[i] == if before.tasks[i].id == id then Tasks.Revise(before.tasks[i], name, color, isActive)
                    else before.tasks[i];
      assert tasks == Tasks.UpdateTask(before, id, name, color, isActive).0.tasks;
      if Consistent(before) {
        Tasks.UpdateTaskPreserves(before, id, name, color, isActive);
      }
    }

    /** delete_task (database.py:99-103): the task row goes, and the
        ON DELETE CASCADE clauses take its entries and their segments. */
    method DeleteTask(tid: nat)
      modifies this
      ensures State() == Tasks.DeleteTask(old(State()), tid)
      ensures old(Invariant()) ==> Invariant()
    {
      ghost var before := State();
      var removed := Tasks.EntriesOfTask(entries, tid);
      tasks := Filter(tasks, (t: Task) => t.id != tid);
      entries := Filter(entries, (e: Entry) => e.taskId != tid);
      segments := Filter(segments, OwnerNotIn(removed));
      if Consistent(before) {
        Tasks.DeleteTaskPreserves(before, tid);
      }
    }

    /** start_entry (database.py:130-150): refused while a timer runs;
        otherwise an active entry and its first open segment, both at
        `now`. The entry's INSERT fails on the foreign key when the task
        does not exist. */
    method StartEntry(taskId: nat, notes: string := "", now: int) returns (r: Result<nat>)
      modifies this
      ensures (State(), r) == Timer.Start(old(State()), taskId, notes, now)
      ensures old(Invariant()) ==> Invariant()
    {
      ghost var before := State();
      if FindRunning(entries).Some? {
        r := Err(TimerRunning);
        return;
      }
      if taskId !in TaskIds(tasks) {
        r := Err(UnknownTask);
        return;
      }
      var entryId := nextEntryId;
      entries := entries + [Entry(entryId, taskId, now, None, Active, 0, notes)];
      nextEntryId := nextEntryId + 1;
      segments := segments + [Segment(nextSegmentId, entryId, now, None)];
      nextSegmentId := nextSegmentId + 1;
      r := Ok(entryId);
      if Consistent(before) {
        Timer.StartPreserves(before, taskId, notes, now);
      }
    }

    /** pause_entry (database.py:153-162): close the entry's open segments,
        then mark it paused. */
    method PauseEntry(id: nat, now: int)
      modifies this
      ensures State() == Timer.Pause(old(State()), id, now)
      ensures old(Invariant()) && (forall e :: e in old(entries) && e.id == id ==> e.status != Completed)
        ==> Invariant()
    {
      ghost var before := State();
      segments := Timer.CloseOpen(segments, id, now);
      entries := Timer.SetStatus(entries, id, Paused);
      if Consistent(before) && forall e :: e in before.entries && e.id == id ==> e.status != Completed {
        Timer.PausePreserves(before, id, now);
      }
    }

    /** resume_entry (database.py:165-174): a new open segment, then the
        entry marked active; the segment's INSERT fails on the foreign key
        when the entry does not exist. */
    method ResumeEntry(id: nat, now: int) returns (r: Result<()>)
      modifies this
      ensures (State(), r) == Timer.Resume(old(State()), id, now)
      ensures old(Invariant()) && (forall e :: e in old(entries) && e.id == id ==> e.status == Paused)
        ==> Invariant()
    {
      ghost var before := State();
      ghost var after := Timer.Resume(before, id, now);
      if id !in EntryIds(entries) {
        r := Err(UnknownEntry);
        return;
      }
      segments := segments + [Segment(nextSegmentId, id, now, None)];
      nextSegmentId := nextSegmentId + 1;
      entries := Timer.SetStatus(entries, id, Active);
      r := Ok(());
      assert after.0 == State();
      if Consistent(before) && forall e :: e in before.entries && e.id == id ==> e.status == Paused {
        Timer.ResumePreserves(before, id, now);
      }
    }

    /** stop_entry (database.py:177-199): close the open segments, add up
        the spans of the entry's segments in a loop, and complete the entry
        with that total at `now`. `stop_entry` itself returns nothing; the
        out-parameter only exposes the total written to the entry's row. */
    method StopEntry(id: nat, now: int) returns (total: int)
      modifies this
      ensures State() == Timer.Stop(old(State()), id, now)
      ensures total == ClosedSum(segments, id)
      ensures old(Invariant()) ==> Invariant()
    {
      ghost var before := State();
      segments := Timer.CloseOpen(segments, id, now);
      total := ClosedTotal(SegmentsOf(segments, id));
      entries := Timer.Complete(entries, id, now, total);
      if Consistent(before) {
        Timer.StopPreserves(before, id, now);
      }
    }

    /** add_manual_entry (database.py:217-234): a completed entry with one
        closed segment spanning it; refused unless the end is after the
        start, and failing on the foreign key for an unknown task. */
    method AddManualEntry(taskId: nat, start: int, end: int, notes: string := "") returns (r: Result<nat>)
      modifies this
      ensures (State(), r) == Timer.AddManual(old(State()), taskId, start, end, notes)
      ensures old(Invariant()) ==> Invariant()
    {
      ghost var before := State();
      var totalSeconds := end - start;
      if totalSeconds <= 0 {
        r := Err(EndNotAfterStart);
        return;
      }
      if taskId !in TaskIds(tasks) {
        r := Err(UnknownTask);
        return;
      }
      var entryId := nextEntryId;
      entries := entries + [Entry(entryId, taskId, start, Some(end), Completed, totalSeconds, notes)];
      nextEntryId := nextEntryId + 1;
      segments := segments + [Segment(nextSegmentId, entryId, start, Some(end))];
      nextSegmentId := nextSegmentId + 1;
      r := Ok(entryId);
      if Consistent(before) {
        Timer.ManualPreserves(before, taskId, start, end, notes);
      }
    }

    /** delete_entry (database.py:321-326): its segments, then the entry. */
    method DeleteEntry(id: nat)
      modifies this
      ensures State() == Entries.DeleteEntry(old(State()), id)
      ensures old(Invariant()) ==> Invariant()
    {
      ghost var before := State();
      segments := Filter(segments, OwnerNotIn({id}));
      entries := Filter(entries, (e: Entry) => e.id != id);
      if Consistent(before) {
        Entries.DeleteEntryPreserves(before, id);
      }
    }

    /** update_entry_notes (database.py:329-333). */
    method UpdateEntryNotes(id: nat, notes: string)
      modifies this
      ensures State() == Entries.UpdateEntryNotes(old(State()), id, notes)
      ensures old(Invariant()) ==> Invariant()
    {
      ghost var before := State();
      var es := entries;
      entries := seq(|es|, i requires 0 <= i < |es| => if es[i].id == id then es[i].(notes := notes) else es[i]);
      if Consistent(before) {
        Entries.UpdateEntryNotesPreserves(before, id, notes);
      }
    }
  }

  /** The loop of stop_entry (database.py:189-193): the spans of the
      segments that have both ends, added up in table order. */
  method ClosedTotal(own: seq<Segment>) returns (total: int)
    ensures total == SumOf(own, ClosedSpan)
  {
    total := 0;
    var i := 0;
    while i < |own|
      invariant 0 <= i <= |own|
      invariant total == SumOf(own[..i], ClosedSpan)
    {
      var seg := own[i];
      if seg.end.Some? {
        total := total + (seg.end.value - seg.start);
      }
      assert own[..i + 1] == own[..i] + [seg];
      SumOfAppend(own[..i], seg, ClosedSpan);
      i := i + 1;
    }
    assert own[..i] == own;
  }

  /** Both invariants of a state value. */
  ghost predicate Consistent(db: Db)
  {
    Valid(db) && TimerInv(db)
  }
}
