/** Editing single entries (database.py:321-333): deleting an entry with its
    segments, and replacing its notes. */
module Entries {
  import opened Seqs
  import opened Schema

  /** delete_entry: its segments first, then the entry row. */
  function DeleteEntry(db: Db, id: nat): (r: Db)
    ensures r.tasks == db.tasks
    ensures r.nextTaskId == db.nextTaskId && r.nextEntryId == db.nextEntryId
    ensures r.nextSegmentId == db.nextSegmentId
  {
    db.(segments := Filter(db.segments, OwnerNotIn({id})),
        entries := Filter(db.entries, (e: Entry) => e.id != id))
  }

  /** Only entry `id` and its own segments go; every other entry keeps
      exactly the segments it had. */
  lemma DeleteEntryRemovesOnlyIt(db: Db, id: nat)
    ensures var db' := DeleteEntry(db, id);
      && id !in EntryIds(db'.entries)
      && SegmentsOf(db'.segments, id) == []
      && (forall e :: e in db'.entries <==> e in db.entries && e.id != id)
      && (forall s :: s in db'.segments <==> s in db.segments && s.entryId != id)
      && (forall eid :: eid != id ==> SegmentsOf(db'.segments, eid) == SegmentsOf(db.segments, eid))
  {
    var db' := DeleteEntry(db, id);
    FilterNone(db'.segments, (s: Segment) => s.entryId == id);
    forall eid | eid != id ensures SegmentsOf(db'.segments, eid) == SegmentsOf(db.segments, eid) {
      SegmentsOfFiltered(db.segments, OwnerNotIn({id}), eid);
    }
  }

  lemma DeleteEntryKeepsValid(db: Db, id: nat)
    requires Valid(db)
    ensures Valid(DeleteEntry(db, id))
  {
    var db' := DeleteEntry(db, id);
    KeyedFilter(db.entries, (e: Entry) => e.id != id, EntryKey, db.nextEntryId);
    KeyedFilter(db.segments, OwnerNotIn({id}), SegmentKey, db.nextSegmentId);
    forall s | s in db'.segments ensures s.entryId in EntryIds(db'.entries) {
      var e :| e in db.entries && e.id == s.entryId;
      assert e in db'.entries;
    }
  }

  lemma DeleteEntryKeepsTimerInv(db: Db, id: nat)
    requires TimerInv(db)
    ensures TimerInv(DeleteEntry(db, id))
  {
    var db' := DeleteEntry(db, id);
    FilterKeepsOrder(db.entries, (e: Entry) => e.id != id, NotBothRunning);
    forall i | 0 <= i < |db'.entries| ensures EntryConsistent(db'.segments, db'.entries[i]) {
      var e := db'.entries[i];
      assert e in db.entries;
      var k :| 0 <= k < |db.entries| && db.entries[k] == e;
      SegmentsOfFiltered(db.segments, OwnerNotIn({id}), e.id);
      ConsistentFrame(db.segments, db'.segments, e);
    }
  }

  /** update_entry_notes: a no-op when no entry has the id. */
  function UpdateEntryNotes(db: Db, id: nat, notes: string): (r: Db)
    ensures r.tasks == db.tasks && r.segments == db.segments
    ensures |r.entries| == |db.entries|
    ensures forall i :: 0 <= i < |r.entries| ==> r.entries[i].id == db.entries[i].id
  {
    db.(entries := seq(|db.entries|, i requires 0 <= i < |db.entries| =>
      if db.entries[i].id == id then db.entries[i].(notes := notes) else db.entries[i]))
  }

  /** Only the notes of entry `id` change; nothing else in the store does. */
  lemma UpdateEntryNotesTouchesOnlyNotes(db: Db, id: nat, notes: string)
    ensures var db' := UpdateEntryNotes(db, id, notes);
      && db'.tasks == db.tasks && db'.segments == db.segments
      && forall i :: 0 <= i < |db.entries| ==>
           db'.entries[i] == if db.entries[i].id == id then db.entries[i].(notes := notes) else db.entries[i]
  {
  }

  lemma UpdateEntryNotesKeepsValid(db: Db, id: nat, notes: string)
    requires Valid(db)
    ensures Valid(UpdateEntryNotes(db, id, notes))
  {
    var db' := UpdateEntryNotes(db, id, notes);
    assert forall i :: 0 <= i < |db.entries| ==>
      db'.entries[i].id == db.entries[i].id && db'.entries[i].taskId == db.entries[i].taskId;
    forall e | e in db'.entries ensures e.taskId in TaskIds(db.tasks) {
      var i :| 0 <= i < |db'.entries| && db'.entries[i] == e;
      assert db.entries[i] in db.entries;
    }
    forall k | k in EntryIds(db.entries) ensures k in EntryIds(db'.entries) {
      var e :| e in db.entries && e.id == k;
      var i :| 0 <= i < |db.entries| && db.entries[i] == e;
      assert db'.entries[i].id == k;
    }
  }

  lemma UpdateEntryNotesKeepsTimerInv(db: Db, id: nat, notes: string)
    requires TimerInv(db)
    ensures TimerInv(UpdateEntryNotes(db, id, notes))
  {
    var db' := UpdateEntryNotes(db, id, notes);
    forall i | 0 <= i < |db'.entries| ensures EntryConsistent(db'.segments, db'.entries[i]) {
      assert EntryConsistent(db.segments, db.entries[i]);
    }
    assert forall i :: 0 <= i < |db'.entries| ==> db'.entries[i].status == db.entries[i].status;
  }

  lemma DeleteEntryPreserves(db: Db, id: nat)
    requires Valid(db) && TimerInv(db)
    ensures Valid(DeleteEntry(db, id)) && TimerInv(DeleteEntry(db, id))
  {
    DeleteEntryKeepsValid(db, id);
    DeleteEntryKeepsTimerInv(db, id);
  }

  lemma UpdateEntryNotesPreserves(db: Db, id: nat, notes: string)
    requires Valid(db) && TimerInv(db)
    ensures Valid(UpdateEntryNotes(db, id, notes)) && TimerInv(UpdateEntryNotes(db, id, notes))
  {
    UpdateEntryNotesKeepsValid(db, id, notes);
    UpdateEntryNotesKeepsTimerInv(db, id, notes);
  }
}
