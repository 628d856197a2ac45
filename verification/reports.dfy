/** The read-only reporting queries of the store (database.py:239-318).
    Each selects the completed entries whose start date lies in a closed
    range of days, then joins, groups, sums and orders them. */
module Reports {
  import opened Seqs
  import opened Schema

  function StartDay(e: Entry): int { DayOf(e.startTime) }
  function Seconds(e: Entry): int { e.totalSeconds }

  /** The WHERE clause shared by the queries: a completed entry whose
      `DATE(start_time)` lies in [sd, ed]. */
  predicate InPeriod(e: Entry, sd: int, ed: int)
  {
    e.status == Completed && sd <= StartDay(e) <= ed
  }

  function Period(sd: int, ed: int): Entry -> bool
  {
    (e: Entry) => InPeriod(e, sd, ed)
  }

  /** The entries the WHERE clause selects, in table order. */
  function Qualifying(es: seq<Entry>, sd: int, ed: int): (r: seq<Entry>)
    ensures forall e :: e in r <==> e in es && InPeriod(e, sd, ed)
  {
    Filter(es, Period(sd, ed))
  }

  // ---------------------------------------------------------------------------
  // The join with tasks.

  /** An entry row carrying its task's name and color. */
  datatype EntryRow = EntryRow(entry: Entry, taskName: string, taskColor: string)

  function JoinRow(tasks: seq<Task>, e: Entry): EntryRow
    requires e.taskId in TaskIds(tasks)
  {
    var t := FindTask(tasks, e.taskId).value;
    EntryRow(e, t.name, t.color)
  }

  /** The inner join of entries with their tasks: entries whose task
      is missing drop out, the others carry their task's name and color. */
  function Join(tasks: seq<Task>, es: seq<Entry>): (r: seq<EntryRow>)
    ensures |r| <= |es|
    ensures forall row :: row in r ==>
      row.entry in es && row.entry.taskId in TaskIds(tasks) && row == JoinRow(tasks, row.entry)
    ensures forall e :: e in es && e.taskId in TaskIds(tasks) ==> JoinRow(tasks, e) in r
  {
    if es == [] then []
    else
      var e := es[|es| - 1];
      assert forall x :: x in es ==> x in es[..|es| - 1] || x == e;
      Join(tasks, es[..|es| - 1]) + (if e.taskId in TaskIds(tasks) then [JoinRow(tasks, e)] else [])
  }

  /** When every entry has its task, as foreign keys guarantee, the join
      keeps every entry, in order. */
  lemma {:induction false} JoinKeepsAll(tasks: seq<Task>, es: seq<Entry>)
    requires forall e :: e in es ==> e.taskId in TaskIds(tasks)
    ensures |Join(tasks, es)| == |es|
    ensures forall i :: 0 <= i < |es| ==> Join(tasks, es)[i].entry == es[i]
  {
    if es != [] {
      var es', e := es[..|es| - 1], es[|es| - 1];
      assert forall x :: x in es' ==> x in es;
      JoinKeepsAll(tasks, es');
      assert e in es;
      var j, j' := Join(tasks, es), Join(tasks, es');
      assert j == j' + [JoinRow(tasks, e)];
      forall i | 0 <= i < |es| ensures j[i].entry == es[i] {
        if i < |es'| {
          assert j[i] == j'[i] && es[i] == es'[i];
        }
      }
    }
  }

  function RowSeconds(row: EntryRow): int { row.entry.totalSeconds }
  function RowTask(row: EntryRow): int { row.entry.taskId }

  /** Summing the joined rows is summing the entries when none is dropped. */
  lemma JoinSums(tasks: seq<Task>, es: seq<Entry>)
    requires forall e :: e in es ==> e.taskId in TaskIds(tasks)
    ensures SumOf(Join(tasks, es), RowSeconds) == SumOf(es, Seconds)
  {
    JoinKeepsAll(tasks, es);
    SumOfPointwise(Join(tasks, es), RowSeconds, es, Seconds);
  }

  // ---------------------------------------------------------------------------
  // get_entries (database.py:239-252) and get_today_entries (255-256).

  function ByRowStartDesc(a: EntryRow, b: EntryRow): bool { a.entry.startTime >= b.entry.startTime }

  /** get_entries: the qualifying entries with their task, latest start
      first. */
  function GetEntries(db: Db, sd: int, ed: int): (r: seq<EntryRow>)
    ensures forall row :: row in r ==>
      && row.entry in db.entries && InPeriod(row.entry, sd, ed)
      && row.entry.taskId in TaskIds(db.tasks) && row == JoinRow(db.tasks, row.entry)
    ensures forall e :: e in db.entries && InPeriod(e, sd, ed) && e.taskId in TaskIds(db.tasks) ==>
      JoinRow(db.tasks, e) in r
    ensures forall i, j :: 0 <= i < j < |r| ==> r[i].entry.startTime >= r[j].entry.startTime
    ensures multiset(r) == multiset(Join(db.tasks, Qualifying(db.entries, sd, ed)))
  {
    var rows := Join(db.tasks, Qualifying(db.entries, sd, ed));
    ByRowOrder();
    var r := Sort(rows, ByRowStartDesc);
    SameElements(r, rows);
    r
  }

  lemma ByRowOrder()
    ensures TotalPreorder(ByRowStartDesc)
  {
  }

  /** get_today_entries: get_entries over the single day `today`. */
  function GetTodayEntries(db: Db, today: int): (r: seq<EntryRow>)
    ensures forall row :: row in r ==>
      row.entry in db.entries && row.entry.status == Completed && StartDay(row.entry) == today
    ensures forall e ::
      (e in db.entries && e.status == Completed && StartDay(e) == today && e.taskId in TaskIds(db.tasks))
      ==> JoinRow(db.tasks, e) in r
  {
    GetEntries(db, today, today)
  }

  /** In a valid store get_entries lists every qualifying entry exactly
      once, and their recorded seconds add up to those of the selection. */
  lemma GetEntriesComplete(db: Db, sd: int, ed: int)
    requires Valid(db)
    ensures |GetEntries(db, sd, ed)| == |Qualifying(db.entries, sd, ed)|
    ensures SumOf(GetEntries(db, sd, ed), RowSeconds) == SumOf(Qualifying(db.entries, sd, ed), Seconds)
  {
    var qs := Qualifying(db.entries, sd, ed);
    var r := GetEntries(db, sd, ed);
    JoinKeepsAll(db.tasks, qs);
    assert |r| == |multiset(r)| == |multiset(Join(db.tasks, qs))| == |Join(db.tasks, qs)|;
    SumOfPermutation(r, Join(db.tasks, qs), RowSeconds);
    JoinSums(db.tasks, qs);
  }

  // ---------------------------------------------------------------------------
  // get_range_stats (database.py:287-302).

  /** One row of get_range_stats: `day`, `total_seconds`, `entry_count`. */
  datatype DayStat = DayStat(day: int, totalSeconds: int, entryCount: nat)

  function StatDay(s: DayStat): int { s.day }
  function StatSeconds(s: DayStat): int { s.totalSeconds }
  function StatCount(s: DayStat): int { s.entryCount }

  function DaysWith(es: seq<Entry>): set<int>
  {
    set e | e in es :: StartDay(e)
  }

  /** The aggregate of the entries of one day group. */
  function DayRow(qs: seq<Entry>, d: int): DayStat
  {
    var g := KeyFilter(qs, StartDay, d);
    DayStat(d, SumOf(g, Seconds), |g|)
  }

  /** A day some entry starts on has a non-empty group. */
  lemma GroupNonEmpty<T(!new)>(s: seq<T>, key: T -> int, x: T)
    requires x in s
    ensures |KeyFilter(s, key, key(x))| >= 1
  {
    assert x in KeyFilter(s, key, key(x));
  }

  /** The rows for the listed days, in the order of `days`. */
  function DayRows(qs: seq<Entry>, days: seq<int>): (r: seq<DayStat>)
    ensures |r| == |days|
    ensures forall i :: 0 <= i < |r| ==> r[i] == DayRow(qs, days[i])
  {
    seq(|days|, i requires 0 <= i < |days| => DayRow(qs, days[i]))
  }

  /** A day on which some selected entry starts has a row with at least one
      entry, in the range. */
  lemma DayRowOccupied(qs: seq<Entry>, sd: int, ed: int, d: int)
    requires forall e :: e in qs ==> sd <= StartDay(e) <= ed
    requires d in DaysWith(qs)
    ensures sd <= d <= ed && DayRow(qs, d).entryCount >= 1
  {
    var e :| e in qs && StartDay(e) == d;
    GroupNonEmpty(qs, StartDay, e);
  }

  /** get_range_stats: one row per day that has at least one qualifying
      entry, days ascending, each the aggregate (count and sum) of that
      day's entries. */
  function GetRangeStats(db: Db, sd: int, ed: int): (r: seq<DayStat>)
    ensures forall i, j :: 0 <= i < j < |r| ==> r[i].day < r[j].day
    ensures forall i :: 0 <= i < |r| ==> sd <= r[i].day <= ed && r[i].entryCount >= 1
    ensures forall i :: 0 <= i < |r| ==> r[i] == DayRow(Qualifying(db.entries, sd, ed), r[i].day)
  {
    var qs := Qualifying(db.entries, sd, ed);
    var days := SortedElements(DaysWith(qs));
    var r := DayRows(qs, days);
    forall i | 0 <= i < |r| ensures sd <= r[i].day <= ed && r[i].entryCount >= 1 {
      DayRowOccupied(qs, sd, ed, days[i]);
    }
    r
  }

  /** Every day on which a qualifying entry starts has its row. */
  lemma RangeStatsCoverEveryDay(db: Db, sd: int, ed: int, e: Entry)
    requires e in db.entries && InPeriod(e, sd, ed)
    ensures exists i :: 0 <= i < |GetRangeStats(db, sd, ed)| && GetRangeStats(db, sd, ed)[i].day == StartDay(e)
  {
    var qs := Qualifying(db.entries, sd, ed);
    var days := SortedElements(DaysWith(qs));
    assert StartDay(e) in DaysWith(qs);
    var i :| 0 <= i < |days| && days[i] == StartDay(e);
    assert GetRangeStats(db, sd, ed)[i].day == StartDay(e);
  }

  function RowDays(r: seq<DayStat>): (days: seq<int>)
    ensures |days| == |r| && forall i :: 0 <= i < |r| ==> days[i] == r[i].day
  {
    seq(|r|, i requires 0 <= i < |r| => r[i].day)
  }

  /** The days of get_range_stats are distinct and cover every qualifying
      entry, and each row is its day's group. */
  lemma RangeStatsPartition(db: Db, sd: int, ed: int)
    ensures var r := GetRangeStats(db, sd, ed);
      && Distinct(RowDays(r))
      && (forall e :: e in Qualifying(db.entries, sd, ed) ==> StartDay(e) in RowDays(r))
  {
    var r := GetRangeStats(db, sd, ed);
    var days := RowDays(r);
    forall e | e in Qualifying(db.entries, sd, ed) ensures StartDay(e) in days {
      RangeStatsCoverEveryDay(db, sd, ed, e);
      var i :| 0 <= i < |r| && r[i].day == StartDay(e);
      assert days[i] == StartDay(e);
    }
  }

  /** The counts of get_range_stats add up to the number of qualifying
      entries. */
  lemma RangeStatsCountsAddUp(db: Db, sd: int, ed: int)
    ensures SumOf(GetRangeStats(db, sd, ed), StatCount) == |Qualifying(db.entries, sd, ed)|
  {
    var qs := Qualifying(db.entries, sd, ed);
    var r := GetRangeStats(db, sd, ed);
    var days := RowDays(r);
    RangeStatsPartition(db, sd, ed);
    forall i | 0 <= i < |days| ensures StatCount(r[i]) == SumOf(KeyFilter(qs, StartDay, days[i]), One) {
      SumOfOneIsLength(KeyFilter(qs, StartDay, days[i]));
    }
    GroupedTotal(qs, StartDay, One, days, r, StatCount);
    SumOfOneIsLength(qs);
  }

  /** The sums of get_range_stats add up to the seconds of all qualifying
      entries. */
  lemma RangeStatsSecondsAddUp(db: Db, sd: int, ed: int)
    ensures SumOf(GetRangeStats(db, sd, ed), StatSeconds) == SumOf(Qualifying(db.entries, sd, ed), Seconds)
  {
    var qs := Qualifying(db.entries, sd, ed);
    var r := GetRangeStats(db, sd, ed);
    RangeStatsPartition(db, sd, ed);
    GroupedTotal(qs, StartDay, Seconds, RowDays(r), r, StatSeconds);
  }

  // ---------------------------------------------------------------------------
  // get_task_distribution (database.py:305-318).

  /** One row of the per-task aggregate: `t.name`, `t.color`,
      `total_seconds`, `entry_count`. */
  datatype TaskStat = TaskStat(name: string, color: string, totalSeconds: int, entryCount: nat)

  function TaskSeconds(s: TaskStat): int { s.totalSeconds }
  function TaskCount(s: TaskStat): int { s.entryCount }
  function ByTotalDesc(a: TaskStat, b: TaskStat): bool { a.totalSeconds >= b.totalSeconds }

  function TaskIdsWith(rows: seq<EntryRow>): set<int>
  {
    set row | row in rows :: RowTask(row)
  }

  /** The aggregate of the joined rows of one task. */
  function TaskGroup(rows: seq<EntryRow>, tid: int): TaskStat
  {
    var g := KeyFilter(rows, RowTask, tid);
    if g == [] then TaskStat("", "", 0, 0)
    else TaskStat(g[0].taskName, g[0].taskColor, SumOf(g, RowSeconds), |g|)
  }

  /** The task rows carry the name and color of an existing task. */
  predicate FromTasks(tasks: seq<Task>, rows: seq<EntryRow>)
  {
    forall row :: row in rows ==> row.entry.taskId in TaskIds(tasks) && row == JoinRow(tasks, row.entry)
  }

  predicate NamesATask(tasks: seq<Task>, s: TaskStat)
  {
    exists t :: t in tasks && t.name == s.name && t.color == s.color
  }

  /** The group of a task that has rows is a proper aggregate of them. */
  lemma TaskGroupOccupied(tasks: seq<Task>, rows: seq<EntryRow>, tid: int)
    requires FromTasks(tasks, rows)
    requires tid in TaskIdsWith(rows)
    ensures TaskGroup(rows, tid).entryCount >= 1 && NamesATask(tasks, TaskGroup(rows, tid))
  {
    var row :| row in rows && RowTask(row) == tid;
    GroupNonEmpty(rows, RowTask, row);
    var g := KeyFilter(rows, RowTask, tid);
    assert g[0] in rows;
    assert FindTask(tasks, g[0].entry.taskId).value in tasks;
  }

  /** The groups in order of task id, before ORDER BY. */
  function TaskGroups(rows: seq<EntryRow>): (r: seq<TaskStat>)
    ensures |r| == |TaskIdsWith(rows)|
    ensures forall i :: 0 <= i < |r| ==> r[i] == TaskGroup(rows, SortedElements(TaskIdsWith(rows))[i])
  {
    var tids := SortedElements(TaskIdsWith(rows));
    seq(|tids|, i requires 0 <= i < |tids| => TaskGroup(rows, tids[i]))
  }

  lemma TaskGroupAt(tasks: seq<Task>, rows: seq<EntryRow>, i: int)
    requires FromTasks(tasks, rows)
    requires 0 <= i < |TaskGroups(rows)|
    ensures TaskGroups(rows)[i].entryCount >= 1 && NamesATask(tasks, TaskGroups(rows)[i])
  {
    var tids := SortedElements(TaskIdsWith(rows));
    assert tids[i] in tids;
    TaskGroupOccupied(tasks, rows, tids[i]);
  }

  /** Every group names a task and counts at least one row. */
  lemma TaskGroupsOccupied(tasks: seq<Task>, rows: seq<EntryRow>)
    requires FromTasks(tasks, rows)
    ensures forall s :: s in TaskGroups(rows) ==> s.entryCount >= 1 && NamesATask(tasks, s)
  {
    var groups := TaskGroups(rows);
    forall s | s in groups ensures s.entryCount >= 1 && NamesATask(tasks, s) {
      var i :| 0 <= i < |groups| && groups[i] == s;
      TaskGroupAt(tasks, rows, i);
    }
  }

  /** get_task_distribution: one row per task with qualifying entries,
      carrying that task's name and color, ordered by total descending. */
  function GetTaskDistribution(db: Db, sd: int, ed: int): (r: seq<TaskStat>)
    ensures forall i, j :: 0 <= i < j < |r| ==> r[i].totalSeconds >= r[j].totalSeconds
    ensures forall s :: s in r ==> s.entryCount >= 1 && NamesATask(db.tasks, s)
    ensures |r| == |TaskIdsWith(Join(db.tasks, Qualifying(db.entries, sd, ed)))|
  {
    var rows := Join(db.tasks, Qualifying(db.entries, sd, ed));
    var groups := TaskGroups(rows);
    TaskGroupsOccupied(db.tasks, rows);
    ByTotalOrder();
    var r := Sort(groups, ByTotalDesc);
    SameElements(r, groups);
    r
  }

  /** The rows of get_task_distribution are the per-task groups reordered. */
  lemma TaskDistributionIsGroups(db: Db, sd: int, ed: int)
    ensures multiset(GetTaskDistribution(db, sd, ed))
         == multiset(TaskGroups(Join(db.tasks, Qualifying(db.entries, sd, ed))))
  {
  }

  /** The task ids of the groups are distinct and cover every joined row. */
  lemma TaskGroupsPartition(rows: seq<EntryRow>)
    ensures Distinct(SortedElements(TaskIdsWith(rows)))
    ensures forall row :: row in rows ==> RowTask(row) in SortedElements(TaskIdsWith(rows))
  {
    forall row | row in rows ensures RowTask(row) in SortedElements(TaskIdsWith(rows)) {
      assert RowTask(row) in TaskIdsWith(rows);
    }
  }

  lemma TaskGroupsCountsAddUp(rows: seq<EntryRow>)
    ensures SumOf(TaskGroups(rows), TaskCount) == |rows|
  {
    var groups := TaskGroups(rows);
    var tids := SortedElements(TaskIdsWith(rows));
    TaskGroupsPartition(rows);
    forall i | 0 <= i < |tids|
      ensures TaskCount(groups[i]) == SumOf(KeyFilter(rows, RowTask, tids[i]), One)
    {
      SumOfOneIsLength(KeyFilter(rows, RowTask, tids[i]));
    }
    GroupedTotal(rows, RowTask, One, tids, groups, TaskCount);
    SumOfOneIsLength(rows);
  }

  lemma TaskGroupsSecondsAddUp(rows: seq<EntryRow>)
    ensures SumOf(TaskGroups(rows), TaskSeconds) == SumOf(rows, RowSeconds)
  {
    TaskGroupsPartition(rows);
    GroupedTotal(rows, RowTask, RowSeconds, SortedElements(TaskIdsWith(rows)), TaskGroups(rows), TaskSeconds);
  }

  /** The counts of get_task_distribution add up to the number of joined
      rows, its sums to their seconds. */
  lemma TaskDistributionAddsUp(db: Db, sd: int, ed: int)
    ensures var rows := Join(db.tasks, Qualifying(db.entries, sd, ed));
      && SumOf(GetTaskDistribution(db, sd, ed), TaskCount) == |rows|
      && SumOf(GetTaskDistribution(db, sd, ed), TaskSeconds) == SumOf(rows, RowSeconds)
  {
    var rows := Join(db.tasks, Qualifying(db.entries, sd, ed));
    var groups := TaskGroups(rows);
    TaskGroupsCountsAddUp(rows);
    TaskGroupsSecondsAddUp(rows);
    TaskDistributionIsGroups(db, sd, ed);
    SumOfPermutation(GetTaskDistribution(db, sd, ed), groups, TaskCount);
    SumOfPermutation(GetTaskDistribution(db, sd, ed), groups, TaskSeconds);
  }

  lemma ByTotalOrder()
    ensures TotalPreorder(ByTotalDesc)
  {
  }

  // ---------------------------------------------------------------------------
  // get_daily_stats (database.py:259-284).

  /** The earliest start of the selection; absent when it is empty. */
  function MinStart(es: seq<Entry>): (r: Option<int>)
    ensures r.None? <==> es == []
    ensures r.Some? ==> exists e :: e in es && e.startTime == r.value
    ensures r.Some? ==> forall e :: e in es ==> r.value <= e.startTime
  {
    if es == [] then None
    else
      var e := es[|es| - 1];
      var m := MinStart(es[..|es| - 1]);
      assert forall x :: x in es ==> x in es[..|es| - 1] || x == e;
      if m.Some? && m.value <= e.startTime then m else Some(e.startTime)
  }

  /** The latest end of the selection: missing end times are skipped, and
      it is absent when all are missing. */
  function MaxEnd(es: seq<Entry>): (r: Option<int>)
    ensures r.None? <==> forall e :: e in es ==> e.endTime.None?
    ensures r.Some? ==> exists e :: e in es && e.endTime == Some(r.value)
    ensures r.Some? ==> forall e :: e in es && e.endTime.Some? ==> e.endTime.value <= r.value
  {
    if es == [] then None
    else
      var e := es[|es| - 1];
      var m := MaxEnd(es[..|es| - 1]);
      assert forall x :: x in es ==> x in es[..|es| - 1] || x == e;
      if e.endTime.None? then m
      else if m.Some? && m.value >= e.endTime.value then m
      else Some(e.endTime.value)
  }

  datatype DailyStats = DailyStats(
    totalSeconds: int,
    entryCount: nat,
    firstStart: Option<int>,
    lastEnd: Option<int>,
    tasks: seq<TaskStat>)

  /** get_daily_stats: the aggregate over the completed entries started on
      day `d` (no join), plus the per-task breakdown of that day. */
  function GetDailyStats(db: Db, d: int): (r: DailyStats)
    ensures r.entryCount == |Qualifying(db.entries, d, d)|
    ensures r.totalSeconds == SumOf(Qualifying(db.entries, d, d), Seconds)
    ensures r.firstStart.None? <==> r.entryCount == 0
    ensures r.firstStart == MinStart(Qualifying(db.entries, d, d))
    ensures r.lastEnd == MaxEnd(Qualifying(db.entries, d, d))
    ensures r.tasks == GetTaskDistribution(db, d, d)
  {
    var qs := Qualifying(db.entries, d, d);
    DailyStats(SumOf(qs, Seconds), |qs|, MinStart(qs), MaxEnd(qs), GetTaskDistribution(db, d, d))
  }

  /** In a valid store the per-task breakdown of a day accounts for exactly
      the day's totals: no entry is lost to the join. */
  lemma DailyStatsAgree(db: Db, d: int)
    requires Valid(db)
    ensures var s := GetDailyStats(db, d);
      && SumOf(s.tasks, TaskCount) == s.entryCount
      && SumOf(s.tasks, TaskSeconds) == s.totalSeconds
  {
    var qs := Qualifying(db.entries, d, d);
    TaskDistributionAddsUp(db, d, d);
    JoinKeepsAll(db.tasks, qs);
    JoinSums(db.tasks, qs);
  }

  /** Under the timer invariant every completed entry has an end time, so
      `last_end` is present exactly when the day has entries, and every
      entry of the day ends no later than it. */
  lemma DailyLastEnd(db: Db, d: int)
    requires TimerInv(db)
    ensures var s := GetDailyStats(db, d);
      && (s.lastEnd.Some? <==> s.entryCount > 0)
      && forall e :: e in Qualifying(db.entries, d, d) ==> e.endTime.Some? && e.endTime.value <= s.lastEnd.value
  {
    var qs := Qualifying(db.entries, d, d);
    forall e | e in qs ensures e.endTime.Some? {
      var i :| 0 <= i < |db.entries| && db.entries[i] == e;
      assert EntryConsistent(db.segments, db.entries[i]);
    }
    if qs != [] {
      assert qs[0] in qs;
    }
  }
}
