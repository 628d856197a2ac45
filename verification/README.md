# time_tracker in Dafny

A model of the time-tracking store of `time_tracker` and of the small
amount of arithmetic its Streamlit pages do with it.

The store keeps three SQLite tables, each with AUTOINCREMENT ids:

- tasks;
- time entries, each belonging to a task;
- time segments, each belonging to an entry.

Foreign keys are enforced, and they cascade on delete. An entry is `active`,
`paused` or `completed`. `start_entry` refuses to start while an entry is
active or paused, so the pages keep a single timer. (`resume_entry` has no
such guard: resuming an entry that is not paused while another runs yields
two running entries.) An entry's elapsed time is the sum of its segments'
spans. The still-open segment counts only while the entry is active.

Here the tables are sequences of row values. Each table's AUTOINCREMENT
counter is a number beside it.

The program is modelled in three layers:

- **Transition functions.** `Tasks`, `Timer` and `Entries` state every write
  operation as a function from the tables before to the tables after. These
  functions carry a `Result` for the errors SQLite or the code raise.
- **The `Store.TimeStore` class.** It holds the tables as fields. Its methods
  perform the same INSERT, UPDATE and DELETE statements one by one. Each
  method is proved to end in exactly the state its transition function
  describes.
- **Invariants.** Two invariants are proved preserved:
  - `Schema.Valid`: keys, UNIQUE task names and foreign-key closure;
  - `Schema.TimerInv`: a single running timer, and each entry's status, end
    time and total agreeing with its segments.

The read-only queries (`Reports`, `Timer.GetActiveEntry`) are functions over
the same state.

From the pages, the model covers four pieces:

- `fmt_dur` (`Format`);
- the History page's grouping by start date, with its day totals
  (`History`);
- the Dashboard's period-to-date-range rules (`Dashboard`);
- the calendar arithmetic of Python's `datetime.date` that those rules need
  (`Calendar`).

Timestamps are whole seconds since 0001-01-01T00:00:00 local time. A date is
a day ordinal as `date.toordinal()` gives it.

## Model

| member | source | states |
|---|---|---|
| Store.TimeStore.constructor | database.py:31-63 | a fresh database: three empty tables whose AUTOINCREMENT ids start at 1; both invariants hold |
| Store.TimeStore.CreateTask | database.py:68-74 | the INSERT leaves the state and result that Tasks.CreateTask gives; both invariants are kept |
| Store.TimeStore.UpdateTask | database.py:87-96 | the UPDATEs, one per passed argument, leave the state Tasks.UpdateTask gives; a rename clash writes nothing; both invariants are kept |
| Store.TimeStore.DeleteTask | database.py:99-103 | deleting the task row and cascading to its entries and their segments leaves the state Tasks.DeleteTask gives; both invariants are kept |
| Store.TimeStore.StartEntry | database.py:130-150 | the guard, then the entry INSERT and the segment INSERT, leave the state and id Timer.Start gives; both invariants are kept |
| Store.TimeStore.PauseEntry | database.py:153-162 | closing the open segments, then the status UPDATE, leave Timer.Pause's state; the invariants are kept when the entry is not completed |
| Store.TimeStore.ResumeEntry | database.py:165-174 | the segment INSERT, then the status UPDATE, leave Timer.Resume's state; the invariants are kept when the entry is paused |
| Store.TimeStore.StopEntry | database.py:177-199 | closing, then the summing loop, then the completing UPDATE, leave Timer.Stop's state; the out-parameter (stop_entry returns nothing) exposes the total written, the entry's closed-segment sum; both invariants are kept |
| Store.TimeStore.AddManualEntry | database.py:217-234 | validation, then the two INSERTs, leave the state and id Timer.AddManual gives; both invariants are kept |
| Store.TimeStore.DeleteEntry | database.py:321-326 | deleting the segments, then the entry, leaves the state Entries.DeleteEntry gives; both invariants are kept |
| Store.TimeStore.UpdateEntryNotes | database.py:329-333 | the notes UPDATE leaves the state Entries.UpdateEntryNotes gives; both invariants are kept |
| Store.ClosedTotal | database.py:188-193 | the loop's total is the sum of `end - start` over the segments that have both ends |
| Tasks.CreateTask | database.py:68-74 | fails with the UNIQUE error exactly when the trimmed name is already taken, and then changes nothing; entries and segments are never touched; `color` defaults to `DefaultColor` (#4CAF50) |
| Tasks.CreateTaskStoresTrimmed | database.py:68-74 | a created task gets a fresh id and is stored with the trimmed name, the given color, active, created at `now`; earlier rows are kept; the stored name is already stripped |
| Tasks.CreateTaskKeepsValid | database.py:34-40 | creation keeps ids keyed, names UNIQUE and foreign keys closed |
| Tasks.UpdateTask | database.py:87-96 | fails exactly when the trimmed new name equals the stored name of another row (the UNIQUE constraint), and then changes nothing; never touches entries or segments; keeps the row count |
| Tasks.UpdateTaskTouchesOnlyPassed | database.py:87-96 | only row `id` changes, and only in the fields passed; ids and creation times never change |
| Tasks.UpdateTaskStoresPassed | database.py:89-94 | after a successful update, row `id` holds the trimmed name, the color and the active flag that were passed |
| Tasks.UpdateTaskKeepsValid | database.py:87-96 | a successful or refused update keeps the task names UNIQUE and the schema valid |
| Tasks.DeleteTask | database.py:99-103 | the AUTOINCREMENT counters are not reset by a delete |
| Tasks.DeleteTaskCascades | database.py:99-103 | the task, all of its entries and all of their segments are gone; every other row of every table remains |
| Tasks.DeleteTaskKeepsValid | database.py:99-103 | the cascade leaves no dangling foreign key |
| Tasks.DeleteTaskKeepsTimerInv | database.py:99-103 | the surviving entries keep their segments, so the timer invariant holds |
| Tasks.CreateTaskPreserves | database.py:68-74 | creation keeps both invariants |
| Tasks.UpdateTaskPreserves | database.py:87-96 | an update keeps both invariants |
| Tasks.DeleteTaskPreserves | database.py:99-103 | a delete keeps both invariants |
| Tasks.GetTasks | database.py:77-84 | lists exactly the tasks (only the active ones when asked), in name order |
| Tasks.GetTasksListsEachOnce | database.py:77-84 | in a valid store, names strictly increase along the listing, so every task appears once |
| Tasks.ByNameOrder | database.py:80-82 | the name order is a total preorder |
| Text.Strip | database.py:70 | `str.strip()`: the slice of the input left once surrounding whitespace is dropped; it neither starts nor ends with whitespace |
| Text.StripIdempotent | database.py:90 | stripping a stripped name changes nothing |
| Text.NameOrder | database.py:80-82 | the BINARY collation's order is total and transitive |
| Schema.FindRunning | database.py:133-135 | finds the first active or paused entry; none exactly when no entry is running |
| Timer.ElapsedSeconds | database.py:202-212 | the loop's total is the entry's elapsed time: closed spans, plus the live span of open segments only while the entry is active |
| Timer.ElapsedFrozenUnlessActive | database.py:208-211 | for an entry that is not active, the elapsed time is the closed-segment sum whatever `now` is |
| Timer.ElapsedMonotone | database.py:210-211 | elapsed time never decreases as `now` grows |
| Timer.ElapsedAdvance | database.py:210-211 | an active entry gains `d` seconds per open segment when `d` seconds pass |
| Timer.Start | database.py:130-150 | fails with the timer-running error exactly when some entry is active or paused; otherwise fails on the foreign key exactly when the task does not exist; succeeds exactly when neither holds, returning the next entry id; a failure changes nothing; success adds one entry and keeps the tasks; `notes` defaults to the empty string |
| Timer.StartOpensTheTimer | database.py:139-147 | a successful start appends one active entry starting at `now`, and its only segment, open from `now`; the new entry is the only one running |
| Timer.StartPreserves | database.py:130-150 | starting keeps both invariants |
| Timer.Pause | database.py:153-162 | the two UPDATEs keep the tasks, the counters and the set of entry ids; every segment keeps its id, its entry and its start |
| Timer.PauseClosesSegments | database.py:153-162 | after a pause the entry has no open segment and its row is the old row with only the status set to paused; already-closed segments are untouched; each of its open segments ends at `now`, so its closed sum is what elapsed_seconds showed while active; every other entry's row and segments are unchanged |
| Timer.PausePreserves | database.py:153-162 | pausing an entry that is not completed keeps both invariants |
| Timer.Resume | database.py:165-174 | fails on the foreign key exactly when the entry does not exist, and then changes nothing |
| Timer.ResumeOpensSegment | database.py:165-174 | resuming appends exactly one open segment for the entry, starting at `now` with the next segment id, and its row becomes the old row with only the status set to active; tasks, the other counters, the number of entries, every other entry's row and segments are unchanged |
| Timer.ResumePreserves | database.py:165-174 | resuming a paused entry keeps both invariants, so the entry has exactly one open segment again |
| Timer.CloseOpenSelf | database.py:180-183 | after closing at `now`, the entry has no open segment, and its closed sum equals its elapsed time at `now` while active |
| Timer.Stop | database.py:177-199 | the entry `id` becomes completed with end time `now`; every other entry row is one that existed; tasks, counters, entry ids and the segment count are kept |
| Timer.StopClosesSegments | database.py:177-195 | after a stop the entry has no open segment; each of its open segments ends at `now`, so its closed sum is what elapsed_seconds showed while active; every other entry's row and segments are unchanged |
| Timer.StopKeepsClosedSegments | database.py:178-181 | the closing UPDATE touches only open segments: every segment that already had an end is unchanged |
| Timer.StopRecordsElapsed | database.py:177-199 | stopping a running entry completes it at `now` with total equal to what elapsed_seconds shows at that instant; no open segment is left |
| Timer.StopPreserves | database.py:177-199 | stopping keeps both invariants |
| Timer.StopExample | database.py:177-199 | start at t0, pause at t0+30, resume at t0+90, stop at t0+150: the entry is completed with 90 seconds |
| Timer.AddManual | database.py:217-234 | fails with the validation error exactly when end is not after start; otherwise fails on the foreign key exactly when the task does not exist; succeeds exactly when the span is positive and the task exists, returning the next entry id; a failure changes nothing; `notes` defaults to the empty string |
| Timer.ManualEntryShape | database.py:217-234 | a manual entry is completed with total `end - start` and has one closed segment spanning [start, end], appended to the old segments; tasks are kept and both id counters advance by one |
| Timer.ManualPreserves | database.py:217-234 | adding a manual entry keeps both invariants |
| Timer.GetActiveEntry | database.py:108-127 | none exactly when no running entry has its task; otherwise the running entry with the latest start, its task's name and color, and a permutation of its segments ordered by start |
| Timer.RunningIsUnique | database.py:133-138 | under the timer invariant, two running entries are the same entry |
| Timer.ActiveEntryIsTheTimer | database.py:108-127 | in a consistent store the query returns the one running entry; the elapsed time of the reordered segments equals that of the table's segments |
| Entries.DeleteEntry | database.py:321-326 | the two DELETEs leave the tasks and all three AUTOINCREMENT counters as they were |
| Entries.DeleteEntryRemovesOnlyIt | database.py:321-326 | the entry and its segments are gone; every other entry and every other entry's segments remain |
| Entries.DeleteEntryPreserves | database.py:321-326 | deleting an entry keeps both invariants |
| Entries.UpdateEntryNotes | database.py:329-333 | the UPDATE keeps the tasks and segments, the number of entries and every entry's id |
| Entries.UpdateEntryNotesTouchesOnlyNotes | database.py:329-333 | only the notes of entry `id` change; tasks and segments are untouched |
| Entries.UpdateEntryNotesPreserves | database.py:329-333 | editing notes keeps both invariants |
| Reports.Qualifying | database.py:245-246 | selects exactly the completed entries whose start date lies in [sd, ed] |
| Reports.Join | database.py:244 | every joined row is an entry whose task exists, carrying that task's name and color; every entry whose task exists is joined |
| Reports.JoinKeepsAll | database.py:244 | when every entry's task exists, the join keeps every entry, in order |
| Reports.GetEntries | database.py:239-252 | every row is a qualifying entry joined with its task; every joinable qualifying entry is listed; starts are descending; the rows are a permutation of the join |
| Reports.GetEntriesComplete | database.py:239-252 | in a valid store, every qualifying entry is listed once and the seconds add up to the selection's |
| Reports.GetTodayEntries | database.py:255-256 | exactly the completed entries started today, joined with their task |
| Reports.GetRangeStats | database.py:287-302 | one row per day, with days strictly ascending and within [sd, ed]; each row is that day's count (at least 1) and sum |
| Reports.RangeStatsCoverEveryDay | database.py:287-302 | every day on which a qualifying entry starts has a row |
| Reports.RangeStatsPartition | database.py:287-302 | the row days are distinct and cover every qualifying entry |
| Reports.RangeStatsCountsAddUp | database.py:292-293 | the counts add up to the number of qualifying entries |
| Reports.RangeStatsSecondsAddUp | database.py:292-293 | the sums add up to the seconds of the qualifying entries |
| Reports.GetTaskDistribution | database.py:305-318 | one row per task with joined entries, ordered by total descending; each row names a task and counts at least one entry |
| Reports.TaskDistributionIsGroups | database.py:305-318 | the rows are the per-task groups, reordered |
| Reports.TaskGroupsOccupied | database.py:309-313 | every group carries an existing task's name and color, and counts at least one row |
| Reports.TaskDistributionAddsUp | database.py:309-313 | the counts add up to the joined rows, and the sums to their seconds |
| Reports.MinStart | database.py:265 | the earliest start of the selection; absent exactly when the selection is empty |
| Reports.MaxEnd | database.py:266 | the latest end time, skipping missing ones; absent exactly when all are missing |
| Reports.GetDailyStats | database.py:259-284 | the day's count and sum over its completed entries (no join); the earliest start and latest end among them (MinStart, MaxEnd), a first start exactly when there are entries; the day's per-task breakdown |
| Reports.DailyStatsAgree | database.py:259-284 | in a valid store, the per-task breakdown adds up to the day's count and sum |
| Reports.DailyLastEnd | database.py:266 | under the timer invariant, `last_end` is present exactly when the day has entries, and bounds every one of their end times |
| History.GroupByDate | app.py:273-276 | there is a bucket for each start date and for no other day; each bucket holds exactly that day's entries, in listing order |
| History.SortedDescending | app.py:278 | the bucket days, strictly descending, each exactly once |
| History.BucketTotals | app.py:279-280 | each day total is the sum of the seconds of that day's bucket |
| History.DayTotals | app.py:278-280 | the walk visits every bucket once, latest day first, with the bucket's total |
| History.DayView | app.py:243-280 | every listed entry falls on exactly one visited day, and only days with entries are visited; the day totals add up to the page's total |
| Dashboard.PeriodRange | app.py:343-355 | every fixed period contains today; a custom range is the two dates as given |
| Dashboard.MonthPeriod | app.py:349-352 | the "This Month" branch is the first and the last day of today's month, and contains today |
| Dashboard.PeriodRangeCases | app.py:343-355 | all branches at once: "Today" is today alone (1 day); "This Week" starts on a Monday, contains today and spans 7 days; "This Month" runs from the 1st to the last day of the month, spanning its length; "This Year" runs from January 1 to December 31, spanning its length; a custom range is as given |
| Dashboard.WeekRange | app.py:346-348 | "This Week" runs from the Monday on or before today to six days later, and contains today |
| Dashboard.MonthEndRule | app.py:351-352 | going four days past the 28th, then back by that date's day of the month, gives the month's last day |
| Dashboard.MonthRange | app.py:349-352 | "This Month" runs from the 1st to the last day of today's month, contains today, and spans the month's length |
| Dashboard.YearRange | app.py:353-355 | "This Year" runs from January 1 to December 31 of today's year, and spans the year's length |
| Dashboard.DaysInRange | app.py:366 | `ed - sd + 1` for an ordered range, and 1 when `ed` is before `sd` |
| Calendar.ToOrdinal | app.py:347-355 | `date.toordinal`: the ordinal falls inside the date's year and inside its month |
| Calendar.Weekday | app.py:347 | `date.weekday`: a number from 0 (Monday) to 6 |
| Calendar.FromOrdinal | app.py:347-352 | `date.fromordinal`: a valid date whose ordinal is the given number |
| Calendar.FromToOrdinal | app.py:347-352 | `fromordinal(toordinal(d)) == d` |
| Calendar.WeekdaySteps | app.py:347 | stepping back by the weekday lands on a Monday |
| Format.FmtDur | app.py:46-53 | at least 8 characters; exactly 8 when the hours fit in two digits |
| Format.FmtDurZero | app.py:48-49 | "00:00:00" exactly for a missing, zero or negative duration |
| Format.FmtDurFields | app.py:50-52 | the output is digits with colons in the two fixed places; minutes and seconds are below 60 |
| Format.FmtDurRoundTrip | app.py:50-53 | reading the fields back as h·3600 + m·60 + s gives the duration (0 for a missing or negative one) |
| Format.Pad2RoundTrip | app.py:53 | the `:02d` field reads back as its number |
| Format.DigitsRoundTrip | app.py:53 | a decimal numeral reads back as its number |

## Left out

- SQLite plumbing is not modelled: `_get_conn`, connections and commits,
  and `init_db` run against an existing file. The constructor is `init_db`
  on a fresh file. Cascading deletes are written out as the filters they
  perform.
- Time is not read from the clock. `datetime.now()` and `date.today()` become
  the parameters `now` and `today`. A task's `created_at` column default is
  the `now` argument of CreateTask.
- ISO timestamp text and `_parse_dt` are not modelled. Timestamps are integer
  seconds, so microseconds are not represented.
- `total_seconds` is an integer here, not a REAL.
- SQL text comparisons are modelled as integer comparisons. This covers
  `DATE(start_time)`, `ORDER BY start_time` and `MIN`/`MAX` over times.
  Sortable ISO text orders the same way as the integers.
- Format.FmtDur: takes integer seconds. The `int()` truncation the source
  applies to fractional seconds is not modelled.
- Reports.GetEntries, Reports.GetTaskDistribution, Timer.GetActiveEntry:
  SQLite leaves the order of equal sort keys unspecified. The contracts
  state the ordering and the permutation, not one particular order of ties.
- Store.TimeStore.PauseEntry: the invariant is stated only for an entry that
  is not completed. The source does not check the status, so pausing a
  completed entry is modelled but may break the invariant.
- Store.TimeStore.ResumeEntry: the invariant is stated only for a paused
  entry. The source does not check the status, so resuming a completed
  entry reactivates it, as the model does.
- Manual entries are not checked for overlap with the running timer: the
  source has no such check.
- Tasks.CreateTask accepts an empty name, as `create_task` does. Only the
  Streamlit forms skip blank names (app.py:181, app.py:501).
- Calendar: years are unbounded. Python's `OverflowError` past year 9999 is
  not modelled.
- Dashboard.PeriodRange: the "Custom" period passes the two dates from the
  date widgets through unchanged. The widgets themselves are UI.
- Float arithmetic is not modelled: `fmt_hrs`, averages, percentages, CSV
  rounding.
- The rest of the Streamlit UI is not modelled: widgets, charts,
  autorefresh, the pandas groupbys, the CSV download.
