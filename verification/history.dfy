/** The History page's day view (app.py:241-280): the entries of the chosen
    range are bucketed by their start date in listing order, then the days
    are walked latest first, each with the sum of its entries' durations. */
module History {
  import opened Seqs
  import opened Schema
  import opened Reports

  /** The calendar day a row's entry started on (app.py:275). */
  function RowDay(row: EntryRow): int { DayOf(row.entry.startTime) }

  function Identity(x: int): int { x }

  /** `byDate` buckets `rows` by start date: a bucket for each day some row
      started on and for no other day, holding exactly that day's rows in
      their listing order. */
  ghost predicate GroupedBy(byDate: map<int, seq<EntryRow>>, rows: seq<EntryRow>)
  {
    forall d :: && (d in byDate <==> KeyFilter(rows, RowDay, d) != [])
                && (d in byDate ==> byDate[d] == KeyFilter(rows, RowDay, d))
  }

  /** The bucket of one day `d` once `row` is appended to its own day's
      bucket. */
  lemma GroupedAppendAt(byDate: map<int, seq<EntryRow>>, rows: seq<EntryRow>, row: EntryRow, d: int)
    requires d in byDate <==> KeyFilter(rows, RowDay, d) != []
    requires d in byDate ==> byDate[d] == KeyFilter(rows, RowDay, d)
    ensures var k := RowDay(row);
      var b := byDate[k := (if k in byDate then byDate[k] else []) + [row]];
      && (d in b <==> KeyFilter(rows + [row], RowDay, d) != [])
      && (d in b ==> b[d] == KeyFilter(rows + [row], RowDay, d))
  {
    KeyFilterAppend(rows, row, RowDay, d);
    if RowDay(row) == d {
      var f := KeyFilter(rows, RowDay, d);
      assert KeyFilter(rows + [row], RowDay, d) == f + [row];
      assert (if d in byDate then byDate[d] else []) == f;
    } else {
      assert KeyFilter(rows + [row], RowDay, d) == KeyFilter(rows, RowDay, d);
    }
  }

  /** Appending a row to its day's bucket (creating the bucket if needed)
      groups the rows with that one added. */
  lemma GroupedAppend(byDate: map<int, seq<EntryRow>>, rows: seq<EntryRow>, row: EntryRow)
    requires GroupedBy(byDate, rows)
    ensures var k := RowDay(row);
      GroupedBy(byDate[k := (if k in byDate then byDate[k] else []) + [row]], rows + [row])
  {
    var k := RowDay(row);
    var b := byDate[k := (if k in byDate then byDate[k] else []) + [row]];
    forall d ensures && (d in b <==> KeyFilter(rows + [row], RowDay, d) != [])
                     && (d in b ==> b[d] == KeyFilter(rows + [row], RowDay, d))
    {
      GroupedAppendAt(byDate, rows, row, d);
    }
  }

  /** The grouping loop of app.py:273-276: each day maps to
      exactly the rows that started on it, in their listing order, and there
      is a bucket for each day some row started on and for no other day. */
  method GroupByDate(rows: seq<EntryRow>) returns (byDate: map<int, seq<EntryRow>>)
    ensures GroupedBy(byDate, rows)
  {
    byDate := map[];
    var i := 0;
    assert rows[..i] == [];
    while i < |rows|
      invariant 0 <= i <= |rows|
      invariant GroupedBy(byDate, rows[..i])
    {
      var row := rows[i];
      var d := RowDay(row);
      var bucket := if d in byDate then byDate[d] else [];
      GroupedAppend(byDate, rows[..i], row);
      assert rows[..i + 1] == rows[..i] + [row];
      byDate := byDate[d := bucket + [row]];
      i := i + 1;
    }
    assert rows[..|rows|] == rows;
  }

  /** The bucket days, latest first (app.py:278). */
  function SortedDescending(keys: set<int>): (r: seq<int>)
    ensures StrictlyDecreasing(r)
    ensures forall d :: d in r <==> d in keys
    ensures forall i :: 0 <= i < |r| ==> r[i] in keys
  {
    ReverseIncreasing(SortedElements(keys));
    Reverse(SortedElements(keys))
  }

  /** The day totals of app.py:279-280 for the given days, in order: each
      the sum of the recorded seconds of that day's bucket. */
  method BucketTotals(byDate: map<int, seq<EntryRow>>, days: seq<int>) returns (totals: seq<int>)
    requires forall i :: 0 <= i < |days| ==> days[i] in byDate
    ensures |totals| == |days|
    ensures forall i :: 0 <= i < |days| ==> totals[i] == SumOf(byDate[days[i]], RowSeconds)
  {
    totals := [];
    var i := 0;
    while i < |days|
      invariant 0 <= i <= |days| && |totals| == i
      invariant forall j :: 0 <= j < i ==> totals[j] == SumOf(byDate[days[j]], RowSeconds)
    {
      var dayEntries := byDate[days[i]];
      totals := totals + [SumOf(dayEntries, RowSeconds)];
      i := i + 1;
    }
  }

  /** The walk over the buckets of app.py:278-280: the days latest first,
      each with the sum of its bucket. */
  method DayTotals(byDate: map<int, seq<EntryRow>>) returns (days: seq<int>, totals: seq<int>)
    ensures StrictlyDecreasing(days)
    ensures forall d :: d in days <==> d in byDate
    ensures |totals| == |days|
    ensures forall i :: 0 <= i < |days| ==>
      days[i] in byDate && totals[i] == SumOf(byDate[days[i]], RowSeconds)
  {
    days := SortedDescending(byDate.Keys);
    totals := BucketTotals(byDate, days);
  }

  /** The page's day view over the listed rows: the days latest first, each
      with the total of the rows that started on it; every listed row falls
      on exactly one of those days, and the day totals add up to the page's
      overall `total` (app.py:243). */
  method DayView(rows: seq<EntryRow>) returns (days: seq<int>, totals: seq<int>)
    ensures StrictlyDecreasing(days)
    ensures forall row :: row in rows ==> RowDay(row) in days
    ensures forall d :: d in days ==> exists row :: row in rows && RowDay(row) == d
    ensures |totals| == |days|
    ensures forall i :: 0 <= i < |days| ==> totals[i] == SumOf(KeyFilter(rows, RowDay, days[i]), RowSeconds)
    ensures SumOf(totals, Identity) == SumOf(rows, RowSeconds)
  {
    var byDate := GroupByDate(rows);
    days, totals := DayTotals(byDate);
    forall row | row in rows ensures RowDay(row) in days {
      assert row in KeyFilter(rows, RowDay, RowDay(row));
    }
    forall d | d in days ensures exists row :: row in rows && RowDay(row) == d {
      var bucket := KeyFilter(rows, RowDay, d);
      assert bucket[0] in bucket;
    }
    GroupedTotal(rows, RowDay, RowSeconds, days, totals, Identity);
  }
}
