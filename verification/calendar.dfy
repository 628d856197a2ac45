/** The proleptic Gregorian calendar on day ordinals, as Python's
    `datetime.date` counts them: 0001-01-01 is day 1 and a Monday. The
    Dashboard's period rules (app.py:343-355) use `toordinal`,
    `fromordinal` (through `timedelta` arithmetic), `replace` and
    `weekday`; this module gives each of them with its round-trip. */
module Calendar {

  predicate IsLeap(y: int)
  {
    y % 4 == 0 && (y % 100 != 0 || y % 400 == 0)
  }

  function DaysInYear(y: int): int
  {
    if IsLeap(y) then 366 else 365
  }

  function DaysInMonth(y: int, m: int): (r: int)
    requires 1 <= m <= 12
    ensures 28 <= r <= 31
  {
    if m == 2 then (if IsLeap(y) then 29 else 28)
    else if m == 4 || m == 6 || m == 9 || m == 11 then 30
    else 31
  }

  /** Days in the years before `y`. */
  function DaysBeforeYear(y: int): (r: int)
    requires y >= 1
    ensures r >= 0
  {
    if y == 1 then 0 else DaysBeforeYear(y - 1) + DaysInYear(y - 1)
  }

  lemma DivStep(x: int)
    requires x >= 1
    ensures x / 4 - (x - 1) / 4 == (if x % 4 == 0 then 1 else 0)
    ensures x / 100 - (x - 1) / 100 == (if x % 100 == 0 then 1 else 0)
    ensures x / 400 - (x - 1) / 400 == (if x % 400 == 0 then 1 else 0)
  {
  }

  /** The closed form CPython computes the same number with. */
  lemma {:induction false} DaysBeforeYearClosedForm(y: int)
    requires y >= 1
    ensures DaysBeforeYear(y) == (y - 1) * 365 + (y - 1) / 4 - (y - 1) / 100 + (y - 1) / 400
  {
    if y > 1 {
      var x := y - 1;
      DaysBeforeYearClosedForm(x);
      DivStep(x);
      LeapByCounts(x);
      assert DaysBeforeYear(y) == DaysBeforeYear(x) + DaysInYear(x);
    }
  }

  /** A year's length from the three divisibility tests, as the closed form
      counts them. */
  lemma LeapByCounts(x: int)
    ensures DaysInYear(x) == 365 + (if x % 4 == 0 then 1 else 0) - (if x % 100 == 0 then 1 else 0)
                                 + (if x % 400 == 0 then 1 else 0)
  {
    if x % 100 == 0 {
      var k := x / 100;
      assert x == 4 * (25 * k);
    }
    if x % 400 == 0 {
      var k := x / 400;
      assert x == 100 * (4 * k);
    }
  }

  lemma {:induction false} DaysBeforeYearMonotone(y1: int, y2: int)
    requires 1 <= y1 <= y2
    ensures DaysBeforeYear(y1) + (if y1 < y2 then DaysInYear(y1) else 0) <= DaysBeforeYear(y2)
    decreases y2 - y1
  {
    if y1 < y2 {
      DaysBeforeYearMonotone(y1, y2 - 1);
    }
  }

  /** Days in the months of year `y` before month `m`. */
  function DaysBeforeMonth(y: int, m: int): (r: int)
    requires 1 <= m <= 13
    ensures r >= 0
  {
    if m == 1 then 0 else DaysBeforeMonth(y, m - 1) + DaysInMonth(y, m - 1)
  }

  /** The table CPython uses: cumulative month lengths of a common year, one
      more from March on in a leap year; all twelve months make the year. */
  lemma DaysBeforeMonthTable(y: int, m: int)
    requires 1 <= m <= 13
    ensures DaysBeforeMonth(y, m)
         == [0, 31, 59, 90, 120, 151, 181, 212, 243, 273, 304, 334, 365][m - 1]
            + (if m > 2 && IsLeap(y) then 1 else 0)
    ensures m == 13 ==> DaysBeforeMonth(y, m) == DaysInYear(y)
  {
  }

  lemma {:induction false} DaysBeforeMonthMonotone(y: int, m1: int, m2: int)
    requires 1 <= m1 <= m2 <= 13
    ensures DaysBeforeMonth(y, m1) + (if m1 < m2 then DaysInMonth(y, m1) else 0) <= DaysBeforeMonth(y, m2)
    decreases m2 - m1
  {
    if m1 < m2 {
      DaysBeforeMonthMonotone(y, m1, m2 - 1);
    }
  }

  datatype Date = Date(year: int, month: int, day: int)

  /** A date `datetime.date` accepts (years are not bounded above here). */
  predicate ValidDate(d: Date)
  {
    d.year >= 1 && 1 <= d.month <= 12 && 1 <= d.day <= DaysInMonth(d.year, d.month)
  }

  /** `date.toordinal()`: the ordinal lies inside its year and its month. */
  function ToOrdinal(d: Date): (n: int)
    requires ValidDate(d)
    ensures DaysBeforeYear(d.year) < n <= DaysBeforeYear(d.year) + DaysInYear(d.year)
    ensures DaysBeforeMonth(d.year, d.month) < n - DaysBeforeYear(d.year)
                                             <= DaysBeforeMonth(d.year, d.month) + DaysInMonth(d.year, d.month)
  {
    DaysBeforeMonthMonotone(d.year, d.month, 13);
    DaysBeforeMonthTable(d.year, 13);
    DaysBeforeYear(d.year) + DaysBeforeMonth(d.year, d.month) + d.day
  }

  /** The year containing ordinal `n`, searching upward from `y`. */
  function YearFrom(n: int, y: int): (r: int)
    requires y >= 1 && DaysBeforeYear(y) < n
    ensures r >= y && DaysBeforeYear(r) < n <= DaysBeforeYear(r) + DaysInYear(r)
    decreases n - DaysBeforeYear(y)
  {
    if n <= DaysBeforeYear(y) + DaysInYear(y) then y else YearFrom(n, y + 1)
  }

  /** The month of year `y` containing its `k`-th day, searching upward. */
  function MonthFrom(y: int, k: int, m: int): (r: int)
    requires 1 <= m <= 12 && DaysBeforeMonth(y, m) < k <= DaysInYear(y)
    ensures m <= r <= 12 && DaysBeforeMonth(y, r) < k <= DaysBeforeMonth(y, r) + DaysInMonth(y, r)
    decreases 12 - m
  {
    DaysBeforeMonthTable(y, 13);
    if k <= DaysBeforeMonth(y, m) + DaysInMonth(y, m) then m else MonthFrom(y, k, m + 1)
  }

  /** `date.fromordinal(n)`: a valid date whose ordinal is `n`. */
  function FromOrdinal(n: int): (d: Date)
    requires n >= 1
    ensures ValidDate(d) && ToOrdinal(d) == n
  {
    var y := YearFrom(n, 1);
    var m := MonthFrom(y, n - DaysBeforeYear(y), 1);
    Date(y, m, n - DaysBeforeYear(y) - DaysBeforeMonth(y, m))
  }

  /** Two valid dates with the same ordinal are the same date. */
  lemma OrdinalInjective(a: Date, b: Date)
    requires ValidDate(a) && ValidDate(b) && ToOrdinal(a) == ToOrdinal(b)
    ensures a == b
  {
    if a.year < b.year {
      DaysBeforeYearMonotone(a.year, b.year);
    } else if b.year < a.year {
      DaysBeforeYearMonotone(b.year, a.year);
    } else if a.month < b.month {
      DaysBeforeMonthMonotone(a.year, a.month, b.month);
    } else if b.month < a.month {
      DaysBeforeMonthMonotone(a.year, b.month, a.month);
    }
  }

  /** `date.fromordinal(d.toordinal()) == d`. */
  lemma FromToOrdinal(d: Date)
    requires ValidDate(d)
    ensures FromOrdinal(ToOrdinal(d)) == d
  {
    OrdinalInjective(FromOrdinal(ToOrdinal(d)), d);
  }

  /** `date.weekday()`: Monday is 0 and Sunday 6; day 1 is a Monday. */
  function Weekday(n: int): (r: int)
    ensures 0 <= r < 7
  {
    (n + 6) % 7
  }

  /** Stepping back `Weekday(n)` days lands on a Monday, and stepping one
      day forward advances the weekday cyclically. */
  lemma WeekdaySteps(n: int)
    ensures Weekday(n - Weekday(n)) == 0
    ensures Weekday(n + 1) == (Weekday(n) + 1) % 7
  {
  }

  /** Moving within a month is moving the ordinal by the same number of days. */
  lemma WithinMonth(d: Date, k: int)
    requires ValidDate(d) && 1 <= d.day + k <= DaysInMonth(d.year, d.month)
    ensures ToOrdinal(d.(day := d.day + k)) == ToOrdinal(d) + k
  {
  }

  function NextMonthStart(y: int, m: int): Date
    requires 1 <= m <= 12
  {
    if m == 12 then Date(y + 1, 1, 1) else Date(y, m + 1, 1)
  }

  /** The day after the last day of a month is the first of the next. */
  lemma MonthEndThenNext(y: int, m: int)
    requires y >= 1 && 1 <= m <= 12
    ensures ValidDate(Date(y, m, DaysInMonth(y, m))) && ValidDate(NextMonthStart(y, m))
    ensures ToOrdinal(Date(y, m, DaysInMonth(y, m))) + 1 == ToOrdinal(NextMonthStart(y, m))
  {
    DaysBeforeMonthTable(y, 13);
  }

  /** A date lies between the first and the last day of its month. */
  lemma MonthBounds(d: Date)
    requires ValidDate(d)
    ensures ValidDate(d.(day := 1)) && ValidDate(d.(day := DaysInMonth(d.year, d.month)))
    ensures ToOrdinal(d.(day := 1)) <= ToOrdinal(d) <= ToOrdinal(d.(day := DaysInMonth(d.year, d.month)))
    ensures ToOrdinal(d.(day := DaysInMonth(d.year, d.month))) - ToOrdinal(d.(day := 1)) + 1
         == DaysInMonth(d.year, d.month)
  {
  }

  /** A date lies between January 1 and December 31 of its year, which are
      a year's length apart. */
  lemma YearBounds(d: Date)
    requires ValidDate(d)
    ensures ValidDate(Date(d.year, 1, 1)) && ValidDate(Date(d.year, 12, 31))
    ensures ToOrdinal(Date(d.year, 1, 1)) <= ToOrdinal(d) <= ToOrdinal(Date(d.year, 12, 31))
    ensures ToOrdinal(Date(d.year, 12, 31)) - ToOrdinal(Date(d.year, 1, 1)) + 1 == DaysInYear(d.year)
  {
    DaysBeforeMonthTable(d.year, 12);
    DaysBeforeMonthTable(d.year, 13);
  }
}
