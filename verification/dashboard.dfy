/** The Dashboard's choice of date range (app.py:343-355) and its day count
    (app.py:366). Dates are day ordinals; `today` is the ordinal of
    `date.today()`, which the page reads from the clock. */
module Dashboard {
  import opened Calendar

  datatype Period = Today | ThisWeek | ThisMonth | ThisYear | Custom(from: int, to: int)

  /** `date.replace` on today: the ordinal of another day of today's month
      or year. */
  function Replace(today: int, month: int, day: int): (n: int)
    requires today >= 1 && 1 <= month <= 12 && 1 <= day <= 28
  {
    ToOrdinal(Date(FromOrdinal(today).year, month, day))
  }

  /** The start and end day of the selected period, as the page computes
      them. The month's end is found the way the page does it: four days
      after the 28th is always in the next month, and stepping back by that
      date's day of the month lands on the last day of this month. */
  function PeriodRange(p: Period, today: int): (r: (int, int))
    requires today >= 1
    ensures !p.Custom? ==> r.0 <= today <= r.1
    ensures p.Custom? ==> r == (p.from, p.to)
  {
    var t := FromOrdinal(today);
    YearBounds(t);
    assert Replace(today, 1, 1) == ToOrdinal(Date(t.year, 1, 1));
    match p
    case Today => (today, today)
    case ThisWeek =>
      var sd := today - Weekday(today);
      (sd, sd + 6)
    case ThisMonth => MonthPeriod(today)
    case ThisYear => (Replace(today, 1, 1), ToOrdinal(Date(t.year, 12, 31)))
    case Custom(from, to) => (from, to)
  }

  /** The "This Month" branch of PeriodRange: the first and the last day of
      today's month, which contain today. */
  function MonthPeriod(today: int): (r: (int, int))
    requires today >= 1
    ensures var t := FromOrdinal(today);
      && r.0 == ToOrdinal(Date(t.year, t.month, 1))
      && r.1 == ToOrdinal(Date(t.year, t.month, DaysInMonth(t.year, t.month)))
      && r.0 <= today <= r.1
  {
    var t := FromOrdinal(today);
    var sd := Replace(today, t.month, 1);
    var nxt := Replace(today, t.month, 28) + 4;
    MonthBounds(t);
    assert t.(day := 1) == Date(t.year, t.month, 1);
    assert t.(day := DaysInMonth(t.year, t.month)) == Date(t.year, t.month, DaysInMonth(t.year, t.month));
    MonthEndRule(t.year, t.month);
    (sd, nxt - FromOrdinal(nxt).day)
  }

  /** Every branch of the period selection at once: each fixed period
      contains today and spans its day, week, month or year, and a custom
      range is taken as given. */
  lemma PeriodRangeCases(p: Period, today: int)
    requires today >= 1
    ensures var (sd, ed) := PeriodRange(p, today);
      var t := FromOrdinal(today);
      && (p.Today? ==> sd == today && ed == today && DaysInRange(sd, ed) == 1)
      && (p.ThisWeek? ==> Weekday(sd) == 0 && sd <= today <= ed && DaysInRange(sd, ed) == 7)
      && (p.ThisMonth? ==>
            && sd == ToOrdinal(Date(t.year, t.month, 1))
            && ed == ToOrdinal(Date(t.year, t.month, DaysInMonth(t.year, t.month)))
            && DaysInRange(sd, ed) == DaysInMonth(t.year, t.month))
      && (p.ThisYear? ==>
            && sd == ToOrdinal(Date(t.year, 1, 1)) && ed == ToOrdinal(Date(t.year, 12, 31))
            && DaysInRange(sd, ed) == DaysInYear(t.year))
      && (p.Custom? ==> sd == p.from && ed == p.to)
  {
    match p
    case Today =>
    case ThisWeek => WeekRange(today);
    case ThisMonth => MonthRange(today);
    case ThisYear => YearRange(today);
    case Custom(_, _) =>
  }

  /** "This Week" runs from the Monday on or before today through the
      Sunday after it. */
  lemma WeekRange(today: int)
    requires today >= 1
    ensures var (sd, ed) := PeriodRange(ThisWeek, today);
      && Weekday(sd) == 0 && sd >= 1
      && sd <= today <= ed && ed == sd + 6
      && today - sd == Weekday(today)
  {
    WeekdaySteps(today);
  }

  /** The page's month-end rule: stepping back from four days after the
      28th by that date's day of the month gives the month's last day. */
  lemma MonthEndRule(y: int, m: int)
    requires y >= 1 && 1 <= m <= 12
    ensures var nxt := ToOrdinal(Date(y, m, 28)) + 4;
      nxt >= 1 && nxt - FromOrdinal(nxt).day == ToOrdinal(Date(y, m, DaysInMonth(y, m)))
  {
    var dim := DaysInMonth(y, m);
    var nxt := ToOrdinal(Date(y, m, 28)) + 4;
    WithinMonth(Date(y, m, 28), dim - 28);
    MonthEndThenNext(y, m);
    var next := NextMonthStart(y, m);
    WithinMonth(next, 31 - dim);
    assert nxt == ToOrdinal(next.(day := 32 - dim));
    FromToOrdinal(next.(day := 32 - dim));
  }

  /** "This Month" runs from the first to the last day of today's month. */
  lemma MonthRange(today: int)
    requires today >= 1
    ensures var t := FromOrdinal(today);
      && PeriodRange(ThisMonth, today).0 == ToOrdinal(Date(t.year, t.month, 1))
      && PeriodRange(ThisMonth, today).1 == ToOrdinal(Date(t.year, t.month, DaysInMonth(t.year, t.month)))
      && PeriodRange(ThisMonth, today).0 <= today <= PeriodRange(ThisMonth, today).1
      && PeriodRange(ThisMonth, today).1 - PeriodRange(ThisMonth, today).0 + 1 == DaysInMonth(t.year, t.month)
  {
    var t := FromOrdinal(today);
    MonthBounds(t);
    assert t.(day := 1) == Date(t.year, t.month, 1);
    assert t.(day := DaysInMonth(t.year, t.month)) == Date(t.year, t.month, DaysInMonth(t.year, t.month));
    assert PeriodRange(ThisMonth, today) == MonthPeriod(today);
  }

  /** "This Year" runs from January 1 to December 31 of today's year. */
  lemma YearRange(today: int)
    requires today >= 1
    ensures var y := FromOrdinal(today).year;
      && PeriodRange(ThisYear, today).0 == ToOrdinal(Date(y, 1, 1))
      && PeriodRange(ThisYear, today).1 == ToOrdinal(Date(y, 12, 31))
      && PeriodRange(ThisYear, today).0 <= today <= PeriodRange(ThisYear, today).1
      && PeriodRange(ThisYear, today).1 - PeriodRange(ThisYear, today).0 + 1 == DaysInYear(y)
  {
    YearBounds(FromOrdinal(today));
  }

  /** `days_in_range`: the number of days from sd to ed, at least 1. */
  function DaysInRange(sd: int, ed: int): (n: int)
    ensures n >= 1
    ensures sd <= ed ==> n == ed - sd + 1
    ensures ed < sd ==> n == 1
  {
    if ed - sd + 1 > 1 then ed - sd + 1 else 1
  }
}
