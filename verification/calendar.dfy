/** Calendar dates as the pipeline uses them: pandas Timestamps at midnight,
    compared chronologically, moved by `DateOffset(months = n)` (which keeps
    the day of the month, clamped to the length of the target month), and
    subtracted to a number of days. */
module Calendar {
  datatype Date = Date(year: int, month: int, day: int)

  predicate IsLeap(y: int)
  {
    y % 4 == 0 && (y % 100 != 0 || y % 400 == 0)
  }

  function DaysInMonth(y: int, m: int): int
    requires 1 <= m <= 12
  {
    if m == 2 then (if IsLeap(y) then 29 else 28)
    else if m == 4 || m == 6 || m == 9 || m == 11 then 30
    else 31
  }

  function DaysInYear(y: int): int
  {
    if IsLeap(y) then 366 else 365
  }

  /** Proleptic Gregorian dates from year 1 on (pandas covers 1677 to 2262). */
  predicate Valid(d: Date)
  {
    d.year >= 1 && 1 <= d.month <= 12 && 1 <= d.day <= DaysInMonth(d.year, d.month)
  }

  type ValidDate = d: Date | Valid(d) witness Date(1, 1, 1)

  /** Chronological order: `a < b` on Timestamps. */
  predicate Before(a: Date, b: Date)
  {
    a.year < b.year
    || (a.year == b.year && a.month < b.month)
    || (a.year == b.year && a.month == b.month && a.day < b.day)
  }

  /** `a <= b` on Timestamps. */
  predicate AtOrBefore(a: Date, b: Date)
  {
    Before(a, b) || a == b
  }

  lemma {:induction false} BeforeTransitive(a: Date, b: Date, c: Date)
    requires AtOrBefore(a, b) && AtOrBefore(b, c)
    ensures AtOrBefore(a, c)
    ensures Before(a, b) || Before(b, c) ==> Before(a, c)
  {
  }

  /** Months counted from January of year 0; the month arithmetic of
      DateOffset works on this count. */
  function MonthIndex(d: Date): int
  {
    d.year * 12 + d.month - 1
  }

  /** `d + pd.DateOffset(months = n)`: the same day in the month n months
      later, or that month's last day when it is shorter. */
  function AddMonths(d: Date, n: nat): (r: Date)
    requires Valid(d)
    ensures Valid(r)
    ensures MonthIndex(r) == MonthIndex(d) + n
    ensures r.day <= d.day
    ensures r.day == d.day || r.day == DaysInMonth(r.year, r.month)
  {
    var total := MonthIndex(d) + n;
    var y := total / 12;
    var m := total % 12 + 1;
    var last := DaysInMonth(y, m);
    Date(y, m, if d.day <= last then d.day else last)
  }

  /** A later month index means a later date, whatever the days. */
  lemma {:induction false} LaterMonthIsLater(a: Date, b: Date)
    requires 1 <= a.month <= 12 && 1 <= b.month <= 12
    requires MonthIndex(a) < MonthIndex(b)
    ensures Before(a, b)
  {
    assert a.year * 12 < (b.year + 1) * 12;
  }

  /** A date that is at or before another has a month index no greater. */
  lemma {:induction false} MonthIndexMonotone(a: Date, b: Date)
    requires 1 <= a.month <= 12 && 1 <= b.month <= 12
    requires AtOrBefore(a, b)
    ensures MonthIndex(a) <= MonthIndex(b)
  {
    if a.year < b.year {
      assert MonthIndex(a) < (a.year + 1) * 12 <= b.year * 12 <= MonthIndex(b);
    }
  }

  /** Moving forward by at least one month always gives a strictly later date. */
  lemma {:induction false} AddMonthsLater(d: Date, n: nat)
    requires Valid(d) && n > 0
    ensures Before(d, AddMonths(d, n))
  {
    LaterMonthIsLater(d, AddMonths(d, n));
  }

  /** Days of years 1 .. y - 1. */
  function DaysBeforeYear(y: int): int
    decreases y
  {
    if y <= 1 then 0 else DaysBeforeYear(y - 1) + DaysInYear(y - 1)
  }

  /** Days of months 1 .. m - 1 of year y. */
  function DaysBeforeMonth(y: int, m: int): int
    requires 1 <= m <= 13
    decreases m
  {
    if m == 1 then 0 else DaysBeforeMonth(y, m - 1) + DaysInMonth(y, m - 1)
  }

  /** Days since 1 January of year 1. */
  function DayNumber(d: Date): int
    requires Valid(d)
  {
    DaysBeforeYear(d.year) + DaysBeforeMonth(d.year, d.month) + d.day - 1
  }

  lemma {:induction false} MonthsFillYear(y: int, m: int)
    requires 1 <= m <= 13
    ensures DaysBeforeMonth(y, m) + DaysBetweenMonths(y, m) == DaysInYear(y)
    decreases 13 - m
  {
    if m < 13 {
      MonthsFillYear(y, m + 1);
    }
  }

  /** Days of months m .. 12 of year y. */
  function DaysBetweenMonths(y: int, m: int): int
    requires 1 <= m <= 13
    decreases 13 - m
  {
    if m == 13 then 0 else DaysInMonth(y, m) + DaysBetweenMonths(y, m + 1)
  }

  lemma {:induction false} DaysBeforeMonthMonotone(y: int, m1: int, m2: int)
    requires 1 <= m1 < m2 <= 13
    ensures DaysBeforeMonth(y, m1) + DaysInMonth(y, m1) <= DaysBeforeMonth(y, m2)
    decreases m2 - m1
  {
    if m2 > m1 + 1 {
      DaysBeforeMonthMonotone(y, m1, m2 - 1);
    }
  }

  lemma {:induction false} DaysBeforeYearMonotone(y1: int, y2: int)
    requires 1 <= y1 < y2
    ensures DaysBeforeYear(y1) + DaysInYear(y1) <= DaysBeforeYear(y2)
    decreases y2 - y1
  {
    if y2 > y1 + 1 {
      DaysBeforeYearMonotone(y1, y2 - 1);
    }
  }

  /** Day numbers follow the calendar: an earlier valid date has a smaller
      day number, and equal day numbers mean the same date. */
  lemma {:induction false} DayNumberOrder(a: Date, b: Date)
    requires Valid(a) && Valid(b)
    ensures Before(a, b) <==> DayNumber(a) < DayNumber(b)
    ensures a == b <==> DayNumber(a) == DayNumber(b)
  {
    if Before(a, b) {
      DayNumberIncreasing(a, b);
    } else if Before(b, a) {
      DayNumberIncreasing(b, a);
    }
  }

  lemma {:induction false} DayNumberIncreasing(a: Date, b: Date)
    requires Valid(a) && Valid(b) && Before(a, b)
    ensures DayNumber(a) < DayNumber(b)
  {
    if a.year < b.year {
      YearEarlier(a, b);
    } else if a.month < b.month {
      DaysBeforeMonthMonotone(a.year, a.month, b.month);
    }
  }

  lemma {:induction false} YearEarlier(a: Date, b: Date)
    requires Valid(a) && Valid(b) && a.year < b.year
    ensures DayNumber(a) < DayNumber(b)
  {
    var y := a.year;
    MonthsFillYear(y, a.month);
    BetweenNonNegative(y, a.month + 1);
    assert DaysBetweenMonths(y, a.month) == DaysInMonth(y, a.month) + DaysBetweenMonths(y, a.month + 1);
    assert DaysBeforeMonth(y, a.month) + DaysInMonth(y, a.month) <= DaysInYear(y);
    assert DayNumber(a) < DaysBeforeYear(y) + DaysInYear(y);
    DaysBeforeYearMonotone(y, b.year);
    BeforeMonthNonNegative(b.year, b.month);
    assert DaysBeforeYear(b.year) <= DayNumber(b);
  }

  lemma {:induction false} BeforeMonthNonNegative(y: int, m: int)
    requires 1 <= m <= 13
    ensures DaysBeforeMonth(y, m) >= 0
    decreases m
  {
    if m > 1 {
      BeforeMonthNonNegative(y, m - 1);
    }
  }

  lemma {:induction false} BetweenNonNegative(y: int, m: int)
    requires 1 <= m <= 13
    ensures DaysBetweenMonths(y, m) >= 0
    decreases 13 - m
  {
    if m < 13 {
      BetweenNonNegative(y, m + 1);
    }
  }

  /** `(b - a).days` for Timestamps at midnight. */
  function DaysBetween(a: Date, b: Date): int
    requires Valid(a) && Valid(b)
  {
    DayNumber(b) - DayNumber(a)
  }

  /** The Timestamp order as a sort key. */
  function DateKey(d: ValidDate): real
  {
    DayNumber(d) as real
  }
}
