/** The proleptic Gregorian calendar as Python's `datetime` and pandas use it:
    leap years, month lengths, day ordinals (0001-01-01 is day 1), weekdays
    and the English month and weekday names that `month_name()` and
    `day_name()` return. */
module Calendar {
  import opened Orders

  datatype Date = Date(year: int, month: int, day: int)

  datatype DateTime = DateTime(date: Date, hour: int, minute: int)

  predicate IsLeap(y: int) {
    y % 4 == 0 && (y % 100 != 0 || y % 400 == 0)
  }

  function DaysInMonth(y: int, m: int): (n: int)
    requires 1 <= m <= 12
    ensures 28 <= n <= 31
    ensures n == 29 <==> m == 2 && IsLeap(y)
  {
    if m == 2 then (if IsLeap(y) then 29 else 28)
    else if m == 4 || m == 6 || m == 9 || m == 11 then 30
    else 31
  }

  function DaysInYear(y: int): int {
    if IsLeap(y) then 366 else 365
  }

  /** A date `datetime.date` accepts: year 1..9999, a month, a day of it. */
  predicate ValidDate(d: Date) {
    1 <= d.year <= 9999 && 1 <= d.month <= 12 && 1 <= d.day <= DaysInMonth(d.year, d.month)
  }

  predicate ValidDateTime(t: DateTime) {
    ValidDate(t.date) && 0 <= t.hour <= 23 && 0 <= t.minute <= 59
  }

  /** Days in the years before `y`. */
  function DaysBeforeYear(y: int): int
    requires y >= 1
  {
    var p := y - 1;
    365 * p + p / 4 - p / 100 + p / 400
  }

  /** Days in the months of year `y` before month `m` (`m == 13`: the whole year). */
  function DaysBeforeMonth(y: int, m: int): int
    requires 1 <= m <= 13
  {
    [0, 31, 59, 90, 120, 151, 181, 212, 243, 273, 304, 334, 365][m - 1]
    + (if m > 2 && IsLeap(y) then 1 else 0)
  }

  /** `date.toordinal()`: 0001-01-01 is day 1. */
  function Ordinal(d: Date): int
    requires ValidDate(d)
  {
    DaysBeforeYear(d.year) + DaysBeforeMonth(d.year, d.month) + d.day
  }

  /** `date.weekday()`: Monday is 0, Sunday is 6. */
  function Weekday(d: Date): (w: int)
    requires ValidDate(d)
    ensures 0 <= w < 7
  {
    (Ordinal(d) + 6) % 7
  }

  const WeekdayNames: seq<string> :=
    ["Monday", "Tuesday", "Wednesday", "Thursday", "Friday", "Saturday", "Sunday"]

  const MonthNames: seq<string> :=
    ["January", "February", "March", "April", "May", "June", "July",
     "August", "September", "October", "November", "December"]

  /** `Timestamp.day_name()` in the English locale. */
  function DayName(d: Date): (s: string)
    requires ValidDate(d)
    ensures s in WeekdayNames
  {
    WeekdayNames[Weekday(d)]
  }

  /** `Timestamp.month_name()` in the English locale. */
  function MonthName(m: int): (s: string)
    requires 1 <= m <= 12
    ensures s in MonthNames
  {
    MonthNames[m - 1]
  }

  /** The calendar day after `d`. */
  function NextDay(d: Date): Date
    requires ValidDate(d)
  {
    if d.day < DaysInMonth(d.year, d.month) then Date(d.year, d.month, d.day + 1)
    else if d.month < 12 then Date(d.year, d.month + 1, 1)
    else Date(d.year + 1, 1, 1)
  }

  lemma DaysBeforeMonthStep(y: int, m: int)
    requires 1 <= m <= 12
    ensures DaysBeforeMonth(y, m + 1) == DaysBeforeMonth(y, m) + DaysInMonth(y, m)
  {
  }

  /** Euclidean division by `n` gains one exactly at multiples of `n`. */
  lemma DivStep(p: int, n: int)
    requires p >= 0 && (n == 4 || n == 100 || n == 400)
    ensures (p + 1) / n - p / n == if (p + 1) % n == 0 then 1 else 0
  {
    if n == 4 {
    } else if n == 100 {
    } else {
    }
  }

  lemma DaysBeforeYearStep(y: int)
    requires y >= 1
    ensures DaysBeforeYear(y + 1) == DaysBeforeYear(y) + DaysInYear(y)
  {
    var p := y - 1;
    DivStep(p, 4);
    DivStep(p, 100);
    DivStep(p, 400);
    var leapDays := (y / 4 - p / 4) - (y / 100 - p / 100) + (y / 400 - p / 400);
    assert DaysBeforeYear(y + 1) == DaysBeforeYear(y) + 365 + leapDays;
    assert leapDays == if IsLeap(y) then 1 else 0 by {
      if y % 400 == 0 {
        assert y % 100 == 0 && y % 4 == 0;
      } else if y % 100 == 0 {
        assert y % 4 == 0;
      }
    }
  }

  /** The day after a valid date is valid (within year 9999) and is the next
      ordinal; so weekdays cycle Monday through Sunday. */
  lemma NextDayOrdinal(d: Date)
    requires ValidDate(d) && d.year < 9999
    ensures ValidDate(NextDay(d))
    ensures Ordinal(NextDay(d)) == Ordinal(d) + 1
    ensures Weekday(NextDay(d)) == (Weekday(d) + 1) % 7
  {
    var n := NextDay(d);
    if d.day < DaysInMonth(d.year, d.month) {
      assert n == Date(d.year, d.month, d.day + 1);
    } else if d.month < 12 {
      assert n == Date(d.year, d.month + 1, 1);
      DaysBeforeMonthStep(d.year, d.month);
    } else {
      assert n == Date(d.year + 1, 1, 1);
      DaysBeforeMonthStep(d.year, 12);
      DaysBeforeYearStep(d.year);
    }
    assert Ordinal(n) == Ordinal(d) + 1;
    WeekdayStep(Ordinal(d));
  }

  lemma WeekdayStep(o: int)
    ensures (o + 1 + 6) % 7 == ((o + 6) % 7 + 1) % 7
  {
  }

  /** Dates compare by year, then month, then day, as `datetime.date` does. */
  predicate DateLess(a: Date, b: Date) {
    a.year < b.year ||
    (a.year == b.year && (a.month < b.month || (a.month == b.month && a.day < b.day)))
  }

  lemma DateLessOrder()
    ensures StrictTotalOrder(DateLess)
  {
  }

  lemma DaysBeforeMonthMono(y: int, m: int, m': int)
    requires 1 <= m <= m' <= 13
    ensures DaysBeforeMonth(y, m) + (m' - m) * 28 <= DaysBeforeMonth(y, m')
  {
  }

  lemma DaysBeforeYearMono(y: int, y': int)
    requires 1 <= y <= y'
    ensures DaysBeforeYear(y) + (y' - y) * 365 <= DaysBeforeYear(y')
    decreases y' - y
  {
    if y < y' {
      DaysBeforeYearStep(y);
      DaysBeforeYearMono(y + 1, y');
    }
  }

  /** For valid dates the comparison is chronological: one date is before
      another exactly when its ordinal is smaller. */
  lemma DateLessChronological(a: Date, b: Date)
    requires ValidDate(a) && ValidDate(b)
    ensures DateLess(a, b) <==> Ordinal(a) < Ordinal(b)
  {
    if a.year < b.year {
      EarlierYear(a, b);
    } else if b.year < a.year {
      EarlierYear(b, a);
    } else if a.month < b.month {
      EarlierMonth(a, b);
    } else if b.month < a.month {
      EarlierMonth(b, a);
    }
  }

  lemma EarlierYear(a: Date, b: Date)
    requires ValidDate(a) && ValidDate(b) && a.year < b.year
    ensures Ordinal(a) < Ordinal(b)
  {
    DaysBeforeMonthMono(a.year, a.month + 1, 13);
    DaysBeforeMonthStep(a.year, a.month);
    DaysBeforeYearStep(a.year);
    DaysBeforeYearMono(a.year + 1, b.year);
  }

  lemma EarlierMonth(a: Date, b: Date)
    requires ValidDate(a) && ValidDate(b) && a.year == b.year && a.month < b.month
    ensures Ordinal(a) < Ordinal(b)
  {
    DaysBeforeMonthStep(a.year, a.month);
    DaysBeforeMonthMono(a.year, a.month + 1, b.month);
  }
}
