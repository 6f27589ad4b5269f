/** Naive dates and times of the proleptic Gregorian calendar, and the monthly step that the
    backup schedule takes with them (plinth/modules/backups/schedule.py). */
module Calendar {
  import opened Wrappers

  const MAX_YEAR := 9999
  const HOUR := 3_600_000_000  // in microseconds
  const DAY := 24 * HOUR

  datatype Fields = DateTime(year: int, month: int, day: int, time: int)

  predicate IsLeap(y: int) {
    y % 4 == 0 && (y % 100 != 0 || y % 400 == 0)
  }

  function DaysInMonth(y: int, m: int): (n: int)
    requires 1 <= m <= 12
    ensures 28 <= n <= 31
  {
    if m == 2 then (if IsLeap(y) then 29 else 28)
    else if m == 4 || m == 6 || m == 9 || m == 11 then 30
    else 31
  }

  predicate IsDateTime(d: Fields) {
    && 1 <= d.year <= MAX_YEAR && 1 <= d.month <= 12
    && 1 <= d.day <= DaysInMonth(d.year, d.month)
    && 0 <= d.time < DAY
  }

  const MIN := DateTime(1, 1, 1, 0)

  type DateTime = d: Fields | IsDateTime(d) witness MIN

  // ---------- Day numbers ----------

  function DaysBeforeYear(y: int): int {
    365 * (y - 1) + (y - 1) / 4 - (y - 1) / 100 + (y - 1) / 400
  }

  function DaysBeforeMonth(y: int, m: int): (n: int)
    requires 1 <= m <= 13
    decreases m
  {
    if m == 1 then 0 else DaysBeforeMonth(y, m - 1) + DaysInMonth(y, m - 1)
  }

  /** The number of the day; day 1 is 0001-01-01, a Monday. */
  function Ordinal(d: DateTime): int {
    DaysBeforeYear(d.year) + DaysBeforeMonth(d.year, d.month) + d.day
  }

  /** Microseconds on the time line; differences of instants are Python's time deltas. */
  function Instant(d: DateTime): int {
    Ordinal(d) * DAY + d.time
  }

  function Hour(d: DateTime): int {
    d.time / HOUR
  }

  predicate IsSunday(d: DateTime) {
    Ordinal(d) % 7 == 0
  }

  lemma Fourth(y: int)
    ensures y / 4 == (y - 1) / 4 + if y % 4 == 0 then 1 else 0
  {
  }

  lemma Hundredth(y: int)
    ensures y / 100 == (y - 1) / 100 + if y % 100 == 0 then 1 else 0
    ensures y % 100 == 0 ==> y % 4 == 0
  {
  }

  lemma FourHundredth(y: int)
    ensures y / 400 == (y - 1) / 400 + if y % 400 == 0 then 1 else 0
    ensures y % 400 == 0 ==> y % 100 == 0
  {
  }

  lemma LeapDays(y: int, q: int, c: int, f: int, q': int, c': int, f': int)
    requires q' == q + if y % 4 == 0 then 1 else 0
    requires c' == c + if y % 100 == 0 then 1 else 0
    requires f' == f + if y % 400 == 0 then 1 else 0
    requires (y % 400 == 0 ==> y % 100 == 0) && (y % 100 == 0 ==> y % 4 == 0)
    ensures q' - c' + f' == q - c + f + if IsLeap(y) then 1 else 0
  {
  }

  lemma YearLength(y: int)
    ensures DaysBeforeYear(y + 1) == DaysBeforeYear(y) + if IsLeap(y) then 366 else 365
  {
    Fourth(y);
    Hundredth(y);
    FourHundredth(y);
    LeapDays(y, (y - 1) / 4, (y - 1) / 100, (y - 1) / 400, y / 4, y / 100, y / 400);
  }

  lemma MonthsFillYear(y: int)
    ensures DaysBeforeMonth(y, 2) == 31
    ensures DaysBeforeMonth(y, 8) == (if IsLeap(y) then 213 else 212)
    ensures DaysBeforeMonth(y, 13) == (if IsLeap(y) then 366 else 365)
  {
    assert DaysBeforeMonth(y, 4) == if IsLeap(y) then 91 else 90;
    assert DaysBeforeMonth(y, 6) == DaysBeforeMonth(y, 4) + 61;
    assert DaysBeforeMonth(y, 10) == DaysBeforeMonth(y, 8) + 61;
    assert DaysBeforeMonth(y, 12) == DaysBeforeMonth(y, 10) + 61;
  }

  lemma {:induction false} LaterMonth(y: int, m: int, n: int)
    requires 1 <= m < n <= 13
    ensures DaysBeforeMonth(y, n) >= DaysBeforeMonth(y, m) + DaysInMonth(y, m)
    decreases n
  {
    if m < n - 1 {
      LaterMonth(y, m, n - 1);
    }
  }

  lemma {:induction false} LaterYear(y: int, z: int)
    requires y < z
    ensures DaysBeforeYear(z) >= DaysBeforeYear(y) + if IsLeap(y) then 366 else 365
    decreases z - y
  {
    YearLength(z - 1);
    if y < z - 1 {
      LaterYear(y, z - 1);
    }
  }

  /** Python compares the fields from the left. */
  predicate FieldsBefore(a: DateTime, b: DateTime) {
    || a.year < b.year
    || (a.year == b.year && a.month < b.month)
    || (a.year == b.year && a.month == b.month && a.day < b.day)
    || (a.year == b.year && a.month == b.month && a.day == b.day && a.time < b.time)
  }

  lemma WithinYear(a: DateTime)
    ensures DaysBeforeYear(a.year) < Ordinal(a) <= DaysBeforeYear(a.year) + if IsLeap(a.year) then 366 else 365
  {
    LaterMonth(a.year, a.month, 13);
    MonthsFillYear(a.year);
    if a.month > 1 {
      LaterMonth(a.year, 1, a.month);
    }
  }

  lemma EarlierDayEarlierInstant(a: DateTime, b: DateTime)
    requires Ordinal(a) < Ordinal(b) || (Ordinal(a) == Ordinal(b) && a.time < b.time)
    ensures Instant(a) < Instant(b)
  {
  }

  lemma EarlierFieldsEarlierInstant(a: DateTime, b: DateTime)
    requires FieldsBefore(a, b)
    ensures Instant(a) < Instant(b)
  {
    if a.year < b.year {
      WithinYear(a);
      WithinYear(b);
      LaterYear(a.year, b.year);
    } else if a.month < b.month {
      LaterMonth(a.year, a.month, b.month);
    }
    EarlierDayEarlierInstant(a, b);
  }

  /** Comparing fields is comparing instants, and an instant determines its fields. */
  lemma FieldOrderIsInstantOrder(a: DateTime, b: DateTime)
    ensures FieldsBefore(a, b) <==> Instant(a) < Instant(b)
    ensures a == b <==> Instant(a) == Instant(b)
  {
    if FieldsBefore(a, b) {
      EarlierFieldsEarlierInstant(a, b);
    } else if FieldsBefore(b, a) {
      EarlierFieldsEarlierInstant(b, a);
    }
  }

  // ---------- The monthly step ----------

  /** Replacing fields raises ValueError for a date that does not exist. */
  function Replace(d: DateTime, year: int, month: int): Option<DateTime> {
    var r := DateTime(year, month, d.day, d.time);
    if IsDateTime(r) then Some(r) else None
  }

  /** When the next monthly backup is due: the same day of the next month, or, when that does not
      exist, the same day of January of the next year. */
  function NextMonthly(last: DateTime): Option<DateTime> {
    var next := Replace(last, last.year, last.month + 1);
    if next.Some? then next else Replace(last, last.year + 1, 1)
  }

  predicate NextMonthHasDay(d: DateTime) {
    d.month == 12 || d.day <= DaysInMonth(d.year, d.month + 1)
  }

  /** The step is undefined only at the end of time. */
  lemma NextMonthlyExists(last: DateTime)
    ensures NextMonthly(last).None? <==> last.year == MAX_YEAR && (last.month == 12 || !NextMonthHasDay(last))
  {
  }

  /** The step goes 28 to 31 days ahead when the following month has that day, and 92 to 366 days
      ahead when it has not. */
  lemma NextMonthlyIsAhead(last: DateTime)
    requires NextMonthly(last).Some?
    ensures var next := NextMonthly(last).value;
            && next.time == last.time
            && (if NextMonthHasDay(last) then 28 <= Ordinal(next) - Ordinal(last) <= 31
                else 92 <= Ordinal(next) - Ordinal(last) <= 366)
  {
    YearLength(last.year);
    MonthsFillYear(last.year);
    if !NextMonthHasDay(last) {
      LaterMonths(last.year, last.month);
    }
  }

  /** A month followed by a shorter one starts 92 to 365 days before the next year. */
  lemma LaterMonths(y: int, m: int)
    requires 1 <= m <= 10 && DaysInMonth(y, m + 1) < DaysInMonth(y, m)
    ensures 92 <= DaysBeforeMonth(y, 13) - DaysBeforeMonth(y, m) <= if IsLeap(y) then 366 else 365
  {
    MonthsFillYear(y);
    if m > 1 {
      LaterMonth(y, 1, m);
    }
    LaterMonth(y, 11, 12);
    LaterMonth(y, 10, 11);
    LaterMonth(y, 12, 13);
    if m < 10 {
      LaterMonth(y, m, 10);
    }
  }

  lemma WholeDays(a: int, b: int, time: int)
    requires 28 <= b - a <= 366
    ensures (a * DAY + time) + 28 * DAY <= b * DAY + time <= (a * DAY + time) + 366 * DAY
  {
  }

  lemma NextMonthlyInstant(last: DateTime, next: DateTime)
    requires NextMonthly(last) == Some(next)
    ensures Instant(last) + 28 * DAY <= Instant(next) <= Instant(last) + 366 * DAY
  {
    NextMonthlyIsAhead(last);
    WholeDays(Ordinal(last), Ordinal(next), last.time);
  }
}
