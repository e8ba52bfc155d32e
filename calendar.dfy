/**
 * The calendar arithmetic the event utilities borrow from date-fns, on a
 * proleptic Gregorian calendar at minute resolution.
 *
 * An instant is a local wall-clock date and time of day. JavaScript compares
 * and renders dates through their epoch milliseconds (`getTime`), so every
 * comparison in the model goes through `Millis`, computed from a day number
 * counted from 1970-01-01.
 */
module Calendar {

  const MinutesPerDay := 1440
  const MillisPerMinute := 60000
  const MillisPerHour := 3600000
  const MillisPerDay := 86400000

  /** A date and a minute of the day; only the valid ones form a DateTime. */
  datatype Instant = Instant(year: int, month: int, day: int, minute: int)

  predicate IsLeapYear(y: int) {
    y % 4 == 0 && (y % 100 != 0 || y % 400 == 0)
  }

  function DaysInMonth(y: int, m: int): (n: int)
    ensures 28 <= n <= 31
  {
    if m == 2 then (if IsLeapYear(y) then 29 else 28)
    else if m == 4 || m == 6 || m == 9 || m == 11 then 30
    else 31
  }

  function YearLength(y: int): int {
    if IsLeapYear(y) then 366 else 365
  }

  predicate ValidInstant(t: Instant) {
    && 1 <= t.month <= 12
    && 1 <= t.day <= DaysInMonth(t.year, t.month)
    && 0 <= t.minute < MinutesPerDay
  }

  type DateTime = t: Instant | ValidInstant(t) witness Instant(1970, 1, 1, 0)

  function Min(a: int, b: int): int {
    if a <= b then a else b
  }

  // ---------------------------------------------------------------------
  // Day numbers and epoch milliseconds

  /** Leap days in the years 1 .. y-1 of the proleptic calendar (negative for y <= 0). */
  function LeapDaysBefore(y: int): int {
    (y - 1) / 4 - (y - 1) / 100 + (y - 1) / 400
  }

  /** Days from 1970-01-01 to January 1st of year y. */
  function DaysBeforeYear(y: int): int {
    365 * (y - 1970) + LeapDaysBefore(y) - LeapDaysBefore(1970)
  }

  function DaysBeforeMonth(y: int, m: int): int
    requires 1 <= m <= 12
  {
    if m == 1 then 0 else DaysBeforeMonth(y, m - 1) + DaysInMonth(y, m - 1)
  }

  /** Days from 1970-01-01 to the date of t. */
  function DayNumber(t: Instant): int
    requires 1 <= t.month <= 12
  {
    DaysBeforeYear(t.year) + DaysBeforeMonth(t.year, t.month) + t.day - 1
  }

  /** `Date.prototype.getTime`, local time read as UTC. */
  function Millis(t: DateTime): (r: int)
    ensures DayNumber(t) * MillisPerDay <= r < DayNumber(t) * MillisPerDay + MillisPerDay
  {
    (DayNumber(t) * MinutesPerDay + t.minute) * MillisPerMinute
  }

  /** `getDay`: Sunday = 0 .. Saturday = 6 (1970-01-01 was a Thursday). */
  function Weekday(t: DateTime): (r: int)
    ensures 0 <= r < 7 && DayNumber(t) + 4 == 7 * WeekNumber(t) + r
  {
    (DayNumber(t) + 4) % 7
  }

  /** The Sunday-to-Saturday week that holds t, numbered consecutively. */
  function WeekNumber(t: DateTime): int {
    (DayNumber(t) + 4) / 7
  }

  /** Months numbered consecutively: year * 12 + month - 1. */
  function MonthIndex(t: Instant): int {
    t.year * 12 + t.month - 1
  }

  /** The first day of the month with the given index, at the given minute. */
  function MonthStart(i: int, minute: int): (r: DateTime)
    requires 0 <= minute < MinutesPerDay
    ensures MonthIndex(r) == i && r.day == 1 && r.minute == minute
  {
    Instant(i / 12, i % 12 + 1, 1, minute)
  }

  // ---------------------------------------------------------------------
  // date-fns operations

  function NextDay(t: DateTime): (r: DateTime)
    ensures DayNumber(r) == DayNumber(t) + 1 && r.minute == t.minute
  {
    if t.day < DaysInMonth(t.year, t.month) then t.(day := t.day + 1)
    else if t.month < 12 then
      DaysBeforeMonthStep(t.year, t.month);
      Instant(t.year, t.month + 1, 1, t.minute)
    else
      YearStep(t.year);
      Instant(t.year + 1, 1, 1, t.minute)
  }

  function PreviousDay(t: DateTime): (r: DateTime)
    ensures DayNumber(r) == DayNumber(t) - 1 && r.minute == t.minute
  {
    if t.day > 1 then t.(day := t.day - 1)
    else if t.month > 1 then
      DaysBeforeMonthStep(t.year, t.month - 1);
      Instant(t.year, t.month - 1, DaysInMonth(t.year, t.month - 1), t.minute)
    else
      YearStep(t.year - 1);
      Instant(t.year - 1, 12, 31, t.minute)
  }

  /** `addDays(t, n)`: n calendar days later (earlier for negative n), same time of day. */
  function AddDays(t: DateTime, n: int): (r: DateTime)
    ensures DayNumber(r) == DayNumber(t) + n && r.minute == t.minute
    decreases if n < 0 then -n else n
  {
    if n == 0 then t
    else if n > 0 then AddDays(NextDay(t), n - 1)
    else AddDays(PreviousDay(t), n + 1)
  }

  /** `addWeeks(t, n)`. */
  function AddWeeks(t: DateTime, n: int): (r: DateTime)
    ensures DayNumber(r) == DayNumber(t) + 7 * n && r.minute == t.minute
  {
    AddDays(t, 7 * n)
  }

  /** `addMonths(t, n)`: n months later; a day past the new month's end is clamped to it. */
  function AddMonths(t: DateTime, n: int): (r: DateTime)
    ensures MonthIndex(r) == MonthIndex(t) + n
    ensures r.day == Min(t.day, DaysInMonth(r.year, r.month)) && r.minute == t.minute
  {
    var s := MonthStart(MonthIndex(t) + n, t.minute);
    s.(day := Min(t.day, DaysInMonth(s.year, s.month)))
  }

  /** `addYears(t, n)` is `addMonths(t, 12 * n)`. */
  function AddYears(t: DateTime, n: int): (r: DateTime)
    ensures r.year == t.year + n && r.month == t.month && r.minute == t.minute
    ensures r.day == Min(t.day, DaysInMonth(r.year, r.month))
  {
    AddMonths(t, 12 * n)
  }

  /**
   * `setDate(t, d)`: day d of t's month, counted on from its first day, so
   * that a day past the month's end overflows into the next month.
   */
  function SetDate(t: DateTime, d: int): (r: DateTime)
    requires 1 <= d <= 31
    ensures DayNumber(r) == DayNumber(MonthStart(MonthIndex(t), 0)) + d - 1
    ensures r.minute == t.minute
    ensures d <= DaysInMonth(t.year, t.month) <==> SameMonth(r, t)
    ensures SameMonth(r, t) ==> r.day == d
  {
    var len := DaysInMonth(t.year, t.month);
    MonthStartDayNumber(t);
    if d <= len then t.(day := d)
    else
      var next := MonthStart(MonthIndex(t) + 1, t.minute);
      NextMonthStartDayNumber(t);
      next.(day := d - len)
  }

  /** The first of the month after t's is the month's length after the first of t's month. */
  lemma NextMonthStartDayNumber(t: DateTime)
    ensures DayNumber(MonthStart(MonthIndex(t) + 1, t.minute))
         == DayNumber(MonthStart(MonthIndex(t), 0)) + DaysInMonth(t.year, t.month)
  {
    MonthIndexRoundTrip(t);
    MonthStartStep(MonthIndex(t), 0);
  }

  predicate SameMonth(a: DateTime, b: DateTime) {
    a.year == b.year && a.month == b.month
  }

  predicate SameDay(a: DateTime, b: DateTime) {
    a.year == b.year && a.month == b.month && a.day == b.day
  }

  /** `startOfMonth`: midnight of the month's first day. */
  function StartOfMonth(t: DateTime): (r: DateTime)
    ensures SameMonth(r, t) && r.day == 1 && r.minute == 0
  {
    t.(day := 1, minute := 0)
  }

  /**
   * `endOfMonth`: the last minute of the month's last day. date-fns sets
   * 23:59:59.999; every instant here is a whole minute, so no instant lies
   * between 23:59 and that moment.
   */
  function EndOfMonth(t: DateTime): (r: DateTime)
    ensures SameMonth(r, t) && r.day == DaysInMonth(t.year, t.month)
    ensures r.minute == MinutesPerDay - 1
  {
    t.(day := DaysInMonth(t.year, t.month), minute := MinutesPerDay - 1)
  }

  // ---------------------------------------------------------------------
  // Lemmas on the day count

  /** k * m is at least k for positive k and m. */
  lemma {:induction false} MulAtLeast(k: int, m: int)
    requires k >= 1 && m >= 1
    ensures k * m >= k
    decreases m
  {
    if m > 1 {
      MulAtLeast(k, m - 1);
      assert k * m == k * (m - 1) + k;
    }
  }

  /** Euclidean division is determined by quotient and remainder. */
  lemma DivModUnique(n: int, k: int, q: int, r: int)
    requires k >= 1 && 0 <= r < k && n == k * q + r
    ensures n / k == q && n % k == r
  {
    var d, s := n / k, n % k;
    assert n == k * d + s && 0 <= s < k;
    assert k * (q - d) == s - r;
    if q - d >= 1 {
      MulAtLeast(k, q - d);
    } else if d - q >= 1 {
      MulAtLeast(k, d - q);
    }
  }

  /** Moving y back by one changes y / k exactly when k divides y. */
  lemma DivStep(y: int, k: int)
    requires k >= 1
    ensures y / k - (y - 1) / k == if y % k == 0 then 1 else 0
  {
    var q, r := (y - 1) / k, (y - 1) % k;
    assert y - 1 == k * q + r && 0 <= r < k;
    if r == k - 1 {
      DivModUnique(y, k, q + 1, 0);
    } else {
      DivModUnique(y, k, q, r + 1);
    }
  }

  /** One more leap day is counted after a leap year, none after a common one. */
  lemma LeapDayStep(y: int)
    ensures LeapDaysBefore(y + 1) == LeapDaysBefore(y) + (if IsLeapYear(y) then 1 else 0)
  {
    DivStep(y, 4);
    DivStep(y, 100);
    DivStep(y, 400);
    if y % 400 == 0 {
      var q := y / 400;
      assert y == 400 * q;
      assert y == 100 * (4 * q) == 4 * (100 * q);
      DivModUnique(y, 100, 4 * q, 0);
      DivModUnique(y, 4, 100 * q, 0);
    } else if y % 100 == 0 {
      var q := y / 100;
      assert y == 100 * q;
      assert y == 4 * (25 * q);
      DivModUnique(y, 4, 25 * q, 0);
    }
  }

  /** January 1st of the next year is YearLength(y) days after January 1st of y. */
  lemma YearStep(y: int)
    ensures DaysBeforeYear(y + 1) == DaysBeforeYear(y) + YearLength(y)
    ensures DaysBeforeMonth(y, 12) + 31 == YearLength(y)
  {
    MonthsOfYear(y);
    LeapDayStep(y);
  }

  lemma MonthsOfYear(y: int)
    ensures DaysBeforeMonth(y, 12) == 334 + (if IsLeapYear(y) then 1 else 0)
  {
    var feb := DaysInMonth(y, 2);
    assert DaysBeforeMonth(y, 2) == 31;
    assert DaysBeforeMonth(y, 3) == 31 + feb;
    assert DaysBeforeMonth(y, 4) == 62 + feb;
    assert DaysBeforeMonth(y, 5) == 92 + feb;
    assert DaysBeforeMonth(y, 6) == 123 + feb;
    assert DaysBeforeMonth(y, 7) == 153 + feb;
    assert DaysBeforeMonth(y, 8) == 184 + feb;
    assert DaysBeforeMonth(y, 9) == 215 + feb;
    assert DaysBeforeMonth(y, 10) == 245 + feb;
    assert DaysBeforeMonth(y, 11) == 276 + feb;
    assert DaysBeforeMonth(y, 12) == 306 + feb;
  }

  lemma DaysBeforeMonthStep(y: int, m: int)
    requires 1 <= m < 12
    ensures DaysBeforeMonth(y, m + 1) == DaysBeforeMonth(y, m) + DaysInMonth(y, m)
  {
  }

  lemma MonthIndexRoundTrip(t: Instant)
    requires 1 <= t.month <= 12
    ensures MonthIndex(t) / 12 == t.year && MonthIndex(t) % 12 + 1 == t.month
  {
  }

  /** A date's day number counts on from the first of its month. */
  lemma MonthStartDayNumber(t: DateTime)
    ensures DayNumber(t) == DayNumber(MonthStart(MonthIndex(t), 0)) + t.day - 1
  {
    MonthIndexRoundTrip(t);
  }

  /** The first of the next month is the month's length after the first of this one. */
  lemma MonthStartStep(i: int, minute: int)
    requires 0 <= minute < MinutesPerDay
    ensures var s := MonthStart(i, minute);
      DayNumber(MonthStart(i + 1, minute)) == DayNumber(s) + DaysInMonth(s.year, s.month)
  {
    var s := MonthStart(i, minute);
    if i % 12 == 11 {
      assert (i + 1) / 12 == i / 12 + 1 && (i + 1) % 12 == 0;
      YearStep(s.year);
    } else {
      assert (i + 1) / 12 == i / 12 && (i + 1) % 12 == i % 12 + 1;
      DaysBeforeMonthStep(s.year, s.month);
    }
  }

  /** Every day of an earlier month comes before the first of a later month. */
  lemma {:induction false} MonthStartMonotone(i: int, j: int)
    requires i < j
    ensures var s := MonthStart(i, 0);
      DayNumber(s) + DaysInMonth(s.year, s.month) <= DayNumber(MonthStart(j, 0))
    decreases j - i
  {
    MonthStartStep(i, 0);
    if i + 1 < j {
      MonthStartMonotone(i + 1, j);
    }
  }

  /** Two days share a weekday exactly when they are a whole number of weeks apart. */
  lemma SameWeekday(a: DateTime, b: DateTime)
    ensures Weekday(a) == Weekday(b) <==> (DayNumber(a) - DayNumber(b)) % 7 == 0
  {
    var q := WeekNumber(a) - WeekNumber(b);
    var d := Weekday(a) - Weekday(b);
    assert DayNumber(a) - DayNumber(b) == 7 * q + d;
    if d == 0 {
      DivModUnique(DayNumber(a) - DayNumber(b), 7, q, 0);
    } else if d > 0 {
      DivModUnique(DayNumber(a) - DayNumber(b), 7, q, d);
    } else {
      DivModUnique(DayNumber(a) - DayNumber(b), 7, q - 1, d + 7);
    }
  }

  /** Day numbers follow the month order. */
  lemma MonthOrder(a: DateTime, b: DateTime)
    requires MonthIndex(a) < MonthIndex(b)
    ensures DayNumber(a) < DayNumber(b)
  {
    MonthStartDayNumber(a);
    MonthStartDayNumber(b);
    MonthStartMonotone(MonthIndex(a), MonthIndex(b));
    MonthIndexRoundTrip(a);
  }

  /** Two dates with one day number are the same date. */
  lemma DayNumberInjective(a: DateTime, b: DateTime)
    requires DayNumber(a) == DayNumber(b)
    ensures SameDay(a, b)
  {
    if MonthIndex(a) < MonthIndex(b) {
      MonthOrder(a, b);
    } else if MonthIndex(b) < MonthIndex(a) {
      MonthOrder(b, a);
    } else {
      MonthIndexRoundTrip(a);
      MonthIndexRoundTrip(b);
    }
  }

  /** Milliseconds order instants first by date, then by time of day. */
  lemma MillisByDay(a: DateTime, b: DateTime)
    ensures DayNumber(a) < DayNumber(b) ==> Millis(a) < Millis(b)
    ensures DayNumber(a) == DayNumber(b) ==> (Millis(a) < Millis(b) <==> a.minute < b.minute)
    ensures Millis(a) == Millis(b) <==> SameDay(a, b) && a.minute == b.minute
  {
    if DayNumber(a) == DayNumber(b) {
      DayNumberInjective(a, b);
    }
  }
}
