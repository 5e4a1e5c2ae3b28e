/**
 * Calendar dates and timestamps as the SQL Server columns of the core hold
 * them: `date` is a proleptic Gregorian (year, month, day) triple and
 * `datetime` a date together with a time of day.
 */
module Calendar {
  import opened Wrappers

  datatype Ymd = Ymd(year: int, month: int, day: int)

  predicate IsLeapYear(y: int) {
    (y % 4 == 0 && y % 100 != 0) || y % 400 == 0
  }

  function DaysInMonth(y: int, m: int): (n: int)
    requires 1 <= m <= 12
    ensures 28 <= n <= 31
    ensures n == 28 <==> m == 2 && !IsLeapYear(y)
    ensures n == 29 <==> m == 2 && IsLeapYear(y)
  {
    if m == 2 then (if IsLeapYear(y) then 29 else 28)
    else if m == 4 || m == 6 || m == 9 || m == 11 then 30
    else 31
  }

  predicate ValidYmd(d: Ymd) {
    1 <= d.month <= 12 && 1 <= d.day <= DaysInMonth(d.year, d.month)
  }

  /** A calendar date: a triple naming a day that exists. */
  type Date = d: Ymd | ValidYmd(d) witness Ymd(2000, 1, 1)

  /** Chronological order of dates: (year, month, day) compared lexicographically. */
  predicate DateLt(a: Date, b: Date) {
    a.year < b.year
    || (a.year == b.year && a.month < b.month)
    || (a.year == b.year && a.month == b.month && a.day < b.day)
  }

  predicate DateLe(a: Date, b: Date) {
    DateLt(a, b) || a == b
  }

  lemma DateLeTotal(a: Date, b: Date)
    ensures DateLe(a, b) || DateLe(b, a)
    ensures DateLe(a, b) && DateLe(b, a) ==> a == b
  {
  }

  /**
   * DATEADD(YEAR, n, d) of SQL Server: the same month and day n years on,
   * except that a day the target month lacks (29 February in a common year)
   * becomes the last day of that month.
   */
  function AddYears(d: Date, n: int): (r: Date)
    ensures r.year == d.year + n && r.month == d.month
    ensures r.day == d.day || (d.month == 2 && d.day == 29 && r.day == 28 && !IsLeapYear(d.year + n))
  {
    var last := DaysInMonth(d.year + n, d.month);
    Ymd(d.year + n, d.month, if d.day <= last then d.day else last)
  }

  /** Adding whole years keeps the chronological order (not strictly: 28 and 29 February may meet). */
  lemma AddYearsMonotone(a: Date, b: Date, n: int)
    requires DateLe(a, b)
    ensures DateLe(AddYears(a, n), AddYears(b, n))
  {
  }

  /** Adding a positive number of years gives a strictly later date. */
  lemma AddYearsLater(d: Date, n: int)
    requires n > 0
    ensures DateLt(d, AddYears(d, n))
  {
  }

  /** A 29 February birth reaches the anniversary on 28 February of a common year. */
  lemma LeapDayAnniversary()
    ensures AddYears(Ymd(2004, 2, 29), 18) == Ymd(2022, 2, 28)
    ensures AddYears(Ymd(2004, 2, 29), 20) == Ymd(2024, 2, 29)
  {
  }

  /** Time is counted in ticks of 100 nanoseconds, the finest unit of `datetime2`. */
  const TicksPerSecond: nat := 10_000_000
  const TicksPerDay: nat := 86400 * TicksPerSecond

  /** A time of day: the ticks since midnight, less than one day. */
  type TimeOfDay = t: nat | t < TicksPerDay

  /** A `datetime` value: a date and a time of day. */
  datatype DateTime = DateTime(date: Date, timeOfDay: TimeOfDay)

  /** The day after d: the next date, with no date strictly between them. */
  function NextDay(d: Date): (r: Date)
    ensures DateLt(d, r)
    ensures forall e: Date :: DateLt(d, e) ==> DateLe(r, e)
  {
    if d.day < DaysInMonth(d.year, d.month) then Ymd(d.year, d.month, d.day + 1)
    else if d.month < 12 then Ymd(d.year, d.month + 1, 1)
    else Ymd(d.year + 1, 1, 1)
  }

  /**
   * CAST(t AS DATETIME2(0)): t rounded to the nearest whole second, half a
   * second rounding up; a time that rounds to midnight moves to the next day.
   */
  function RoundToSecond(t: DateTime): (r: DateTime)
    ensures r.timeOfDay % TicksPerSecond == 0
    ensures (r.date == t.date && -(TicksPerSecond / 2) < r.timeOfDay - t.timeOfDay <= TicksPerSecond / 2)
            || (r == DateTime(NextDay(t.date), 0) && TicksPerDay - t.timeOfDay <= TicksPerSecond / 2)
    ensures t.timeOfDay % TicksPerSecond == 0 ==> r == t
  {
    var s := (t.timeOfDay + TicksPerSecond / 2) / TicksPerSecond;
    if s * TicksPerSecond < TicksPerDay then DateTime(t.date, s * TicksPerSecond)
    else DateTime(NextDay(t.date), 0)
  }

  /** Rounding keeps the order of timestamps (not strictly: nearby times meet). */
  lemma RoundToSecondMonotone(a: DateTime, b: DateTime)
    requires DateTimeLe(a, b)
    ensures DateTimeLe(RoundToSecond(a), RoundToSecond(b))
  {
    var ra, rb := RoundToSecond(a), RoundToSecond(b);
    if a.date == b.date {
      var sa := (a.timeOfDay + TicksPerSecond / 2) / TicksPerSecond;
      var sb := (b.timeOfDay + TicksPerSecond / 2) / TicksPerSecond;
      assert sa <= sb;
    } else {
      assert DateLe(NextDay(a.date), b.date);
    }
  }

  /** 23:59:59.997 rounds to midnight of the next day; 00:16:40.4999999 rounds down. */
  lemma RoundToSecondExamples()
    ensures RoundToSecond(DateTime(Ymd(2024, 12, 31), TicksPerDay - 30_000)) == DateTime(Ymd(2025, 1, 1), 0)
    ensures RoundToSecond(DateTime(Ymd(2024, 12, 31), 1000 * TicksPerSecond + 4_999_999))
            == DateTime(Ymd(2024, 12, 31), 1000 * TicksPerSecond)
  {
  }

  /** Midnight at the start of a day, as `LocalDate.atStartOfDay()` gives it. */
  function StartOfDay(d: Date): (t: DateTime)
    ensures t.date == d && t.timeOfDay == 0
  {
    DateTime(d, 0)
  }

  predicate DateTimeLt(a: DateTime, b: DateTime) {
    DateLt(a.date, b.date) || (a.date == b.date && a.timeOfDay < b.timeOfDay)
  }

  predicate DateTimeLe(a: DateTime, b: DateTime) {
    DateTimeLt(a, b) || a == b
  }

  lemma DateTimeLeTotal(a: DateTime, b: DateTime)
    ensures DateTimeLe(a, b) || DateTimeLe(b, a)
    ensures DateTimeLe(a, b) && DateTimeLe(b, a) ==> a == b
  {
  }

  lemma DateTimeLeTrans(a: DateTime, b: DateTime, c: DateTime)
    requires DateTimeLe(a, b) && DateTimeLe(b, c)
    ensures DateTimeLe(a, c)
  {
  }

  /** Every moment of a day lies before the start of any later day. */
  lemma BeforeStartOfDay(t: DateTime, d: Date)
    ensures DateTimeLt(t, StartOfDay(d)) <==> DateLt(t.date, d)
  {
  }

  /**
   * ORDER BY c ASC over a nullable `datetime` column: SQL Server puts NULL
   * first in ascending order.
   */
  predicate AscNullsFirst(a: Option<DateTime>, b: Option<DateTime>) {
    a.None? || (b.Some? && DateTimeLe(a.value, b.value))
  }

  /** ORDER BY c DESC over a nullable column: latest first, NULL last. */
  predicate DescNullsLast(a: Option<DateTime>, b: Option<DateTime>) {
    b.None? || (a.Some? && DateTimeLe(b.value, a.value))
  }

  lemma AscNullsFirstPreorder(a: Option<DateTime>, b: Option<DateTime>, c: Option<DateTime>)
    ensures AscNullsFirst(a, b) || AscNullsFirst(b, a)
    ensures AscNullsFirst(a, b) && AscNullsFirst(b, c) ==> AscNullsFirst(a, c)
  {
    if a.Some? && b.Some? {
      DateTimeLeTotal(a.value, b.value);
    }
    if a.Some? && b.Some? && c.Some? && AscNullsFirst(a, b) && AscNullsFirst(b, c) {
      DateTimeLeTrans(a.value, b.value, c.value);
    }
  }

  lemma DescNullsLastPreorder(a: Option<DateTime>, b: Option<DateTime>, c: Option<DateTime>)
    ensures DescNullsLast(a, b) || DescNullsLast(b, a)
    ensures DescNullsLast(a, b) && DescNullsLast(b, c) ==> DescNullsLast(a, c)
  {
    if a.Some? && b.Some? {
      DateTimeLeTotal(a.value, b.value);
    }
    if a.Some? && b.Some? && c.Some? && DescNullsLast(a, b) && DescNullsLast(b, c) {
      DateTimeLeTrans(c.value, b.value, a.value);
    }
  }
}
