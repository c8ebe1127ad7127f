/**
 * The part of `System.DateTime` the parser relies on: which (year, month, day,
 * hour, minute) combinations the constructor accepts, and the tick count it
 * stores (100-nanosecond units since 0001-01-01 00:00).
 */
module Calendar {

  datatype Timestamp = Timestamp(year: int, month: int, day: int, hour: int, minute: int)

  /** Gregorian leap-year rule, as `DateTime.IsLeapYear`. */
  predicate IsLeapYear(year: int) {
    year % 4 == 0 && (year % 100 != 0 || year % 400 == 0)
  }

  /** `DateTime.DaysInMonth`. */
  function DaysInMonth(year: int, month: int): (n: int)
    requires 1 <= month <= 12
    ensures 28 <= n <= 31
    ensures n == 29 <==> month == 2 && IsLeapYear(year)
  {
    if month == 2 then (if IsLeapYear(year) then 29 else 28)
    else if month == 4 || month == 6 || month == 9 || month == 11 then 30
    else 31
  }

  /**
   * The arguments `new DateTime(year, month, day, hour, minute, 0)` accepts;
   * every other combination throws `ArgumentOutOfRangeException`.
   */
  predicate ValidDate(t: Timestamp) {
    && 1 <= t.year <= 9999
    && 1 <= t.month <= 12
    && 1 <= t.day <= DaysInMonth(t.year, t.month)
    && 0 <= t.hour <= 23
    && 0 <= t.minute <= 59
  }

  /** A constructed `DateTime` at minute resolution (seconds are always zero here). */
  type DateTime = t: Timestamp | ValidDate(t) witness Timestamp(1, 1, 1, 0, 0)

  const DaysToMonth365: seq<int> := [0, 31, 59, 90, 120, 151, 181, 212, 243, 273, 304, 334, 365]
  const DaysToMonth366: seq<int> := [0, 31, 60, 91, 121, 152, 182, 213, 244, 274, 305, 335, 366]

  /** Days of `year` that precede the first of `month` (month 13 gives the year's length). */
  function DaysBeforeMonth(year: int, month: int): int
    requires 1 <= month <= 13
  {
    if IsLeapYear(year) then DaysToMonth366[month - 1] else DaysToMonth365[month - 1]
  }

  function DaysInYear(year: int): int {
    if IsLeapYear(year) then 366 else 365
  }

  /** Days from 0001-01-01 to January 1st of `year`. */
  function DaysBeforeYear(year: int): int
    requires year >= 1
  {
    var y := year - 1;
    y * 365 + y / 4 - y / 100 + y / 400
  }

  /** Days from 0001-01-01 to the date of `t`. */
  function DayNumber(t: DateTime): int {
    DaysBeforeYear(t.year) + DaysBeforeMonth(t.year, t.month) + t.day - 1
  }

  /** Minutes from 0001-01-01 00:00 to `t`. */
  function MinuteNumber(t: DateTime): int {
    DayNumber(t) * 1440 + t.hour * 60 + t.minute
  }

  const TicksPerMinute: int := 600_000_000

  /** `DateTime.Ticks` of `t`. */
  function Ticks(t: DateTime): int {
    MinuteNumber(t) * TicksPerMinute
  }

  /** Calendar order: year, then month, day, hour, minute. */
  predicate Before(a: Timestamp, b: Timestamp) {
    || a.year < b.year
    || (a.year == b.year && a.month < b.month)
    || (a.year == b.year && a.month == b.month && a.day < b.day)
    || (a.year == b.year && a.month == b.month && a.day == b.day && a.hour < b.hour)
    || (a.year == b.year && a.month == b.month && a.day == b.day && a.hour == b.hour && a.minute < b.minute)
  }

  lemma DaysBeforeMonthStep(year: int, month: int)
    requires 1 <= month <= 12
    ensures DaysBeforeMonth(year, month + 1) == DaysBeforeMonth(year, month) + DaysInMonth(year, month)
    ensures DaysBeforeMonth(year, month + 1) <= DaysBeforeMonth(year, 13) == DaysInYear(year)
  {
  }

  lemma DaysBeforeMonthMonotone(year: int, m1: int, m2: int)
    requires 1 <= m1 <= m2 <= 13
    ensures DaysBeforeMonth(year, m1) <= DaysBeforeMonth(year, m2)
  {
  }

  /** Every day of the year lies before the next January 1st. */
  lemma DayOfYearBound(t: DateTime)
    ensures 0 <= DaysBeforeMonth(t.year, t.month) + t.day - 1 < DaysInYear(t.year)
  {
  }

  /** One more year crosses a multiple of 4, 100 or 400 exactly when `year` is one. */
  lemma QuotientsStep(y: int)
    ensures (y + 1) / 4 == y / 4 + (if (y + 1) % 4 == 0 then 1 else 0)
    ensures (y + 1) / 100 == y / 100 + (if (y + 1) % 100 == 0 then 1 else 0)
    ensures (y + 1) / 400 == y / 400 + (if (y + 1) % 400 == 0 then 1 else 0)
  {
  }

  /** The year's length from the three divisibility tests: a multiple of 400 is one of 100, and that one of 4. */
  lemma YearLength(year: int)
    ensures DaysInYear(year) == 365 + (if year % 4 == 0 then 1 else 0)
      - (if year % 100 == 0 then 1 else 0) + (if year % 400 == 0 then 1 else 0)
  {
    if year % 400 == 0 {
      assert year == 100 * (4 * (year / 400));
    } else if year % 100 == 0 {
      assert year == 4 * (25 * (year / 100));
    }
  }

  /** The closed formula of `DaysBeforeYear` adds one year length per year. */
  lemma DaysBeforeYearStep(year: int)
    requires year >= 1
    ensures DaysBeforeYear(year + 1) == DaysBeforeYear(year) + DaysInYear(year)
  {
    var y := year - 1;
    QuotientsStep(y);
    YearLength(year);
    assert DaysBeforeYear(year + 1) == (y + 1) * 365 + (y + 1) / 4 - (y + 1) / 100 + (y + 1) / 400;
    assert DaysBeforeYear(year) == y * 365 + y / 4 - y / 100 + y / 400;
  }

  lemma {:induction false} DaysBeforeYearMonotone(y1: int, y2: int)
    requires 1 <= y1 < y2
    ensures DaysBeforeYear(y1) + DaysInYear(y1) <= DaysBeforeYear(y2)
    decreases y2 - y1
  {
    DaysBeforeYearStep(y1);
    if y1 + 1 < y2 {
      DaysBeforeYearMonotone(y1 + 1, y2);
    }
  }

  /** The tick count preserves calendar order, so it is one-to-one on valid dates. */
  lemma TicksMonotone(a: DateTime, b: DateTime)
    requires Before(a, b)
    ensures Ticks(a) < Ticks(b)
  {
    DayOfYearBound(a);
    if a.year < b.year {
      DaysBeforeYearMonotone(a.year, b.year);
    } else if a.month < b.month {
      DaysBeforeMonthStep(a.year, a.month);
      DaysBeforeMonthMonotone(a.year, a.month + 1, b.month);
    }
    assert DayNumber(a) <= DayNumber(b);
    assert MinuteNumber(a) < MinuteNumber(b);
  }
}
