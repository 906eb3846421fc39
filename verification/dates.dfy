/**
 * The two java.time.LocalDate computations the client entity uses:
 * `Period.between(a, b).getYears()` (completed years) and `plusYears`, on the
 * proleptic ISO calendar.
 */
module Dates {

  datatype DateValue = Date(year: int, month: int, day: int)

  /** A `LocalDate`: always a real calendar day. */
  type Date = d: DateValue | Valid(d) witness Date(1970, 1, 1)

  /** `IsoChronology.isLeapYear`. */
  predicate IsLeap(y: int)
  {
    y % 4 == 0 && (y % 100 != 0 || y % 400 == 0)
  }

  function DaysInMonth(y: int, m: int): (n: int)
    requires 1 <= m <= 12
    ensures 28 <= n <= 31
    ensures n == 29 <==> m == 2 && IsLeap(y)
  {
    if m == 2 then (if IsLeap(y) then 29 else 28)
    else if m == 4 || m == 6 || m == 9 || m == 11 then 30
    else 31
  }

  predicate Valid(d: DateValue)
  {
    1 <= d.month <= 12 && 1 <= d.day <= DaysInMonth(d.year, d.month)
  }

  /** Calendar order. */
  predicate Before(a: Date, b: Date)
  {
    a.year < b.year
    || (a.year == b.year && (a.month < b.month || (a.month == b.month && a.day < b.day)))
  }

  /** Month and day of `a` come strictly before those of `b` within a year. */
  predicate EarlierInYear(a: Date, b: Date)
  {
    a.month < b.month || (a.month == b.month && a.day < b.day)
  }

  /** Java's `long` division, which truncates toward zero. */
  function JavaDiv(a: int, b: int): (q: int)
    requires b > 0
    ensures a >= 0 ==> q == a / b
    ensures a < 0 ==> q == -((-a) / b)
  {
    if a >= 0 then a / b else -((-a) / b)
  }

  function ProlepticMonth(d: Date): int
  {
    d.year * 12 + d.month - 1
  }

  /**
   * `Period.between(start, end).getYears()`: the month difference, corrected
   * by one toward zero when the day of month has not been reached, divided
   * by 12 with truncation.
   */
  function PeriodYears(start: Date, end: Date): int
  {
    var totalMonths := ProlepticMonth(end) - ProlepticMonth(start);
    var days := end.day - start.day;
    var months :=
      if totalMonths > 0 && days < 0 then totalMonths - 1
      else if totalMonths < 0 && days > 0 then totalMonths + 1
      else totalMonths;
    JavaDiv(months, 12)
  }

  /** From an earlier date, the period counts the anniversaries passed: the completed years. */
  lemma PeriodYearsCompleted(start: Date, end: Date)
    requires !Before(end, start)
    ensures PeriodYears(start, end) >= 0
    ensures PeriodYears(start, end) == end.year - start.year - (if EarlierInYear(end, start) then 1 else 0)
  {
    var y := end.year - start.year;
    var totalMonths := ProlepticMonth(end) - ProlepticMonth(start);
    assert totalMonths == 12 * y + (end.month - start.month);
    assert totalMonths >= 0;
    var days := end.day - start.day;
    var months := if totalMonths > 0 && days < 0 then totalMonths - 1 else totalMonths;
    assert PeriodYears(start, end) == months / 12;
    if EarlierInYear(end, start) {
      assert y >= 1;
      assert 12 * (y - 1) <= months < 12 * y;
      DivRange(months, y - 1);
    } else {
      assert 12 * y <= months < 12 * (y + 1);
      DivRange(months, y);
    }
  }

  lemma DivRange(n: int, q: int)
    requires 12 * q <= n < 12 * (q + 1)
    ensures n / 12 == q
  {
  }

  /** `LocalDate.plusYears`: same month and day, February 29 clamped to the 28th outside leap years. */
  function PlusYears(d: Date, n: int): (r: Date)
    ensures r.year == d.year + n && r.month == d.month
    ensures r.day == d.day || (d.month == 2 && d.day == 29 && !IsLeap(r.year) && r.day == 28)
  {
    var y := d.year + n;
    if d.month == 2 && d.day == 29 && !IsLeap(y) then Date(y, 2, 28) else Date(y, d.month, d.day)
  }

  /** Adding years and measuring them back agrees, except for a February 29 clamped into a common year. */
  lemma PlusYearsPeriod(d: Date, n: nat)
    ensures var r := PlusYears(d, n);
      PeriodYears(d, r) == if r.day == d.day then n else n - 1
  {
    var r := PlusYears(d, n);
    assert !Before(r, d);
    PeriodYearsCompleted(d, r);
  }
}
