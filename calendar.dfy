/** Calendar dates as (year, month, day) triples of the proleptic Gregorian
    calendar, with the parts of java.time that the client service relies on:
    strict "is in the past" ordering (the @Past constraint) and whole-year
    periods (Period.between(..).getYears()); and LocalDate.minusYears,
    which the tests use to build birth dates. */
module Calendar {

  datatype Ymd = Ymd(year: int, month: int, day: int)

  predicate IsLeapYear(y: int) {
    y % 4 == 0 && (y % 100 != 0 || y % 400 == 0)
  }

  function DaysInMonth(y: int, m: int): (n: int)
    requires 1 <= m <= 12
    ensures 28 <= n <= 31
  {
    if m == 2 then (if IsLeapYear(y) then 29 else 28)
    else if m == 4 || m == 6 || m == 9 || m == 11 then 30
    else 31
  }

  predicate IsCalendarDate(d: Ymd) {
    1 <= d.month <= 12 && 1 <= d.day <= DaysInMonth(d.year, d.month)
  }

  /** A LocalDate value: always a real calendar date. */
  type Date = d: Ymd | IsCalendarDate(d) witness Ymd(1970, 1, 1)

  /** a strictly precedes b in time. */
  predicate Before(a: Date, b: Date) {
    a.year < b.year || (a.year == b.year && MonthDayBefore(a, b))
  }

  /** Within a year, the (month, day) of a comes strictly before that of b. */
  predicate MonthDayBefore(a: Date, b: Date) {
    a.month < b.month || (a.month == b.month && a.day < b.day)
  }

  /** Division truncating toward zero, as Java's long division does. */
  function TruncDiv(a: int, b: int): (q: int)
    requires b > 0
    ensures a >= 0 ==> q == a / b
    ensures a < 0 ==> -q == (-a) / b
  {
    if a >= 0 then a / b else -((-a) / b)
  }

  function ProlepticMonth(d: Date): int {
    d.year * 12 + d.month - 1
  }

  /** Period.between(start, end).getYears(): months between the dates,
      less one when the end's day of month has not yet reached the
      start's (and the reverse for a negative period), in whole years
      truncated toward zero. */
  function PeriodYears(start: Date, end: Date): int {
    var totalMonths := ProlepticMonth(end) - ProlepticMonth(start);
    var days := end.day - start.day;
    var months :=
      if totalMonths > 0 && days < 0 then totalMonths - 1
      else if totalMonths < 0 && days > 0 then totalMonths + 1
      else totalMonths;
    TruncDiv(months, 12)
  }

  /** The familiar age rule: the difference of the years, less one when
      the birthday has not yet come round this year. */
  function AgeOn(birth: Date, today: Date): int {
    today.year - birth.year - (if MonthDayBefore(today, birth) then 1 else 0)
  }

  /** For a birth date not after today, Java's whole-year period is the
      familiar age rule. */
  lemma PeriodYearsIsAge(birth: Date, today: Date)
    requires !Before(today, birth)
    ensures PeriodYears(birth, today) == AgeOn(birth, today)
  {
  }

  /** A birth date in the past gives a non-negative age. */
  lemma PeriodYearsNonNegative(birth: Date, today: Date)
    requires Before(birth, today)
    ensures PeriodYears(birth, today) >= 0
  {
  }

  /** Age never goes down as time passes (it is recomputed on every read). */
  lemma PeriodYearsMonotone(birth: Date, today: Date, later: Date)
    requires !Before(today, birth) && !Before(later, today)
    ensures PeriodYears(birth, today) <= PeriodYears(birth, later)
  {
  }

  /** LocalDate.minusYears(n): same month and day n years earlier, with the
      day clamped to the month's end (29 February becomes 28 February). */
  function MinusYears(d: Date, n: nat): (r: Date)
    ensures r.year == d.year - n && r.month == d.month
    ensures d.day <= DaysInMonth(r.year, r.month) ==> r.day == d.day
    ensures d.day > DaysInMonth(r.year, r.month) ==> r.day == DaysInMonth(r.year, r.month)
  {
    var y := d.year - n;
    var last := DaysInMonth(y, d.month);
    Ymd(y, d.month, if d.day <= last then d.day else last)
  }

  /** A birth date exactly n years before today yields an age of n. */
  lemma MinusYearsAge(today: Date, n: nat)
    ensures PeriodYears(MinusYears(today, n), today) == n
  {
  }
}
