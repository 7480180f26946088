/**
 * Naive date-times of the proleptic Gregorian calendar, at one-second resolution, as Python's
 * `datetime` stores them: the calendar fields, `replace(year=...)`, and subtraction, which goes
 * through the day ordinal (0001-01-01 is day 1).
 */
module Civil {
  import opened Results

  const SecondsPerDay: int := 86400
  const MinYear: int := 1
  const MaxYear: int := 9999

  /** `second` counts the seconds since midnight. */
  datatype DateTime = DateTime(year: int, month: int, day: int, second: int)

  /** What `replace` raises when the day does not exist in the target month. */
  datatype DateError = DayOutOfRange

  predicate IsLeapYear(y: int) {
    y % 4 == 0 && (y % 100 != 0 || y % 400 == 0)
  }

  function DaysInMonth(y: int, m: int): (n: int)
    requires 1 <= m <= 12
    ensures 28 <= n <= 31
    ensures n == 29 <==> m == 2 && IsLeapYear(y)
  {
    if m == 2 then (if IsLeapYear(y) then 29 else 28)
    else if m == 4 || m == 6 || m == 9 || m == 11 then 30
    else 31
  }

  predicate ValidDateTime(d: DateTime) {
    && MinYear <= d.year <= MaxYear
    && 1 <= d.month <= 12
    && 1 <= d.day <= DaysInMonth(d.year, d.month)
    && 0 <= d.second < SecondsPerDay
  }

  function DaysBeforeYear(y: int): int {
    var p := y - 1;
    365 * p + p / 4 - p / 100 + p / 400
  }

  function DaysBeforeMonth(y: int, m: int): int
    requires 1 <= m <= 12
  {
    var common := [0, 31, 59, 90, 120, 151, 181, 212, 243, 273, 304, 334][m - 1];
    if m > 2 && IsLeapYear(y) then common + 1 else common
  }

  /** `date.toordinal()`. */
  function Ordinal(d: DateTime): int
    requires ValidDateTime(d)
  {
    DaysBeforeYear(d.year) + DaysBeforeMonth(d.year, d.month) + d.day
  }

  /** Seconds since 0001-01-01 00:00:00; `a - b` between date-times is `Instant(a) - Instant(b)` seconds. */
  function Instant(d: DateTime): int
    requires ValidDateTime(d)
  {
    (Ordinal(d) - 1) * SecondsPerDay + d.second
  }

  /** `d.replace(year=y)`: fails exactly when `d` is 29 February and `y` is not a leap year. */
  function ReplaceYear(d: DateTime, y: int): (r: Result<DateTime, DateError>)
    ensures ValidDateTime(d) && MinYear <= y <= MaxYear ==>
              (r.Failure? <==> d.month == 2 && d.day == 29 && !IsLeapYear(y))
    ensures r.Success? ==> ValidDateTime(r.value) && r.value.year == y
    ensures r.Success? ==> r.value.month == d.month && r.value.day == d.day && r.value.second == d.second
  {
    var moved := d.(year := y);
    if ValidDateTime(moved) then Success(moved) else Failure(DayOutOfRange)
  }

  /** The same time of day on the following calendar day. */
  function NextDay(d: DateTime): (r: DateTime)
    requires ValidDateTime(d)
    requires !(d.year == MaxYear && d.month == 12 && d.day == 31)
    ensures ValidDateTime(r) && r.second == d.second
  {
    if d.day < DaysInMonth(d.year, d.month) then d.(day := d.day + 1)
    else if d.month < 12 then d.(month := d.month + 1, day := 1)
    else d.(year := d.year + 1, month := 1, day := 1)
  }

  /** Moving past one more multiple of d adds one to the quotient; any other step leaves it unchanged. */
  lemma QuotientStep(p: int, d: int)
    requires d == 4 || d == 100 || d == 400
    ensures (p + 1) / d == p / d + (if (p + 1) % d == 0 then 1 else 0)
  {
    if d == 4 {
      assert (p + 1) / 4 == p / 4 + (if (p + 1) % 4 == 0 then 1 else 0);
    } else if d == 100 {
      assert (p + 1) / 100 == p / 100 + (if (p + 1) % 100 == 0 then 1 else 0);
    } else {
      assert (p + 1) / 400 == p / 400 + (if (p + 1) % 400 == 0 then 1 else 0);
    }
  }

  lemma DaysBeforeNextYear(y: int)
    requires MinYear <= y
    ensures DaysBeforeYear(y + 1) == DaysBeforeYear(y) + (if IsLeapYear(y) then 366 else 365)
  {
    QuotientStep(y - 1, 4);
    QuotientStep(y - 1, 100);
    QuotientStep(y - 1, 400);
  }

  /** The ordinal numbering agrees with the calendar: the next day is one ordinal, one day of seconds, later. */
  lemma OrdinalNextDay(d: DateTime)
    requires ValidDateTime(d)
    requires !(d.year == MaxYear && d.month == 12 && d.day == 31)
    ensures Ordinal(NextDay(d)) == Ordinal(d) + 1
    ensures Instant(NextDay(d)) == Instant(d) + SecondsPerDay
  {
    if d.day == DaysInMonth(d.year, d.month) && d.month == 12 {
      DaysBeforeNextYear(d.year);
    }
  }
}
