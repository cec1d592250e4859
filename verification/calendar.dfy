/** Proleptic Gregorian calendar dates and their day numbers, counted from
    1970-01-01 as JavaScript's `Date` counts them. A date is the `full-date`
    of section 5.6 of RFC 3339 (YYYY-MM-DD) once its digits are read. */
module Calendar {

  datatype Civil = Civil(year: int, month: int, day: int)

  predicate IsLeap(y: int)
  {
    y % 4 == 0 && (y % 100 != 0 || y % 400 == 0)
  }

  function YearLength(y: int): int
  {
    if IsLeap(y) then 366 else 365
  }

  function MonthLength(y: int, m: int): int
    requires 1 <= m <= 12
  {
    if m == 2 then (if IsLeap(y) then 29 else 28)
    else if m == 4 || m == 6 || m == 9 || m == 11 then 30
    else 31
  }

  /** A date that exists in the calendar. */
  predicate Valid(c: Civil)
  {
    1 <= c.month <= 12 && 1 <= c.day <= MonthLength(c.year, c.month)
  }

  /** Days in the months of year `y` before month `m`. */
  function DaysBeforeMonth(y: int, m: int): (r: int)
    requires 1 <= m <= 12
    ensures 0 <= r
  {
    var leap := if IsLeap(y) then 1 else 0;
    match m
    case 1 => 0
    case 2 => 31
    case 3 => 59 + leap
    case 4 => 90 + leap
    case 5 => 120 + leap
    case 6 => 151 + leap
    case 7 => 181 + leap
    case 8 => 212 + leap
    case 9 => 243 + leap
    case 10 => 273 + leap
    case 11 => 304 + leap
    case _ => 334 + leap
  }

  /** Leap years among the years before `y`, up to a constant: the floor
      divisions make the count exact for negative years too. */
  function LeapYearsBefore(y: int): int
  {
    (y - 1) / 4 - (y - 1) / 100 + (y - 1) / 400
  }

  /** Day number of (y, m, d); 1970-01-01 is day 0. Linear in `d`, so a
      day past the end of its month lands in the next month, which is how
      `Date` normalises an out-of-range day of month. */
  function DaysFromCivil(y: int, m: int, d: int): int
    requires 1 <= m <= 12
  {
    365 * (y - 1970) + (LeapYearsBefore(y) - LeapYearsBefore(1970)) + DaysBeforeMonth(y, m) + d - 1
  }

  function DayNumber(c: Civil): int
    requires 1 <= c.month <= 12
  {
    DaysFromCivil(c.year, c.month, c.day)
  }

  lemma Epoch()
    ensures DaysFromCivil(1970, 1, 1) == 0
  {
  }

  /** Moving from year y to y + 1 adds one leap year exactly when y is leap. */
  lemma LeapStep(y: int)
    ensures LeapYearsBefore(y + 1) == LeapYearsBefore(y) + (if IsLeap(y) then 1 else 0)
  {
    QuarterStep(y);
    CenturyStep(y);
    QuadCenturyStep(y);
  }

  lemma QuarterStep(y: int)
    ensures y / 4 - (y - 1) / 4 == (if y % 4 == 0 then 1 else 0)
  {
  }

  lemma CenturyStep(y: int)
    ensures y / 100 - (y - 1) / 100 == (if y % 100 == 0 then 1 else 0)
  {
  }

  lemma QuadCenturyStep(y: int)
    ensures y / 400 - (y - 1) / 400 == (if y % 400 == 0 then 1 else 0)
  {
  }

  /** Each month starts where the one before it ends, and December ends
      the year. */
  lemma MonthStep(y: int, m: int)
    requires 1 <= m <= 12
    ensures m < 12 ==> DaysBeforeMonth(y, m + 1) == DaysBeforeMonth(y, m) + MonthLength(y, m)
    ensures m == 12 ==> DaysBeforeMonth(y, m) + MonthLength(y, m) == YearLength(y)
  {
  }

  /** The first day of a year follows the last day of the year before. */
  lemma YearStep(y: int)
    ensures DaysFromCivil(y + 1, 1, 1) == DaysFromCivil(y, 1, 1) + YearLength(y)
  {
    LeapStep(y);
  }

  lemma {:induction false} YearStartMonotone(a: int, b: int)
    requires a < b
    ensures DaysFromCivil(a, 1, 1) + YearLength(a) <= DaysFromCivil(b, 1, 1)
    decreases b - a
  {
    YearStep(a);
    if a + 1 < b {
      YearStartMonotone(a + 1, b);
    }
  }

  /** The calendar successor of a valid date. */
  function NextDay(c: Civil): (r: Civil)
    requires Valid(c)
    ensures Valid(r)
  {
    if c.day < MonthLength(c.year, c.month) then Civil(c.year, c.month, c.day + 1)
    else if c.month < 12 then Civil(c.year, c.month + 1, 1)
    else Civil(c.year + 1, 1, 1)
  }

  /** Consecutive calendar dates have consecutive day numbers. */
  lemma NextDayIsNextNumber(c: Civil)
    requires Valid(c)
    ensures DayNumber(NextDay(c)) == DayNumber(c) + 1
  {
    MonthStep(c.year, c.month);
    if c.day == MonthLength(c.year, c.month) && c.month == 12 {
      YearStep(c.year);
    }
  }

  /** The fields `Date` accepts in a YYYY-MM-DD string: a month from 01
      to 12 and a day from 01 to 31, whatever the month. */
  predicate InReaderRange(c: Civil)
  {
    1 <= c.month <= 12 && 1 <= c.day <= 31
  }

  /** The date a day past its month's end lands on: the excess (at most
      three days) carries into the next month, as `Date` does. */
  function Rollover(c: Civil): (r: Civil)
    requires InReaderRange(c)
    ensures Valid(r) && r.year == c.year
    ensures DayNumber(r) == DayNumber(c)
    ensures r == c <==> Valid(c)
  {
    if c.day <= MonthLength(c.year, c.month) then c
    else
      MonthStep(c.year, c.month);
      Civil(c.year, c.month + 1, c.day - MonthLength(c.year, c.month))
  }

  /** Calendar order of dates: by year, then month, then day. */
  predicate Before(a: Civil, b: Civil)
  {
    || a.year < b.year
    || (a.year == b.year && a.month < b.month)
    || (a.year == b.year && a.month == b.month && a.day < b.day)
  }

  /** A valid date's day number lies inside its year. */
  lemma WithinYear(c: Civil)
    requires Valid(c)
    ensures DaysFromCivil(c.year, 1, 1) <= DayNumber(c) < DaysFromCivil(c.year, 1, 1) + YearLength(c.year)
  {
    MonthsBeforeBound(c.year, c.month);
  }

  lemma {:induction false} MonthsBeforeBound(y: int, m: int)
    requires 1 <= m <= 12
    ensures DaysBeforeMonth(y, m) + MonthLength(y, m) <= YearLength(y)
    decreases 12 - m
  {
    MonthStep(y, m);
    if m < 12 {
      MonthsBeforeBound(y, m + 1);
    }
  }

  lemma {:induction false} MonthsBeforeMonotone(y: int, a: int, b: int)
    requires 1 <= a < b <= 12
    ensures DaysBeforeMonth(y, a) + MonthLength(y, a) <= DaysBeforeMonth(y, b)
    decreases b - a
  {
    MonthStep(y, a);
    if a + 1 < b {
      MonthsBeforeMonotone(y, a + 1, b);
    }
  }

  /** Day numbers order valid dates exactly as the calendar does; in
      particular distinct dates have distinct numbers. */
  lemma DayNumberOrder(a: Civil, b: Civil)
    requires Valid(a) && Valid(b)
    ensures Before(a, b) <==> DayNumber(a) < DayNumber(b)
    ensures DayNumber(a) == DayNumber(b) <==> a == b
  {
    if a.year < b.year {
      WithinYear(a);
      WithinYear(b);
      YearStartMonotone(a.year, b.year);
    } else if b.year < a.year {
      WithinYear(a);
      WithinYear(b);
      YearStartMonotone(b.year, a.year);
    } else if a.month < b.month {
      MonthsBeforeMonotone(a.year, a.month, b.month);
    } else if b.month < a.month {
      MonthsBeforeMonotone(a.year, b.month, a.month);
    }
  }

  /** The day `setMonth(getMonth() + 1)` lands on, as a day number: the same
      day of month one month on, normalised by `Date` when that month is
      shorter. */
  function MonthLater(c: Civil): int
    requires Valid(c)
  {
    if c.month < 12 then DaysFromCivil(c.year, c.month + 1, c.day)
    else DaysFromCivil(c.year + 1, 1, c.day)
  }

  /** One calendar month on is as many days on as the current month has. */
  lemma MonthLaterSpan(c: Civil)
    requires Valid(c)
    ensures MonthLater(c) == DayNumber(c) + MonthLength(c.year, c.month)
    ensures DayNumber(c) + 28 <= MonthLater(c) <= DayNumber(c) + 31
  {
    MonthStep(c.year, c.month);
    if c.month == 12 {
      YearStep(c.year);
    }
  }

  /** `Date.prototype.getDay` of a day number: 0 is Sunday; day 0,
      1970-01-01, was a Thursday. */
  function Weekday(n: int): (r: int)
    ensures 0 <= r < 7
    ensures r == 4 <==> n % 7 == 0
  {
    (n + 4) % 7
  }

  const DayNames: seq<string> :=
    ["Sunday", "Monday", "Tuesday", "Wednesday", "Thursday", "Friday", "Saturday"]
}
