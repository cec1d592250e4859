/** packages/frontend/src/utils/date-utils.js: due-date ranges, overdue
    tests and relative labels. A due date is the calendar date JavaScript's
    `Date` lands on once set to local midnight, and `today` is passed in
    instead of read from the clock; both are compared by day number. */
module DateUtils {
  import opened Wrappers
  import opened Text
  import opened Calendar
  import opened DateText

  /** What `new Date(dateString)` followed by `setHours(0, 0, 0, 0)` makes
      of a due date: nothing for a falsy string, a calendar day for a
      YYYY-MM-DD string with a month from 01 to 12 and a day from 01 to 31,
      and the invalid date (NaN) otherwise. A day past its month's end
      rolls into the next month, so "2025-02-30" is 2025-03-02. */
  datatype Due = NoDate | BadDate | OnDay(date: Civil)

  /** A day read from YYYY-MM-DD text: a real date with a four-digit year. */
  predicate DueOk(d: Due)
  {
    d.OnDay? ==> Valid(d.date) && 0 <= d.date.year < 10000
  }

  /** Reads a due-date string. The day it reads has the day number of the
      fields the string spells; for a real date it is that date, so
      writing the day back gives the string. */
  function ReadDue(s: Option<string>): (r: Due)
    ensures DueOk(r)
    ensures r.NoDate? <==> s.None? || s.value == ""
    ensures r.OnDay? <==> s.Some? && IsDateShape(s.value) && InReaderRange(ParseCivil(s.value))
    ensures r.OnDay? ==> DayNumber(r.date) == DayNumber(ParseCivil(s.value))
    ensures r.OnDay? && Valid(ParseCivil(s.value)) ==> FormatCivil(r.date) == s.value
  {
    if s.None? || s.value == "" then NoDate
    else if IsDateShape(s.value) && InReaderRange(ParseCivil(s.value)) then
      var c := ParseCivil(s.value);
      assert Valid(c) ==> FormatCivil(c) == s.value by {
        if Valid(c) {
          FormatParse(s.value);
        }
      }
      OnDay(Rollover(c))
    else BadDate
  }

  /** February 30th, 2025 is read as March 2nd. */
  lemma FebruaryThirtiethRollsOver()
    ensures ReadDue(Some("2025-02-30")) == OnDay(Civil(2025, 3, 2))
  {
    var s := "2025-02-30";
    assert s[0..4] == "2025" && s[5..7] == "02" && s[8..10] == "30";
    assert "2025"[..3] == "202" && "202"[..2] == "20" && "20"[..1] == "2";
    assert DigitsValue("2025") == 2025;
    assert "02"[..1] == "0" && DigitsValue("02") == 2;
    assert "30"[..1] == "3" && DigitsValue("30") == 30;
    assert ParseCivil(s) == Civil(2025, 2, 30);
  }

  /** The range names the filter bar offers. */
  const Ranges: set<string> := {"overdue", "today", "tomorrow", "week", "month", "no-due-date"}

  /** `matchesDateRange`: whether a task's due date falls in a filter
      range. Adding days and a month to `today` goes through
      `setDate`/`setMonth`, which normalise past the end of a month; day
      numbers do the same. An invalid date fails every comparison, so it
      matches only an unknown range. */
  function MatchesDateRange(d: Due, range: string, today: Civil): (r: bool)
    requires DueOk(d) && Valid(today)
    ensures d.NoDate? ==> (r <==> range == "no-due-date")
    ensures d.BadDate? ==> (r <==> range !in Ranges)
    ensures d.OnDay? ==>
      var day, t := DayNumber(d.date), DayNumber(today);
      && (range == "overdue" ==> (r <==> day < t))
      && (range == "today" ==> (r <==> day == t))
      && (range == "tomorrow" ==> (r <==> day == t + 1))
      && (range == "week" ==> (r <==> t <= day <= t + 7))
      && (range == "month" ==> (r <==> t <= day <= MonthLater(today)))
      && (range == "no-due-date" ==> !r)
      && (range !in Ranges ==> r)
  {
    match d
    case NoDate => range == "no-due-date"
    case BadDate => range !in Ranges
    case OnDay(date) =>
      var day, t := DayNumber(date), DayNumber(today);
      if range == "overdue" then day < t
      else if range == "today" then day == t
      else if range == "tomorrow" then day == t + 1
      else if range == "week" then t <= day && day <= t + 7
      else if range == "month" then t <= day && day <= MonthLater(today)
      else if range == "no-due-date" then false
      else true
  }

  /** The day-number ranges are the calendar ranges they stand for:
      overdue is "before today", today and tomorrow are those dates, and the
      month window runs from today to as many days on as this month has. */
  lemma RangesInCalendarTerms(date: Civil, today: Civil)
    requires DueOk(OnDay(date)) && Valid(today)
    ensures MatchesDateRange(OnDay(date), "overdue", today) <==> Before(date, today)
    ensures MatchesDateRange(OnDay(date), "today", today) <==> date == today
    ensures MatchesDateRange(OnDay(date), "tomorrow", today) <==> date == NextDay(today)
    ensures MatchesDateRange(OnDay(date), "month", today) <==>
              !Before(date, today) && DayNumber(date) <= DayNumber(today) + MonthLength(today.year, today.month)
  {
    DayNumberOrder(date, today);
    NextDayIsNextNumber(today);
    DayNumberOrder(date, NextDay(today));
    MonthLaterSpan(today);
  }

  /** `isOverdue`. */
  function IsOverdue(d: Due, today: Civil): (r: bool)
    requires DueOk(d) && Valid(today)
    ensures r <==> d.OnDay? && Before(d.date, today)
  {
    if d.OnDay? then DayNumberOrder(d.date, today); DayNumber(d.date) < DayNumber(today)
    else false
  }

  /** Overdue is exactly the 'overdue' filter range. */
  lemma IsOverdueMatchesRange(d: Due, today: Civil)
    requires DueOk(d) && Valid(today)
    ensures IsOverdue(d, today) == MatchesDateRange(d, "overdue", today)
  {
    if d.OnDay? {
      RangesInCalendarTerms(d.date, today);
    }
  }

  /** The number `daysUntilDue` returns: null without a date, NaN for an
      invalid one, else a whole number of days. */
  datatype DayCount = NoCount | NaNCount | Days(n: int)

  /** `daysUntilDue`: whole days from today, negative when past. */
  function DaysUntilDue(d: Due, today: Civil): (r: DayCount)
    requires DueOk(d) && Valid(today)
    ensures r.NoCount? <==> d.NoDate?
    ensures r.NaNCount? <==> d.BadDate?
    ensures r.Days? ==> DayNumber(today) + r.n == DayNumber(d.date)
  {
    match d
    case NoDate => NoCount
    case BadDate => NaNCount
    case OnDay(date) => Days(DayNumber(date) - DayNumber(today))
  }

  /** Positive days-until-due exactly for dates after today, negative
      exactly for overdue ones, zero for today. */
  lemma DaysUntilDueSign(date: Civil, today: Civil)
    requires DueOk(OnDay(date)) && Valid(today)
    ensures DaysUntilDue(OnDay(date), today).n > 0 <==> Before(today, date)
    ensures DaysUntilDue(OnDay(date), today).n < 0 <==> IsOverdue(OnDay(date), today)
    ensures DaysUntilDue(OnDay(date), today).n == 0 <==> date == today
  {
    DayNumberOrder(today, date);
  }

  /** `formatDateForInput`: the text before the first 'T', or "" for a
      missing date. */
  function FormatDateForInput(s: Option<string>): (r: string)
    ensures s.None? ==> r == ""
    ensures s.Some? ==> r == PrefixBefore(s.value, 'T')
  {
    if s.None? || s.value == "" then "" else PrefixBefore(s.value, 'T')
  }

  /** Formatting twice changes nothing, and a YYYY-MM-DD date is already
      in input form. */
  lemma FormatDateForInputProperties(s: Option<string>)
    ensures FormatDateForInput(Some(FormatDateForInput(s))) == FormatDateForInput(s)
    ensures s.Some? && IsDateShape(s.value) ==> FormatDateForInput(s) == s.value
  {
    if s.Some? {
      PrefixBeforeIdempotent(s.value, 'T');
      if IsDateShape(s.value) {
        PrefixBeforeAbsent(s.value, 'T');
      }
    }
  }

  /** The labels `getRelativeDateLabel` produces. The two date forms come
      from `toLocaleDateString`, with and without the year. */
  datatype Label =
    | Yesterday
    | DaysOverdue(days: nat)
    | Today
    | Tomorrow
    | DayName(name: string)
    | MonthDay(date: Civil)
    | MonthDayYear(date: Civil)
    | InvalidDate

  /** The text of a label that does not depend on the locale library. */
  function LabelText(l: Label): (r: Option<string>)
    ensures r.None? <==> l.MonthDay? || l.MonthDayYear?
  {
    match l
    case Yesterday => Some("Yesterday")
    case DaysOverdue(n) => Some(IntToString(n) + "d overdue")
    case Today => Some("Today")
    case Tomorrow => Some("Tomorrow")
    case DayName(name) => Some(name)
    case InvalidDate => Some("Invalid Date")
    case _ => None
  }

  /** `getRelativeDateLabel`. The weekday window is the five days after
      tomorrow, strictly before today + 7, so a date exactly a week away
      gets a calendar date although the 'week' filter includes it. An
      invalid date fails every comparison and prints as "Invalid Date". */
  function GetRelativeDateLabel(d: Due, today: Civil): (r: Option<Label>)
    requires DueOk(d) && Valid(today)
    ensures r.None? <==> d.NoDate?
    ensures d.BadDate? ==> r == Some(InvalidDate)
    ensures d.OnDay? ==>
      var day, t := DayNumber(d.date), DayNumber(today);
      && (r.value == Yesterday <==> day == t - 1)
      && (r.value.DaysOverdue? <==> day < t - 1)
      && (r.value.DaysOverdue? ==> r.value.days == t - day)
      && (r.value == Today <==> day == t)
      && (r.value == Tomorrow <==> day == t + 1)
      && (r.value.DayName? <==> t + 1 < day < t + 7)
      && (r.value.DayName? ==> r.value.name == DayNames[Weekday(day)])
      && (r.value.MonthDay? <==> t + 7 <= day && d.date.year == today.year)
      && (r.value.MonthDayYear? <==> t + 7 <= day && d.date.year != today.year)
      && (r.value.MonthDay? || r.value.MonthDayYear? ==> r.value.date == d.date)
      && r.value != InvalidDate
  {
    match d
    case NoDate => None
    case BadDate => Some(InvalidDate)
    case OnDay(date) =>
      var day, t := DayNumber(date), DayNumber(today);
      if day < t then
        var overdue := t - day;
        if overdue == 1 then Some(Yesterday) else Some(DaysOverdue(overdue))
      else if day == t then Some(Today)
      else if day == t + 1 then Some(Tomorrow)
      else if day < t + 7 then Some(DayName(DayNames[Weekday(day)]))
      else if date.year == today.year then Some(MonthDay(date))
      else Some(MonthDayYear(date))
  }

  /** The label agrees with the filters: "Today", "Tomorrow" and the overdue
      labels go to exactly the dates in the ranges of those names, and a
      weekday name only to dates in the 'week' range. */
  lemma LabelsAgreeWithRanges(d: Due, today: Civil)
    requires DueOk(d) && Valid(today)
    ensures d.OnDay? ==>
      var l := GetRelativeDateLabel(d, today).value;
      && (l == Today <==> MatchesDateRange(d, "today", today))
      && (l == Tomorrow <==> MatchesDateRange(d, "tomorrow", today))
      && (l == Yesterday || l.DaysOverdue? <==> IsOverdue(d, today))
      && (l.DayName? ==> MatchesDateRange(d, "week", today))
  {
  }

  /** A date one week ahead is in the 'week' range but gets a calendar-date
      label rather than a weekday. */
  lemma WeekBoundaryDiffers(date: Civil, today: Civil)
    requires DueOk(OnDay(date)) && Valid(today)
    requires DayNumber(date) == DayNumber(today) + 7
    ensures MatchesDateRange(OnDay(date), "week", today)
    ensures !GetRelativeDateLabel(OnDay(date), today).value.DayName?
  {
  }
}
