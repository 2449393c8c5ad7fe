/**
 * The `Date` value type of date.go: a calendar day stored as the signed number
 * of days since 1970-01-01, with its construction, calendar arithmetic,
 * accessors, text form and JSON hooks.
 */
module Dates {
  import opened Calendar
  import opened Decimal

  /** A calendar day: the number of days since 1970-01-01, negative before it. */
  newtype Date = int

  datatype Error = ParseError(text: string) | NotAString

  datatype Result<T> = Ok(value: T) | Err(error: Error)

  datatype Option<T> = None | Some(value: T)

  /** A `time.Time`, seen through its wall-clock reading in its own location. */
  datatype Time = Time(year: int, month: int, day: int, hour: int, minute: int, second: int, nanosecond: int) {
    predicate Valid() {
      && Civil(year, month, day).Valid()
      && 0 <= hour < 24 && 0 <= minute < 60 && 0 <= second < 60 && 0 <= nanosecond < 1000000000
    }
  }

  // ---------------------------------------------------------------------------
  // Construction

  /** Truncates a time to its calendar day: the time is rebuilt at midnight UTC
      of its own year, month and day, and that instant's day number is taken. */
  function FromTime(t: Time): Date {
    Normalize(t.year, t.month, t.day) as Date
  }

  /** `time.Date(year, month, day, 0, 0, 0, 0, time.UTC)`: midnight of the civil
      date the fields normalize to, so out-of-range months and days carry. */
  function TimeDate(year: int, month: int, day: int): (t: Time)
    ensures t.Valid() && t.hour == 0 && t.minute == 0 && t.second == 0 && t.nanosecond == 0
    ensures Normalize(t.year, t.month, t.day) == Normalize(year, month, day)
  {
    DaysToCivil(Normalize(year, month, day));
    NormalizeRoundTrip(Normalize(year, month, day));
    var c := CivilFromDays(Normalize(year, month, day));
    Time(c.year, c.month, c.day, 0, 0, 0, 0)
  }

  /** The date of a year, month and day; out-of-range months and days carry. */
  function New(year: int, month: int, day: int): Date {
    FromTime(TimeDate(year, month, day))
  }

  /** Midnight UTC at the start of the date. */
  function ToTime(d: Date): (t: Time)
    ensures t.Valid() && t.hour == 0 && t.minute == 0 && t.second == 0 && t.nanosecond == 0
  {
    DaysToCivil(d as int);
    var c := CivilFromDays(d as int);
    Time(c.year, c.month, c.day, 0, 0, 0, 0)
  }

  /** `time.Time.AddDate` on a time whose clock is in range: the fields are
      added and the result normalized as `time.Date` does. */
  function AddDate(t: Time, years: int, months: int, days: int): Time {
    var c := CivilFromDays(Normalize(t.year + years, t.month + months, t.day + days));
    Time(c.year, c.month, c.day, t.hour, t.minute, t.second, t.nanosecond)
  }

  // ---------------------------------------------------------------------------
  // Accessors

  function Year(d: Date): int {
    ToTime(d).year
  }

  function Month(d: Date): (m: int)
    ensures 1 <= m <= 12
  {
    ToTime(d).month
  }

  function Day(d: Date): (r: int)
    ensures 1 <= r <= DaysIn(Year(d), Month(d))
  {
    ToTime(d).day
  }

  function Weekday(d: Date): DayOfWeek {
    WeekdayOfDays(d as int)
  }

  /** The 1-based position of the date in its year. */
  function YearDay(d: Date): (r: int)
    ensures 1 <= r <= YearLength(Year(d))
  {
    CivilOfDate(d);
    DaysFromCivilInYear(Year(d), Month(d), Day(d));
    DaysBeforeMonthBounds(Year(d), Month(d));
    (d as int) - DaysFromCivil(Year(d), 1, 1) + 1
  }

  // ---------------------------------------------------------------------------
  // Arithmetic

  function AddDays(d: Date, days: int): Date {
    d + days as Date
  }

  function AddMonths(d: Date, months: int): Date {
    FromTime(AddDate(ToTime(d), 0, months, 0))
  }

  function AddYears(d: Date, years: int): Date {
    FromTime(AddDate(ToTime(d), years, 0, 0))
  }

  function StartOfMonth(d: Date): Date {
    FromTime(TimeDate(Year(d), Month(d), 1))
  }

  function EndOfMonth(d: Date): Date {
    AddDays(AddMonths(StartOfMonth(d), 1), -1)
  }

  function DaysInMonth(d: Date): int {
    Day(EndOfMonth(d))
  }

  /** Whether month `m` opens a quarter. */
  predicate StartOfQuarterMonth(m: int)
    ensures 1 <= m <= 12 ==> (StartOfQuarterMonth(m) <==> m == 1 || m == 4 || m == 7 || m == 10)
  {
    (m - 1) % 3 == 0
  }

  /** The first day of the quarter the date is in: the month is stepped back
      until it opens a quarter. */
  method StartOfQuarter(d: Date) returns (r: Date)
    ensures Year(r) == Year(d) && Day(r) == 1
    ensures StartOfQuarterMonth(Month(r)) && Month(r) <= Month(d) < Month(r) + 3
    ensures r <= d
  {
    var t := ToTime(d);
    var m := t.month;
    while !StartOfQuarterMonth(m)
      invariant 3 * ((t.month - 1) / 3) + 1 <= m <= t.month
      decreases m
    {
      m := m - 1;
    }
    r := FromTime(TimeDate(t.year, m, 1));
    QuarterStart(d, m, r);
  }

  /** The first day of the next quarter: the month (and, past December, the
      year) is stepped forward until it opens a quarter, at most three times. */
  method StartOfNextQuarter(d: Date) returns (r: Date)
    ensures Day(r) == 1 && StartOfQuarterMonth(Month(r))
    ensures d < r
    ensures Month(d) >= 10 ==> Year(r) == Year(d) + 1 && Month(r) == 1
    ensures Month(d) < 10 ==> Year(r) == Year(d) && Month(d) < Month(r) <= Month(d) + 3
  {
    var t := ToTime(d);
    var m := t.month;
    var y := t.year;
    // counted in months, the next quarter opens at `next`
    ghost var next := 12 * t.year + 3 * ((t.month - 1) / 3) + 4;
    while true
      invariant 1 <= m <= 12
      invariant 12 * t.year + t.month <= 12 * y + m < next
      // at most two steps precede each step: the loop takes three at most
      invariant 12 * y + m <= 12 * t.year + t.month + 2
      decreases next - (12 * y + m)
    {
      if m == 12 {
        m := 1;
        y := y + 1;
      } else {
        m := m + 1;
      }
      QuarterAfter(t.year, t.month, y, m);
      if StartOfQuarterMonth(m) {
        break;
      }
    }
    r := FromTime(TimeDate(y, m, 1));
    NextQuarterStart(d, y, m, r);
  }

  // ---------------------------------------------------------------------------
  // Comparison

  /** The later of two dates. */
  function Max(d1: Date, d2: Date): (r: Date)
    ensures r == d1 || r == d2
    ensures r >= d1 && r >= d2
  {
    if d1 > d2 then d1 else d2
  }

  /** The earlier of two dates. */
  function Min(d1: Date, d2: Date): (r: Date)
    ensures r == d1 || r == d2
    ensures r <= d1 && r <= d2
  {
    if d1 < d2 then d1 else d2
  }

  // ---------------------------------------------------------------------------
  // Text form and JSON hooks

  /** The text form `YYYY-MM-DD`, as `%04d-%02d-%02d` renders it. */
  function String(d: Date): string {
    FormatInt(Year(d), 4) + "-" + ZeroPad(Month(d), 2) + "-" + ZeroPad(Day(d), 2)
  }

  /** The layout `2006-01-02`: four digits, a dash, two digits, a dash, two digits. */
  predicate HasLayout(s: string) {
    && |s| == 10
    && AllDigits(s[..4]) && s[4] == '-'
    && AllDigits(s[5..7]) && s[7] == '-'
    && AllDigits(s[8..])
  }

  /** Parses the text form; the month must be 1 to 12 and the day must exist in that month. */
  function FromString(s: string): Result<Date> {
    if !HasLayout(s) then Err(ParseError(s))
    else
      var y, m, d := ValueOf(s[..4]), ValueOf(s[5..7]), ValueOf(s[8..]);
      if 1 <= m <= 12 && 1 <= d <= DaysIn(y, m) then Ok(New(y, m, d))
      else Err(ParseError(s))
  }

  /** `FromString` for text known to parse. */
  function MustFromString(s: string): (r: Date)
    requires FromString(s).Ok?
    ensures String(r) == s
  {
    ParseThenString(s);
    FromString(s).value
  }

  function MarshalJSON(d: Date): string {
    "\"" + String(d) + "\""
  }

  /** Whether JSON text is wrapped in double quotes (and so is a string). */
  predicate IsQuoted(p: string) {
    |p| >= 2 && p[0] == '"' && p[|p| - 1] == '"'
  }

  /** A variable of type `Date`: the receiver `*Date` of `UnmarshalJSON`. */
  class DateVar {
    var value: Date

    constructor (d: Date)
      ensures value == d
    {
      value := d;
    }

    /** Reads a quoted text form into the variable. Text that is not quoted
        leaves it unchanged; text that does not parse sets it to 0 (1970-01-01). */
    method UnmarshalJSON(p: string) returns (err: Option<Error>)
      modifies this
      ensures !IsQuoted(p) ==> value == old(value) && err == Some(NotAString)
      ensures IsQuoted(p) && FromString(p[1..|p| - 1]).Ok? ==>
                value == FromString(p[1..|p| - 1]).value && err == None
      ensures IsQuoted(p) && FromString(p[1..|p| - 1]).Err? ==>
                value == 0 && err == Some(FromString(p[1..|p| - 1]).error)
    {
      if |p| < 2 || p[0] != '"' || p[|p| - 1] != '"' {
        return Some(NotAString);
      }
      match FromString(p[1..|p| - 1])
      case Ok(v) =>
        value := v;
        err := None;
      case Err(e) =>
        value := 0;
        err := Some(e);
    }
  }

  /** Marshalling a date and unmarshalling the result restores it. */
  method JSONRoundTrip(d: Date) returns (r: Date, err: Option<Error>)
    requires 0 <= Year(d) <= 9999
    ensures r == d && err == None
  {
    var p := MarshalJSON(d);
    assert IsQuoted(p) && p[1..|p| - 1] == String(d);
    StringThenParse(d);
    var v := new DateVar(0);
    err := v.UnmarshalJSON(p);
    r := v.value;
  }

  // ---------------------------------------------------------------------------
  // Lemmas: construction and accessors

  /** A date's own year, month and day name it. */
  lemma CivilOfDate(d: Date)
    ensures Civil(Year(d), Month(d), Day(d)).Valid()
    ensures DaysFromCivil(Year(d), Month(d), Day(d)) == d as int
    ensures Normalize(Year(d), Month(d), Day(d)) == d as int
  {
    DaysToCivil(d as int);
    NormalizeRoundTrip(d as int);
  }

  /** `Time` is `TimeIn` at UTC: midnight of 1970-01-01 moved on by `d` days. */
  lemma ToTimeIsEpochPlusDays(d: Date)
    ensures ToTime(d) == AddDate(Time(1970, 1, 1, 0, 0, 0, 0), 0, 0, d as int)
  {
    EpochOffset(d as int);
  }

  /** `New` of a valid civil date has that year, month and day. */
  lemma NewComponents(y: int, m: int, d: int)
    requires Civil(y, m, d).Valid()
    ensures Year(New(y, m, d)) == y && Month(New(y, m, d)) == m && Day(New(y, m, d)) == d
  {
    NormalizeValid(y, m, d);
  }

  /** Rebuilding a date from its own accessors gives it back. */
  lemma NewOfComponents(d: Date)
    ensures New(Year(d), Month(d), Day(d)) == d
  {
    CivilOfDate(d);
  }

  /** `New` carries: twelve months make a year, and days count on linearly. */
  lemma NewCarries(y: int, m: int, d: int, k: int)
    ensures New(y, m + 12 * k, d) == New(y + k, m, d)
    ensures New(y, m, d + k) == AddDays(New(y, m, d), k)
  {
    NormalizeYears(y, m, d, k);
  }

  /** A day past the end of a month is a day of the next month. */
  lemma NewNextMonth(y: int, m: int, k: int)
    requires 1 <= m < 12
    ensures New(y, m, DaysIn(y, m) + k) == New(y, m + 1, k)
  {
    NormalizeOfValid(y, m, DaysIn(y, m) + k);
    NormalizeOfValid(y, m + 1, k);
    NextMonthStart(y, m);
    DaysFromCivilOffset(y, m, DaysIn(y, m) + k);
    DaysFromCivilOffset(y, m + 1, k);
  }

  /** Truncating a time keeps its civil date and drops its clock. */
  lemma FromTimeTruncates(t: Time)
    requires t.Valid()
    ensures Year(FromTime(t)) == t.year && Month(FromTime(t)) == t.month && Day(FromTime(t)) == t.day
    ensures FromTime(t) == New(t.year, t.month, t.day)
  {
    NormalizeValid(t.year, t.month, t.day);
  }

  /** The date of midnight at the start of a date is that date. */
  lemma FromTimeOfToTime(d: Date)
    ensures FromTime(ToTime(d)) == d
  {
    NormalizeRoundTrip(d as int);
  }

  // ---------------------------------------------------------------------------
  // Lemmas: arithmetic

  /** The date `AddDate` reaches with a month offset is the month field plus
      the offset, normalized. */
  lemma FromTimeAddMonths(t: Time, n: int)
    ensures FromTime(AddDate(t, 0, n, 0)) as int == Normalize(t.year, t.month + n, t.day)
  {
    NormalizeRoundTrip(Normalize(t.year, t.month + n, t.day));
  }

  /** The date `AddDate` reaches with a year offset is the year field plus the
      offset, normalized. */
  lemma FromTimeAddYears(t: Time, n: int)
    ensures FromTime(AddDate(t, n, 0, 0)) as int == Normalize(t.year + n, t.month, t.day)
  {
    NormalizeRoundTrip(Normalize(t.year + n, t.month, t.day));
  }

  /** Adding months adds to the month field and normalizes, as `time.Date` does. */
  lemma AddMonthsNormalizes(d: Date, n: int)
    ensures AddMonths(d, n) as int == Normalize(Year(d), Month(d) + n, Day(d))
  {
    FromTimeAddMonths(ToTime(d), n);
  }

  /** Adding years adds to the year field and normalizes. */
  lemma AddYearsNormalizes(d: Date, n: int)
    ensures AddYears(d, n) as int == Normalize(Year(d) + n, Month(d), Day(d))
  {
    FromTimeAddYears(ToTime(d), n);
  }

  /** Adding years is adding twelve months per year. */
  lemma AddYearsIsTwelveMonths(d: Date, n: int)
    ensures AddYears(d, n) == AddMonths(d, 12 * n)
  {
    AddYearsNormalizes(d, n);
    AddMonthsNormalizes(d, 12 * n);
    NormalizeYears(Year(d), Month(d), Day(d), n);
  }

  /** The fields of the date whose day number is that of day `dd` of month `m`
      of year `y`, where the day may run up to 28 days past the month's end. */
  lemma CarriedFields(r: Date, y: int, m: int, dd: int)
    requires 1 <= m <= 12 && 1 <= dd <= DaysIn(y, m) + 28 && r as int == DaysFromCivil(y, m, dd)
    ensures if dd <= DaysIn(y, m) then
              Year(r) == y && Month(r) == m && Day(r) == dd
            else
              && Day(r) == dd - DaysIn(y, m)
              && (m < 12 ==> Year(r) == y && Month(r) == m + 1)
              && (m == 12 ==> Year(r) == y + 1 && Month(r) == 1)
  {
    CarryDay(y, m, dd);
  }

  /** Month arithmetic carries an overflowing day into the following month; it
      does not clamp to the end of the shorter month. */
  lemma AddMonthsCarries(d: Date, n: int)
    ensures var y, m := Year(d) + (Month(d) + n - 1) / 12, (Month(d) + n - 1) % 12 + 1;
            var r := AddMonths(d, n);
            if Day(d) <= DaysIn(y, m) then
              Year(r) == y && Month(r) == m && Day(r) == Day(d)
            else
              && Day(r) == Day(d) - DaysIn(y, m)
              && (m < 12 ==> Year(r) == y && Month(r) == m + 1)
              && (m == 12 ==> Year(r) == y + 1 && Month(r) == 1)
  {
    AddMonthsNormalizes(d, n);
    CarriedFields(AddMonths(d, n), Year(d) + (Month(d) + n - 1) / 12, (Month(d) + n - 1) % 12 + 1, Day(d));
  }

  /** date_test.go: 1970-01-01 is day 0, and a time of 2018-03-30 after noon
      truncates to that day. */
  lemma ConstructionExamples()
    ensures New(1970, 1, 1) == 0 && ToTime(0) == Time(1970, 1, 1, 0, 0, 0, 0)
    ensures FromTime(Time(2018, 3, 30, 12, 1, 45, 0)) == New(2018, 3, 30)
  {
    EpochOffset(0);
    CivilAt(0, 1970, 1, 1);
    FromTimeTruncates(Time(2018, 3, 30, 12, 1, 45, 0));
  }

  /** Month arithmetic on a valid civil date moves its month field. */
  lemma AddMonthsToNew(y: int, m: int, d: int, n: int)
    requires Civil(y, m, d).Valid()
    ensures AddMonths(New(y, m, d), n) == New(y, m + n, d)
  {
    NewComponents(y, m, d);
    AddMonthsNormalizes(New(y, m, d), n);
  }

  /** Year arithmetic on a valid civil date moves its year field. */
  lemma AddYearsToNew(y: int, m: int, d: int, n: int)
    requires Civil(y, m, d).Valid()
    ensures AddYears(New(y, m, d), n) == New(y + n, m, d)
  {
    NewComponents(y, m, d);
    AddYearsNormalizes(New(y, m, d), n);
  }

  /** date_test.go: two months on from 1999-12-25 is 2000-02-25. */
  lemma AddMonthsIntoNextYear()
    ensures AddMonths(New(1999, 12, 25), 2) == New(2000, 2, 25)
  {
    AddMonthsToNew(1999, 12, 25, 2);
    NewCarries(1999, 2, 25, 1);
  }

  /** date_test.go: two months before 1999-12-25 is 1999-10-25. */
  lemma AddMonthsBackwards()
    ensures AddMonths(New(1999, 12, 25), -2) == New(1999, 10, 25)
  {
    AddMonthsToNew(1999, 12, 25, -2);
  }

  /** date_test.go: a month on from 1999-05-31 is 1999-07-01, as June has 30 days. */
  lemma AddMonthsPastShortMonth()
    ensures AddMonths(New(1999, 5, 31), 1) == New(1999, 7, 1)
  {
    AddMonthsToNew(1999, 5, 31, 1);
    NewNextMonth(1999, 6, 1);
  }

  /** date_test.go: a year on from 1999-12-25 is 2000-12-25. */
  lemma AddYearsExample()
    ensures AddYears(New(1999, 12, 25), 1) == New(2000, 12, 25)
  {
    AddYearsToNew(1999, 12, 25, 1);
  }

  /** date_test.go: a year on from 2016-02-29 is 2017-03-01, as 2017 is not a leap year. */
  lemma AddYearsFromLeapDay()
    ensures AddYears(New(2016, 2, 29), 1) == New(2017, 3, 1)
  {
    AddYearsToNew(2016, 2, 29, 1);
    NewNextMonth(2017, 2, 1);
  }

  /** The day arithmetic of date_test.go. */
  lemma AddDaysExamples()
    ensures AddDays(New(1999, 12, 26), -1) == New(1999, 12, 25)
    ensures AddDays(New(1999, 12, 24), 1) == New(1999, 12, 25)
  {
    NewCarries(1999, 12, 26, -1);
    NewCarries(1999, 12, 24, 1);
  }

  /** Adding days is exact: adding `n` days and then `-n` days gives the date back. */
  lemma AddDaysInverse(d: Date, n: int)
    ensures AddDays(AddDays(d, n), -n) == d
    ensures AddDays(d, n) - d == n as Date
  {
  }

  /** The day after a date is the next day of its month, or the first of the next month. */
  lemma AddDaysNextDay(d: Date)
    ensures var r := AddDays(d, 1);
            if Day(d) < DaysIn(Year(d), Month(d)) then
              Year(r) == Year(d) && Month(r) == Month(d) && Day(r) == Day(d) + 1
            else if Month(d) < 12 then
              Year(r) == Year(d) && Month(r) == Month(d) + 1 && Day(r) == 1
            else
              Year(r) == Year(d) + 1 && Month(r) == 1 && Day(r) == 1
  {
    CivilOfDate(d);
    NextDay(d as int, Year(d), Month(d), Day(d));
  }

  /** The first day of the month is in the same month, no later than the date,
      and taking it twice changes nothing. */
  lemma StartOfMonthSpec(d: Date)
    ensures var r := StartOfMonth(d);
            && Year(r) == Year(d) && Month(r) == Month(d) && Day(r) == 1
            && r <= d && d - r == (Day(d) - 1) as Date
            && StartOfMonth(r) == r
  {
    NewComponents(Year(d), Month(d), 1);
    NormalizeOfValid(Year(d), Month(d), 1);
    CivilOfDate(d);
    DaysFromCivilOffset(Year(d), Month(d), Day(d));
  }

  /** The day number of the last day of the month. */
  lemma EndOfMonthValue(d: Date)
    ensures EndOfMonth(d) as int == DaysFromCivil(Year(d), Month(d), DaysIn(Year(d), Month(d)))
  {
    StartOfMonthSpec(d);
    AddMonthsNormalizes(StartOfMonth(d), 1);
    NextMonthFirst(Year(d), Month(d));
    DaysFromCivilOffset(Year(d), Month(d), DaysIn(Year(d), Month(d)));
  }

  /** The fields of the date whose day number is that of a valid civil date. */
  lemma DateFields(r: Date, y: int, m: int, dd: int)
    requires Civil(y, m, dd).Valid() && r as int == DaysFromCivil(y, m, dd)
    ensures Year(r) == y && Month(r) == m && Day(r) == dd
  {
    CivilAt(r as int, y, m, dd);
  }

  /** The last day of the month is in the same month, is its last day, and
      comes no earlier than the date. */
  lemma EndOfMonthSpec(d: Date)
    ensures var r := EndOfMonth(d);
            && Year(r) == Year(d) && Month(r) == Month(d)
            && Day(r) == DaysIn(Year(d), Month(d))
            && d <= r
  {
    EndOfMonthValue(d);
    DateFields(EndOfMonth(d), Year(d), Month(d), DaysIn(Year(d), Month(d)));
    CivilOfDate(d);
    DaysFromCivilOffset(Year(d), Month(d), Day(d));
    DaysFromCivilOffset(Year(d), Month(d), DaysIn(Year(d), Month(d)));
  }

  /** The day after the last day of the month is the first of the next month. */
  lemma EndOfMonthNextDay(d: Date)
    ensures var n := AddDays(EndOfMonth(d), 1);
            && Day(n) == 1
            && (Month(d) < 12 ==> Year(n) == Year(d) && Month(n) == Month(d) + 1)
            && (Month(d) == 12 ==> Year(n) == Year(d) + 1 && Month(n) == 1)
  {
    EndOfMonthSpec(d);
    AddDaysNextDay(EndOfMonth(d));
  }

  /** The month length is the last day of the month: 28 to 31. */
  lemma DaysInMonthSpec(d: Date)
    ensures DaysInMonth(d) == DaysIn(Year(d), Month(d))
    ensures 28 <= DaysInMonth(d) <= 31
    ensures DaysInMonth(d) == 29 <==> Month(d) == 2 && IsLeapYear(Year(d))
  {
    EndOfMonthSpec(d);
  }

  /** The first day of the month of a valid civil date. */
  lemma StartOfMonthOfNew(y: int, m: int, d: int)
    requires Civil(y, m, d).Valid()
    ensures StartOfMonth(New(y, m, d)) == New(y, m, 1)
  {
    NewComponents(y, m, d);
  }

  /** The last day and the length of the month of a valid civil date whose
      month has `last` days. */
  lemma EndOfMonthOfNew(y: int, m: int, d: int, last: int)
    requires Civil(y, m, d).Valid() && last == DaysIn(y, m)
    ensures EndOfMonth(New(y, m, d)) == New(y, m, last)
    ensures DaysInMonth(New(y, m, d)) == last
  {
    NewComponents(y, m, d);
    EndOfMonthValue(New(y, m, d));
    NormalizeOfValid(y, m, DaysIn(y, m));
    DaysInMonthSpec(New(y, m, d));
  }

  /** The first days of the month of date_test.go. */
  lemma StartOfMonthExamples()
    ensures StartOfMonth(New(2022, 11, 15)) == New(2022, 11, 1)
    ensures StartOfMonth(New(2022, 12, 15)) == New(2022, 12, 1)
    ensures StartOfMonth(New(2022, 1, 15)) == New(2022, 1, 1)
  {
    StartOfMonthOfNew(2022, 11, 15);
    StartOfMonthOfNew(2022, 12, 15);
    StartOfMonthOfNew(2022, 1, 15);
  }

  /** date_test.go: November 2022 ends on the 30th. */
  lemma EndOfNovember()
    ensures EndOfMonth(New(2022, 11, 1)) == New(2022, 11, 30)
    ensures DaysInMonth(New(2022, 11, 1)) == 30
  {
    EndOfMonthOfNew(2022, 11, 1, 30);
  }

  /** date_test.go: December 2022 ends on the 31st. */
  lemma EndOfDecember()
    ensures EndOfMonth(New(2022, 12, 15)) == New(2022, 12, 31)
    ensures DaysInMonth(New(2022, 12, 15)) == 31
  {
    EndOfMonthOfNew(2022, 12, 15, 31);
  }

  /** date_test.go: the last day of January 2022 is its own end of month. */
  lemma EndOfJanuary()
    ensures EndOfMonth(New(2022, 1, 31)) == New(2022, 1, 31)
    ensures DaysInMonth(New(2022, 1, 31)) == 31
  {
    EndOfMonthOfNew(2022, 1, 31, 31);
  }

  // ---------------------------------------------------------------------------
  // Lemmas: quarters

  /** The first day of an earlier month of the same year comes no later. */
  lemma FirstOfEarlierMonth(d: Date, m: int)
    requires 1 <= m <= Month(d)
    ensures Year(New(Year(d), m, 1)) == Year(d) && Month(New(Year(d), m, 1)) == m
    ensures Day(New(Year(d), m, 1)) == 1
    ensures New(Year(d), m, 1) <= d
  {
    NewComponents(Year(d), m, 1);
    NormalizeOfValid(Year(d), m, 1);
    CivilOfDate(d);
    DaysFromCivilOffset(Year(d), Month(d), Day(d));
    if m < Month(d) {
      MonthsOrdered(Year(d), m, Year(d), Month(d));
    }
  }

  /** The first day of a later month comes after every day of the date's month. */
  lemma FirstOfLaterMonth(d: Date, y: int, m: int)
    requires 1 <= m <= 12 && 12 * Year(d) + Month(d) < 12 * y + m
    ensures Year(New(y, m, 1)) == y && Month(New(y, m, 1)) == m && Day(New(y, m, 1)) == 1
    ensures d < New(y, m, 1)
  {
    NewComponents(y, m, 1);
    NormalizeOfValid(y, m, 1);
    CivilOfDate(d);
    DaysFromCivilOffset(Year(d), Month(d), Day(d));
    MonthsOrdered(Year(d), Month(d), y, m);
  }

  /** The month of the date's quarter that opens it is the quarter's first month. */
  lemma QuarterStart(d: Date, m: int, r: Date)
    requires StartOfQuarterMonth(m) && 3 * ((Month(d) - 1) / 3) + 1 <= m <= Month(d)
    requires r == FromTime(TimeDate(Year(d), m, 1))
    ensures Year(r) == Year(d) && Day(r) == 1
    ensures StartOfQuarterMonth(Month(r)) && Month(r) <= Month(d) < Month(r) + 3
    ensures r <= d
  {
    FirstOfEarlierMonth(d, m);
  }

  /** The month three or fewer months on from the start of the quarter of
      month `mm` of year `yy`, at which the next quarter opens, opens a quarter. */
  lemma QuarterAfter(yy: int, mm: int, y: int, m: int)
    requires 1 <= mm <= 12 && 1 <= m <= 12
    ensures 12 * y + m == 12 * yy + 3 * ((mm - 1) / 3) + 4 ==> StartOfQuarterMonth(m)
  {
    if 12 * y + m == 12 * yy + 3 * ((mm - 1) / 3) + 4 {
      if mm <= 9 {
        assert y == yy && m == 3 * ((mm - 1) / 3) + 4;
      } else {
        assert y == yy + 1 && m == 1;
      }
    }
  }

  /** The first month that opens a quarter after the date's month, counted in
      months no further than three on, is the next quarter's first month. */
  lemma NextQuarterStart(d: Date, y: int, m: int, r: Date)
    requires 1 <= m <= 12 && StartOfQuarterMonth(m)
    requires 12 * Year(d) + Month(d) < 12 * y + m <= 12 * Year(d) + 3 * ((Month(d) - 1) / 3) + 4
    requires r == FromTime(TimeDate(y, m, 1))
    ensures Day(r) == 1 && StartOfQuarterMonth(Month(r))
    ensures d < r
    ensures Month(d) >= 10 ==> Year(r) == Year(d) + 1 && Month(r) == 1
    ensures Month(d) < 10 ==> Year(r) == Year(d) && Month(d) < Month(r) <= Month(d) + 3
  {
    FirstOfLaterMonth(d, y, m);
  }

  /** date_test.go: 2022-01-15 starts its quarter on 2022-01-01; the contract of
      `StartOfQuarter` pins its result down to one date. */
  method QuarterOfJanuary() returns (q: Date)
    ensures q == New(2022, 1, 1)
  {
    q := StartOfQuarter(New(2022, 1, 15));
    NewComponents(2022, 1, 15);
    NewOfComponents(q);
  }

  /** date_test.go: 2022-02-15 starts its quarter on 2022-01-01. */
  method QuarterOfFebruary() returns (q: Date)
    ensures q == New(2022, 1, 1)
  {
    q := StartOfQuarter(New(2022, 2, 15));
    NewComponents(2022, 2, 15);
    NewOfComponents(q);
  }

  /** date_test.go: the quarter after 2022-12-15 starts on 2023-01-01. */
  method NextQuarterOfDecember() returns (n: Date)
    ensures n == New(2023, 1, 1)
  {
    n := StartOfNextQuarter(New(2022, 12, 15));
    NewComponents(2022, 12, 15);
    NewOfComponents(n);
  }

  /** date_test.go: the quarter after 2022-06-15 starts on 2022-07-01. */
  method NextQuarterOfJune() returns (n: Date)
    ensures n == New(2022, 7, 1)
  {
    n := StartOfNextQuarter(New(2022, 6, 15));
    NewComponents(2022, 6, 15);
    NewOfComponents(n);
  }

  /** date_test.go: the quarter after 2022-04-22 starts on 2022-07-01. */
  method NextQuarterOfApril() returns (n: Date)
    ensures n == New(2022, 7, 1)
  {
    n := StartOfNextQuarter(New(2022, 4, 22));
    NewComponents(2022, 4, 22);
    NewOfComponents(n);
  }

  // ---------------------------------------------------------------------------
  // Lemmas: weekday and year-day

  /** Weekdays follow each other in a 7-day cycle, with 1970-01-01 a Thursday:
      each day's weekday is the one after the previous day's. */
  lemma WeekdayCycle(d: Date)
    ensures Weekday(0) == Thursday
    ensures Weekday(AddDays(d, 1)) == NextWeekday(Weekday(d))
    ensures Weekday(AddDays(d, 7)) == Weekday(d)
  {
    assert (d as int + 7 + 4) % 7 == (d as int + 4) % 7;
  }

  /** The weekday of a valid civil date whose day number is `n`. */
  lemma WeekdayOfNew(y: int, m: int, d: int, n: int)
    requires 1 <= m <= 12 && DaysFromCivil(y, m, d) == n
    ensures Weekday(New(y, m, d)) == WeekdayOfDays(n)
  {
    NormalizeOfValid(y, m, d);
  }

  /** date_test.go: 1989-06-14 was a Wednesday. */
  lemma WeekdayOf19890614()
    ensures Weekday(New(1989, 6, 14)) == Wednesday
  {
    assert DaysFromCivil(1989, 6, 14) == 7104;
    assert WeekdayOfDays(7104) == Wednesday;
    WeekdayOfNew(1989, 6, 14, 7104);
  }

  /** date_test.go: 2014-12-25 was a Thursday. */
  lemma WeekdayOf20141225()
    ensures Weekday(New(2014, 12, 25)) == Thursday
  {
    assert DaysFromCivil(2014, 12, 25) == 16429;
    assert WeekdayOfDays(16429) == Thursday;
    WeekdayOfNew(2014, 12, 25, 16429);
  }

  /** date_test.go: 2018-08-18 was a Saturday. */
  lemma WeekdayOf20180818()
    ensures Weekday(New(2018, 8, 18)) == Saturday
  {
    assert DaysFromCivil(2018, 8, 18) == 17761;
    assert WeekdayOfDays(17761) == Saturday;
    WeekdayOfNew(2018, 8, 18, 17761);
  }

  /** The year-day counts the days of the earlier months plus the day of the month. */
  lemma YearDayOfDate(d: Date)
    ensures YearDay(d) == DaysBeforeMonth(Year(d), Month(d)) + Day(d)
    ensures Month(d) == 1 ==> YearDay(d) == Day(d)
  {
    CivilOfDate(d);
    DaysFromCivilInYear(Year(d), Month(d), Day(d));
  }

  /** The accessors of date_test.go on 2015-03-04. */
  lemma AccessorExample()
    ensures Year(New(2015, 3, 4)) == 2015 && Month(New(2015, 3, 4)) == 3 && Day(New(2015, 3, 4)) == 4
    ensures YearDay(New(2015, 3, 4)) == 63
  {
    NewComponents(2015, 3, 4);
    YearDayOfDate(New(2015, 3, 4));
  }

  // ---------------------------------------------------------------------------
  // Lemmas: text form

  lemma Pow10Values()
    ensures Pow10(2) == 100 && Pow10(4) == 10000
  {
    assert Pow10(1) == 10;
    assert Pow10(3) == 1000;
  }

  /** A run of `w` digits is the rendering of its own value. */
  lemma ValueOfField(f: string, w: nat)
    requires AllDigits(f) && |f| == w >= 1
    ensures ZeroPad(ValueOf(f), w) == f
  {
    ValueOfBound(f);
    ZeroPadValue(ValueOf(f), w);
    FixedOfValue(f);
  }

  /** A year below 10000 and a month and day below 100 render in the layout, and
      each field reads back as its number. */
  lemma LayoutOfFields(y: nat, m: nat, dd: nat)
    requires y < 10000 && m < 100 && dd < 100
    ensures var s := FormatInt(y, 4) + "-" + ZeroPad(m, 2) + "-" + ZeroPad(dd, 2);
            && HasLayout(s)
            && ValueOf(s[..4]) == y && ValueOf(s[5..7]) == m && ValueOf(s[8..]) == dd
  {
    Pow10Values();
    ZeroPadValue(y, 4);
    FixedValue(y, 4);
    ZeroPadValue(m, 2);
    FixedValue(m, 2);
    ZeroPadValue(dd, 2);
    FixedValue(dd, 2);
    var s := FormatInt(y, 4) + "-" + ZeroPad(m, 2) + "-" + ZeroPad(dd, 2);
    assert s == Fixed(y, 4) + "-" + Fixed(m, 2) + "-" + Fixed(dd, 2);
    assert s[..4] == Fixed(y, 4) && s[5..7] == Fixed(m, 2) && s[8..] == Fixed(dd, 2);
  }

  /** Dates of years 0 to 9999 render in the layout and parse back to themselves. */
  lemma StringThenParse(d: Date)
    requires 0 <= Year(d) <= 9999
    ensures HasLayout(String(d))
    ensures FromString(String(d)) == Ok(d)
  {
    LayoutOfFields(Year(d), Month(d), Day(d));
    CivilOfDate(d);
  }

  /** A negative year's field starts with `-`, which is not a digit. */
  lemma NegativeYearText(y: int, rest: string)
    requires y < 0
    ensures !HasLayout(FormatInt(y, 4) + rest)
  {
    var s := FormatInt(y, 4) + rest;
    if |s| == 10 {
      assert s[..4][0] == '-';
    }
  }

  /** A year past 9999 takes five digits or more, which makes the text too long. */
  lemma LongYearText(y: int, m: nat, dd: nat)
    requires y > 9999
    ensures !HasLayout(FormatInt(y, 4) + "-" + ZeroPad(m, 2) + "-" + ZeroPad(dd, 2))
  {
    Pow10Values();
    DigitCountAbove(y, 4);
    assert |FormatInt(y, 4)| >= 5;
  }

  /** Outside years 0 to 9999 the text form is not in the layout: `%04d` writes a
      negative year with a leading `-` and a later year with five digits or more,
      and the four-digit year field reads neither back. */
  lemma StringOutsideLayout(d: Date)
    requires Year(d) < 0 || Year(d) > 9999
    ensures !HasLayout(String(d))
    ensures FromString(String(d)).Err?
  {
    if Year(d) < 0 {
      NegativeYearText(Year(d), "-" + ZeroPad(Month(d), 2) + "-" + ZeroPad(Day(d), 2));
      assert String(d) == FormatInt(Year(d), 4) + ("-" + ZeroPad(Month(d), 2) + "-" + ZeroPad(Day(d), 2));
    } else {
      LongYearText(Year(d), Month(d), Day(d));
    }
  }

  /** Text that parses is exactly the text form of the date it parses to. */
  lemma ParseThenString(s: string)
    requires FromString(s).Ok?
    ensures String(FromString(s).value) == s
  {
    NewComponents(ValueOf(s[..4]), ValueOf(s[5..7]), ValueOf(s[8..]));
    ValueOfField(s[..4], 4);
    ValueOfField(s[5..7], 2);
    ValueOfField(s[8..], 2);
    assert s == s[..4] + "-" + s[5..7] + "-" + s[8..];
  }

  /** Text that parses is written back, quoted, as exactly that text. */
  lemma MarshalJSONOfParsed(s: string)
    requires FromString(s).Ok?
    ensures MarshalJSON(FromString(s).value) == "\"" + s + "\""
  {
    ParseThenString(s);
  }

  /** The date of the JSON test of date_test.go, 2015-05-21, is in the layout
      and names a day that exists. */
  lemma JSONExample()
    ensures FromString("2015-05-21").Ok?
  {
    var s := "2015-05-21";
    assert s[..4] == "2015" && s[5..7] == "05" && s[8..] == "21";
    ValueOfTwoDigits(s[5..7]);
    ValueOfTwoDigits(s[8..]);
  }

  /** Text that is not in the layout is rejected. */
  lemma NotADate()
    ensures FromString("not a date").Err?
  {
    assert !IsDigit('n');
  }
}
