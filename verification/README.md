# date: a verified model of the `Date` type

This project models the `Date` type of the Go package `date` (peterstace/date). A
`Date` is one calendar day of the proleptic Gregorian calendar. It is stored as the
signed number of days since 1970-01-01, and days before the epoch are negative. The
model covers:

- construction from a `time.Time` and from a year, month and day;
- month, year and day arithmetic;
- month and quarter boundaries;
- the accessors;
- `Max` and `Min`;
- the `YYYY-MM-DD` text form and the JSON hooks.

It is written in Dafny. Three modules make it up:

- `Calendar` (calendar.dfy) is the civil calendar that Go's `time` package supplies:
  - the leap-year rule and month lengths;
  - the day number of a civil date, `DaysFromCivil`, and its inverse, `CivilFromDays`
    (March-based years in 400-year eras);
  - `Normalize`, the carry `time.Date` applies to an out-of-range month or day;
  - the weekday of a day number.
- `Decimal` (decimal.dfy) is the zero-padded decimal text `fmt`'s `%0<w>d` produces,
  and the value of a run of digits as `time.Parse` reads it.
- `Dates` (date.dfy) is date.go:
  - `Date` is a `newtype` over `int`;
  - the pure operations are functions;
  - `StartOfQuarter` and `StartOfNextQuarter` keep their loops as methods with
    invariants;
  - `UnmarshalJSON`, which writes through its pointer receiver, is a method of the
    class `DateVar`, which stands for the `*Date` variable.

A `time.Time` is modelled as the datatype `Time`. It holds the wall-clock fields of the
time in its own location. `FromTime` rebuilds the time at midnight UTC and divides its
Unix seconds by 86400. That instant is an exact multiple of a day, so Go's truncating
division is exact there. The model therefore takes the day number of the normalized
civil date directly.

## Model

| member | source | states |
|---|---|---|
| Calendar.DaysIn | date.go:126-128 | a month has 28 to 31 days, and 29 exactly when it is February of a leap year |
| Calendar.DaysToCivil | date.go:84-93 | every day number names a valid civil date whose day number is that day number again |
| Calendar.CivilToDays | date.go:17-20 | every valid civil date is the civil date of its own day number |
| Calendar.NormalizeRoundTrip | date.go:17-20 | normalizing the civil date of a day number gives the day number back |
| Calendar.NormalizeValid | date.go:32-34 | on a valid civil date the carry of `time.Date` changes nothing |
| Calendar.NormalizeYears | date.go:97-105 | twelve months carry into one year |
| Calendar.NormalizeOfValid | date.go:32-34 | for a month in range, the normalized day number is the plain day number, even when the day overflows |
| Calendar.EpochOffset | date.go:90-93 | day `1 + k` of January 1970 is day number `k`: the epoch counted on by `k` days |
| Calendar.NextMonthStart | date.go:121-123 | the next month, or January of the next year, starts right after the last day of a month |
| Calendar.NextYearStart | date.go:84-93 | January 1 of the next year follows January 1 by the year's length |
| Calendar.NextMonthFirst | date.go:121-123 | the normalized first day of month `m + 1` comes `DaysIn(y, m)` days after the first of month `m`, December included |
| Calendar.MonthsOrdered | date.go:143-159 | every day of an earlier month comes before the first day of a later month |
| Calendar.CarryDay | date.go:97-105 | a day up to 28 days past a month's end lands on that many days into the next month (or January of the next year) |
| Calendar.NextDay | date.go:110-112 | the civil date of the day after a date: the next day, the first of the next month, or January 1 of the next year |
| Calendar.CivilAt | date.go:84-93 | a day number known to be that of a valid civil date converts back to that date |
| Calendar.DaysFromCivilOffset | date.go:110-112 | days count on linearly from the first of a month, also past its end |
| Calendar.DaysFromCivilInYear | date.go:186-188 | the day number of a date is January 1 plus the lengths of the earlier months plus the day |
| Calendar.DaysBeforeMonthBounds | date.go:186-188 | the earlier months and the month itself fit inside the year, and all twelve fill it |
| Calendar.DaysBeforeMonthMonotone | date.go:186-188 | later months start later in the year |
| Calendar.LeapPeriodic | date.go:17-20 | the leap rule repeats every 400 years |
| Calendar.SplitEraSpec | date.go:84-93 | a day of a 400-year era splits into a year of the era and a day inside that year |
| Calendar.SplitEraOf | date.go:84-93 | the split of the day `doy` days into year `yoe` of an era gives back `yoe` and `doy` |
| Calendar.MarchYearStep | date.go:84-93 | March 1 of the next year follows March 1 by the length of the year that holds the February between them |
| Calendar.MarchMonthOfDay | date.go:84-93 | the month formula puts a day of a March-based year inside its month |
| Calendar.MarchMonthUnique | date.go:84-93 | only one month of the March-based year holds a given day |
| Calendar.MarchMonthLength | date.go:126-128 | the March-based month table has the month lengths of every month but February |
| Calendar.EraDayCivil | date.go:84-93 | the civil date on a day of a March-based year of an era has a valid month and day |
| Calendar.CivilOfEraDay | date.go:84-93 | the civil date of a day number given as era, year of era and day of year |
| Calendar.MarchDayOfCivil | date.go:17-20 | a valid civil date falls on a day of its March-based year inside that year |
| Decimal.FixedValue | date.go:23-29 | reading back `w` digits of a number below 10^w gives the number |
| Decimal.FixedOfValue | date.go:23-29 | rendering the value of a run of digits at its own width gives the run back |
| Decimal.ValueOfBound | date.go:23-29 | a run of `w` digits is worth less than 10^w |
| Decimal.DigitCountBound | date.go:77-80 | a number below 10^w has at most `w` digits; the converse is Decimal.DigitCountAbove |
| Decimal.ZeroPadValue | date.go:77-80 | `%0<w>d` reads back as the number it renders, and a number below 10^w renders as exactly `w` digits |
| Decimal.DigitCountAbove | date.go:77-80 | a number of at least 10^w has more than `w` digits, so `%0<w>d` writes it wider than `w` |
| Decimal.ValueOfTwoDigits | date.go:23-29 | a two-digit field is worth ten times its first digit plus its second |
| Dates.TimeDate | date.go:32-34 | `time.Date` at midnight gives a valid time with a zero clock whose fields normalize to the same day number as the given fields |
| Dates.ToTime | date.go:84-86 | `Time()` gives a valid time at midnight |
| Dates.Month | date.go:171-173 | the month is 1 to 12 |
| Dates.Day | date.go:166-168 | the day lies inside the month the date is in |
| Dates.YearDay | date.go:186-188 | the year-day lies between 1 and the length of the year |
| Dates.StartOfQuarterMonth | date.go:161-163 | of the months 1 to 12, exactly January, April, July and October open a quarter |
| Dates.StartOfQuarter | date.go:132-139 | the first day of a month that opens a quarter, in the same year, no later than the date, within three months of its month: the quarter the date is in |
| Dates.StartOfNextQuarter | date.go:143-159 | the first day of a month that opens a quarter, strictly after the date; the year moves on by one exactly when the month is October to December; the loop takes three steps at most |
| Dates.QuarterOfJanuary | date_test.go:102-109 | 2022-01-15 starts its quarter on 2022-01-01 |
| Dates.QuarterOfFebruary | date_test.go:102-109 | 2022-02-15 starts its quarter on 2022-01-01 |
| Dates.NextQuarterOfDecember | date_test.go:110-121 | the next quarter after 2022-12-15 starts on 2023-01-01 |
| Dates.NextQuarterOfJune | date_test.go:110-121 | the next quarter after 2022-06-15 starts on 2022-07-01 |
| Dates.NextQuarterOfApril | date_test.go:110-121 | the next quarter after 2022-04-22 starts on 2022-07-01 |
| Dates.Max | date.go:224-229 | the result is one of the two dates and no earlier than either |
| Dates.Min | date.go:233-238 | the result is one of the two dates and no later than either |
| Dates.MustFromString | date.go:38-44 | for text that parses, the date's text form is that text |
| Dates.DateVar.UnmarshalJSON | date.go:196-203 | unquoted input leaves the variable unchanged and fails with "not a string"; quoted text that parses sets the variable to the date; quoted text that does not parse sets the variable to 0 and returns the parse error |
| Dates.JSONRoundTrip | date.go:191-203 | unmarshalling the JSON of a date of years 0 to 9999 gives the date back with no error |
| Dates.CivilOfDate | date.go:166-178 | a date's own year, month and day form a valid civil date whose day number is the date |
| Dates.ToTimeIsEpochPlusDays | date.go:84-93 | `Time()` is midnight 1970-01-01 UTC moved on by `d` days with `AddDate` |
| Dates.NewComponents | date.go:32-34 | `New` of a valid civil date has that year, month and day |
| Dates.NewOfComponents | date.go:32-34 | rebuilding a date from its accessors gives it back |
| Dates.NewCarries | date.go:32-34 | in `New`, twelve months make a year, and extra days count on linearly |
| Dates.NewNextMonth | date.go:32-34 | a day past the end of a month (before December) is that many days into the next month |
| Dates.FromTimeTruncates | date.go:17-20 | truncating a valid time keeps its year, month and day and drops its clock |
| Dates.FromTimeOfToTime | date.go:17-20 | truncating the midnight of a date gives the date back |
| Dates.ConstructionExamples | date_test.go:22-29 | 1970-01-01 is day 0, and 2018-03-30 12:01:45 truncates to 2018-03-30 |
| Dates.FromTimeAddMonths | date.go:97-99 | moving a time on by months adds to its month field and normalizes |
| Dates.FromTimeAddYears | date.go:103-105 | moving a time on by years adds to its year field and normalizes |
| Dates.AddMonthsNormalizes | date.go:97-99 | `AddMonths(n)` is the normalized date of year, month + n, day |
| Dates.AddYearsNormalizes | date.go:103-105 | `AddYears(n)` is the normalized date of year + n, month, day |
| Dates.AddYearsIsTwelveMonths | date.go:97-105 | adding `n` years is adding `12n` months |
| Dates.CarriedFields | date.go:97-99 | the fields of the date whose day number is that of a day up to 28 days past a month's end |
| Dates.AddMonthsCarries | date.go:95-99 | month arithmetic keeps the day when the target month has it, and otherwise carries the excess into the next month instead of clamping |
| Dates.AddMonthsToNew | date.go:97-99 | on a valid civil date, month arithmetic moves the month field |
| Dates.AddYearsToNew | date.go:103-105 | on a valid civil date, year arithmetic moves the year field |
| Dates.AddMonthsIntoNextYear | date_test.go:38-41 | 1999-12-25 plus two months is 2000-02-25 |
| Dates.AddMonthsBackwards | date_test.go:42-45 | 1999-12-25 minus two months is 1999-10-25 |
| Dates.AddMonthsPastShortMonth | date_test.go:46-49 | 1999-05-31 plus one month is 1999-07-01 |
| Dates.AddYearsExample | date_test.go:50-53 | 1999-12-25 plus one year is 2000-12-25 |
| Dates.AddYearsFromLeapDay | date_test.go:54-57 | 2016-02-29 plus one year is 2017-03-01 |
| Dates.AddDaysExamples | date_test.go:58-65 | 1999-12-26 minus a day and 1999-12-24 plus a day are both 1999-12-25 |
| Dates.AddDaysInverse | date.go:110-112 | adding days is exact integer addition: adding `n` and then `-n` days gives the date back |
| Dates.AddDaysNextDay | date.go:110-112 | the day after a date is the next day of its month, or the first of the next month, or January 1 of the next year |
| Dates.StartOfMonthSpec | date.go:115-118 | the first of the month has day 1, the same year and month, is `Day - 1` days before the date, and taking it twice changes nothing |
| Dates.EndOfMonthValue | date.go:121-123 | the end of the month is the day number of the month's last day |
| Dates.DateFields | date.go:166-178 | a date whose day number is that of a valid civil date has its year, month and day |
| Dates.EndOfMonthSpec | date.go:121-123 | the end of the month is in the same year and month, is its last day, and is no earlier than the date |
| Dates.EndOfMonthNextDay | date.go:121-123 | the day after the end of the month is the first of the next month, or January 1 of the next year |
| Dates.DaysInMonthSpec | date.go:126-128 | the month length is 28 to 31, and 29 exactly in February of a leap year |
| Dates.StartOfMonthOfNew | date.go:115-118 | the first of the month of a valid civil date is day 1 of that month |
| Dates.EndOfMonthOfNew | date.go:121-128 | the end of the month of a valid civil date is its last day, and the length of its month is that day |
| Dates.StartOfMonthExamples | date_test.go:66-77 | 2022-11-15, 2022-12-15 and 2022-01-15 start their months on the 1st |
| Dates.EndOfNovember | date_test.go:78-81 | November 2022 ends on the 30th and has 30 days |
| Dates.EndOfDecember | date_test.go:82-85 | December 2022 ends on the 31st and has 31 days |
| Dates.EndOfJanuary | date_test.go:86-89 | 2022-01-31 is its own end of month, and January has 31 days |
| Dates.FirstOfEarlierMonth | date.go:132-139 | the first day of an earlier or the same month of the year has that month and comes no later than the date |
| Dates.FirstOfLaterMonth | date.go:143-159 | the first day of a later month comes after the date |
| Dates.QuarterStart | date.go:132-139 | stepping back to the first month of the quarter reaches the quarter's first day |
| Dates.QuarterAfter | date.go:143-159 | the month three months or fewer after the start of a quarter at which the next quarter opens is a quarter's first month |
| Dates.NextQuarterStart | date.go:143-159 | the first month that opens a quarter after the date's month is the first day of the next quarter |
| Dates.WeekdayCycle | date.go:181-183 | 1970-01-01 is a Thursday, the weekday of each day is the one after the previous day's (Saturday wrapping to Sunday), and weekdays repeat every 7 days |
| Dates.WeekdayOfNew | date.go:181-183 | the weekday of a date is that of its day number |
| Dates.WeekdayOf19890614 | date_test.go:154 | 1989-06-14 is a Wednesday |
| Dates.WeekdayOf20141225 | date_test.go:155 | 2014-12-25 is a Thursday |
| Dates.WeekdayOf20180818 | date_test.go:156 | 2018-08-18 is a Saturday |
| Dates.YearDayOfDate | date.go:186-188 | the year-day is the length of the earlier months plus the day, and in January it is the day |
| Dates.AccessorExample | date_test.go:123-126 | 2015-03-04 has year 2015, month 3, day 4 and year-day 63 |
| Dates.LayoutOfFields | date.go:77-80 | year, month and day fields below 10000, 100 and 100 render as text in the `YYYY-MM-DD` layout whose three digit runs read back as the fields |
| Dates.ValueOfField | date.go:23-29 | a run of `w` digits is the rendering of its own value |
| Dates.StringThenParse | date.go:23-29 | the text form of a date of years 0 to 9999 is in the layout and parses back to the date |
| Dates.NegativeYearText | date.go:77-80 | `%04d` writes a negative year with a leading `-`, so the text is not in the layout |
| Dates.LongYearText | date.go:77-80 | `%04d` writes a year past 9999 with five or more digits, so the text is not in the layout |
| Dates.StringOutsideLayout | date.go:23-29 | the text form of a date of a year below 0 or above 9999 is not in the layout and does not parse |
| Dates.ParseThenString | date.go:77-80 | text that parses is exactly the text form of the date it parses to |
| Dates.MarshalJSONOfParsed | date.go:191-193 | the JSON of the date that text parses to is that text, quoted |
| Dates.JSONExample | date_test.go:192-196 | 2015-05-21 is in the layout and names a day that exists |
| Dates.NotADate | date_test.go:186-190 | "not a date" does not parse |

## Left out

- `Today`, `Yesterday`, `Tomorrow`, `TodayIn`, `YesterdayIn` and `TomorrowIn` (date.go:47-74) are not modelled: they read the wall clock and the time-zone database.
- `TimeIn` for a location other than UTC (date.go:90-93) is not modelled, and neither is the time-zone part of `FromTime`. A `Time` is only its wall-clock fields; `ToTime` is `Time()`, that is `TimeIn(time.UTC)`.
- `Scan` and `Value` (date.go:207-220) are not modelled: they are `database/sql` glue around `FromTime` and `String`. cmd/sql-date-test/main.go is not part of this model.
- Dates.FromString: a recogniser of the `YYYY-MM-DD` layout: four digits, `-`, two digits, `-`, two digits, with the month and day checked against the calendar. The text round trip is stated for years 0 to 9999 because `%04d` writes a negative year with a leading `-` and a later year with five or more digits; Dates.StringOutsideLayout proves that such text does not parse.
- Dates.MustFromString: the panic on text that does not parse is a precondition.
- Dates.MarshalJSON: returns the text only. The error it always returns is nil and is dropped, and `[]byte` is modelled as a string.
- Dates.DateVar.UnmarshalJSON: errors are the datatype `Error`, not Go's formatted messages. The `encoding/json` framework that calls the hooks is not modelled, so the struct wrapper `{"d": …}` of date_test.go:192-216 is not either.
- Dates.AddDate: models `time.Time.AddDate` on a time whose clock is already in range, so carrying the clock into the day is not modelled.
- Integer width: the day count, years and months are unbounded integers. The 64-bit wrap-around of `int` and the range limits of `time.Time` are not modelled.
- `Weekday` returns `Calendar.DayOfWeek`, the seven days in `time.Weekday`'s order (Sunday first), rather than Go's integer type.
- The test rows of date_test.go that print through `fmt` (date_test.go:158-178) are not restated as lemmas: `New` is stated by Dates.NewComponents, and `Max`/`Min` by their contracts.
