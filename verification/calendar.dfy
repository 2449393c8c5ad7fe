/**
 * The proleptic Gregorian civil calendar, as the Go `time` package computes it:
 * civil (year, month, day) to a signed day number counted from 1970-01-01 and
 * back, the carry of an out-of-range month or day, and the weekday cycle.
 *
 * Day numbers are computed through March-based years: a March-based year `yp`
 * runs from March 1 of `yp` to the last day of February of `yp + 1`, so the leap
 * day is always its last day, and every 400 such years (an era) hold exactly
 * 146097 days.
 */
module Calendar {

  /** The Gregorian leap-year rule, applied to every year (proleptic). */
  predicate IsLeapYear(y: int) {
    y % 4 == 0 && (y % 100 != 0 || y % 400 == 0)
  }

  function YearLength(y: int): int {
    if IsLeapYear(y) then 366 else 365
  }

  /** Number of days in month `m` (1 = January) of year `y`. */
  function DaysIn(y: int, m: int): (n: int)
    requires 1 <= m <= 12
    ensures 28 <= n <= 31
    ensures n == 29 <==> m == 2 && IsLeapYear(y)
  {
    if m == 2 then (if IsLeapYear(y) then 29 else 28)
    else if m == 4 || m == 6 || m == 9 || m == 11 then 30
    else 31
  }

  /** A civil date: year, month (1 = January) and day of the month. */
  datatype Civil = Civil(year: int, month: int, day: int) {
    predicate Valid() {
      1 <= month <= 12 && 1 <= day <= DaysIn(year, month)
    }
  }

  /** The weekday, numbered as `time.Weekday` numbers it (Sunday = 0). */
  datatype DayOfWeek = Sunday | Monday | Tuesday | Wednesday | Thursday | Friday | Saturday

  /** The day of the week that follows `w`, Saturday wrapping round to Sunday. */
  function NextWeekday(w: DayOfWeek): DayOfWeek {
    match w
    case Sunday => Monday
    case Monday => Tuesday
    case Tuesday => Wednesday
    case Wednesday => Thursday
    case Thursday => Friday
    case Friday => Saturday
    case Saturday => Sunday
  }

  const DaysPerEra: int := 146097
  /** Day number of 1970-01-01 when days are counted from 0000-03-01. */
  const EpochFromMarch0: int := 719468

  /** Days from March 1 of the first year of an era to March 1 of its year `yoe`. */
  function DaysBeforeYearOfEra(yoe: int): int {
    365 * yoe + yoe / 4 - yoe / 100
  }

  /** Days from 0000-03-01 to March 1 of year `yp`. */
  function MarchYearStart(yp: int): int {
    (yp / 400) * DaysPerEra + DaysBeforeYearOfEra(yp % 400)
  }

  /** Days from March 1 to the first day of the `k`-th month after March
      (k = 0 is March, k = 11 is February of the following year). */
  function MarchMonthStart(k: int): int
    requires 0 <= k <= 12
  {
    (153 * k + 2) / 5
  }

  /** Position of month `m` (1 = January) in a March-based year. */
  function MarchMonthIndex(m: int): int
    requires 1 <= m <= 12
  {
    if m >= 3 then m - 3 else m + 9
  }

  /** The day number (days since 1970-01-01) of day `d` of month `m` of year
      `y`; a day outside the month is counted on from the month's first day. */
  function DaysFromCivil(y: int, m: int, d: int): int
    requires 1 <= m <= 12
  {
    MarchYearStart(if m >= 3 then y else y - 1)
      + MarchMonthStart(MarchMonthIndex(m)) + (d - 1) - EpochFromMarch0
  }

  /** Splits a day of an era into the March-based year of the era that holds
      it and the day within that year. The clamps to 3 handle the leap day
      that ends a 400-year era and the one that ends a 4-year block. */
  function SplitEra(doe: int): (r: (int, int))
    requires 0 <= doe < DaysPerEra
    ensures 0 <= r.0 < 400 && 0 <= r.1 < 366
  {
    var c := if doe / 36524 < 3 then doe / 36524 else 3;
    var r1 := doe - 36524 * c;
    var q := r1 / 1461;
    var r2 := r1 - 1461 * q;
    var y1 := if r2 / 365 < 3 then r2 / 365 else 3;
    (100 * c + 4 * q + y1, r2 - 365 * y1)
  }

  /** The civil date of day number `n`. */
  function CivilFromDays(n: int): Civil {
    var z := n + EpochFromMarch0;
    var (yoe, doy) := SplitEra(z % DaysPerEra);
    var k := (5 * doy + 2) / 153;
    var m := if k < 10 then k + 3 else k - 9;
    var yp := 400 * (z / DaysPerEra) + yoe;
    Civil(if m <= 2 then yp + 1 else yp, m, doy - MarchMonthStart(k) + 1)
  }

  /** What `time.Date` does with a (year, month, day) triple: the month is
      carried into the year by floor division, then `d - 1` days are added to
      the first day of the resulting month. */
  function Normalize(y: int, m: int, d: int): int {
    DaysFromCivil(y + (m - 1) / 12, (m - 1) % 12 + 1, d)
  }

  function WeekdayOfDays(n: int): DayOfWeek {
    // 1970-01-01 was a Thursday
    match (n + 4) % 7
    case 0 => Sunday
    case 1 => Monday
    case 2 => Tuesday
    case 3 => Wednesday
    case 4 => Thursday
    case 5 => Friday
    case _ => Saturday
  }

  // ---------------------------------------------------------------------------
  // Lemmas

  lemma SplitEraFacts(c: int, q: int, y1: int, doy: int)
    requires 0 <= c <= 3 && 0 <= q <= 24 && 0 <= y1 <= 3
    requires 0 <= doy <= 365
    requires doy == 365 ==> y1 == 3 && (q < 24 || c == 3)
    ensures DaysBeforeYearOfEra(100 * c + 4 * q + y1) == 36524 * c + 1461 * q + 365 * y1
    ensures doy < YearLength(100 * c + 4 * q + y1 + 1)
  {
    var yoe := 100 * c + 4 * q + y1;
    assert yoe / 4 == 25 * c + q;
    assert yoe / 100 == c;
    if doy == 365 {
      assert (yoe + 1) % 4 == 0;
      if q < 24 {
        assert (yoe + 1) % 100 != 0;
      } else {
        assert yoe + 1 == 400;
      }
    }
  }

  /** The split names a year of the era and a day inside that year, which
      add back up to `doe`. */
  lemma SplitEraSpec(doe: int)
    requires 0 <= doe < DaysPerEra
    ensures var r := SplitEra(doe);
            r.1 < YearLength(r.0 + 1) && DaysBeforeYearOfEra(r.0) + r.1 == doe
  {
    var c := if doe / 36524 < 3 then doe / 36524 else 3;
    var r1 := doe - 36524 * c;
    var q := r1 / 1461;
    var r2 := r1 - 1461 * q;
    var y1 := if r2 / 365 < 3 then r2 / 365 else 3;
    SplitEraFacts(c, q, y1, r2 - 365 * y1);
  }

  /** The leap rule repeats every 400 years. */
  lemma LeapPeriodic(k: int, x: int)
    ensures IsLeapYear(400 * k + x) == IsLeapYear(x)
  {
    assert 400 * k + x == 4 * (100 * k) + x == 100 * (4 * k) + x;
    ShiftMod4(100 * k, x);
    ShiftMod100(4 * k, x);
    ShiftMod400(k, x);
  }

  // Adding a multiple of 4, 100 or 400 leaves the remainder by it unchanged.

  lemma ShiftMod4(j: int, x: int)
    ensures (4 * j + x) % 4 == x % 4
  {
    assert 4 * j + x == 4 * (j + x / 4) + x % 4;
  }

  lemma ShiftMod100(j: int, x: int)
    ensures (100 * j + x) % 100 == x % 100
  {
    assert 100 * j + x == 100 * (j + x / 100) + x % 100;
  }

  lemma ShiftMod400(j: int, x: int)
    ensures (400 * j + x) % 400 == x % 400
  {
    assert 400 * j + x == 400 * (j + x / 400) + x % 400;
  }

  /** Year `yoe` of an era is `c` centuries, `q` four-year blocks and `y1`
      years in, and the last day of a leap year lies in the last year of a
      block, and of a century unless the century ends the era. */
  lemma YearOfEraParts(yoe: int, doy: int)
    requires 0 <= yoe < 400 && 0 <= doy < YearLength(yoe + 1)
    ensures DaysBeforeYearOfEra(yoe) == 36524 * (yoe / 100) + 1461 * ((yoe % 100) / 4) + 365 * (yoe % 4)
    ensures doy == 365 ==> yoe % 4 == 3 && ((yoe % 100) / 4 < 24 || yoe / 100 == 3)
  {
    assert yoe / 4 == 25 * (yoe / 100) + (yoe % 100) / 4;
  }

  /** The clamped quotient of the first step of SplitEra recovers the century. */
  lemma CenturyOfEraDay(doe: int, c: int, r: int)
    requires 0 <= c <= 3 && 0 <= r && doe == 36524 * c + r
    requires r < 36524 || (c == 3 && r == 36524)
    ensures (if doe / 36524 < 3 then doe / 36524 else 3) == c
  {
  }

  /** The clamped quotient of the last step of SplitEra recovers the year of the block. */
  lemma YearOfBlockDay(x: int, y1: int, doy: int)
    requires 0 <= y1 <= 3 && 0 <= doy && x == 365 * y1 + doy
    requires doy < 365 || (y1 == 3 && doy == 365)
    ensures (if x / 365 < 3 then x / 365 else 3) == y1
  {
  }

  /** Splitting the day `doy` days into year `yoe` of an era gives back `yoe` and `doy`. */
  lemma SplitEraOf(doe: int, yoe: int, doy: int)
    requires 0 <= yoe < 400 && 0 <= doy < YearLength(yoe + 1)
    requires doe == DaysBeforeYearOfEra(yoe) + doy
    ensures 0 <= doe < DaysPerEra
    ensures SplitEra(doe).0 == yoe && SplitEra(doe).1 == doy
  {
    YearOfEraParts(yoe, doy);
    var c, q, y1 := yoe / 100, (yoe % 100) / 4, yoe % 4;
    // the steps of SplitEra, spelled as in its body, each recover a part of `yoe`
    CenturyOfEraDay(doe, c, 1461 * q + 365 * y1 + doy);
    assert (doe - 36524 * c) / 1461 == q;
    YearOfBlockDay(doe - 36524 * c - 1461 * q, y1, doy);
  }

  lemma EraDivision(era: int, doe: int)
    requires 0 <= doe < DaysPerEra
    ensures (era * DaysPerEra + doe) / DaysPerEra == era
    ensures (era * DaysPerEra + doe) % DaysPerEra == doe
  {
  }

  lemma MarchMonthOfDay(doy: int)
    requires 0 <= doy < 366
    ensures 0 <= (5 * doy + 2) / 153 <= 11
    ensures MarchMonthStart((5 * doy + 2) / 153) <= doy < MarchMonthStart((5 * doy + 2) / 153 + 1)
  {
  }

  lemma MarchMonthUnique(k: int, doy: int)
    requires 0 <= k <= 11 && MarchMonthStart(k) <= doy < MarchMonthStart(k + 1)
    ensures (5 * doy + 2) / 153 == k
  {
  }

  /** Every month but February has the same length in every year, and the
      March-based month table gives it. */
  lemma MarchMonthLength(y: int, m: int)
    requires 1 <= m <= 12 && m != 2
    ensures MarchMonthStart(MarchMonthIndex(m) + 1) - MarchMonthStart(MarchMonthIndex(m)) == DaysIn(y, m)
    ensures MarchMonthStart(MarchMonthIndex(m) + 1) <= 337
  {
  }

  /** Inside an era, March 1 of year `yoe + 1` follows March 1 of `yoe` by the
      length of the calendar year `yoe + 1`. */
  lemma EraYearStep(yoe: int)
    requires 0 <= yoe < 399
    ensures DaysBeforeYearOfEra(yoe + 1) == DaysBeforeYearOfEra(yoe) + YearLength(yoe + 1)
  {
    assert (yoe + 1) / 4 == yoe / 4 + (if (yoe + 1) % 4 == 0 then 1 else 0);
    assert (yoe + 1) / 100 == yoe / 100 + (if (yoe + 1) % 100 == 0 then 1 else 0);
    assert (yoe + 1) % 400 != 0;
  }

  /** March 1 of year `yp + 1` follows March 1 of `yp` by the length of the
      calendar year `yp + 1`, whose February ends March-based year `yp`. */
  lemma MarchYearStep(yp: int)
    ensures MarchYearStart(yp + 1) == MarchYearStart(yp) + YearLength(yp + 1)
  {
    if yp % 400 < 399 {
      MarchYearStepInEra(yp, yp / 400, yp % 400);
    } else {
      MarchYearStepAcrossEras(yp, yp / 400);
    }
  }

  lemma MarchYearStepInEra(yp: int, era: int, yoe: int)
    requires era == yp / 400 && yoe == yp % 400 && yoe < 399
    ensures MarchYearStart(yp + 1) == MarchYearStart(yp) + YearLength(yp + 1)
  {
    assert (yp + 1) / 400 == era && (yp + 1) % 400 == yoe + 1;
    EraYearStep(yoe);
    LeapPeriodic(era, yoe + 1);
    assert 400 * era + (yoe + 1) == yp + 1;
  }

  lemma MarchYearStepAcrossEras(yp: int, era: int)
    requires era == yp / 400 && yp % 400 == 399
    ensures MarchYearStart(yp + 1) == MarchYearStart(yp) + YearLength(yp + 1)
  {
    assert (yp + 1) / 400 == era + 1 && (yp + 1) % 400 == 0;
    LeapPeriodic(era + 1, 0);
    assert 400 * (era + 1) + 0 == yp + 1;
  }

  /** Every day number names a valid civil date, and converting that date back
      gives the same day number. */
  lemma DaysToCivil(n: int)
    ensures CivilFromDays(n).Valid()
    ensures DaysFromCivil(CivilFromDays(n).year, CivilFromDays(n).month, CivilFromDays(n).day) == n
  {
    var era := (n + EpochFromMarch0) / DaysPerEra;
    var doe := (n + EpochFromMarch0) % DaysPerEra;
    var (yoe, doy) := SplitEra(doe);
    SplitEraSpec(doe);
    CivilOfEraDay(n, era, yoe, doy);
    EraDayCivil(era, yoe, doy);
  }

  /** The civil date on day `doy` of March-based year `yoe` of era `era` is
      valid, and its day number counts the eras, years and days before it. */
  lemma EraDayCivil(era: int, yoe: int, doy: int)
    requires 0 <= yoe < 400 && 0 <= doy < YearLength(yoe + 1)
    ensures var k := (5 * doy + 2) / 153;
            var m := if k < 10 then k + 3 else k - 9;
            var y := if m <= 2 then 400 * era + yoe + 1 else 400 * era + yoe;
            0 <= k <= 11 &&
            Civil(y, m, doy - MarchMonthStart(k) + 1).Valid() &&
            DaysFromCivil(y, m, doy - MarchMonthStart(k) + 1) ==
              era * DaysPerEra + DaysBeforeYearOfEra(yoe) + doy - EpochFromMarch0
  {
    MarchMonthOfDay(doy);
    var k := (5 * doy + 2) / 153;
    var m := if k < 10 then k + 3 else k - 9;
    var yp := 400 * era + yoe;
    var y := if m <= 2 then yp + 1 else yp;
    assert MarchMonthIndex(m) == k;
    assert (if m >= 3 then y else y - 1) == yp;
    LeapPeriodic(era, yoe + 1);
    if m != 2 {
      MarchMonthLength(y, m);
    }
    assert yp / 400 == era && yp % 400 == yoe;
  }

  /** The civil date of the day `doy` days after March 1 of year `yoe` of era `era`. */
  lemma CivilOfEraDay(n: int, era: int, yoe: int, doy: int)
    requires 0 <= yoe < 400 && 0 <= doy < YearLength(yoe + 1)
    requires n == era * DaysPerEra + DaysBeforeYearOfEra(yoe) + doy - EpochFromMarch0
    ensures var k := (5 * doy + 2) / 153;
            var m := if k < 10 then k + 3 else k - 9;
            0 <= k <= 11 &&
            CivilFromDays(n) == Civil(if m <= 2 then 400 * era + yoe + 1 else 400 * era + yoe, m, doy - MarchMonthStart(k) + 1)
  {
    // the terms below are spelled as in the body of CivilFromDays
    assert (n + EpochFromMarch0) / DaysPerEra == era by {
      EraDivision(era, DaysBeforeYearOfEra(yoe) + doy);
    }
    assert SplitEra((n + EpochFromMarch0) % DaysPerEra).0 == yoe &&
           SplitEra((n + EpochFromMarch0) % DaysPerEra).1 == doy by {
      EraDivision(era, DaysBeforeYearOfEra(yoe) + doy);
      SplitEraOf((n + EpochFromMarch0) % DaysPerEra, yoe, doy);
    }
    MarchMonthOfDay(doy);
  }

  /** The day of its March-based year on which a valid civil date falls. */
  lemma MarchDayOfCivil(y: int, m: int, d: int)
    requires Civil(y, m, d).Valid()
    ensures var yp := if m >= 3 then y else y - 1;
            var doy := MarchMonthStart(MarchMonthIndex(m)) + d - 1;
            0 <= doy < YearLength(yp % 400 + 1) &&
            DaysFromCivil(y, m, d) == (yp / 400) * DaysPerEra + DaysBeforeYearOfEra(yp % 400) + doy - EpochFromMarch0
  {
    var yp := if m >= 3 then y else y - 1;
    LeapPeriodic(yp / 400, yp % 400 + 1);
    if m != 2 {
      MarchMonthLength(y, m);
    } else {
      assert y == 400 * (yp / 400) + yp % 400 + 1;
    }
  }

  /** Every valid civil date is the civil date of its day number. */
  lemma CivilToDays(y: int, m: int, d: int)
    requires Civil(y, m, d).Valid()
    ensures CivilFromDays(DaysFromCivil(y, m, d)) == Civil(y, m, d)
  {
    var yp := if m >= 3 then y else y - 1;
    var k := MarchMonthIndex(m);
    var doy := MarchMonthStart(k) + d - 1;
    var era, yoe := yp / 400, yp % 400;
    assert 0 <= doy < YearLength(yoe + 1) &&
      DaysFromCivil(y, m, d) == era * DaysPerEra + DaysBeforeYearOfEra(yoe) + doy - EpochFromMarch0 by {
      MarchDayOfCivil(y, m, d);
    }
    assert (5 * doy + 2) / 153 == k by {
      MarchMonthUnique(k, doy);
    }
    assert 400 * era + yoe == yp;
    CivilOfEraDay(DaysFromCivil(y, m, d), era, yoe, doy);
  }

  /** The first day of the month after month `m` of year `y` comes `DaysIn(y, m)`
      days after the first day of month `m`. */
  lemma NextMonthStart(y: int, m: int)
    requires 1 <= m <= 12
    ensures m < 12 ==> DaysFromCivil(y, m + 1, 1) == DaysFromCivil(y, m, 1) + DaysIn(y, m)
    ensures m == 12 ==> DaysFromCivil(y + 1, 1, 1) == DaysFromCivil(y, m, 1) + DaysIn(y, m)
  {
    if m == 2 {
      MarchYearStep(y - 1);
    } else if m != 1 && m != 12 {
      MarchMonthLength(y, m);
    }
  }

  /** January 1 of year `y + 1` comes `YearLength(y)` days after January 1 of `y`. */
  lemma NextYearStart(y: int)
    ensures DaysFromCivil(y + 1, 1, 1) == DaysFromCivil(y, 1, 1) + YearLength(y)
  {
    MarchYearStep(y - 1);
  }

  /** A day outside its month counts on from the month's first day. */
  lemma DaysFromCivilOffset(y: int, m: int, d: int)
    requires 1 <= m <= 12
    ensures DaysFromCivil(y, m, d) == DaysFromCivil(y, m, 1) + (d - 1)
  {
  }

  /** Day `1 + k` of January 1970 has day number `k`: counting on from the
      epoch date by `k` days reaches day number `k`. */
  lemma EpochOffset(k: int)
    ensures Normalize(1970, 1, 1 + k) == k
  {
    DaysFromCivilOffset(1970, 1, 1 + k);
    assert DaysFromCivil(1970, 1, 1) == 0;
  }

  /** The sum of the lengths of the months of year `y` before month `m`. */
  function DaysBeforeMonth(y: int, m: int): int
    requires 1 <= m <= 12
  {
    if m == 1 then 0 else DaysBeforeMonth(y, m - 1) + DaysIn(y, m - 1)
  }

  /** The day number of a date is that of January 1 plus the lengths of the
      earlier months of the year plus the days before it in its month. */
  lemma {:induction false} DaysFromCivilInYear(y: int, m: int, d: int)
    requires 1 <= m <= 12
    ensures DaysFromCivil(y, m, d) == DaysFromCivil(y, 1, 1) + DaysBeforeMonth(y, m) + (d - 1)
    decreases m
  {
    if m > 1 {
      DaysFromCivilInYear(y, m - 1, 1);
      NextMonthStart(y, m - 1);
    }
  }

  /** Month lengths add up to the length of the year. */
  lemma DaysBeforeMonthBounds(y: int, m: int)
    requires 1 <= m <= 12
    ensures 0 <= DaysBeforeMonth(y, m)
    ensures DaysBeforeMonth(y, m) + DaysIn(y, m) <= YearLength(y)
    ensures m == 12 ==> DaysBeforeMonth(y, m) + DaysIn(y, m) == YearLength(y)
  {
    DaysFromCivilInYear(y, 12, 1);
    NextMonthStart(y, 12);
    NextYearStart(y);
    DaysBeforeMonthMonotone(y, m, 12);
  }

  lemma {:induction false} DaysBeforeMonthMonotone(y: int, m1: int, m2: int)
    requires 1 <= m1 <= m2 <= 12
    ensures DaysBeforeMonth(y, m1) <= DaysBeforeMonth(y, m2)
    ensures m1 < m2 ==> DaysBeforeMonth(y, m1) + DaysIn(y, m1) <= DaysBeforeMonth(y, m2)
    decreases m2 - m1
  {
    if m1 < m2 {
      DaysBeforeMonthMonotone(y, m1, m2 - 1);
    }
  }

  /** `CivilToDays`, for a day number already known to be that of the date. */
  lemma CivilAt(n: int, y: int, m: int, d: int)
    requires Civil(y, m, d).Valid() && n == DaysFromCivil(y, m, d)
    ensures CivilFromDays(n) == Civil(y, m, d)
  {
    CivilToDays(y, m, d);
  }

  /** The civil date of the day after a valid civil date, whose day number is `n`. */
  lemma NextDay(n: int, y: int, m: int, d: int)
    requires Civil(y, m, d).Valid() && n == DaysFromCivil(y, m, d)
    ensures CivilFromDays(n + 1) ==
              if d < DaysIn(y, m) then Civil(y, m, d + 1)
              else if m < 12 then Civil(y, m + 1, 1)
              else Civil(y + 1, 1, 1)
  {
    DaysFromCivilOffset(y, m, d);
    if d < DaysIn(y, m) {
      DaysFromCivilOffset(y, m, d + 1);
      CivilAt(n + 1, y, m, d + 1);
    } else if m < 12 {
      NextMonthStart(y, m);
      CivilAt(n + 1, y, m + 1, 1);
    } else {
      NextMonthStart(y, m);
      CivilAt(n + 1, y + 1, 1, 1);
    }
  }

  // ---------------------------------------------------------------------------
  // Lemmas about Normalize

  /** Normalizing the civil date of a day number gives the day number back. */
  lemma NormalizeRoundTrip(n: int)
    ensures var c := CivilFromDays(n);
            Normalize(c.year, c.month, c.day) == n
  {
    DaysToCivil(n);
    var c := CivilFromDays(n);
    assert (c.month - 1) / 12 == 0 && (c.month - 1) % 12 + 1 == c.month;
  }

  /** On a valid civil date Normalize changes nothing. */
  lemma NormalizeValid(y: int, m: int, d: int)
    requires Civil(y, m, d).Valid()
    ensures CivilFromDays(Normalize(y, m, d)) == Civil(y, m, d)
  {
    NormalizeOfValid(y, m, d);
    CivilToDays(y, m, d);
  }

  /** Twelve months carry into one year. */
  lemma NormalizeYears(y: int, m: int, d: int, k: int)
    ensures Normalize(y, m + 12 * k, d) == Normalize(y + k, m, d)
  {
    assert m + 12 * k - 1 == 12 * ((m - 1) / 12 + k) + (m - 1) % 12;
    assert (m + 12 * k - 1) / 12 == (m - 1) / 12 + k;
    assert (m + 12 * k - 1) % 12 == (m - 1) % 12;
  }

  /** For a month in range, Normalize is the plain day number. */
  lemma NormalizeOfValid(y: int, m: int, d: int)
    requires 1 <= m <= 12
    ensures Normalize(y, m, d) == DaysFromCivil(y, m, d)
  {
    assert (m - 1) / 12 == 0 && (m - 1) % 12 + 1 == m;
  }

  /** Month `m + 1` of year `y` starts right after month `m` ends, also past December. */
  lemma NextMonthFirst(y: int, m: int)
    requires 1 <= m <= 12
    ensures Normalize(y, m + 1, 1) == DaysFromCivil(y, m, 1) + DaysIn(y, m)
  {
    NextMonthStart(y, m);
    if m < 12 {
      NormalizeOfValid(y, m + 1, 1);
    } else {
      assert Normalize(y, 13, 1) == DaysFromCivil(y + 1, 1, 1);
    }
  }

  /** Every day of an earlier month comes before the first day of a later month. */
  lemma {:induction false} MonthsOrdered(y1: int, m1: int, y2: int, m2: int)
    requires 1 <= m1 <= 12 && 1 <= m2 <= 12 && 12 * y1 + m1 < 12 * y2 + m2
    ensures DaysFromCivil(y1, m1, 1) + DaysIn(y1, m1) <= DaysFromCivil(y2, m2, 1)
    decreases 12 * y2 + m2 - 12 * y1 - m1
  {
    NextMonthStart(y1, m1);
    if m1 < 12 {
      if 12 * y1 + m1 + 1 < 12 * y2 + m2 {
        MonthsOrdered(y1, m1 + 1, y2, m2);
      } else {
        assert y1 == y2 && m1 + 1 == m2;
      }
    } else {
      if 12 * (y1 + 1) + 1 < 12 * y2 + m2 {
        MonthsOrdered(y1 + 1, 1, y2, m2);
      } else {
        assert y1 + 1 == y2 && m2 == 1;
      }
    }
  }

  /** The carry of an overflowing day: a day past the end of a month (by at most
      28 days) lands in the following month, it is not clamped. */
  lemma CarryDay(y: int, m: int, d: int)
    requires 1 <= m <= 12 && 1 <= d <= DaysIn(y, m) + 28
    ensures var n := DaysFromCivil(y, m, d);
            if d <= DaysIn(y, m) then CivilFromDays(n) == Civil(y, m, d)
            else if m < 12 then CivilFromDays(n) == Civil(y, m + 1, d - DaysIn(y, m))
            else CivilFromDays(n) == Civil(y + 1, 1, d - DaysIn(y, m))
  {
    var n := DaysFromCivil(y, m, d);
    NextMonthStart(y, m);
    DaysFromCivilOffset(y, m, d);
    if d <= DaysIn(y, m) {
      CivilAt(n, y, m, d);
    } else if m < 12 {
      DaysFromCivilOffset(y, m + 1, d - DaysIn(y, m));
      CivilAt(n, y, m + 1, d - DaysIn(y, m));
    } else {
      DaysFromCivilOffset(y + 1, 1, d - DaysIn(y, m));
      CivilAt(n, y + 1, 1, d - DaysIn(y, m));
    }
  }
}
