/**
  Calendar fields of an instant given in whole seconds since 1970-01-01T00:00:00 UTC,
  in the proleptic Gregorian calendar: the hour, day of month, month, year, day of
  week and ISO 8601 week of year that the engine's `hour`, `dayofmonth`, `month`,
  `year`, `dayofweek` and `weekofyear` functions return in a UTC session.

  Day numbers (days since 1970-01-01) and dates are converted by days-from-civil
  arithmetic over 400-year eras whose years begin on 1 March, so that the leap
  day, when there is one, is the last day of its year.
*/
module Calendar {

  const SECONDS_PER_DAY := 86400
  const SECONDS_PER_HOUR := 3600

  datatype Date = Date(year: int, month: int, day: int)

  predicate IsLeapYear(y: int) {
    y % 4 == 0 && (y % 100 != 0 || y % 400 == 0)
  }

  function DaysInMonth(y: int, m: int): (n: int)
    requires 1 <= m <= 12
    ensures 28 <= n <= 31
  {
    if m == 2 then (if IsLeapYear(y) then 29 else 28)
    else if m == 4 || m == 6 || m == 9 || m == 11 then 30
    else 31
  }

  predicate ValidDate(d: Date) {
    1 <= d.month <= 12 && 1 <= d.day <= DaysInMonth(d.year, d.month)
  }

  /** Days from the start of an era (1 March of a year divisible by 400) to 1 March of its year `yoe`. */
  function YearStart(yoe: int): int
    requires 0 <= yoe <= 400
  {
    365 * yoe + yoe / 4 - yoe / 100 + yoe / 400
  }

  /** Days from 1 March to the first day of month `mp`, counted from March (0 = March, ..., 11 = February). */
  function MonthStart(mp: int): int
    requires 0 <= mp <= 12
  {
    (153 * mp + 2) / 5
  }

  /** Days from 1970-01-01 to 1 March of year `y` (146097 days per era; 0000-03-01 is 719468 days before the epoch). */
  function MarchFirst(y: int): int {
    146097 * (y / 400) + YearStart(y % 400) - 719468
  }

  /** The day number (days since 1970-01-01) of a date. */
  function DaysFromCivil(d: Date): int
    requires 1 <= d.month <= 12
  {
    if d.month > 2 then MarchFirst(d.year) + MonthStart(d.month - 3) + d.day - 1
    else MarchFirst(d.year - 1) + MonthStart(d.month + 9) + d.day - 1
  }

  // ---------------------------------------------------------------------------
  // Facts about the era arithmetic
  // ---------------------------------------------------------------------------

  lemma Remainder4(y: int, k: int, m: int)
    requires y == 4 * k + m && 0 <= m < 4
    ensures y % 4 == m
  {
  }

  lemma Remainder100(y: int, k: int, m: int)
    requires y == 100 * k + m && 0 <= m < 100
    ensures y % 100 == m
  {
  }

  /** The leap-year rule repeats every 400 years. */
  lemma LeapYearPeriodic(y: int)
    ensures IsLeapYear(y) == IsLeapYear(y % 400)
  {
    var q, r := y / 400, y % 400;
    assert y == 400 * q + r;
    Remainder4(r, r / 4, r % 4);
    Remainder4(y, 100 * q + r / 4, r % 4);
    Remainder100(r, r / 100, r % 100);
    Remainder100(y, 4 * q + r / 100, r % 100);
  }

  /** Counting the multiples of 4 up to `x + 1` adds one exactly when `x + 1` is one. */
  lemma NextMultipleOf4(x: int)
    requires 0 <= x
    ensures (x + 1) / 4 == x / 4 + (if (x + 1) % 4 == 0 then 1 else 0)
  {
    assert x == 4 * (x / 4) + x % 4;
    if x % 4 == 3 {
      assert x + 1 == 4 * (x / 4 + 1);
    } else {
      assert x + 1 == 4 * (x / 4) + (x % 4 + 1);
    }
  }

  lemma NextMultipleOf100(x: int)
    requires 0 <= x
    ensures (x + 1) / 100 == x / 100 + (if (x + 1) % 100 == 0 then 1 else 0)
  {
    assert x == 100 * (x / 100) + x % 100;
    if x % 100 == 99 {
      assert x + 1 == 100 * (x / 100 + 1);
    } else {
      assert x + 1 == 100 * (x / 100) + (x % 100 + 1);
    }
  }

  lemma NextMultipleOf400(x: int)
    requires 0 <= x
    ensures (x + 1) / 400 == x / 400 + (if (x + 1) % 400 == 0 then 1 else 0)
  {
    assert x == 400 * (x / 400) + x % 400;
    if x % 400 == 399 {
      assert x + 1 == 400 * (x / 400 + 1);
    } else {
      assert x + 1 == 400 * (x / 400) + (x % 400 + 1);
    }
  }

  /** The March-based year `yoe` of an era is 366 days long exactly when the February it ends with has a leap day. */
  lemma YearLength(yoe: int)
    requires 0 <= yoe < 400
    ensures YearStart(yoe + 1) - YearStart(yoe) == if IsLeapYear(yoe + 1) then 366 else 365
  {
    NextMultipleOf4(yoe);
    NextMultipleOf100(yoe);
    NextMultipleOf400(yoe);
  }

  /** Later years of an era start at least a year later. */
  lemma {:induction false} YearStartMonotone(i: int, j: int)
    requires 0 <= i < j <= 400
    ensures YearStart(i) + 365 <= YearStart(j)
  {
    YearLength(j - 1);
    if i < j - 1 {
      YearStartMonotone(i, j - 1);
    }
  }

  lemma MonthStartMonotone(i: int, j: int)
    requires 0 <= i < j <= 12
    ensures MonthStart(i) + 28 <= MonthStart(j)
  {
  }

  /** The March-based year `y` (from 1 March of `y` to the end of the next February) is 366 days long in a leap year `y + 1`. */
  lemma MarchYearLength(y: int)
    ensures MarchFirst(y + 1) - MarchFirst(y) == if IsLeapYear(y + 1) then 366 else 365
  {
    MarchYearLengthInEra(y / 400, y % 400);
  }

  lemma MarchYearLengthInEra(era: int, yoe: int)
    requires 0 <= yoe < 400
    ensures MarchFirst(400 * era + yoe + 1) - MarchFirst(400 * era + yoe) ==
      if IsLeapYear(400 * era + yoe + 1) then 366 else 365
  {
    LeapYearPeriodic(400 * era + yoe + 1);
    EraYear(era, yoe);
    if yoe < 399 {
      EraYear(era, yoe + 1);
      YearLength(yoe);
    } else {
      EraYear(era + 1, 0);
    }
  }

  /** The year of an era split into centuries, four-year cycles and years starts where the day count of those parts says. */
  lemma YearStartOfParts(c: int, q: int, n: int)
    requires 0 <= c <= 3 && 0 <= q <= 24 && 0 <= n <= 3
    ensures YearStart(100 * c + 4 * q + n) == 36524 * c + 1461 * q + 365 * n
  {
    var yoe := 100 * c + 4 * q + n;
    assert yoe / 4 == 25 * c + q;
    assert yoe / 100 == c;
    assert yoe / 400 == 0;
  }

  /** The March-based month `mp` that a day of a March-based year falls in. */
  lemma MonthOfDay(doy: int)
    requires 0 <= doy <= 365
    ensures 0 <= (5 * doy + 2) / 153 <= 11
    ensures MonthStart((5 * doy + 2) / 153) <= doy < MonthStart((5 * doy + 2) / 153 + 1)
  {
  }

  /** A month's share of the March-based year is its calendar length; February's is settled by the year's length. */
  lemma MonthLength(y: int, mp: int)
    requires 0 <= mp <= 10
    ensures MonthStart(mp + 1) - MonthStart(mp) == DaysInMonth(y, if mp < 10 then mp + 3 else mp - 9)
  {
  }

  // ---------------------------------------------------------------------------
  // Days to dates and back
  // ---------------------------------------------------------------------------

  /** A day of an era: its March-based year of the era and the day of that year. */
  datatype EraDay = EraDay(yoe: int, doy: int)

  /**
    Splits the day `doe` of an era into whole centuries (36524 days each, the
    last one 36525), four-year cycles (1461 days each, the last one of a century
    1460) and years (365 days each, the last one of a cycle 366).
  */
  function SplitEra(doe: int): (r: EraDay)
    requires 0 <= doe < 146097
    ensures 0 <= r.yoe < 400
    ensures YearStart(r.yoe) <= doe < YearStart(r.yoe + 1)
    ensures r.doy == doe - YearStart(r.yoe)
  {
    var c := if doe / 36524 < 3 then doe / 36524 else 3;
    var inCentury := doe - 36524 * c;
    var q := inCentury / 1461;
    var inCycle := inCentury - 1461 * q;
    var n := if inCycle / 365 < 3 then inCycle / 365 else 3;
    SplitEraCorrect(doe, c, q, n);
    EraDay(100 * c + 4 * q + n, inCycle - 365 * n)
  }

  lemma SplitEraCorrect(doe: int, c: int, q: int, n: int)
    requires 0 <= doe < 146097
    requires c == if doe / 36524 < 3 then doe / 36524 else 3
    requires q == (doe - 36524 * c) / 1461
    requires n == if (doe - 36524 * c - 1461 * q) / 365 < 3 then (doe - 36524 * c - 1461 * q) / 365 else 3
    ensures 0 <= 100 * c + 4 * q + n < 400
    ensures YearStart(100 * c + 4 * q + n) == 36524 * c + 1461 * q + 365 * n
    ensures 36524 * c + 1461 * q + 365 * n <= doe < YearStart(100 * c + 4 * q + n + 1)
  {
    var inCentury := doe - 36524 * c;
    assert 0 <= inCentury <= 36524;
    assert inCentury == 36524 ==> c == 3;
    assert 0 <= q <= 24;
    var inCycle := inCentury - 1461 * q;
    assert 0 <= inCycle <= 1460;
    assert 0 <= n <= 3;
    var doy := inCycle - 365 * n;
    YearStartOfParts(c, q, n);
    if n < 3 {
      assert doy < 365;
      YearStartOfParts(c, q, n + 1);
    } else if q < 24 {
      assert doy <= 365;
      YearStartOfParts(c, q + 1, 0);
    } else if c < 3 {
      assert inCentury < 36524;
      assert doy < 365;
      YearStartOfParts(c + 1, 0, 0);
    } else {
      assert doy <= 365;
      assert YearStart(400) == 146097;
    }
  }

  /** The calendar date of day `e.doy` of the March-based year `e.yoe` of era `era`. */
  function EraDate(era: int, e: EraDay): Date
    requires 0 <= e.yoe < 400 && 0 <= e.doy <= 365
  {
    MonthOfDay(e.doy);
    var mp := (5 * e.doy + 2) / 153;
    var y := 400 * era + e.yoe;
    if mp < 10 then Date(y, mp + 3, e.doy - MonthStart(mp) + 1)
    else Date(y + 1, mp - 9, e.doy - MonthStart(mp) + 1)
  }

  lemma EraYear(era: int, yoe: int)
    requires 0 <= yoe < 400
    ensures (400 * era + yoe) / 400 == era && (400 * era + yoe) % 400 == yoe
    ensures MarchFirst(400 * era + yoe) == 146097 * era + YearStart(yoe) - 719468
  {
  }

  /** The February that ends the March-based year `yoe` of an era has the leap day exactly when that year is 366 days long. */
  lemma FebruaryOfEra(era: int, yoe: int)
    requires 0 <= yoe < 400
    ensures DaysInMonth(400 * era + yoe + 1, 2) == YearStart(yoe + 1) - YearStart(yoe) - 337
  {
    YearLength(yoe);
    LeapYearPeriodic(400 * era + yoe + 1);
    if yoe < 399 {
      EraYear(era, yoe + 1);
    } else {
      EraYear(era + 1, 0);
    }
  }

  /** A day inside its March-based year gives a valid date, and that date's day number counts back to it. */
  lemma EraDateCorrect(era: int, e: EraDay)
    requires 0 <= e.yoe < 400 && 0 <= e.doy <= 365
    requires e.doy < YearStart(e.yoe + 1) - YearStart(e.yoe)
    ensures ValidDate(EraDate(era, e))
    ensures DaysFromCivil(EraDate(era, e)) == 146097 * era + YearStart(e.yoe) + e.doy - 719468
  {
    YearLength(e.yoe);
    MonthOfDay(e.doy);
    var mp := (5 * e.doy + 2) / 153;
    var y := 400 * era + e.yoe;
    EraYear(era, e.yoe);
    var d := EraDate(era, e);
    if mp < 10 {
      assert d == Date(y, mp + 3, e.doy - MonthStart(mp) + 1);
      MonthLength(y, mp);
    } else if mp == 10 {
      assert d == Date(y + 1, 1, e.doy - MonthStart(mp) + 1);
      MonthLength(y + 1, mp);
    } else {
      assert d == Date(y + 1, 2, e.doy - MonthStart(mp) + 1);
      FebruaryOfEra(era, e.yoe);
    }
  }

  /** The date of a day number: the one valid date whose day number it is. */
  function CivilFromDays(days: nat): (d: Date)
    ensures ValidDate(d)
    ensures DaysFromCivil(d) == days
  {
    var z := days + 719468;
    var e := SplitEra(z % 146097);
    EraDateCorrect(z / 146097, e);
    EraDate(z / 146097, e)
  }

  /** A day of an era lying inside the March-based year `yoe` is split into that year. */
  lemma SplitEraUnique(doe: int, yoe: int)
    requires 0 <= yoe < 400 && YearStart(yoe) <= doe < YearStart(yoe + 1)
    ensures doe < 146097
    ensures SplitEra(doe) == EraDay(yoe, doe - YearStart(yoe))
  {
    if yoe + 1 < 400 { YearStartMonotone(yoe + 1, 400); }
    var e := SplitEra(doe);
    if e.yoe + 1 < yoe {
      YearStartMonotone(e.yoe + 1, yoe);
    } else if yoe + 1 < e.yoe {
      YearStartMonotone(yoe + 1, e.yoe);
    }
  }

  /** A day of a March-based year lying inside month `mp` is placed in that month. */
  lemma MonthOfDayUnique(doy: int, mp: int)
    requires 0 <= mp <= 11 && MonthStart(mp) <= doy < MonthStart(mp + 1) && doy <= 365
    ensures (5 * doy + 2) / 153 == mp
  {
    MonthOfDay(doy);
    var mp' := (5 * doy + 2) / 153;
    if mp' + 1 < mp {
      MonthStartMonotone(mp' + 1, mp);
    } else if mp + 1 < mp' {
      MonthStartMonotone(mp + 1, mp');
    }
  }

  /** Where a valid date lies in its era: its March-based year `yoe` and the day `doy` of that year. */
  lemma DateInEra(d: Date, era: int, yoe: int, mp: int)
    requires ValidDate(d)
    requires mp == if d.month > 2 then d.month - 3 else d.month + 9
    requires 400 * era + yoe == (if d.month > 2 then d.year else d.year - 1) && 0 <= yoe < 400
    ensures MonthStart(mp) <= MonthStart(mp) + d.day - 1 < MonthStart(mp + 1)
    ensures MonthStart(mp) + d.day - 1 < YearStart(yoe + 1) - YearStart(yoe)
    ensures MonthStart(mp) + d.day - 1 <= 365
    ensures DaysFromCivil(d) == 146097 * era + YearStart(yoe) + MonthStart(mp) + d.day - 1 - 719468
  {
    EraYear(era, yoe);
    YearLength(yoe);
    if mp < 11 {
      MonthLength(d.year, mp);
      if mp + 1 < 11 { MonthStartMonotone(mp + 1, 11); }
    } else {
      FebruaryOfEra(era, yoe);
    }
  }

  /** Every valid date on or after the epoch is the date of its own day number: days and dates correspond one to one. */
  lemma CivilFromDaysOfDate(d: Date)
    requires ValidDate(d) && DaysFromCivil(d) >= 0
    ensures CivilFromDays(DaysFromCivil(d)) == d
  {
    var yM := if d.month > 2 then d.year else d.year - 1;
    var mp := if d.month > 2 then d.month - 3 else d.month + 9;
    var era, yoe := yM / 400, yM % 400;
    CivilOfDateInEra(d, era, yoe, mp);
  }

  lemma CivilOfDateInEra(d: Date, era: int, yoe: int, mp: int)
    requires ValidDate(d) && DaysFromCivil(d) >= 0
    requires mp == if d.month > 2 then d.month - 3 else d.month + 9
    requires 400 * era + yoe == (if d.month > 2 then d.year else d.year - 1) && 0 <= yoe < 400
    ensures CivilFromDays(DaysFromCivil(d)) == d
  {
    DateInEra(d, era, yoe, mp);
    EraDateOfDate(d, era, yoe, mp);
    CivilFromEraDay(DaysFromCivil(d), era, yoe, MonthStart(mp) + d.day - 1);
  }

  /** The date of the day number of day `doy` of the March-based year `yoe` of era `era` is the date `EraDate` builds. */
  lemma CivilFromEraDay(days: nat, era: int, yoe: int, doy: int)
    requires 0 <= yoe < 400 && 0 <= doy <= 365 && doy < YearStart(yoe + 1) - YearStart(yoe)
    requires days + 719468 == 146097 * era + YearStart(yoe) + doy
    ensures CivilFromDays(days) == EraDate(era, EraDay(yoe, doy))
  {
    var doe := YearStart(yoe) + doy;
    SplitEraUnique(doe, yoe);
    EraDivision(days + 719468, era, doe);
  }

  /** The date rebuilt from a valid date's place in its era is that date. */
  lemma EraDateOfDate(d: Date, era: int, yoe: int, mp: int)
    requires ValidDate(d)
    requires mp == if d.month > 2 then d.month - 3 else d.month + 9
    requires 400 * era + yoe == (if d.month > 2 then d.year else d.year - 1) && 0 <= yoe < 400
    requires MonthStart(mp) + d.day - 1 <= 365
    ensures EraDate(era, EraDay(yoe, MonthStart(mp) + d.day - 1)) == d
  {
    var doy := MonthStart(mp) + d.day - 1;
    DateInEra(d, era, yoe, mp);
    MonthOfDayUnique(doy, mp);
  }

  lemma EraDivision(z: int, era: int, doe: int)
    requires z == 146097 * era + doe && 0 <= doe < 146097
    ensures z / 146097 == era && z % 146097 == doe
  {
  }

  /** A date is 0 to 364 (in a leap year 365) days after the first of January of its year. */
  lemma DaysIntoYear(d: Date)
    requires ValidDate(d)
    ensures 0 <= DaysFromCivil(d) - DaysFromCivil(Date(d.year, 1, 1)) < if IsLeapYear(d.year) then 366 else 365
  {
    if d.month > 2 {
      DaysIntoYearAfterFebruary(d);
    } else {
      assert DaysFromCivil(d) - DaysFromCivil(Date(d.year, 1, 1)) == MonthStart(d.month + 9) - MonthStart(10) + d.day - 1;
    }
  }

  lemma DaysIntoYearAfterFebruary(d: Date)
    requires ValidDate(d) && d.month > 2
    ensures 0 <= DaysFromCivil(d) - DaysFromCivil(Date(d.year, 1, 1)) < if IsLeapYear(d.year) then 366 else 365
  {
    MarchYearLength(d.year - 1);
    MonthLength(d.year, d.month - 3);
    if d.month - 2 < 10 { MonthStartMonotone(d.month - 2, 10); }
    assert DaysFromCivil(d) - DaysFromCivil(Date(d.year, 1, 1)) ==
      MarchFirst(d.year) - MarchFirst(d.year - 1) - MonthStart(10) + MonthStart(d.month - 3) + d.day - 1;
  }

  /** The 1-based ordinal of a day number in its calendar year. */
  function DayOfYear(days: nat): (r: int)
    ensures 1 <= r <= if IsLeapYear(CivilFromDays(days).year) then 366 else 365
  {
    var d := CivilFromDays(days);
    DaysIntoYear(d);
    days - DaysFromCivil(Date(d.year, 1, 1)) + 1
  }

  // ---------------------------------------------------------------------------
  // Weeks
  // ---------------------------------------------------------------------------

  /** The ISO 8601 weekday of a day number, 1 = Monday ... 7 = Sunday; 1970-01-01 was a Thursday. */
  function IsoWeekday(days: nat): (r: int)
    ensures 1 <= r <= 7
  {
    (days + 3) % 7 + 1
  }

  /** The Thursday of the Monday-to-Sunday week holding `days`; the epoch is a Thursday, so it is never before it. */
  function WeekThursday(days: nat): (t: nat)
    ensures IsoWeekday(t) == 4
    ensures days - 3 <= t <= days + 3
  {
    days + 4 - IsoWeekday(days)
  }

  /**
    The ISO 8601 week number of a day number: weeks run Monday to Sunday and
    belong to the year their Thursday falls in, week 1 being the one holding
    that year's first Thursday.
  */
  function IsoWeekOfYear(days: nat): (w: int)
    ensures 1 <= w <= 53
  {
    (DayOfYear(WeekThursday(days)) - 1) / 7 + 1
  }

  /** The ordinal of a valid date's day number is its distance from 1 January of its year, plus one. */
  lemma DayOfYearOfDate(d: Date)
    requires ValidDate(d) && DaysFromCivil(d) >= 0
    ensures DayOfYear(DaysFromCivil(d)) == DaysFromCivil(d) - DaysFromCivil(Date(d.year, 1, 1)) + 1
  {
    CivilFromDaysOfDate(d);
  }

  /** Days of January are numbered consecutively. */
  lemma JanuaryDays(y: int, a: int, b: int)
    requires 1 <= a <= 31 && 1 <= b <= 31
    ensures DaysFromCivil(Date(y, 1, b)) - DaysFromCivil(Date(y, 1, a)) == b - a
  {
  }

  /** Day `dd` of January is the `dd`-th day of its year. */
  lemma JanuaryOrdinal(y: int, dd: int)
    requires 1 <= dd <= 31 && DaysFromCivil(Date(y, 1, dd)) >= 0
    ensures DayOfYear(DaysFromCivil(Date(y, 1, dd))) == dd
  {
    DayOfYearOfDate(Date(y, 1, dd));
    JanuaryDays(y, 1, dd);
  }

  /** Week 1 of an ISO year is the week holding 4 January. */
  lemma JanuaryFourthInWeekOne(y: int)
    requires DaysFromCivil(Date(y, 1, 4)) >= 0
    ensures IsoWeekOfYear(DaysFromCivil(Date(y, 1, 4))) == 1
  {
    var days := DaysFromCivil(Date(y, 1, 4));
    var k := WeekThursday(days) - days;
    JanuaryDays(y, 4, 4 + k);
    JanuaryOrdinal(y, 4 + k);
    assert WeekThursday(days) == DaysFromCivil(Date(y, 1, 4 + k));
    assert DayOfYear(WeekThursday(days)) == 4 + k;
  }

  /** The day number of 1 January of year `y`. */
  function NewYear(y: int): int {
    DaysFromCivil(Date(y, 1, 1))
  }

  /** Later years start no earlier. */
  lemma {:induction false} NewYearMonotone(a: int, b: int)
    requires a <= b
    ensures NewYear(a) <= NewYear(b)
    decreases b - a
  {
    if a < b {
      YearFromJanuary(a);
      NewYearMonotone(a + 1, b);
    }
  }

  /** A day lies between 1 January of its year and 1 January of the next. */
  lemma DayInItsYear(days: nat)
    ensures NewYear(CivilFromDays(days).year) <= days < NewYear(CivilFromDays(days).year + 1)
  {
    DateInItsYear(CivilFromDays(days));
  }

  /** A valid date lies between 1 January of its year and 1 January of the next. */
  lemma DateInItsYear(d: Date)
    requires ValidDate(d)
    ensures NewYear(d.year) <= DaysFromCivil(d) < NewYear(d.year + 1)
  {
    DaysIntoYear(d);
    YearFromJanuary(d.year);
  }

  /** The year holding a day is the only one whose 1 January to 31 December contains it. */
  lemma YearOfDay(days: nat, y: int)
    requires NewYear(y) <= days < NewYear(y + 1)
    ensures CivilFromDays(days).year == y
  {
    DayInItsYear(days);
    OneYearHolds(days, y, CivilFromDays(days).year);
  }

  /** Calendar years do not overlap: two years both holding a day are the same year. */
  lemma OneYearHolds(days: int, y: int, y': int)
    requires NewYear(y) <= days < NewYear(y + 1)
    requires NewYear(y') <= days < NewYear(y' + 1)
    ensures y == y'
  {
    if y' < y {
      NewYearMonotone(y' + 1, y);
    } else if y < y' {
      NewYearMonotone(y + 1, y');
    }
  }

  /**
    The Monday starting the Monday-to-Sunday week that holds `days`: a Monday
    (day -3 of the epoch was one) at most six days back.
  */
  function Monday(days: nat): (m: int)
    ensures (m + 3) % 7 == 0 && days - 6 <= m <= days
    ensures IsoWeekday(days) == days - m + 1
  {
    days + 1 - IsoWeekday(days)
  }

  /** Every day from a Monday to the next Sunday has that week's Thursday. */
  lemma ThursdayOfWeekDay(days: nat, k: nat)
    requires k < 7 && Monday(days) + k >= 0
    ensures WeekThursday(Monday(days) + k) == WeekThursday(days)
  {
    var m := Monday(days);
    assert m + 3 == 7 * ((days + 3) / 7);
    assert (m + k + 3) % 7 == k;
  }

  /** The seven days from a Monday to the next Sunday share one ISO week number. */
  lemma SameWeekSameNumber(days: nat, k: nat)
    requires k < 7 && Monday(days) + k >= 0
    ensures IsoWeekOfYear(Monday(days) + k) == IsoWeekOfYear(days)
  {
    ThursdayOfWeekDay(days, k);
  }

  /** The Thursday of the next week is seven days later. */
  lemma NextThursday(days: nat)
    ensures WeekThursday(days + 7) == WeekThursday(days) + 7
  {
    assert (days + 7 + 3) % 7 == (days + 3) % 7;
  }

  /** A week later is seven ordinals later in the same year, or among the first seven days of the next. */
  lemma OrdinalWeekLater(t: nat)
    ensures CivilFromDays(t + 7).year == CivilFromDays(t).year ==> DayOfYear(t + 7) == DayOfYear(t) + 7
    ensures CivilFromDays(t + 7).year != CivilFromDays(t).year ==> 1 <= DayOfYear(t + 7) <= 7
  {
    if t + 7 < NewYear(CivilFromDays(t).year + 1) {
      WeekLaterSameYear(t);
    } else {
      WeekLaterNextYear(t);
    }
  }

  /** A week later, still before the next 1 January, is the same year and seven ordinals on. */
  lemma WeekLaterSameYear(t: nat)
    requires t + 7 < NewYear(CivilFromDays(t).year + 1)
    ensures CivilFromDays(t + 7).year == CivilFromDays(t).year
    ensures DayOfYear(t + 7) == DayOfYear(t) + 7
  {
    YearOfWeekLaterDay(t);
    OrdinalInItsYear(t);
    OrdinalInItsYear(t + 7);
  }

  /** A week later, past the next 1 January, is the next year and among its first seven days. */
  lemma WeekLaterNextYear(t: nat)
    requires t + 7 >= NewYear(CivilFromDays(t).year + 1)
    ensures CivilFromDays(t + 7).year == CivilFromDays(t).year + 1
    ensures 1 <= DayOfYear(t + 7) <= 7
  {
    YearOfWeekLaterDay(t);
    OrdinalInItsYear(t);
    OrdinalInItsYear(t + 7);
  }

  /** The year of the day a week later: the same one, or the next once its 1 January is reached. */
  lemma YearOfWeekLaterDay(t: nat)
    ensures CivilFromDays(t + 7).year ==
      if t + 7 < NewYear(CivilFromDays(t).year + 1) then CivilFromDays(t).year else CivilFromDays(t).year + 1
  {
    DayInItsYear(t);
    YearOfWeekLater(t, CivilFromDays(t).year);
  }

  /**
    The day a week after `t`, which lies in year `y0`, is in `y0` itself
    when the next 1 January is further off, else in `y0 + 1`.
  */
  lemma YearOfWeekLater(t: nat, y0: int)
    requires NewYear(y0) <= t < NewYear(y0 + 1)
    ensures CivilFromDays(t + 7).year == if t + 7 < NewYear(y0 + 1) then y0 else y0 + 1
  {
    var y := if t + 7 < NewYear(y0 + 1) then y0 else y0 + 1;
    WeekLaterSpan(t, y0, y);
    YearOfDay(t + 7, y);
  }

  /** Integer core of `YearOfWeekLater`: the year `y` chosen there holds `t + 7`. */
  lemma WeekLaterSpan(t: int, y0: int, y: int)
    requires NewYear(y0) <= t < NewYear(y0 + 1)
    requires y == if t + 7 < NewYear(y0 + 1) then y0 else y0 + 1
    ensures NewYear(y) <= t + 7 < NewYear(y + 1)
  {
    YearAtLeast365(y0 + 1);
  }

  /** No calendar year is shorter than 365 days. */
  lemma YearAtLeast365(y: int)
    ensures NewYear(y + 1) - NewYear(y) >= 365
  {
    YearFromJanuary(y);
  }

  /** A day's ordinal counts from 1 January of its year, which lies at most a year back. */
  lemma OrdinalInItsYear(days: nat)
    ensures DayOfYear(days) == days - NewYear(CivilFromDays(days).year) + 1
    ensures NewYear(CivilFromDays(days).year) <= days < NewYear(CivilFromDays(days).year + 1)
  {
    DayInItsYear(days);
  }

  /**
    The week after a week is numbered one more, or 1 when its Thursday falls
    in a new year: weeks are counted from week 1 within the year of their
    Thursday.
  */
  lemma NextWeekNumber(days: nat)
    ensures IsoWeekOfYear(days + 7) ==
      if CivilFromDays(WeekThursday(days + 7)).year == CivilFromDays(WeekThursday(days)).year
      then IsoWeekOfYear(days) + 1 else 1
  {
    if CivilFromDays(WeekThursday(days + 7)).year == CivilFromDays(WeekThursday(days)).year {
      NextWeekSameYear(days);
    } else {
      NextWeekNewYear(days);
    }
  }

  /** A week whose Thursday stays in the same year is numbered one more than the week before. */
  lemma NextWeekSameYear(days: nat)
    requires CivilFromDays(WeekThursday(days + 7)).year == CivilFromDays(WeekThursday(days)).year
    ensures IsoWeekOfYear(days + 7) == IsoWeekOfYear(days) + 1
  {
    var t := WeekThursday(days);
    WeekLaterThursday(days);
    ThursdayWeekLater(t);
  }

  /** A week whose Thursday falls in a new year is week 1. */
  lemma NextWeekNewYear(days: nat)
    requires CivilFromDays(WeekThursday(days + 7)).year != CivilFromDays(WeekThursday(days)).year
    ensures IsoWeekOfYear(days + 7) == 1
  {
    var t := WeekThursday(days);
    WeekLaterThursday(days);
    ThursdayWeekLater(t);
  }

  /** A week later, the week number is counted from the ordinal of the Thursday seven days on. */
  lemma WeekLaterThursday(days: nat)
    ensures WeekThursday(days + 7) == WeekThursday(days) + 7
    ensures IsoWeekOfYear(days + 7) == (DayOfYear(WeekThursday(days) + 7) - 1) / 7 + 1
    ensures IsoWeekOfYear(days) == (DayOfYear(WeekThursday(days)) - 1) / 7 + 1
  {
    NextThursday(days);
  }

  /** The week numbering counted from a Thursday's ordinal, a week later. */
  lemma ThursdayWeekLater(t: nat)
    ensures (DayOfYear(t + 7) - 1) / 7 + 1 ==
      if CivilFromDays(t + 7).year == CivilFromDays(t).year then (DayOfYear(t) - 1) / 7 + 2 else 1
  {
    OrdinalWeekLater(t);
    WeekOfOrdinal(DayOfYear(t), DayOfYear(t + 7), CivilFromDays(t + 7).year == CivilFromDays(t).year);
  }

  /** Seven ordinals later is one week later; the first seven ordinals are week 1. */
  lemma WeekOfOrdinal(o: int, o': int, sameYear: bool)
    requires 1 <= o && 1 <= o'
    requires sameYear ==> o' == o + 7
    requires !sameYear ==> o' <= 7
    ensures (o' - 1) / 7 + 1 == if sameYear then (o - 1) / 7 + 2 else 1
  {
  }

  /** Day 18627 of the epoch is 2020-12-31. */
  lemma EndOf2020()
    ensures CivilFromDays(18627) == Date(2020, 12, 31)
  {
    assert DaysFromCivil(Date(2020, 12, 31)) == 18627;
    CivilFromDaysOfDate(Date(2020, 12, 31));
  }

  /** 2020-12-31 is the 366th day of 2020. */
  lemma LastDayOf2020()
    ensures DayOfYear(18627) == 366
  {
    assert DaysFromCivil(Date(2020, 1, 1)) == 18262;
    EndOf2020();
  }

  /** Day 18628, a Friday, lies in the week of Thursday 18627, the 366th day of its year: week 53. */
  lemma Week53Of2020()
    ensures IsoWeekOfYear(18628) == 53
  {
    assert WeekThursday(18628) == 18627;
    LastDayOf2020();
  }

  /** 1 January 2021 lies in the 53rd week of 2020, not in a week 1. */
  lemma NewYearsDay2021()
    ensures IsoWeekOfYear(DaysFromCivil(Date(2021, 1, 1))) == 53
  {
    assert DaysFromCivil(Date(2021, 1, 1)) == 18628;
    Week53Of2020();
  }

  /** 2025-01-02 is day 20090 of the epoch and the 2nd day of 2025. */
  lemma SecondOfJanuary2025()
    ensures DayOfYear(20090) == 2
  {
    assert DaysFromCivil(Date(2025, 1, 2)) == 20090;
    JanuaryOrdinal(2025, 2);
  }

  /** Day 20087, a Monday, lies in the week of Thursday 20090, the 2nd day of its year: week 1. */
  lemma Week1Of2025()
    ensures IsoWeekOfYear(20087) == 1
  {
    assert WeekThursday(20087) == 20090;
    SecondOfJanuary2025();
  }

  /** Monday 30 December 2024 lies in week 1 of 2025, not in a week of 2024. */
  lemma LastMondayOf2024()
    ensures IsoWeekOfYear(DaysFromCivil(Date(2024, 12, 30))) == 1
  {
    assert DaysFromCivil(Date(2024, 12, 30)) == 20087;
    Week1Of2025();
  }

  // ---------------------------------------------------------------------------
  // Fields of an instant (whole seconds since the epoch, UTC)
  // ---------------------------------------------------------------------------

  /** The date of an instant. */
  function DateOf(t: nat): (d: Date)
    ensures ValidDate(d)
    ensures DaysFromCivil(d) * SECONDS_PER_DAY <= t < DaysFromCivil(d) * SECONDS_PER_DAY + SECONDS_PER_DAY
  {
    CivilFromDays(t / SECONDS_PER_DAY)
  }

  /** `hour`: the hour of the day, 0 to 23. */
  function Hour(t: nat): (h: int)
    ensures 0 <= h <= 23
    ensures h * SECONDS_PER_HOUR <= t % SECONDS_PER_DAY < (h + 1) * SECONDS_PER_HOUR
  {
    (t % SECONDS_PER_DAY) / SECONDS_PER_HOUR
  }

  /** `dayofmonth`: the day of the month, 1 to 31. */
  function DayOfMonth(t: nat): (d: int)
    ensures 1 <= d <= 31
  {
    DateOf(t).day
  }

  /** `month`: the month, 1 to 12. */
  function Month(t: nat): (m: int)
    ensures 1 <= m <= 12
  {
    DateOf(t).month
  }

  /** `year`: the calendar year, the one whose 1 January to 31 December holds the instant. */
  function Year(t: nat): (y: int)
    ensures DaysFromCivil(Date(y, 1, 1)) * SECONDS_PER_DAY <= t < DaysFromCivil(Date(y + 1, 1, 1)) * SECONDS_PER_DAY
  {
    var d := DateOf(t);
    DaysIntoYear(d);
    YearFromJanuary(d.year);
    d.year
  }

  /** A calendar year runs 365 days, 366 in a leap year, from one 1 January to the next. */
  lemma YearFromJanuary(y: int)
    ensures DaysFromCivil(Date(y + 1, 1, 1)) - DaysFromCivil(Date(y, 1, 1)) == if IsLeapYear(y) then 366 else 365
  {
    MarchYearLength(y - 1);
  }

  /** `dayofweek`: the day of the week, 1 = Sunday, 2 = Monday, ..., 7 = Saturday. */
  function DayOfWeek(t: nat): (w: int)
    ensures 1 <= w <= 7
  {
    IsoWeekday(t / SECONDS_PER_DAY) % 7 + 1
  }

  /** `weekofyear`: the ISO 8601 week number, 1 to 53. */
  function WeekOfYear(t: nat): (w: int)
    ensures 1 <= w <= 53
  {
    IsoWeekOfYear(t / SECONDS_PER_DAY)
  }

  /** `weekofyear` is one more a week later, or 1 when that week's Thursday falls in a new year. */
  lemma WeekOfYearNextWeek(t: nat)
    ensures var days := t / SECONDS_PER_DAY;
      WeekOfYear(t + 7 * SECONDS_PER_DAY) ==
        if CivilFromDays(WeekThursday(days + 7)).year == CivilFromDays(WeekThursday(days)).year
        then WeekOfYear(t) + 1 else 1
  {
    assert (t + 7 * SECONDS_PER_DAY) / SECONDS_PER_DAY == t / SECONDS_PER_DAY + 7;
    NextWeekNumber(t / SECONDS_PER_DAY);
  }

  /** 2021-01-01T00:00:00Z is in week 53 (of 2020). */
  lemma WeekOfNewYear2021()
    ensures WeekOfYear(1609459200) == 53
  {
    assert 1609459200 / SECONDS_PER_DAY == 18628;
    Week53Of2020();
  }

  /** 2024-12-30T00:00:00Z is in week 1 (of 2025). */
  lemma WeekOfLastMonday2024()
    ensures WeekOfYear(1735516800) == 1
  {
    assert 1735516800 / SECONDS_PER_DAY == 20087;
    Week1Of2025();
  }

  /** The day of the week advances by one, Saturday wrapping to Sunday, from one day to the next. */
  lemma DayOfWeekNextDay(t: nat)
    ensures DayOfWeek(t + SECONDS_PER_DAY) == DayOfWeek(t) % 7 + 1
  {
    assert (t + SECONDS_PER_DAY) / SECONDS_PER_DAY == t / SECONDS_PER_DAY + 1;
  }

  /** `dayofweek` depends only on the instant's UTC date: two instants on the same date share it. */
  lemma SameDateSameWeekday(t: nat, t': nat)
    requires DateOf(t) == DateOf(t')
    ensures DayOfWeek(t) == DayOfWeek(t')
  {
    assert t / SECONDS_PER_DAY == DaysFromCivil(DateOf(t));
    assert t' / SECONDS_PER_DAY == DaysFromCivil(DateOf(t'));
  }

  /** 2023-11-14 and 2023-11-16 are days 19675 and 19677 of the epoch. */
  lemma MidNovember2023()
    ensures CivilFromDays(19675) == Date(2023, 11, 14)
    ensures CivilFromDays(19677) == Date(2023, 11, 16)
  {
    assert DaysFromCivil(Date(2023, 11, 14)) == 19675;
    CivilFromDaysOfDate(Date(2023, 11, 14));
    assert DaysFromCivil(Date(2023, 11, 16)) == 19677;
    CivilFromDaysOfDate(Date(2023, 11, 16));
  }

  /** 2023-11-16 is the 320th day of 2023. */
  lemma SixteenthNovember2023()
    ensures DayOfYear(19677) == 320
  {
    assert DaysFromCivil(Date(2023, 1, 1)) == 19358;
    MidNovember2023();
  }

  /** 2023-11-14T22:13:20Z falls on 14 November 2023. */
  lemma TuesdayNight()
    ensures DateOf(1700000000) == Date(2023, 11, 14)
  {
    assert 1700000000 / SECONDS_PER_DAY == 19675;
    MidNovember2023();
  }

  /** 2023-11-14T22:13:20Z is at hour 22 of a Tuesday. */
  lemma TuesdayNightClock()
    ensures Hour(1700000000) == 22
    ensures DayOfWeek(1700000000) == 3
  {
    assert 1700000000 / SECONDS_PER_DAY == 19675;
  }

  /** The week of 2023-11-14 has its Thursday on 16 November, the year's 320th day: ISO week 46. */
  lemma WeekOfTuesdayNight()
    ensures WeekOfYear(1700000000) == 46
  {
    assert 1700000000 / SECONDS_PER_DAY == 19675;
    assert WeekThursday(19675) == 19677;
    SixteenthNovember2023();
  }
}
