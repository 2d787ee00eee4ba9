/** Proleptic-Gregorian calendar arithmetic on UTC day numbers.

    A timestamp is an `int` of milliseconds since 1970-01-01T00:00:00Z, as a
    JavaScript `Date` holds it. A day number counts whole UTC days since the
    same instant, so day 0 is 1970-01-01 (a Thursday). The two conversions
    between day numbers and calendar dates are proved to be mutual inverses.
 */
module CivilDate {

  /** A calendar date; `Valid` says the month and day are in range. */
  datatype Date = Date(year: int, month: int, day: int)

  // The numbers below are written out rather than named, so that the
  // solver sees linear arithmetic: 86400000 milliseconds make a day,
  // 146097 days a 400-year era of the Gregorian calendar, and 719468 days
  // lie between 0000-03-01 and 1970-01-01.

  predicate IsLeapYear(y: int) {
    y % 4 == 0 && (y % 100 != 0 || y % 400 == 0)
  }

  function DaysInMonth(y: int, m: int): (n: int)
    requires 1 <= m <= 12
    ensures 28 <= n <= 31
    ensures m == 2 ==> (n == 29 <==> IsLeapYear(y))
  {
    if m == 2 then (if IsLeapYear(y) then 29 else 28)
    else if m == 4 || m == 6 || m == 9 || m == 11 then 30
    else 31
  }

  predicate Valid(d: Date) {
    1 <= d.month <= 12 && 1 <= d.day <= DaysInMonth(d.year, d.month)
  }

  /** Days from the start of an era (1 March of a year divisible by 400) to
      1 March of its year number `yoe` (counting March-based years). */
  function EraYearStart(yoe: int): int
    requires 0 <= yoe <= 400
  {
    365 * yoe + yoe / 4 - yoe / 100 + yoe / 400
  }

  /** Days from 1 March to the first day of March-based month `mp`
      (0 = March, ..., 10 = January, 11 = February). */
  function DaysBeforeMonth(mp: int): int
    requires 0 <= mp <= 11
  {
    (153 * mp + 2) / 5
  }

  /** The March-based month index of calendar month `m` (0 = March, ...,
      11 = February) ... */
  function MonthIndex(m: int): int {
    if m > 2 then m - 3 else m + 9
  }

  /** ... and the calendar month of March-based index `mp`. */
  function MonthOfIndex(mp: int): int {
    if mp < 10 then mp + 3 else mp - 9
  }

  /** The March-based year a date belongs to: January and February count
      with the year before. */
  function MarchYear(d: Date): int {
    if d.month <= 2 then d.year - 1 else d.year
  }

  /** Day number of a date. The day of the month may lie outside the month, in
      which case the count runs on into the neighbouring months, as the
      ECMAScript MakeDay operation does. */
  function DaysFromCivil(d: Date): int
    requires 1 <= d.month <= 12
  {
    var y := MarchYear(d);
    (y / 400) * 146097 + EraYearStart(y % 400) + DaysBeforeMonth(MonthIndex(d.month)) + d.day - 1 - 719468
  }

  /** The March-based year of an era that contains day `doe` of the era,
      searched upwards from `yoe`. */
  function YearOfEra(doe: int, yoe: int): (r: int)
    requires 0 <= yoe < 400 && EraYearStart(yoe) <= doe < 146097
    ensures yoe <= r < 400 && EraYearStart(r) <= doe < EraYearStart(r + 1)
    decreases 400 - yoe
  {
    if doe < EraYearStart(yoe + 1) then yoe else YearOfEra(doe, yoe + 1)
  }

  /** The calendar date of a day number. */
  function CivilFromDays(z: int): (d: Date)
    ensures Valid(d)
    ensures DaysFromCivil(d) == z
  {
    DateOfEraDay(EraOf(z), DayOfEra(z))
  }

  /** The 400-year era of day number `z`, counted from 0000-03-01 ... */
  function EraOf(z: int): int {
    (z + 719468) / 146097
  }

  /** ... and the day of that era, from 0. */
  function DayOfEra(z: int): (doe: int)
    ensures 0 <= doe < 146097
    ensures z + 719468 == EraOf(z) * 146097 + doe
  {
    (z + 719468) % 146097
  }

  /** The date of day `doe` (counted from 0) of era `era`. */
  function DateOfEraDay(era: int, doe: int): (d: Date)
    requires 0 <= doe < 146097
    ensures Valid(d)
    ensures DaysFromCivil(d) == era * 146097 + doe - 719468
  {
    SearchStart(doe);
    EraDate(era, YearOfEra(doe, doe / 366), doe)
  }

  /** The date of day `doe` of era `era`, which falls in the era's
      March-based year `yoe`. */
  function EraDate(era: int, yoe: int, doe: int): (d: Date)
    requires 0 <= yoe < 400 && EraYearStart(yoe) <= doe < EraYearStart(yoe + 1)
    ensures Valid(d)
    ensures DaysFromCivil(d) == era * 146097 + doe - 719468
  {
    YearLength(yoe);
    var doy := doe - EraYearStart(yoe);
    var mp := (5 * doy + 2) / 153;
    MonthOfDay(doy);
    var d := Date(era * 400 + yoe + (if mp >= 10 then 1 else 0), MonthOfIndex(mp), doy - DaysBeforeMonth(mp) + 1);
    EraDateValid(era, yoe, doy, mp, d);
    DaysFromEraDate(era, yoe, mp, d);
    d
  }

  lemma EraDateValid(era: int, yoe: int, doy: int, mp: int, d: Date)
    requires 0 <= yoe < 400 && 0 <= doy < EraYearStart(yoe + 1) - EraYearStart(yoe)
    requires 0 <= mp <= 11 && DaysBeforeMonth(mp) <= doy
    requires doy - DaysBeforeMonth(mp) < (if mp == 11 then 29 else DaysInMonth(1, MonthOfIndex(mp)))
    requires d == Date(era * 400 + yoe + (if mp >= 10 then 1 else 0), MonthOfIndex(mp), doy - DaysBeforeMonth(mp) + 1)
    ensures Valid(d)
  {
    if mp == 11 {
      YearLength(yoe);
      LeapInEra(era, yoe + 1);
      assert DaysBeforeMonth(11) == 337;
    }
  }

  /** UTC day number of a timestamp (`Day(t)` of ECMAScript: a floor). */
  function DayOfTime(t: int): int {
    t / 86400000
  }

  /** `getUTCDay`: 0 is Sunday, ..., 6 is Saturday. */
  function Weekday(z: int): (w: int)
    ensures 0 <= w < 7
  {
    (z + 4) % 7
  }

  /** Day number of midnight UTC of `y`-`m`-`d`, as `Date.UTC` and the local
      `Date` constructor compute it: a year in 0..99 is read as 1900 + year. */
  function MakeDay(y: int, m: int, d: int): int
    requires 1 <= m <= 12
  {
    DaysFromCivil(Date(if 0 <= y <= 99 then 1900 + y else y, m, d))
  }

  /** Converting a valid date to its day number and back gives the date. */
  lemma CivilRoundTrip(d: Date)
    requires Valid(d)
    ensures CivilFromDays(DaysFromCivil(d)) == d
  {
    var y := MarchYear(d);
    var era, yoe := y / 400, y % 400;
    var mp := MonthIndex(d.month);
    var doy := DaysBeforeMonth(mp) + d.day - 1;
    DayOfYearBound(d, yoe, mp);
    MonthIndexOfDay(mp, d.day);
    var doe := EraYearStart(yoe) + doy;
    DateOfEraDayIs(era, yoe, doy, doe, mp, d);
    DaysFromCivilSplit(d, era, yoe, doe);
    CivilFromEraDay(DaysFromCivil(d), era, doe);
  }

  /** `DateOfEraDay` on a day of era written as year of era, March-based
      month and day. */
  lemma DateOfEraDayIs(era: int, yoe: int, doy: int, doe: int, mp: int, d: Date)
    requires 0 <= yoe < 400 && 0 <= doy < EraYearStart(yoe + 1) - EraYearStart(yoe)
    requires doe == EraYearStart(yoe) + doy
    requires 1 <= d.month <= 12 && mp == MonthIndex(d.month)
    requires doy == DaysBeforeMonth(mp) + d.day - 1
    requires (5 * doy + 2) / 153 == mp
    requires era * 400 + yoe == MarchYear(d)
    ensures 0 <= doe < 146097
    ensures DateOfEraDay(era, doe) == d
  {
    DateOfYearOfEra(era, yoe, doe);
    EraDateIs(era, yoe, doe, doy, mp, d);
  }

  /** A date's day number, split into era and day of era. */
  lemma DaysFromCivilSplit(d: Date, era: int, yoe: int, doe: int)
    requires 1 <= d.month <= 12
    requires era == MarchYear(d) / 400 && yoe == MarchYear(d) % 400
    requires doe == EraYearStart(yoe) + DaysBeforeMonth(MonthIndex(d.month)) + d.day - 1
    ensures DaysFromCivil(d) + 719468 == era * 146097 + doe
  {
  }

  /** The day number of a date from its era, year of era and day of era;
      a way to compute the day number of a given date step by step. */
  lemma DayNumberFromParts(d: Date, era: int, yoe: int, doe: int, z: int)
    requires 1 <= d.month <= 12
    requires era == MarchYear(d) / 400 && yoe == MarchYear(d) % 400
    requires doe == EraYearStart(yoe) + DaysBeforeMonth(MonthIndex(d.month)) + d.day - 1
    requires z == era * 146097 + doe - 719468
    ensures DaysFromCivil(d) == z
  {
    DaysFromCivilSplit(d, era, yoe, doe);
  }

  lemma CivilFromEraDay(z: int, era: int, doe: int)
    requires 0 <= doe < 146097 && z + 719468 == era * 146097 + doe
    ensures CivilFromDays(z) == DateOfEraDay(era, doe)
  {
    EraDaySplit(z + 719468, era, doe);
    assert EraOf(z) == era && DayOfEra(z) == doe;
  }

  /** `DateOfEraDay` finds the year of era a day belongs to. */
  lemma DateOfYearOfEra(era: int, yoe: int, doe: int)
    requires 0 <= yoe < 400 && EraYearStart(yoe) <= doe < EraYearStart(yoe + 1)
    ensures 0 <= doe < 146097
    ensures DateOfEraDay(era, doe) == EraDate(era, yoe, doe)
  {
    RecoverYear(doe, yoe);
  }

  lemma DayOfYearBound(d: Date, yoe: int, mp: int)
    requires Valid(d)
    requires mp == MonthIndex(d.month) && yoe == MarchYear(d) % 400
    ensures 0 <= yoe < 400 && 0 <= mp <= 11
    ensures 1 <= d.day <= (if mp == 11 then 29 else DaysInMonth(1, d.month))
    ensures DaysBeforeMonth(mp) + d.day - 1 < EraYearStart(yoe + 1) - EraYearStart(yoe)
  {
    YearLength(yoe);
    LeapInEra(MarchYear(d) / 400, yoe + 1);
    if mp == 11 {
      assert DaysBeforeMonth(11) == 337;
    }
  }

  lemma RecoverYear(doe: int, yoe: int)
    requires 0 <= yoe < 400
    requires EraYearStart(yoe) <= doe < EraYearStart(yoe + 1)
    ensures 0 <= doe < 146097
    ensures YearOfEra(doe, doe / 366) == yoe
  {
    EraYearStartMonotonic(yoe + 1, 400);
    assert EraYearStart(400) == 146097;
    SearchStart(doe);
    var r := YearOfEra(doe, doe / 366);
    YearOfEraUnique(doe, r, yoe);
  }

  /** `EraDate` on a day of year written as March-based month and day. */
  lemma EraDateIs(era: int, yoe: int, doe: int, doy: int, mp: int, d: Date)
    requires 0 <= yoe < 400 && 0 <= doy < EraYearStart(yoe + 1) - EraYearStart(yoe)
    requires doe == EraYearStart(yoe) + doy
    requires 1 <= d.month <= 12 && mp == MonthIndex(d.month)
    requires doy == DaysBeforeMonth(mp) + d.day - 1
    requires (5 * doy + 2) / 153 == mp
    requires era * 400 + yoe == MarchYear(d)
    ensures EraDate(era, yoe, doe) == d
  {
  }

  /** The search for the year of an era may start at `doe / 366`, since no
      year is longer than 366 days. */
  lemma SearchStart(doe: int)
    requires 0 <= doe < 146097
    ensures 0 <= doe / 366 < 400 && EraYearStart(doe / 366) <= doe
  {
  }

  /** Days-since-0000-03-01 split into era and day of era. */
  lemma EraDaySplit(n: int, era: int, doe: int)
    requires 0 <= doe < 146097 && n == era * 146097 + doe
    ensures n / 146097 == era && n % 146097 == doe
  {
  }

  lemma EraYearStartMonotonic(a: int, b: int)
    requires 0 <= a <= b <= 400
    ensures EraYearStart(a) <= EraYearStart(b)
  {
  }

  lemma YearOfEraUnique(doe: int, r: int, yoe: int)
    requires 0 <= r < 400 && 0 <= yoe < 400
    requires EraYearStart(r) <= doe < EraYearStart(r + 1)
    requires EraYearStart(yoe) <= doe < EraYearStart(yoe + 1)
    ensures r == yoe
  {
    if r < yoe {
      EraYearStartMonotonic(r + 1, yoe);
    } else if yoe < r {
      EraYearStartMonotonic(yoe + 1, r);
    }
  }

  /** The month formula recovers month `mp` from any of its days. */
  lemma MonthIndexOfDay(mp: int, day: int)
    requires 0 <= mp <= 11
    requires 1 <= day <= (if mp == 11 then 29 else DaysInMonth(1, MonthOfIndex(mp)))
    ensures (5 * (DaysBeforeMonth(mp) + day - 1) + 2) / 153 == mp
  {
  }

  // ---------------------------------------------------------------------
  // Arithmetic facts behind the conversions

  lemma YearLength(yoe: int)
    requires 0 <= yoe < 400
    ensures EraYearStart(yoe + 1) - EraYearStart(yoe) == (if IsLeapYear(yoe + 1) then 366 else 365)
  {
    DivisionSteps(yoe);
    DivisorChain(yoe + 1);
  }

  /** How the quotients by 4, 100 and 400 change from `x` to `x + 1`. */
  lemma DivisionSteps(x: int)
    requires x >= 0
    ensures (x + 1) / 4 == x / 4 + (if (x + 1) % 4 == 0 then 1 else 0)
    ensures (x + 1) / 100 == x / 100 + (if (x + 1) % 100 == 0 then 1 else 0)
    ensures (x + 1) / 400 == x / 400 + (if (x + 1) % 400 == 0 then 1 else 0)
  {
  }

  lemma DivisorChain(x: int)
    ensures x % 400 == 0 ==> x % 100 == 0
    ensures x % 100 == 0 ==> x % 4 == 0
  {
    if x % 400 == 0 {
      Shift100(x / 400 * 4, 0);
      assert x == x / 400 * 4 * 100;
    }
    if x % 100 == 0 {
      Shift4(x / 100 * 25, 0);
      assert x == x / 100 * 25 * 4;
    }
  }

  lemma LeapInEra(era: int, k: int)
    ensures IsLeapYear(era * 400 + k) == IsLeapYear(k)
  {
    Shift4(era * 100, k);
    Shift100(era * 4, k);
    Shift400(era, k);
  }

  lemma Shift4(q: int, k: int)
    ensures (q * 4 + k) % 4 == k % 4
  {
    assert q * 4 + k == (q + k / 4) * 4 + k % 4;
  }

  lemma Shift100(q: int, k: int)
    ensures (q * 100 + k) % 100 == k % 100
  {
    assert q * 100 + k == (q + k / 100) * 100 + k % 100;
  }

  lemma Shift400(q: int, k: int)
    ensures (q * 400 + k) % 400 == k % 400
  {
    assert q * 400 + k == (q + k / 400) * 400 + k % 400;
  }

  /** Evaluates `DaysFromCivil` on a date written in era / year-of-era /
      March-based month form. */
  lemma DaysFromEraDate(era: int, yoe: int, mp: int, d: Date)
    requires 0 <= yoe < 400 && 0 <= mp <= 11
    requires d.month == MonthOfIndex(mp)
    requires d.year == era * 400 + yoe + (if mp >= 10 then 1 else 0)
    ensures DaysFromCivil(d) == era * 146097 + EraYearStart(yoe) + DaysBeforeMonth(mp) + d.day - 1 - 719468
  {
    assert MarchYear(d) == era * 400 + yoe && MonthIndex(d.month) == mp;
    EraSplit(era, yoe);
  }

  lemma EraSplit(era: int, yoe: int)
    requires 0 <= yoe < 400
    ensures (era * 400 + yoe) / 400 == era && (era * 400 + yoe) % 400 == yoe
  {
  }

  /** Day `doy` of a March-based year falls in month `(5 * doy + 2) / 153`. */
  lemma MonthOfDay(doy: int)
    requires 0 <= doy < 366
    ensures var mp := (5 * doy + 2) / 153;
      0 <= mp <= 11 && DaysBeforeMonth(mp) <= doy
      && doy - DaysBeforeMonth(mp) < (if mp == 11 then 29 else DaysInMonth(1, MonthOfIndex(mp)))
  {
  }

  // ---------------------------------------------------------------------
  // Where a date falls in its year

  /** Day number of 1 March of year `y`. */
  function MarchStart(y: int): int {
    DaysFromCivil(Date(y, 3, 1))
  }

  /** The March-based year `y - 1` (1 March of `y - 1` to the end of
      February of `y`) has 366 days exactly when `y` is a leap year. */
  lemma MarchYearLength(y: int)
    ensures MarchStart(y) - MarchStart(y - 1) == (if IsLeapYear(y) then 366 else 365)
  {
    var era, yoe := (y - 1) / 400, (y - 1) % 400;
    YearLength(yoe);
    LeapInEra(era, yoe + 1);
    if yoe < 399 {
      EraSplit(era, yoe + 1);
    } else {
      EraSplit(era + 1, 0);
    }
  }

  /** Day number of a date, counted from 1 March of its March-based year. */
  lemma DaysFromMarch(d: Date)
    requires 1 <= d.month <= 12
    ensures DaysFromCivil(d) == MarchStart(MarchYear(d)) + DaysBeforeMonth(MonthIndex(d.month)) + d.day - 1
  {
  }

  /** 1 January and 31 December of year `y`, and 1 January of the year
      after, counted from the March starts around them. */
  lemma YearEnds(y: int)
    ensures DaysFromCivil(Date(y, 1, 1)) == MarchStart(y - 1) + 306
    ensures DaysFromCivil(Date(y, 12, 31)) == MarchStart(y) + 305
    ensures DaysFromCivil(Date(y + 1, 1, 1)) == MarchStart(y) + 306
  {
    assert DaysBeforeMonth(10) == 306 && DaysBeforeMonth(9) == 275;
    DaysFromMarch(Date(y, 1, 1));
    DaysFromMarch(Date(y, 12, 31));
    DaysFromMarch(Date(y + 1, 1, 1));
    assert MarchYear(Date(y + 1, 1, 1)) == y;
  }

  /** Where a valid date falls in its March-based year: March to December
      take its first 306 days, January and February the rest. */
  lemma PlaceInMarchYear(d: Date)
    requires Valid(d)
    ensures d.month >= 3 ==> 0 <= DaysBeforeMonth(MonthIndex(d.month)) + d.day - 1 <= 305
    ensures d.month <= 2 ==> 306 <= DaysBeforeMonth(MonthIndex(d.month)) + d.day - 1 <= 365
  {
  }

  /** A valid date lies between 1 January and 31 December of its year, which
      are 364 days apart in a common year and 365 in a leap year, and the
      next year starts the day after. */
  lemma DayInYear(d: Date)
    requires Valid(d)
    ensures DaysFromCivil(Date(d.year, 1, 1)) <= DaysFromCivil(d) <= DaysFromCivil(Date(d.year, 12, 31))
    ensures DaysFromCivil(Date(d.year, 12, 31)) - DaysFromCivil(Date(d.year, 1, 1)) == (if IsLeapYear(d.year) then 365 else 364)
    ensures DaysFromCivil(Date(d.year + 1, 1, 1)) == DaysFromCivil(Date(d.year, 12, 31)) + 1
  {
    MarchYearLength(d.year);
    YearEnds(d.year);
    DaysFromMarch(d);
    PlaceInMarchYear(d);
    assert MarchYear(d) == if d.month <= 2 then d.year - 1 else d.year;
  }
}
