/** The time-series route: the sales that match the filters are bucketed by
    a date key of the chosen granularity, and for each bucket, in ascending
    label order, the route reports revenue, units and average order value.

    The week key is modelled as the route writes it: the ISO week number of
    the date, prefixed with the date's own calendar year. Around New Year
    that prefix is not the year the week belongs to, and two different
    weeks can share one key; `IsoWeekKey` is the corrected key, prefixed
    with the year of the week's Thursday. */
module Timeseries {
  import opened Wrappers
  import Text
  import opened CivilDate
  import opened Sales
  import opened Grouping
  import Sorting

  datatype Granularity = Day | Week | Month

  function GranularityName(g: Granularity): string {
    match g
    case Day => "day"
    case Week => "week"
    case Month => "month"
  }

  /** The `granularity` parameter: a missing, empty or unknown value means
      days. */
  function ParseGranularity(p: Option<string>): (g: Granularity)
    ensures g == Day || (p.Some? && p.value == GranularityName(g))
    ensures p.Some? && (p.value == "week" || p.value == "month") ==> GranularityName(g) == p.value
  {
    if p == Some("week") then Week else if p == Some("month") then Month else Day
  }

  /** The granularity echoed in a response is read back as itself. */
  lemma GranularityRoundTrip(g: Granularity)
    ensures ParseGranularity(Some(GranularityName(g))) == g
  {
  }

  // ---------------------------------------------------------------------
  // Day and month keys

  function DayKey(d: Date): string {
    Text.IntToString(d.year) + "-" + Text.TwoDigits(d.month) + "-" + Text.TwoDigits(d.day)
  }

  function MonthKey(d: Date): string {
    Text.IntToString(d.year) + "-" + Text.TwoDigits(d.month)
  }

  // ---------------------------------------------------------------------
  // Week numbers

  /** Days since the last Monday: `(getUTCDay() + 6) % 7`. */
  function MondayOffset(z: int): (k: int)
    ensures 0 <= k < 7
  {
    (Weekday(z) + 6) % 7
  }

  function MondayOf(z: int): int {
    z - MondayOffset(z)
  }

  /** The Thursday of the Monday-to-Sunday week of day `z`. */
  function ThursdayOf(z: int): int {
    MondayOf(z) + 3
  }

  /** Every Monday is day 4 modulo 7 (day 0 is a Thursday), and every day
      lies in the week of its Monday. */
  lemma MondayOfIs(z: int)
    ensures MondayOf(z) % 7 == 4 && Weekday(MondayOf(z)) == 1
    ensures MondayOf(z) <= z < MondayOf(z) + 7
    ensures ThursdayOf(z) % 7 == 0
  {
  }

  /** `Math.round(n / 7)` for an integer `n`: halves round up. */
  function RoundDiv7(n: int): (q: int)
    ensures -3 <= n - 7 * q <= 3
  {
    (2 * n + 7) / 14
  }

  /** The week formula of the route, given the Thursday `thu` of the week
      and the day number `j4` of 4 January of the Thursday's year: the
      distance in weeks from the Monday of the week of 4 January, plus one. */
  function WeekFrom(thu: int, j4: int): int {
    1 + RoundDiv7((thu - j4) - 3 + MondayOffset(j4))
  }

  /** The route's week number for a calendar date. The date is rebuilt with
      `Date.UTC(year, month, day)`, which reads a year in 0..99 as
      1900 + year, and so is 4 January of the Thursday's year. */
  function WeekAsWritten(d: Date): int
    requires 1 <= d.month <= 12
  {
    var thu := ThursdayOf(MakeDay(d.year, d.month, d.day));
    WeekFrom(thu, MakeDay(CivilFromDays(thu).year, 1, 4))
  }

  function Jan4(y: int): int {
    DaysFromCivil(Date(y, 1, 4))
  }

  /** The ISO week number of the week whose Thursday is `thu`: the same
      formula without the two-digit-year rebuild. */
  function WeekOfThursday(thu: int): int {
    WeekFrom(thu, Jan4(CivilFromDays(thu).year))
  }

  /** The ISO week-numbering year of day `z`: the year of its Thursday. */
  function IsoWeekYear(z: int): int {
    CivilFromDays(ThursdayOf(z)).year
  }

  function IsoWeek(z: int): (w: int)
    ensures 1 <= w <= 53
  {
    MondayOfIs(z);
    WeekRange(ThursdayOf(z));
    WeekOfThursday(ThursdayOf(z))
  }

  /** For a Thursday the rounded quotient is exact: the week's Monday lies a
      whole number of weeks after the Monday of the week of `j4`. */
  lemma WeekFromExact(thu: int, j4: int)
    requires thu % 7 == 0
    ensures thu - 3 == MondayOf(j4) + 7 * (WeekFrom(thu, j4) - 1)
  {
    MondayOfIs(j4);
    var n := (thu - j4) - 3 + MondayOffset(j4);
    assert n == (thu - 3) - MondayOf(j4);
    assert n % 7 == 0;
    assert RoundDiv7(n) == n / 7;
  }

  /** A Thursday from three days before `j4` to 362 days after it lies in
      week 1..53. */
  lemma WeekFromRange(thu: int, j4: int)
    requires thu % 7 == 0
    requires j4 - 3 <= thu <= j4 + 362
    ensures 1 <= WeekFrom(thu, j4) <= 53
  {
    WeekFromExact(thu, j4);
    MondayOfIs(j4);
  }

  /** 4 January is three days after 1 January. */
  lemma Jan4Is(y: int)
    ensures Jan4(y) == DaysFromCivil(Date(y, 1, 1)) + 3
  {
  }

  /** The week of a Thursday is numbered 1..53. */
  lemma WeekRange(thu: int)
    requires thu % 7 == 0
    ensures 1 <= WeekOfThursday(thu) <= 53
  {
    var c := CivilFromDays(thu);
    DayInYear(c);
    Jan4Is(c.year);
    WeekFromRange(thu, Jan4(c.year));
  }

  /** The date key of a timestamp, as the route computes it. */
  function DateKey(t: int, g: Granularity): string {
    var d := CivilFromDays(DayOfTime(t));
    match g
    case Day => DayKey(d)
    case Month => MonthKey(d)
    case Week => Text.IntToString(d.year) + "-W" + Text.TwoDigits(WeekAsWritten(d))
  }

  /** The week key with the week-numbering year as prefix. */
  function IsoWeekKey(z: int): string {
    Text.IntToString(IsoWeekYear(z)) + "-W" + Text.TwoDigits(IsoWeek(z))
  }

  function DateKeyCorrected(t: int, g: Granularity): string {
    match g
    case Week => IsoWeekKey(DayOfTime(t))
    case _ => DateKey(t, g)
  }

  /** Outside the years 0..99 the route's week number is the ISO week
      number: only its year prefix differs from the corrected key. */
  lemma WeekAsWrittenIsIso(d: Date)
    requires Valid(d)
    requires !(0 <= d.year <= 99) && !(0 <= IsoWeekYear(DaysFromCivil(d)) <= 99)
    ensures WeekAsWritten(d) == IsoWeek(DaysFromCivil(d))
  {
  }

  /** Equal corrected keys have equal years and equal week numbers. */
  lemma IsoWeekKeyParts(a: int, b: int)
    requires IsoWeekKey(a) == IsoWeekKey(b)
    ensures IsoWeekYear(a) == IsoWeekYear(b) && IsoWeek(a) == IsoWeek(b)
  {
    var ya, yb := IsoWeekYear(a), IsoWeekYear(b);
    Text.IntToStringChars(ya);
    Text.IntToStringChars(yb);
    Text.WeekJoinInjective(Text.IntToString(ya), Text.TwoDigits(IsoWeek(a)), Text.IntToString(yb), Text.TwoDigits(IsoWeek(b)));
    Text.IntToStringInjective(ya, yb);
    Text.TwoDigitsInjective(IsoWeek(a), IsoWeek(b));
  }

  /** Different Thursdays counted from the same 4 January get different
      week numbers. */
  lemma WeekFromInjective(t1: int, t2: int, j4: int)
    requires t1 % 7 == 0 && t2 % 7 == 0
    requires WeekFrom(t1, j4) == WeekFrom(t2, j4)
    ensures t1 == t2
  {
    WeekFromExact(t1, j4);
    WeekFromExact(t2, j4);
  }

  /** The year and the week number determine the Thursday. */
  lemma ThursdayOfYearWeek(a: int, b: int)
    requires IsoWeekYear(a) == IsoWeekYear(b) && IsoWeek(a) == IsoWeek(b)
    ensures ThursdayOf(a) == ThursdayOf(b)
  {
    var ta, tb := ThursdayOf(a), ThursdayOf(b);
    var j4 := Jan4(IsoWeekYear(a));
    MondayOfIs(a);
    MondayOfIs(b);
    assert IsoWeek(a) == WeekFrom(ta, j4);
    assert IsoWeek(b) == WeekFrom(tb, j4);
    WeekFromInjective(ta, tb, j4);
  }

  /** Two days get the same corrected week key exactly when they lie in the
      same Monday-to-Sunday week. */
  lemma IsoWeekKeySameWeek(a: int, b: int)
    ensures IsoWeekKey(a) == IsoWeekKey(b) <==> MondayOf(a) == MondayOf(b)
  {
    if IsoWeekKey(a) == IsoWeekKey(b) {
      SameKeySameWeek(a, b);
    }
    if MondayOf(a) == MondayOf(b) {
      SameWeekSameKey(a, b);
    }
  }

  lemma SameKeySameWeek(a: int, b: int)
    requires IsoWeekKey(a) == IsoWeekKey(b)
    ensures MondayOf(a) == MondayOf(b)
  {
    IsoWeekKeyParts(a, b);
    ThursdayOfYearWeek(a, b);
  }

  lemma SameWeekSameKey(a: int, b: int)
    requires MondayOf(a) == MondayOf(b)
    ensures IsoWeekKey(a) == IsoWeekKey(b)
  {
    assert ThursdayOf(a) == ThursdayOf(b);
    assert IsoWeekYear(a) == IsoWeekYear(b) && IsoWeek(a) == IsoWeek(b);
  }

  /** The day number of a timestamp taken at any moment of day `z`. */
  lemma DayOfTimeIn(z: int, ms: int)
    requires 0 <= ms < 86400000
    ensures DayOfTime(z * 86400000 + ms) == z
  {
  }

  /** The route's week key of midnight of a valid date. */
  lemma WeekKeyOf(d: Date)
    requires Valid(d)
    ensures DateKey(DaysFromCivil(d) * 86400000, Week) == Text.IntToString(d.year) + "-W" + Text.TwoDigits(WeekAsWritten(d))
  {
    var z := DaysFromCivil(d);
    DayOfTimeIn(z, 0);
    assert DayOfTime(z * 86400000) == z;
    CivilRoundTrip(d);
    assert CivilFromDays(DayOfTime(z * 86400000)) == d;
  }

  /** The route's week key of day `z` of date `d`, given the Thursday
      `thu` of its week and its week number `w`, for years past 99. */
  lemma WrittenWeekKeyOf(d: Date, z: int, thu: Date, tz: int, w: int, written: string)
    requires Valid(d) && Valid(thu) && d.year > 99 && thu.year > 99
    requires DaysFromCivil(d) == z && DaysFromCivil(thu) == tz && ThursdayOf(z) == tz
    requires WeekFrom(tz, Jan4(thu.year)) == w
    requires Text.IntToString(d.year) + "-W" + Text.TwoDigits(w) == written
    ensures DateKey(z * 86400000, Week) == written
  {
    CivilRoundTrip(thu);
    assert WeekAsWritten(d) == w;
    WeekKeyOf(d);
  }

  /** The corrected week key of day `z`, given the Thursday `thu` of its
      week and its week number `w`. */
  lemma IsoWeekKeyOf(z: int, thu: Date, tz: int, w: int, iso: string)
    requires Valid(thu) && DaysFromCivil(thu) == tz && ThursdayOf(z) == tz
    requires WeekFrom(tz, Jan4(thu.year)) == w
    requires Text.IntToString(thu.year) + "-W" + Text.TwoDigits(w) == iso
    ensures IsoWeekKey(z) == iso
  {
    CivilRoundTrip(thu);
  }

  /** Day numbers and week numbers of 1 January 2024 and its Thursday. */
  lemma Jan2024Facts()
    ensures DaysFromCivil(Date(2024, 1, 1)) == 19723 && DaysFromCivil(Date(2024, 1, 4)) == 19726
    ensures ThursdayOf(19723) == 19726 && WeekFrom(19726, 19726) == 1
  {
    assert EraYearStart(23) == 8400 && DaysBeforeMonth(10) == 306;
    DayNumberFromParts(Date(2024, 1, 1), 5, 23, 8706, 19723);
    DayNumberFromParts(Date(2024, 1, 4), 5, 23, 8709, 19726);
    Jan2024Weeks();
  }

  lemma Jan2024Weeks()
    ensures ThursdayOf(19723) == 19726 && WeekFrom(19726, 19726) == 1
  {
    assert MondayOffset(19723) == 0 && MondayOffset(19726) == 3;
  }

  /** Day numbers and week numbers of 30 December 2024 and its Thursday. */
  lemma Dec2024Facts()
    ensures DaysFromCivil(Date(2024, 12, 30)) == 20087 && DaysFromCivil(Date(2025, 1, 2)) == 20090
    ensures ThursdayOf(20087) == 20090 && Jan4(2025) == 20092 && WeekFrom(20090, 20092) == 1
  {
    Dec2024Days();
    Dec2024Weeks();
  }

  lemma Dec2024Weeks()
    ensures ThursdayOf(20087) == 20090 && WeekFrom(20090, 20092) == 1
  {
    assert MondayOffset(20087) == 0 && MondayOffset(20092) == 5;
  }

  lemma Dec2024Days()
    ensures DaysFromCivil(Date(2024, 12, 30)) == 20087 && DaysFromCivil(Date(2025, 1, 2)) == 20090
    ensures Jan4(2025) == 20092
  {
    assert EraYearStart(24) == 8766;
    assert DaysBeforeMonth(10) == 306 && DaysBeforeMonth(9) == 275;
    DayNumberFromParts(Date(2024, 12, 30), 5, 24, 9070, 20087);
    DayNumberFromParts(Date(2025, 1, 2), 5, 24, 9073, 20090);
    DayNumberFromParts(Date(2025, 1, 4), 5, 24, 9075, 20092);
  }

  lemma NewYear2025Text()
    ensures Text.IntToString(2024) + "-W" + Text.TwoDigits(1) == "2024-W01"
    ensures Text.IntToString(2025) + "-W" + Text.TwoDigits(1) == "2025-W01"
  {
    assert Text.IntToString(2024) == "2024" && Text.IntToString(2025) == "2025";
    assert Text.TwoDigits(1) == "01";
  }

  lemma WeekKeysJan2024(a: int)
    requires a == DaysFromCivil(Date(2024, 1, 1))
    ensures DateKey(a * 86400000, Week) == "2024-W01" && IsoWeekKey(a) == "2024-W01"
  {
    assert Valid(Date(2024, 1, 1)) && Valid(Date(2024, 1, 4));
    Jan2024Facts();
    NewYear2025Text();
    WrittenWeekKeyOf(Date(2024, 1, 1), a, Date(2024, 1, 4), 19726, 1, "2024-W01");
    IsoWeekKeyOf(a, Date(2024, 1, 4), 19726, 1, "2024-W01");
  }

  lemma WeekKeysDec2024(b: int)
    requires b == DaysFromCivil(Date(2024, 12, 30))
    ensures DateKey(b * 86400000, Week) == "2024-W01" && IsoWeekKey(b) == "2025-W01"
  {
    assert Valid(Date(2024, 12, 30)) && Valid(Date(2025, 1, 2));
    Dec2024Facts();
    NewYear2025Text();
    WrittenWeekKeyOf(Date(2024, 12, 30), b, Date(2025, 1, 2), 20090, 1, "2024-W01");
    IsoWeekKeyOf(b, Date(2025, 1, 2), 20090, 1, "2025-W01");
  }

  /** Monday 1 January 2024 and Monday 30 December 2024 start different
      weeks, yet the route gives both the key "2024-W01": the second lies in
      the first ISO week of 2025, which the corrected key says. */
  lemma WeekKeyCollision(a: int, b: int)
    requires a == DaysFromCivil(Date(2024, 1, 1)) && b == DaysFromCivil(Date(2024, 12, 30))
    ensures DateKey(a * 86400000, Week) == DateKey(b * 86400000, Week) == "2024-W01"
    ensures MondayOf(a) != MondayOf(b)
    ensures IsoWeekKey(a) == "2024-W01" && IsoWeekKey(b) == "2025-W01"
  {
    WeekKeysJan2024(a);
    WeekKeysDec2024(b);
    DistinctThursdays(a, b);
  }

  lemma DistinctThursdays(a: int, b: int)
    requires a == DaysFromCivil(Date(2024, 1, 1)) && b == DaysFromCivil(Date(2024, 12, 30))
    ensures ThursdayOf(a) == 19726 && ThursdayOf(b) == 20090
  {
    Jan2024Facts();
    Dec2024Facts();
  }

  lemma NewYear2021Facts()
    ensures DaysFromCivil(Date(2021, 1, 1)) == 18628 && DaysFromCivil(Date(2020, 12, 31)) == 18627
    ensures ThursdayOf(18628) == 18627 && Jan4(2020) == 18265
    ensures WeekFrom(18627, 18265) == 53
  {
    NewYear2021Days();
    NewYear2021Weeks();
  }

  lemma NewYear2021Weeks()
    ensures ThursdayOf(18628) == 18627 && WeekFrom(18627, 18265) == 53
  {
    assert MondayOffset(18628) == 4 && MondayOffset(18265) == 5;
    assert RoundDiv7(364) == 52;
  }

  lemma NewYear2021Days()
    ensures DaysFromCivil(Date(2021, 1, 1)) == 18628 && DaysFromCivil(Date(2020, 12, 31)) == 18627
    ensures Jan4(2020) == 18265
  {
    assert EraYearStart(20) == 7305 && EraYearStart(19) == 6939;
    assert DaysBeforeMonth(10) == 306 && DaysBeforeMonth(9) == 275;
    DayNumberFromParts(Date(2021, 1, 1), 5, 20, 7611, 18628);
    DayNumberFromParts(Date(2020, 12, 31), 5, 20, 7610, 18627);
    DayNumberFromParts(Date(2020, 1, 4), 5, 19, 7248, 18265);
  }

  lemma NewYear2021Text()
    ensures Text.IntToString(2021) + "-W" + Text.TwoDigits(53) == "2021-W53"
    ensures Text.IntToString(2020) + "-W" + Text.TwoDigits(53) == "2020-W53"
  {
    assert Text.IntToString(2021) == "2021" && Text.IntToString(2020) == "2020";
    assert Text.TwoDigits(53) == "53";
  }

  /** Friday 1 January 2021 belongs to the last ISO week of 2020; the route
      keys it "2021-W53". */
  lemma WeekKeyYearStart(a: int)
    requires a == DaysFromCivil(Date(2021, 1, 1))
    ensures && DateKey(a * 86400000, Week) == "2021-W53"
      && IsoWeekKey(a) == "2020-W53"
  {
    assert Valid(Date(2021, 1, 1)) && Valid(Date(2020, 12, 31));
    NewYear2021Facts();
    NewYear2021Text();
    WrittenWeekKeyOf(Date(2021, 1, 1), a, Date(2020, 12, 31), 18627, 53, "2021-W53");
    IsoWeekKeyOf(a, Date(2020, 12, 31), 18627, 53, "2020-W53");
  }

  /** A day key and a month key on a sample timestamp: 15:00 UTC on
      5 March 2024. */
  lemma DayAndMonthKeyExample(t: int)
    requires t == 1709650800000
    ensures DateKey(t, Day) == "2024-03-05" && DateKey(t, Month) == "2024-03"
  {
    var d := Date(2024, 3, 5);
    assert Valid(d);
    assert DaysFromCivil(d) == 19787 by {
      assert EraYearStart(24) == 8766 && DaysBeforeMonth(0) == 0;
      DayNumberFromParts(d, 5, 24, 8770, 19787);
    }
    assert DayOfTime(t) == 19787;
    KeysOfDay(t, d);
    March2024Text();
  }

  /** At any moment of a valid date the day and month keys are the date's
      own. */
  lemma KeysOfDay(t: int, d: Date)
    requires Valid(d) && DayOfTime(t) == DaysFromCivil(d)
    ensures DateKey(t, Day) == DayKey(d) && DateKey(t, Month) == MonthKey(d)
  {
    CivilRoundTrip(d);
  }

  /** Two moments share a month key exactly when they fall in the same
      UTC year and month. */
  lemma MonthKeySameMonth(a: int, b: int)
    ensures var da, db := CivilFromDays(DayOfTime(a)), CivilFromDays(DayOfTime(b));
      DateKey(a, Month) == DateKey(b, Month) <==> da.year == db.year && da.month == db.month
  {
    var da, db := CivilFromDays(DayOfTime(a)), CivilFromDays(DayOfTime(b));
    if DateKey(a, Month) == DateKey(b, Month) {
      MonthKeyParts(da, db);
    }
  }

  lemma MonthKeyParts(da: Date, db: Date)
    requires Valid(da) && Valid(db) && MonthKey(da) == MonthKey(db)
    ensures da.year == db.year && da.month == db.month
  {
    Text.TwoDigitsIs(da.month);
    Text.TwoDigitsIs(db.month);
    Text.SameLengthTails(Text.IntToString(da.year), Text.TwoDigits(da.month), Text.IntToString(db.year), Text.TwoDigits(db.month));
    Text.IntToStringInjective(da.year, db.year);
    Text.TwoDigitsInjective(da.month, db.month);
  }

  lemma March2024Text()
    ensures DayKey(Date(2024, 3, 5)) == "2024-03-05" && MonthKey(Date(2024, 3, 5)) == "2024-03"
  {
    assert Text.IntToString(2024) == "2024";
    assert Text.TwoDigits(3) == "03" && Text.TwoDigits(5) == "05";
  }

  // ---------------------------------------------------------------------
  // Buckets

  datatype Bucket = Bucket(revenue: int, units: int, count: int)

  /** The bucket of key `k`, defined from the records it holds. */
  function BucketOf(s: seq<Sale>, key: Sale -> string, k: string): Bucket {
    var m := Select(s, key, k);
    Bucket(Sum(m, Amount), Sum(m, Quantity), |m|)
  }

  /** Adding one record to a bucket: the body of the route's loop. */
  function AddSale(cur: Bucket, x: Sale): Bucket {
    Bucket(cur.revenue + x.amount, cur.units + x.quantity, cur.count + 1)
  }

  /** The route's loop over the records: look the key up (a missing bucket
      starts at zeros), add the record, store the bucket back. */
  function Accumulate(s: seq<Sale>, key: Sale -> string): map<string, Bucket> {
    if |s| == 0 then map[]
    else
      var b := Accumulate(s[..|s| - 1], key);
      var x := s[|s| - 1];
      var cur := if key(x) in b then b[key(x)] else Bucket(0, 0, 0);
      b[key(x) := AddSale(cur, x)]
  }

  /** The loop leaves exactly the keys of the records in the map, and each
      bucket holds the sums and the count of the records of its key. */
  lemma {:induction false} AccumulateBuckets(s: seq<Sale>, key: Sale -> string)
    ensures forall k :: k in Accumulate(s, key) <==> k in KeysOf(s, key)
    ensures forall k :: k in Accumulate(s, key) ==> Accumulate(s, key)[k] == BucketOf(s, key, k)
  {
    if |s| > 0 {
      var init, x := s[..|s| - 1], s[|s| - 1];
      AccumulateBuckets(init, key);
      assert s == init + [x];
      assert KeysOf(s, key) == KeysOf(init, key) + [key(x)];
      forall k
        ensures BucketOf(s, key, k) == if key(x) == k then AddSale(BucketOf(init, key, k), x) else BucketOf(init, key, k)
      {
        BucketSnoc(init, x, key, k);
      }
      SelectAbsent(init, key, key(x));
    }
  }

  lemma BucketSnoc(s: seq<Sale>, x: Sale, key: Sale -> string, k: string)
    ensures BucketOf(s + [x], key, k) == if key(x) == k then AddSale(BucketOf(s, key, k), x) else BucketOf(s, key, k)
  {
    SumSelectSnoc(s, x, key, Amount, k);
    SumSelectSnoc(s, x, key, Quantity, k);
    assert (s + [x])[..|s + [x]| - 1] == s;
  }

  /** A key that no record has selects no record. */
  lemma SelectAbsent(s: seq<Sale>, key: Sale -> string, k: string)
    ensures k !in KeysOf(s, key) ==> Select(s, key, k) == []
  {
  }

  /** A key of some record selects at least that record. */
  lemma SelectPresent(s: seq<Sale>, key: Sale -> string, k: string)
    requires k in KeysOf(s, key)
    ensures |Select(s, key, k)| >= 1
  {
    var j :| 0 <= j < |s| && KeysOf(s, key)[j] == k;
    assert s[j] in Select(s, key, k);
  }

  // ---------------------------------------------------------------------
  // The series

  datatype Series = Series(labels: seq<string>, revenue: seq<int>, units: seq<int>, aov: seq<real>, granularity: Granularity)

  /** Average order value of a bucket; an empty bucket would give 0. */
  function Aov(b: Bucket): real {
    if b.count > 0 then b.revenue as real / b.count as real else 0.0
  }

  /** `Array.from(buckets.keys()).sort()`: the keys of the map, in insertion
      order, sorted as strings. They are the keys of the records, each once,
      in ascending order. */
  function SeriesLabels(rows: seq<Sale>, key: Sale -> string): (labels: seq<string>)
    ensures Sorting.StrictlyIncreasing(labels)
    ensures forall k :: k in labels <==> k in KeysOf(rows, key)
  {
    var keys := Distinct(KeysOf(rows, key));
    var labels := Sorting.SortStrings(keys);
    SameElements(labels, keys);
    labels
  }

  lemma SameElements(a: seq<string>, b: seq<string>)
    requires multiset(a) == multiset(b)
    ensures forall k :: k in a <==> k in b
  {
    forall k ensures k in a <==> k in b {
      assert k in a <==> k in multiset(a);
      assert k in b <==> k in multiset(b);
    }
  }

  /** The series of the records keyed by `key`: one entry per label, each
      read from the label's bucket. */
  function BuildSeries(rows: seq<Sale>, key: Sale -> string, g: Granularity): (r: Series)
    ensures r.labels == SeriesLabels(rows, key) && r.granularity == g
    ensures |r.revenue| == |r.labels| && |r.units| == |r.labels| && |r.aov| == |r.labels|
    ensures forall i :: 0 <= i < |r.labels| ==>
      && r.revenue[i] == BucketOf(rows, key, r.labels[i]).revenue
      && r.units[i] == BucketOf(rows, key, r.labels[i]).units
      && r.aov[i] == Aov(BucketOf(rows, key, r.labels[i]))
  {
    var b := Accumulate(rows, key);
    var labels := SeriesLabels(rows, key);
    LabelBuckets(rows, key);
    Series(
      labels,
      Column(labels, b, (x: Bucket) => x.revenue),
      Column(labels, b, (x: Bucket) => x.units),
      Column(labels, b, Aov),
      g)
  }

  /** What `f` reads from the bucket of each label, in label order. */
  function Column<T>(labels: seq<string>, b: map<string, Bucket>, f: Bucket -> T): (c: seq<T>)
    requires forall k :: k in labels ==> k in b
    ensures |c| == |labels|
    ensures forall i :: 0 <= i < |c| ==> c[i] == f(b[labels[i]])
  {
    seq(|labels|, i requires 0 <= i < |labels| => f(b[labels[i]]))
  }

  /** Every label has its bucket in the map. */
  lemma LabelBuckets(rows: seq<Sale>, key: Sale -> string)
    ensures forall k :: k in SeriesLabels(rows, key) ==> k in Accumulate(rows, key) && Accumulate(rows, key)[k] == BucketOf(rows, key, k)
  {
    AccumulateBuckets(rows, key);
  }

  /** Every label stands for at least one record, so the average order value
      is the bucket's revenue over its count. */
  lemma SeriesBuckets(rows: seq<Sale>, key: Sale -> string, g: Granularity)
    ensures var r := BuildSeries(rows, key, g);
      forall i :: 0 <= i < |r.labels| ==>
        && r.revenue[i] == Sum(Select(rows, key, r.labels[i]), Amount)
        && r.units[i] == Sum(Select(rows, key, r.labels[i]), Quantity)
        && |Select(rows, key, r.labels[i])| >= 1
        && r.aov[i] == r.revenue[i] as real / |Select(rows, key, r.labels[i])| as real
  {
    var r := BuildSeries(rows, key, g);
    forall i | 0 <= i < |r.labels| ensures |Select(rows, key, r.labels[i])| >= 1 {
      SelectPresent(rows, key, r.labels[i]);
    }
  }

  /** The revenue and units of a series add up to the totals of its
      records, whatever the keys. */
  lemma SeriesTotals(rows: seq<Sale>, key: Sale -> string, g: Granularity)
    ensures Total(BuildSeries(rows, key, g).revenue) == Sum(rows, Amount)
    ensures Total(BuildSeries(rows, key, g).units) == Sum(rows, Quantity)
  {
    var r := BuildSeries(rows, key, g);
    SeriesBuckets(rows, key, g);
    Sorting.StrictlyIncreasingDistinct(r.labels);
    forall x | x in rows ensures key(x) in r.labels {
      var j :| 0 <= j < |rows| && rows[j] == x;
      assert KeysOf(rows, key)[j] == key(x);
    }
    GroupTotals(rows, key, Amount, r.labels, r.revenue);
    GroupTotals(rows, key, Quantity, r.labels, r.units);
  }

  function SaleKey(g: Granularity): Sale -> string {
    (s: Sale) => DateKey(s.date, g)
  }

  function SaleKeyCorrected(g: Granularity): Sale -> string {
    (s: Sale) => DateKeyCorrected(s.date, g)
  }

  /** `GET /api/metrics/timeseries`. */
  function TimeseriesRoute(sales: seq<Sale>, p: Params, granularity: Option<string>): (r: Series)
    ensures r.granularity == ParseGranularity(granularity)
  {
    var g := ParseGranularity(granularity);
    BuildSeries(Where(sales, SearchFilter(p)), SaleKey(g), g)
  }

  /** The labels are the keys of the matching sales, each once and in
      ascending order; each label carries the sums, the count and the
      average order of its sales; the buckets add up to the totals of the
      matching sales. */
  lemma TimeseriesSpec(sales: seq<Sale>, p: Params, granularity: Option<string>)
    ensures var r := TimeseriesRoute(sales, p, granularity);
      var g := ParseGranularity(granularity);
      var rows := Where(sales, SearchFilter(p));
      && Sorting.StrictlyIncreasing(r.labels)
      && (forall k :: k in r.labels <==> exists x :: x in rows && DateKey(x.date, g) == k)
      && |r.revenue| == |r.labels| && |r.units| == |r.labels| && |r.aov| == |r.labels|
      && (forall i :: 0 <= i < |r.labels| ==>
            && r.revenue[i] == Sum(Select(rows, SaleKey(g), r.labels[i]), Amount)
            && r.units[i] == Sum(Select(rows, SaleKey(g), r.labels[i]), Quantity)
            && |Select(rows, SaleKey(g), r.labels[i])| >= 1
            && r.aov[i] == r.revenue[i] as real / |Select(rows, SaleKey(g), r.labels[i])| as real)
      && Total(r.revenue) == Sum(rows, Amount)
      && Total(r.units) == Sum(rows, Quantity)
  {
    var g := ParseGranularity(granularity);
    var rows := Where(sales, SearchFilter(p));
    var r := TimeseriesRoute(sales, p, granularity);
    SeriesBuckets(rows, SaleKey(g), g);
    SeriesTotals(rows, SaleKey(g), g);
    forall k ensures k in r.labels <==> exists x :: x in rows && DateKey(x.date, g) == k {
      InKeysOf(rows, SaleKey(g), k);
    }
  }

  /** The route with the corrected week key. */
  function TimeseriesRouteCorrected(sales: seq<Sale>, p: Params, granularity: Option<string>): (r: Series)
    ensures r.granularity == ParseGranularity(granularity)
  {
    var g := ParseGranularity(granularity);
    BuildSeries(Where(sales, SearchFilter(p)), SaleKeyCorrected(g), g)
  }

  /** With the corrected key, two matching sales share a weekly bucket
      exactly when they fall in the same Monday-to-Sunday UTC week. */
  lemma CorrectedWeekBuckets(x: Sale, y: Sale)
    ensures SaleKeyCorrected(Week)(x) == SaleKeyCorrected(Week)(y)
      <==> MondayOf(DayOfTime(x.date)) == MondayOf(DayOfTime(y.date))
  {
    IsoWeekKeySameWeek(DayOfTime(x.date), DayOfTime(y.date));
  }
}
