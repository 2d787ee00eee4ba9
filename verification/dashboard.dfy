/** The logic the dashboard page runs in the browser: the ten-bin histogram
    of the recent sales, the date window it requests, and the check on the
    sale id typed into the search box. */
module Dashboard {
  import opened Wrappers
  import Text
  import opened CivilDate
  import opened Sales
  import opened Grouping
  import Timeseries

  // ---------------------------------------------------------------------
  // Histogram

  const BinCount: int := 10

  datatype HistogramMetric = AmountMetric | QuantityMetric

  /** `recent.map((s) => s.amount)` or `recent.map((s) => s.quantity)`. */
  function MetricValues(recent: seq<Sale>, m: HistogramMetric): (vs: seq<int>)
    ensures |vs| == |recent|
    ensures forall i :: 0 <= i < |recent| ==> vs[i] == if m == AmountMetric then recent[i].amount else recent[i].quantity
  {
    seq(|recent|, i requires 0 <= i < |recent| => if m == AmountMetric then recent[i].amount else recent[i].quantity)
  }

  /** `Math.max(0, ...vs)`. */
  function MaxOf(vs: seq<int>): (mx: int)
    ensures mx >= 0
    ensures forall i :: 0 <= i < |vs| ==> vs[i] <= mx
    ensures mx == 0 || mx in vs
  {
    if |vs| == 0 then 0
    else
      var m := MaxOf(vs[..|vs| - 1]);
      assert m in vs[..|vs| - 1] ==> m in vs;
      if vs[|vs| - 1] > m then vs[|vs| - 1] else m
  }

  /** `max > 0 ? Math.ceil(max / binCount) : 1`: the least width for which
      ten bins reach the maximum. */
  function BinSize(mx: int): (b: int)
    ensures b >= 1
    ensures mx > 0 ==> (b - 1) * BinCount < mx <= b * BinCount
    ensures mx <= 0 ==> b == 1
  {
    if mx > 0 then
      var q := (mx + BinCount - 1) / BinCount;
      assert q * BinCount + (mx + BinCount - 1) % BinCount == mx + BinCount - 1;
      q
    else 1
  }

  /** `Math.min(Math.floor(v / binSize), binCount - 1)`. Dafny's division
      by a positive divisor rounds down, as `Math.floor` does. */
  function BinIndex(v: int, b: int): (i: int)
    requires b >= 1
    ensures i <= BinCount - 1
    ensures v >= 0 <==> i >= 0
    ensures 0 <= i < BinCount - 1 ==> i * b <= v < (i + 1) * b
    ensures i == BinCount - 1 ==> v >= (BinCount - 1) * b
  {
    var q := v / b;
    if q < BinCount - 1 then q else BinCount - 1
  }

  /** A bin's label range, `from` to `to` inclusive. */
  datatype Bin = Bin(from: int, to: int)

  /** Bin `i` runs from `i * binSize` to `(i + 1) * binSize - 1`, and the
      last bin up to the maximum. */
  function Bins(mx: int, b: int): (bins: seq<Bin>)
    ensures |bins| == BinCount
  {
    seq(BinCount, i requires 0 <= i < BinCount => Bin(i * b, if i == BinCount - 1 then mx else (i + 1) * b - 1))
  }

  /** The counting loop: `counts[idx] += 1`. A negative value has a negative
      index, which names no element of the array, so it is not counted. */
  function Counts(vs: seq<int>, b: int): (counts: seq<int>)
    requires b >= 1
    ensures |counts| == BinCount
  {
    if |vs| == 0 then Zeros(BinCount)
    else
      var c := Counts(vs[..|vs| - 1], b);
      var i := BinIndex(vs[|vs| - 1], b);
      if i >= 0 then c[i := c[i] + 1] else c
  }

  /** The number of values whose bin is `i`. */
  function CountIn(vs: seq<int>, b: int, i: int): nat
    requires b >= 1
  {
    if |vs| == 0 then 0
    else CountIn(vs[..|vs| - 1], b, i) + (if BinIndex(vs[|vs| - 1], b) == i then 1 else 0)
  }

  /** The number of non-negative values. */
  function NonNegative(vs: seq<int>): nat {
    if |vs| == 0 then 0 else NonNegative(vs[..|vs| - 1]) + (if vs[|vs| - 1] >= 0 then 1 else 0)
  }

  datatype Histogram = Histogram(bins: seq<Bin>, counts: seq<int>)

  /** The histogram of the recent sales by amount or quantity. The page
      computes it twice, after loading and when the metric changes, with the
      same code; both are this function. */
  function HistogramOf(recent: seq<Sale>, m: HistogramMetric): (h: Histogram)
    ensures |h.bins| == BinCount && |h.counts| == BinCount
  {
    var vs := MetricValues(recent, m);
    var mx := MaxOf(vs);
    var b := BinSize(mx);
    Histogram(Bins(mx, b), Counts(vs, b))
  }

  /** Count `i` is the number of values in bin `i`. */
  lemma {:induction false} CountsAreCountIn(vs: seq<int>, b: int)
    requires b >= 1
    ensures forall i :: 0 <= i < BinCount ==> Counts(vs, b)[i] == CountIn(vs, b, i)
  {
    if |vs| > 0 {
      CountsAreCountIn(vs[..|vs| - 1], b);
    }
  }

  /** Every non-negative value is counted once: the counts add up to the
      number of non-negative values. */
  lemma {:induction false} CountsConserve(vs: seq<int>, b: int)
    requires b >= 1
    ensures Total(Counts(vs, b)) == NonNegative(vs)
  {
    if |vs| == 0 {
      TotalZeros(BinCount);
    } else {
      CountsConserve(vs[..|vs| - 1], b);
      var i := BinIndex(vs[|vs| - 1], b);
      if i >= 0 {
        TotalUpdate(Counts(vs[..|vs| - 1], b), i, 1);
      }
    }
  }

  /** The bins start at 0, follow each other without gap or overlap, and the
      last one ends at the maximum. */
  lemma BinsTile(mx: int, b: int)
    ensures Bins(mx, b)[0].from == 0
    ensures forall i :: 0 <= i < BinCount - 1 ==> Bins(mx, b)[i + 1].from == Bins(mx, b)[i].to + 1
    ensures Bins(mx, b)[BinCount - 1].to == mx
  {
  }

  /** Every non-negative value of the histogram falls inside the label range
      of the bin that counts it. */
  lemma ValueInItsBin(recent: seq<Sale>, m: HistogramMetric, k: int)
    requires 0 <= k < |recent|
    requires MetricValues(recent, m)[k] >= 0
    ensures var vs := MetricValues(recent, m);
      var b := BinSize(MaxOf(vs));
      var bin := HistogramOf(recent, m).bins[BinIndex(vs[k], b)];
      bin.from <= vs[k] <= bin.to
  {
  }

  /** Summary of the histogram over the recent sales: ten bins, each count
      the number of values in its bin, and all the non-negative values
      counted. */
  lemma HistogramSpec(recent: seq<Sale>, m: HistogramMetric)
    ensures var h := HistogramOf(recent, m);
      var vs := MetricValues(recent, m);
      var b := BinSize(MaxOf(vs));
      && (forall i :: 0 <= i < BinCount ==> h.counts[i] == CountIn(vs, b, i))
      && Total(h.counts) == NonNegative(vs)
  {
    var vs := MetricValues(recent, m);
    var b := BinSize(MaxOf(vs));
    CountsAreCountIn(vs, b);
    CountsConserve(vs, b);
  }

  /** When no value is negative, as for amounts and quantities, the counts
      add up to the number of sales. */
  lemma HistogramCountsEverySale(recent: seq<Sale>, m: HistogramMetric)
    requires forall i :: 0 <= i < |recent| ==> MetricValues(recent, m)[i] >= 0
    ensures Total(HistogramOf(recent, m).counts) == |recent|
  {
    var vs := MetricValues(recent, m);
    HistogramSpec(recent, m);
    AllNonNegative(vs);
  }

  lemma {:induction false} AllNonNegative(vs: seq<int>)
    requires forall i :: 0 <= i < |vs| ==> vs[i] >= 0
    ensures NonNegative(vs) == |vs|
  {
    if |vs| > 0 {
      AllNonNegative(vs[..|vs| - 1]);
    }
  }

  // ---------------------------------------------------------------------
  // Date window

  /** `Number(part)` for one field of a split `YYYY-MM-DD` string. The empty
      string is 0 and a plain decimal numeral is its value; every other
      string is read as NaN here. */
  function NumberOfPart(s: string): (n: Option<int>)
    ensures Text.IsNumeral(s, 10) ==> n == Some(Text.NumeralValue(s, 10))
    ensures !Text.IsNumeral(s, 10) ==> n.None?
  {
    if Text.IsNumeral(s, 10) then Some(Text.NumeralValue(s, 10)) else None
  }

  /** `(x || 1)` for the month or day field `k`: a missing field, NaN and 0
      are falsy and give 1. */
  function FieldOrOne(parts: seq<string>, k: nat): (v: int)
    ensures v != 0
    ensures k < |parts| && NumberOfPart(parts[k]).Some? && NumberOfPart(parts[k]).value != 0 ==>
      v == NumberOfPart(parts[k]).value
  {
    if k < |parts| && NumberOfPart(parts[k]).Some? && NumberOfPart(parts[k]).value != 0
    then NumberOfPart(parts[k]).value else 1
  }

  /** The day number of `new Date(y, m - 1, d)`: a year in 0..99 is read as
      1900 + year, then a month outside 1..12 carries into the year and a
      day outside the month carries into the neighbouring months. */
  function LocalDay(y: int, m: int, d: int): int {
    var yr := if 0 <= y <= 99 then 1900 + y else y;
    var mi := m - 1;
    DaysFromCivil(Date(yr + mi / 12, mi % 12 + 1, d))
  }

  /** `parseYMD`; a year that is NaN gives an invalid date, `None`. */
  function ParseYmd(s: string): Option<int> {
    var parts := Text.Split(s, '-');
    var y := NumberOfPart(parts[0]);
    if y.None? then None else Some(LocalDay(y.value, FieldOrOne(parts, 1), FieldOrOne(parts, 2)))
  }

  /** `formatLocal`: the year as `String` writes it, month and day padded to
      two digits, the same text as a day key. */
  function FormatLocal(z: int): string {
    Timeseries.DayKey(CivilFromDays(z))
  }

  /** `parseInt(appliedDateRange || '30')`, with 30 for a non-finite
      result. */
  function RangeDays(appliedRange: string): (n: int)
    ensures appliedRange != "" && Text.ParseInt(appliedRange).Num? ==> n == Text.ParseInt(appliedRange).value
    ensures appliedRange != "" && Text.ParseInt(appliedRange).NaN? ==> n == 30
  {
    var raw := if appliedRange == "" then "30" else appliedRange;
    match Text.ParseInt(raw)
    case NaN => 30
    case Num(v) => v
  }

  /** An empty applied range means 30 days. */
  lemma RangeDaysDefault()
    ensures RangeDays("") == 30
  {
    ThirtyDigits();
    ReadsBack("30", 30);
  }

  lemma ThirtyDigits()
    ensures Text.IntToString(30) == "30"
  {
    assert Text.DigitChar(3) == '3' && Text.DigitChar(0) == '0';
    assert Text.NatToString(30) == Text.NatToString(3) + "0";
  }

  /** `parseInt` reads back the numeral `String` writes. */
  lemma ReadsBack(s: string, n: int)
    requires s == Text.IntToString(n)
    ensures Text.ParseInt(s) == Text.Num(n)
  {
    Text.ParseIntOfIntToString(n);
  }

  /** Start and end day of the requested window. */
  datatype DayWindow = DayWindow(start: int, end: int)

  /** `setDate(getDate() - range)` on the end date: the same year and month,
      the day of the month moved back, which moves the day number back by
      `range`. */
  function MoveBack(end: int, range: int): (start: int)
    ensures start == end - range
  {
    MoveBackValue(end, range);
    var e := CivilFromDays(end);
    DaysFromCivil(Date(e.year, e.month, e.day - range))
  }

  lemma MoveBackValue(end: int, range: int)
    ensures var e := CivilFromDays(end);
      DaysFromCivil(Date(e.year, e.month, e.day - range)) == end - range
  {
    var e := CivilFromDays(end);
    DayShift(e, end, e.day - range);
  }

  /** A day of the month outside the month carries into the neighbouring
      months: the day number moves by the same amount. */
  lemma DayShift(d: Date, z: int, day: int)
    requires 1 <= d.month <= 12 && DaysFromCivil(d) == z
    ensures DaysFromCivil(Date(d.year, d.month, day)) == z + day - d.day
  {
  }

  /** The window the page requests: it ends on the applied date, or on
      `today` when none is applied, and starts `range` days earlier. An
      unreadable applied date makes both ends invalid. */
  function DateWindow(appliedDate: Option<string>, appliedRange: string, today: int): (w: Option<DayWindow>)
    ensures w.Some? ==> w.value.start == w.value.end - RangeDays(appliedRange)
    ensures appliedDate.None? || appliedDate == Some("") ==> w.Some? && w.value.end == today
    ensures appliedDate.Some? && appliedDate.value != "" ==>
      (w.Some? <==> ParseYmd(appliedDate.value).Some?) &&
      (w.Some? ==> w.value.end == ParseYmd(appliedDate.value).value)
  {
    var end := if appliedDate.None? || appliedDate.value == "" then Some(today) else ParseYmd(appliedDate.value);
    if end.None? then None else Some(DayWindow(MoveBack(end.value, RangeDays(appliedRange)), end.value))
  }

  /** The `startDate` and `endDate` strings of the request; an invalid date
      formats as "NaN-NaN-NaN". */
  function WindowStrings(w: Option<DayWindow>): (string, string) {
    if w.None? then ("NaN-NaN-NaN", "NaN-NaN-NaN") else (FormatLocal(w.value.start), FormatLocal(w.value.end))
  }

  /** Applying a date the page itself formatted gives the window that ends
      on that day and spans the applied range. */
  lemma WindowOfFormattedDate(z: int, appliedRange: string, today: int)
    requires CivilFromDays(z).year >= 100
    ensures var w := DateWindow(Some(FormatLocal(z)), appliedRange, today);
      w.Some? && w.value.start == z - RangeDays(appliedRange) && w.value.end == z
  {
    FormatParseRoundTrip(z);
    FormatLocalNonEmpty(z);
    WindowOfParsed(FormatLocal(z), z, appliedRange, today);
  }

  lemma WindowOfParsed(s: string, z: int, appliedRange: string, today: int)
    requires s != "" && ParseYmd(s) == Some(z)
    ensures var w := DateWindow(Some(s), appliedRange, today);
      w.Some? && w.value.start == z - RangeDays(appliedRange) && w.value.end == z
  {
  }

  lemma FormatLocalNonEmpty(z: int)
    ensures FormatLocal(z) != ""
  {
    var d := CivilFromDays(z);
    assert FormatLocal(z) == Text.IntToString(d.year) + "-" + Text.TwoDigits(d.month) + "-" + Text.TwoDigits(d.day);
  }

  /** A day the page formats is read back by its own parser, for years from
      100 on (earlier years are read as 1900 + year). */
  lemma FormatParseRoundTrip(z: int)
    requires CivilFromDays(z).year >= 100
    ensures ParseYmd(FormatLocal(z)) == Some(z)
  {
    var d := CivilFromDays(z);
    var ys, ms, ds := Text.IntToString(d.year), Text.TwoDigits(d.month), Text.TwoDigits(d.day);
    Text.NatToStringValue(d.year);
    Text.TwoDigitsValue(d.month);
    Text.TwoDigitsValue(d.day);
    NoDashInNumeral(ys);
    NoDashInNumeral(ms);
    NoDashInNumeral(ds);
    assert FormatLocal(z) == ys + ['-'] + ms + ['-'] + ds;
    Text.SplitThree(ys, ms, ds, '-');
    ParseThreeFields(FormatLocal(z), ys, ms, ds, d);
  }

  /** A string that splits into three numerals of a date from year 100 on,
      with a month in 1..12 and a positive day, parses to that date. */
  lemma ParseThreeFields(s: string, ys: string, ms: string, ds: string, d: Date)
    requires Text.Split(s, '-') == [ys, ms, ds]
    requires d.year >= 100 && 1 <= d.month <= 12 && d.day >= 1
    requires Text.IsNumeral(ys, 10) && Text.NumeralValue(ys, 10) == d.year
    requires Text.IsNumeral(ms, 10) && Text.NumeralValue(ms, 10) == d.month
    requires Text.IsNumeral(ds, 10) && Text.NumeralValue(ds, 10) == d.day
    ensures ParseYmd(s) == Some(DaysFromCivil(d))
  {
    var parts := Text.Split(s, '-');
    assert NumberOfPart(parts[0]) == Some(d.year);
    assert FieldOrOne(parts, 1) == d.month;
    assert FieldOrOne(parts, 2) == d.day;
    LocalDayInRange(d);
  }

  /** Without the two-digit-year quirk and the month carry, the local
      constructor gives the day number of the date itself. */
  lemma LocalDayInRange(d: Date)
    requires d.year >= 100 && 1 <= d.month <= 12
    ensures LocalDay(d.year, d.month, d.day) == DaysFromCivil(d)
  {
    var mi := d.month - 1;
    assert mi / 12 == 0 && mi % 12 + 1 == d.month;
  }

  lemma NoDashInNumeral(s: string)
    requires Text.IsNumeral(s, 10)
    ensures '-' !in s
  {
    assert forall i :: 0 <= i < |s| ==> Text.DigitValue(s[i], 10) >= 0;
    assert Text.DigitValue('-', 10) < 0;
  }

  /** A missing or zero month or day reads as 1: "2024" is 1 January
      2024. */
  lemma MissingFieldsAreOne(y: nat)
    requires y >= 100
    ensures ParseYmd(Text.IntToString(y)) == Some(DaysFromCivil(Date(y, 1, 1)))
  {
    var s := Text.IntToString(y);
    Text.NatToStringValue(y);
    NoDashInNumeral(s);
    Text.SplitNone(s, '-');
    ParseYearOnly(s, Date(y, 1, 1));
  }

  /** A string that splits into one numeral reads as 1 January of that
      year. */
  lemma ParseYearOnly(s: string, d: Date)
    requires Text.Split(s, '-') == [s]
    requires d.year >= 100 && d.month == 1 && d.day == 1
    requires Text.IsNumeral(s, 10) && Text.NumeralValue(s, 10) == d.year
    ensures ParseYmd(s) == Some(DaysFromCivil(d))
  {
    var parts := Text.Split(s, '-');
    assert NumberOfPart(parts[0]) == Some(d.year);
    assert FieldOrOne(parts, 1) == 1 && FieldOrOne(parts, 2) == 1;
    LocalDayInRange(d);
  }

  // ---------------------------------------------------------------------
  // Sale id search

  /** The id the search box navigates to: the trimmed input must be
      non-empty and `parseInt` must read a positive number from it;
      otherwise nothing happens. The Enter key and the button run the same
      check. */
  function SaleIdTarget(input: string): (id: Option<int>)
    ensures id.Some? <==>
      Text.Trim(input) != "" && Text.ParseInt(Text.Trim(input)).Num? && Text.ParseInt(Text.Trim(input)).value > 0
    ensures id.Some? ==> id.value == Text.ParseInt(Text.Trim(input)).value && id.value > 0
  {
    var t := Text.Trim(input);
    if t == "" then None
    else match Text.ParseInt(t)
      case NaN => None
      case Num(v) => if v > 0 then Some(v) else None
  }

  /** The path of the detail page of a sale. */
  function DetailPath(id: int): string {
    "/detalle/" + Text.IntToString(id)
  }

  /** A positive id typed as a numeral leads to its own detail page; zero and
      negative ids lead nowhere. */
  lemma SaleIdRoundTrip(k: int)
    ensures SaleIdTarget(Text.IntToString(k)) == if k > 0 then Some(k) else None
  {
    Text.TrimIntToString(k);
    Text.ParseIntOfIntToString(k);
  }
}
