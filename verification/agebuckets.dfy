/** The age-buckets route: a histogram of the customer ages of the sales in
    a date range, over bucket edges read from a JSON array parameter. The
    edges are sorted; bucket `i` runs from edge `i` up to the next edge, and
    the last bucket is open-ended. An age is counted in the first bucket
    that contains it, and in the last bucket when none does. */
module AgeBuckets {
  import opened Wrappers
  import Text
  import opened Sales
  import opened Grouping
  import Sorting

  const DefaultEdges: seq<int> := [18, 25, 35, 45, 55, 65, 80]

  /** An element of the parsed `buckets` array: a finite number, or any other
      JSON value (a string, `null`, an object, ...). */
  datatype JsonElem = FiniteNumber(n: int) | OtherValue

  /** The `buckets` parameter after `JSON.parse`: missing or empty, not
      JSON, JSON but not an array, or an array. */
  datatype BucketsParam = Absent | Unparseable | NotAnArray | JsonArray(elems: seq<JsonElem>)

  predicate AllFinite(elems: seq<JsonElem>) {
    forall i :: 0 <= i < |elems| ==> elems[i].FiniteNumber?
  }

  /** `parseBuckets`: an array of finite numbers is taken as it is, the empty
      array included; anything else gives the default edges. */
  function ParseBuckets(p: BucketsParam): (edges: seq<int>)
    ensures p.JsonArray? && AllFinite(p.elems) ==>
      |edges| == |p.elems| && forall i :: 0 <= i < |edges| ==> p.elems[i] == FiniteNumber(edges[i])
    ensures !(p.JsonArray? && AllFinite(p.elems)) ==> edges == DefaultEdges
  {
    if p.JsonArray? && AllFinite(p.elems) then seq(|p.elems|, i requires 0 <= i < |p.elems| => p.elems[i].n)
    else DefaultEdges
  }

  /** The JSON array of a list of edges. */
  function ToJson(edges: seq<int>): (p: BucketsParam)
    ensures p.JsonArray? && AllFinite(p.elems) && |p.elems| == |edges|
  {
    JsonArray(seq(|edges|, i requires 0 <= i < |edges| => FiniteNumber(edges[i])))
  }

  /** Any list of edges sent as a JSON array is read back unchanged; in
      particular the empty array is not replaced by the defaults. */
  lemma ParseBucketsRoundTrip(edges: seq<int>)
    ensures ParseBuckets(ToJson(edges)) == edges
  {
  }

  // ---------------------------------------------------------------------
  // Labels

  /** The label of the open-ended last bucket; with no edges the last edge
      is `undefined`. */
  function OpenLabel(edges: seq<int>): string {
    if |edges| == 0 then "undefined+" else Text.IntToString(edges[|edges| - 1]) + "+"
  }

  /** Number of buckets the route emits: one per edge, and one when there
      are no edges. */
  function Slots(edges: seq<int>): nat {
    if |edges| == 0 then 1 else |edges|
  }

  /** The label of a closed bucket from `lo` up to, not including, `hi`. */
  function RangeLabel(lo: int, hi: int): string {
    Text.IntToString(lo) + "-" + Text.IntToString(hi - 1)
  }

  /** `f` of each pair of neighbouring elements, in order. */
  function Neighbours<T>(xs: seq<int>, f: (int, int) -> T): (ys: seq<T>)
    ensures |ys| == if |xs| == 0 then 0 else |xs| - 1
    ensures forall i :: 0 <= i < |ys| ==> ys[i] == f(xs[i], xs[i + 1])
  {
    if |xs| == 0 then [] else seq(|xs| - 1, i requires 0 <= i < |xs| - 1 => f(xs[i], xs[i + 1]))
  }

  function Labels(edges: seq<int>): (ls: seq<string>)
    ensures |ls| == Slots(edges)
    ensures forall i :: 0 <= i < |edges| - 1 ==> ls[i] == RangeLabel(edges[i], edges[i + 1])
    ensures ls[|ls| - 1] == OpenLabel(edges)
  {
    Neighbours(edges, RangeLabel) + [OpenLabel(edges)]
  }

  // ---------------------------------------------------------------------
  // Bucket of an age

  /** Bucket `i` (not the last) holds `age` by the route's test. */
  predicate InHalfOpen(edges: seq<int>, i: int, age: int)
    requires 0 <= i < |edges| - 1
  {
    edges[i] <= age < edges[i + 1]
  }

  /** The route's inner loop, from position `i` on. */
  function FirstBucket(edges: seq<int>, age: int, i: nat): (r: int)
    requires i <= |edges|
    ensures r == |edges| - 1 || (i <= r < |edges| - 1 && InHalfOpen(edges, r, age))
    ensures forall j :: i <= j < |edges| - 1 && j < r ==> !InHalfOpen(edges, j, age)
    ensures r == |edges| - 1 ==> forall j :: i <= j < |edges| - 1 ==> !InHalfOpen(edges, j, age)
    decreases |edges| - i
  {
    if i + 1 >= |edges| then |edges| - 1
    else if edges[i] <= age < edges[i + 1] then i
    else FirstBucket(edges, age, i + 1)
  }

  /** The bucket of an age: the first bucket whose half-open range holds it,
      and the last bucket (index -1 when there are no edges) when none
      does. */
  function BucketIndex(edges: seq<int>, age: int): (r: int)
    ensures r == |edges| - 1 || (0 <= r < |edges| - 1 && InHalfOpen(edges, r, age))
    ensures forall j :: 0 <= j < r && j < |edges| - 1 ==> !InHalfOpen(edges, j, age)
    ensures r == |edges| - 1 ==> forall j :: 0 <= j < |edges| - 1 ==> !InHalfOpen(edges, j, age)
  {
    FirstBucket(edges, age, 0)
  }

  /** On ascending edges, an age at or above the first edge falls in the
      bucket whose label range holds it: below the next edge, and for the
      last bucket at or above the last edge. */
  lemma BucketHoldsAge(edges: seq<int>, age: int)
    requires Sorting.Ascending(edges) && |edges| >= 1 && age >= edges[0]
    ensures var r := BucketIndex(edges, age);
      && 0 <= r < |edges|
      && edges[r] <= age
      && (r < |edges| - 1 ==> age < edges[r + 1])
  {
    var r := BucketIndex(edges, age);
    if r == |edges| - 1 {
      AboveEdges(edges, age, |edges| - 1);
    }
  }

  /** When no bucket before `k` holds an age at or above the first edge, the
      age is at or above edge `k`. */
  lemma {:induction false} AboveEdges(edges: seq<int>, age: int, k: nat)
    requires |edges| >= 1 && age >= edges[0] && k < |edges|
    requires forall j :: 0 <= j < |edges| - 1 ==> !InHalfOpen(edges, j, age)
    ensures age >= edges[k]
  {
    if k > 0 {
      AboveEdges(edges, age, k - 1);
      assert !InHalfOpen(edges, k - 1, age);
    }
  }

  /** On ascending edges an age below the first edge falls through to the
      open-ended last bucket. */
  lemma BelowFirstEdge(edges: seq<int>, age: int)
    requires Sorting.Ascending(edges) && |edges| >= 1 && age < edges[0]
    ensures BucketIndex(edges, age) == |edges| - 1
  {
    assert forall j :: 0 <= j < |edges| - 1 ==> edges[0] <= edges[j];
  }

  /** The labels of the first and the open-ended bucket under the default
      edges. */
  lemma DefaultLabelExamples(e: seq<int>)
    requires e == DefaultEdges
    ensures Labels(e)[0] == "18-24" && Labels(e)[6] == "80+"
  {
    assert e[0] == 18 && e[1] - 1 == 24 && e[6] == 80 && |e| == 7;
    LabelTexts();
  }

  lemma LabelTexts()
    ensures Text.IntToString(18) + "-" + Text.IntToString(24) == "18-24"
    ensures Text.IntToString(80) + "+" == "80+"
  {
    assert Text.IntToString(18) == "18" && Text.IntToString(24) == "24" && Text.IntToString(80) == "80";
  }

  /** Under the default edges 18 and 24 fall in the first bucket; 80 and 95
      in the open-ended one; 17, below every edge, falls through to it too. */
  lemma DefaultBucketExamples()
    ensures BucketIndex(DefaultEdges, 17) == 6
    ensures BucketIndex(DefaultEdges, 18) == 0 && BucketIndex(DefaultEdges, 24) == 0
    ensures BucketIndex(DefaultEdges, 80) == 6 && BucketIndex(DefaultEdges, 95) == 6
  {
    BelowFirstEdge(DefaultEdges, 17);
  }

  // ---------------------------------------------------------------------
  // Counting

  datatype Tallies = Tallies(count: seq<int>, revenue: seq<int>)

  /** One pass of the route's loop: a sale without an age is skipped, any
      other adds one and its amount to the slot of its bucket. Index -1
      (no edges) names no slot of the arrays and changes nothing. */
  function AddSale(t: Tallies, edges: seq<int>, x: Sale): (t': Tallies)
    requires |t.count| == |t.revenue|
    ensures |t'.count| == |t.count| && |t'.revenue| == |t.revenue|
  {
    if x.customerAge.None? then t
    else
      var idx := BucketIndex(edges, x.customerAge.value);
      if 0 <= idx < |t.count| then Tallies(t.count[idx := t.count[idx] + 1], t.revenue[idx := t.revenue[idx] + x.amount])
      else t
  }

  /** The route's loop over the sales, from zeroed arrays. */
  function Tally(rows: seq<Sale>, edges: seq<int>): (t: Tallies)
    ensures |t.count| == Slots(edges) && |t.revenue| == Slots(edges)
  {
    if |rows| == 0 then Tallies(Zeros(Slots(edges)), Zeros(Slots(edges)))
    else AddSale(Tally(rows[..|rows| - 1], edges), edges, rows[|rows| - 1])
  }

  /** The sales with a known age whose age falls in bucket `i`. */
  function InBucket(rows: seq<Sale>, edges: seq<int>, i: int): (r: seq<Sale>)
    ensures forall x :: x in r <==> x in rows && x.customerAge.Some? && BucketIndex(edges, x.customerAge.value) == i
  {
    if |rows| == 0 then []
    else
      var x := rows[|rows| - 1];
      InBucket(rows[..|rows| - 1], edges, i)
        + (if x.customerAge.Some? && BucketIndex(edges, x.customerAge.value) == i then [x] else [])
  }

  /** The sales with a known age. */
  function Aged(rows: seq<Sale>): (r: seq<Sale>)
    ensures forall x :: x in r <==> x in rows && x.customerAge.Some?
  {
    if |rows| == 0 then []
    else Aged(rows[..|rows| - 1]) + (if rows[|rows| - 1].customerAge.Some? then [rows[|rows| - 1]] else [])
  }

  /** Slot `i` counts the sales of bucket `i` and sums their amounts. */
  lemma {:induction false} TallyIsInBucket(rows: seq<Sale>, edges: seq<int>)
    ensures var t := Tally(rows, edges);
      forall i :: 0 <= i < Slots(edges) ==>
        t.count[i] == |InBucket(rows, edges, i)| && t.revenue[i] == Sum(InBucket(rows, edges, i), Amount)
  {
    if |rows| > 0 {
      var t := Tally(rows, edges);
      TallyIsInBucket(rows[..|rows| - 1], edges);
      forall i | 0 <= i < Slots(edges)
        ensures t.count[i] == |InBucket(rows, edges, i)| && t.revenue[i] == Sum(InBucket(rows, edges, i), Amount)
      {
        InBucketStep(rows, edges, i);
      }
    }
  }

  /** The last sale joins bucket `i` exactly when it has an age in it. */
  lemma InBucketStep(rows: seq<Sale>, edges: seq<int>, i: int)
    requires |rows| >= 1
    ensures var sel, prev := InBucket(rows, edges, i), InBucket(rows[..|rows| - 1], edges, i);
      var x := rows[|rows| - 1];
      var added := x.customerAge.Some? && BucketIndex(edges, x.customerAge.value) == i;
      |sel| == |prev| + (if added then 1 else 0)
      && Sum(sel, Amount) == Sum(prev, Amount) + (if added then x.amount else 0)
  {
    var prev := InBucket(rows[..|rows| - 1], edges, i);
    var x := rows[|rows| - 1];
    if x.customerAge.Some? && BucketIndex(edges, x.customerAge.value) == i {
      var sel := prev + [x];
      assert sel[..|sel| - 1] == prev;
    } else {
      assert prev + [] == prev;
    }
  }

  /** With at least one edge every sale with a known age is counted once:
      the counts add up to the number of such sales and the revenues to
      their amounts. */
  lemma {:induction false} TallyConserves(rows: seq<Sale>, edges: seq<int>)
    requires |edges| >= 1
    ensures Total(Tally(rows, edges).count) == |Aged(rows)|
    ensures Total(Tally(rows, edges).revenue) == Sum(Aged(rows), Amount)
  {
    if |rows| == 0 {
      TotalZeros(|edges|);
    } else {
      TallyConserves(rows[..|rows| - 1], edges);
      TallyStep(Tally(rows[..|rows| - 1], edges), edges, rows[|rows| - 1]);
      AgedStep(rows);
    }
  }

  /** With at least one edge, a sale adds one and its amount to the totals
      when its age is known, and nothing otherwise. */
  lemma TallyStep(t: Tallies, edges: seq<int>, x: Sale)
    requires |edges| >= 1 && |t.count| == |t.revenue| == |edges|
    ensures Total(AddSale(t, edges, x).count) == Total(t.count) + (if x.customerAge.Some? then 1 else 0)
    ensures Total(AddSale(t, edges, x).revenue) == Total(t.revenue) + (if x.customerAge.Some? then x.amount else 0)
  {
    if x.customerAge.Some? {
      var idx := BucketIndex(edges, x.customerAge.value);
      TotalUpdate(t.count, idx, 1);
      TotalUpdate(t.revenue, idx, x.amount);
    }
  }

  lemma AgedStep(rows: seq<Sale>)
    requires |rows| >= 1
    ensures var a, a' := Aged(rows[..|rows| - 1]), Aged(rows);
      var x := rows[|rows| - 1];
      && |a'| == |a| + (if x.customerAge.Some? then 1 else 0)
      && Sum(a', Amount) == Sum(a, Amount) + (if x.customerAge.Some? then x.amount else 0)
  {
    var a := Aged(rows[..|rows| - 1]);
    var x := rows[|rows| - 1];
    if x.customerAge.Some? {
      var a' := a + [x];
      assert a'[..|a'| - 1] == a;
    } else {
      assert a + [] == a;
    }
  }

  /** With no edges nothing is counted: the one slot stays at zero. */
  lemma {:induction false} TallyNoEdges(rows: seq<Sale>)
    ensures Tally(rows, []) == Tallies([0], [0])
  {
    if |rows| > 0 {
      TallyNoEdges(rows[..|rows| - 1]);
    }
  }

  /** A sale with a known age lies in exactly one bucket, the one of its
      age, which is a slot of the arrays when there is an edge; a sale
      without an age lies in none. */
  lemma ExactlyOneBucket(rows: seq<Sale>, edges: seq<int>, x: Sale, i: int)
    requires x in rows
    ensures x in InBucket(rows, edges, i) <==> x.customerAge.Some? && i == BucketIndex(edges, x.customerAge.value)
    ensures x.customerAge.Some? && |edges| >= 1 ==> 0 <= BucketIndex(edges, x.customerAge.value) < Slots(edges)
  {
  }

  // ---------------------------------------------------------------------
  // The route

  datatype AgeHistogram = AgeHistogram(labels: seq<string>, count: seq<int>, revenue: seq<int>)

  /** `GET /api/metrics/age-buckets`: date filter only, edges sorted
      ascending, one label, count and revenue per bucket. */
  function AgeBucketsRoute(sales: seq<Sale>, p: Params, buckets: BucketsParam): (h: AgeHistogram)
    ensures |h.labels| == |h.count| == |h.revenue| == Slots(ParseBuckets(buckets))
  {
    var edges := Sorting.SortAsc(ParseBuckets(buckets));
    var t := Tally(Where(sales, DateFilter(p)), edges);
    AgeHistogram(Labels(edges), t.count, t.revenue)
  }

  /** The histogram depends on the edges only as a collection: any two
      parameters listing the same edges in any order give the same result. */
  lemma EdgeOrderIrrelevant(sales: seq<Sale>, p: Params, b1: BucketsParam, b2: BucketsParam)
    requires multiset(ParseBuckets(b1)) == multiset(ParseBuckets(b2))
    ensures AgeBucketsRoute(sales, p, b1) == AgeBucketsRoute(sales, p, b2)
  {
    Sorting.AscendingUnique(Sorting.SortAsc(ParseBuckets(b1)), Sorting.SortAsc(ParseBuckets(b2)));
  }

  /** Category, region and search term do not narrow the histogram. */
  lemma AgeBucketsIgnoresOtherParams(sales: seq<Sale>, p: Params, q: Params, b: BucketsParam)
    requires p.startDate == q.startDate && p.endDate == q.endDate
    ensures AgeBucketsRoute(sales, p, b) == AgeBucketsRoute(sales, q, b)
  {
  }
}
