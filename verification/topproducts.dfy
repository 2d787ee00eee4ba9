/** The top-products route: the products of the filtered sales ranked by
    revenue or by units, cut to a limit. */
module TopProducts {
  import opened Wrappers
  import Text
  import opened Sales
  import opened Grouping
  import Sorting

  const DefaultLimit: int := 10
  const MaxLimit: int := 50

  /** `Math.max(1, Math.min(50, parseInt(param || '10')))`. A missing or
      empty parameter reads as "10"; a parameter `parseInt` cannot read
      stays NaN through both bounds and is `None` here. */
  function ParseLimit(param: Option<string>): (l: Option<int>)
    ensures l.Some? ==> 1 <= l.value <= MaxLimit
    ensures param.Some? && param.value != "" ==>
      match Text.ParseInt(param.value)
      case NaN => l.None?
      case Num(n) => (l.Some? && (1 <= n <= MaxLimit ==> l.value == n)
        && (n > MaxLimit ==> l.value == MaxLimit) && (n < 1 ==> l.value == 1))
  {
    var raw := if param.None? || param.value == "" then "10" else param.value;
    match Text.ParseInt(raw)
    case NaN => None
    case Num(n) => Some(if n < 1 then 1 else if n > MaxLimit then MaxLimit else n)
  }

  /** Without a usable parameter the limit is ten. */
  lemma LimitDefault(param: Option<string>)
    requires param.None? || param == Some("")
    ensures ParseLimit(param) == Some(DefaultLimit)
  {
    Text.ParseIntOfIntToString(10);
    assert Text.IntToString(10) == "10";
  }

  /** Any limit from 1 to 50 written as a numeral is read back as it is. */
  lemma LimitRoundTrip(n: int)
    requires 1 <= n <= MaxLimit
    ensures ParseLimit(Some(Text.IntToString(n))) == Some(n)
  {
    Text.ParseIntOfIntToString(n);
  }

  /** `searchParams.get('sort') ?? 'revenue'`: only a missing parameter is
      replaced; an empty one stays empty. */
  function SortName(param: Option<string>): (sort: string)
    ensures param.Some? ==> sort == param.value
    ensures param.None? ==> sort == "revenue"
  {
    param.GetOr("revenue")
  }

  /** The per-sale measure a sort name selects: the amount for "revenue",
      the quantity for any other value. */
  function Metric(sort: string): Sale -> int {
    if sort == "revenue" then Amount else Quantity
  }

  /** The value of a group under a sort name, a null sum read as 0. */
  function Value(g: Group, sort: string): int {
    if sort == "revenue" then g.sumAmount.GetOr(0) else g.sumQuantity.GetOr(0)
  }

  function Rank(sort: string): Group -> int {
    g => Value(g, sort)
  }

  /** The value of the group of product `k` is the metric summed over the
      sales of that product. */
  lemma ValueOfGroup(rows: seq<Sale>, k: string, sort: string)
    ensures Value(GroupRow(rows, Product, k), sort) == Sum(Select(rows, Product, k), Metric(sort))
  {
  }

  /** `slice(0, limit)`; a NaN end reads as 0. */
  function Take<T>(xs: seq<T>, limit: Option<int>): (r: seq<T>)
    ensures limit.None? ==> r == []
    ensures limit.Some? && limit.value >= 0 ==>
      |r| == (if limit.value < |xs| then limit.value else |xs|) && r == xs[..|r|]
  {
    if limit.None? || limit.value <= 0 then []
    else if limit.value < |xs| then xs[..limit.value]
    else xs
  }

  datatype TopResult = TopResult(labels: seq<string>, values: seq<int>, sort: string)

  /** The groups of the filtered sales by product, ranked by the metric,
      highest first. */
  function Ranked(rows: seq<Sale>, sort: string): (ranked: seq<Group>)
    ensures Sorting.DescendingBy(ranked, Rank(sort))
    ensures multiset(ranked) == multiset(GroupBy(rows, Product))
  {
    Sorting.SortDesc(GroupBy(rows, Product), Rank(sort))
  }

  /** The ranked groups cut to the limit. */
  function Top(rows: seq<Sale>, sort: string, limit: Option<int>): (top: seq<Group>)
    requires limit.None? || limit.value >= 1
    ensures limit.None? ==> top == []
    ensures limit.Some? ==> |top| == (if limit.value < ProductCount(rows) then limit.value else ProductCount(rows))
    ensures top == Ranked(rows, sort)[..|top|]
  {
    RankedGroups(rows, sort);
    Take(Ranked(rows, sort), limit)
  }

  /** `GET /api/metrics/top-products`. */
  function TopProductsRoute(sales: seq<Sale>, p: Params, sortParam: Option<string>, limitParam: Option<string>): (r: TopResult)
    ensures |r.labels| == |r.values|
    ensures r.sort == SortName(sortParam)
  {
    var sort := SortName(sortParam);
    var top := Top(Where(sales, SearchFilter(p)), sort, ParseLimit(limitParam));
    TopResult(RowKeys(top), seq(|top|, i requires 0 <= i < |top| => Value(top[i], sort)), sort)
  }

  // ---------------------------------------------------------------------
  // Properties of the ranking

  /** The number of distinct products among the sales. */
  function ProductCount(rows: seq<Sale>): nat {
    |Distinct(KeysOf(rows, Product))|
  }

  /** A sequence without repeats keeps that property under any
      rearrangement. */
  lemma {:induction false} NoDuplicatesPermutation<T>(a: seq<T>, b: seq<T>)
    requires NoDuplicates(a) && multiset(a) == multiset(b)
    ensures NoDuplicates(b)
  {
    forall i, j | 0 <= i < j < |b| ensures b[i] != b[j] {
      if b[i] == b[j] {
        TwiceCounted(b, i, j);
        AtMostOnce(a, b[i]);
        assert false;
      }
    }
  }

  lemma TwiceCounted<T>(b: seq<T>, i: int, j: int)
    requires 0 <= i < j < |b| && b[i] == b[j]
    ensures multiset(b)[b[i]] >= 2
  {
    assert b == b[..j] + b[j..];
    assert b[i] in b[..j] && b[j] in b[j..];
    assert multiset(b) == multiset(b[..j]) + multiset(b[j..]);
  }

  lemma {:induction false} AtMostOnce<T>(a: seq<T>, x: T)
    requires NoDuplicates(a)
    ensures multiset(a)[x] <= 1
  {
    if |a| > 0 {
      var init := a[..|a| - 1];
      assert a == init + [a[|a| - 1]];
      assert NoDuplicates(init);
      AtMostOnce(init, x);
      if a[|a| - 1] == x {
        assert x !in init;
      }
    }
  }

  /** Every ranked group is the group of its own key, a product of the
      sales; the keys are distinct; every product of the sales has its
      group among the ranked ones. */
  lemma RankedGroups(rows: seq<Sale>, sort: string)
    ensures var ranked := Ranked(rows, sort);
      && |ranked| == ProductCount(rows)
      && (forall i :: 0 <= i < |ranked| ==>
            ranked[i] == GroupRow(rows, Product, ranked[i].key) && ranked[i].key in KeysOf(rows, Product))
      && NoDuplicates(RowKeys(ranked))
      && (forall k :: k in KeysOf(rows, Product) ==> GroupRow(rows, Product, k) in ranked)
  {
    var ranked := Ranked(rows, sort);
    var grouped := GroupBy(rows, Product);
    assert |ranked| == |grouped| by {
      assert |multiset(ranked)| == |multiset(grouped)|;
    }
    RankedMembers(rows, sort);
    RankedDistinct(rows, sort);
    RankedComplete(rows, sort);
  }

  lemma RankedMembers(rows: seq<Sale>, sort: string)
    ensures var ranked := Ranked(rows, sort);
      forall i :: 0 <= i < |ranked| ==>
        ranked[i] == GroupRow(rows, Product, ranked[i].key) && ranked[i].key in KeysOf(rows, Product)
  {
    var ranked := Ranked(rows, sort);
    var grouped := GroupBy(rows, Product);
    var ks := Distinct(KeysOf(rows, Product));
    forall i | 0 <= i < |ranked|
      ensures ranked[i] == GroupRow(rows, Product, ranked[i].key) && ranked[i].key in KeysOf(rows, Product)
    {
      assert ranked[i] in multiset(grouped);
      var m :| 0 <= m < |grouped| && grouped[m] == ranked[i];
      assert grouped[m] == GroupRow(rows, Product, ks[m]);
      assert ks[m] in ks;
    }
  }

  lemma RankedDistinct(rows: seq<Sale>, sort: string)
    ensures NoDuplicates(RowKeys(Ranked(rows, sort)))
  {
    var ranked := Ranked(rows, sort);
    var grouped := GroupBy(rows, Product);
    var ks := Distinct(KeysOf(rows, Product));
    assert NoDuplicates(grouped) by {
      forall i, j | 0 <= i < j < |grouped| ensures grouped[i] != grouped[j] {
        assert grouped[i].key == ks[i] && grouped[j].key == ks[j];
      }
    }
    NoDuplicatesPermutation(grouped, ranked);
    RankedMembers(rows, sort);
    forall i, j | 0 <= i < j < |ranked| ensures RowKeys(ranked)[i] != RowKeys(ranked)[j] {
      assert ranked[i] != ranked[j];
    }
  }

  lemma RankedComplete(rows: seq<Sale>, sort: string)
    ensures forall k :: k in KeysOf(rows, Product) ==> GroupRow(rows, Product, k) in Ranked(rows, sort)
  {
    var ranked := Ranked(rows, sort);
    var grouped := GroupBy(rows, Product);
    var ks := Distinct(KeysOf(rows, Product));
    forall k | k in KeysOf(rows, Product) ensures GroupRow(rows, Product, k) in ranked {
      assert k in ks;
      var m :| 0 <= m < |ks| && ks[m] == k;
      assert grouped[m] in multiset(ranked);
    }
  }

  /** The listed products are distinct products of the sales, each with its
      metric summed over its sales. */
  lemma TopValues(rows: seq<Sale>, sort: string, limit: Option<int>)
    requires limit.None? || limit.value >= 1
    ensures var top := Top(rows, sort, limit);
      && NoDuplicates(RowKeys(top))
      && forall i :: 0 <= i < |top| ==>
           top[i].key in KeysOf(rows, Product) && Value(top[i], sort) == Sum(Select(rows, Product, top[i].key), Metric(sort))
  {
    var top := Top(rows, sort, limit);
    var ranked := Ranked(rows, sort);
    RankedGroups(rows, sort);
    forall i | 0 <= i < |top|
      ensures top[i].key in KeysOf(rows, Product) && Value(top[i], sort) == Sum(Select(rows, Product, top[i].key), Metric(sort))
    {
      assert top[i] == ranked[i];
      ValueOfGroup(rows, top[i].key, sort);
    }
    forall i, j | 0 <= i < j < |top| ensures RowKeys(top)[i] != RowKeys(top)[j] {
      assert top[i] == ranked[i] && top[j] == ranked[j];
      assert RowKeys(ranked)[i] != RowKeys(ranked)[j];
    }
  }

  /** The listed values never increase. */
  lemma TopOrdered(rows: seq<Sale>, sort: string, limit: Option<int>)
    requires limit.None? || limit.value >= 1
    ensures var top := Top(rows, sort, limit);
      forall i, j :: 0 <= i < j < |top| ==> Value(top[i], sort) >= Value(top[j], sort)
  {
    var top := Top(rows, sort, limit);
    var ranked := Ranked(rows, sort);
    forall i, j | 0 <= i < j < |top| ensures Value(top[i], sort) >= Value(top[j], sort) {
      assert top[i] == ranked[i] && top[j] == ranked[j];
      assert Rank(sort)(ranked[i]) >= Rank(sort)(ranked[j]);
    }
  }

  /** A product of the sales that the list leaves out is worth no more than
      the last product listed (and then the list is not empty), unless the
      limit is not a number. */
  lemma TopOmitted(rows: seq<Sale>, sort: string, limit: Option<int>, k: string)
    requires limit.Some? && limit.value >= 1
    requires k in KeysOf(rows, Product) && k !in RowKeys(Top(rows, sort, limit))
    ensures var top := Top(rows, sort, limit);
      |top| > 0 && Sum(Select(rows, Product, k), Metric(sort)) <= Value(top[|top| - 1], sort)
  {
    var top := Top(rows, sort, limit);
    var ranked := Ranked(rows, sort);
    RankedGroups(rows, sort);
    var m :| 0 <= m < |ranked| && ranked[m] == GroupRow(rows, Product, k);
    OmittedRanksLower(ranked, top, m);
    var last := |top| - 1;
    assert top[last] == ranked[last];
    assert Rank(sort)(ranked[last]) >= Rank(sort)(ranked[m]);
    ValueOfGroup(rows, k, sort);
  }

  /** A group of the ranking that is not in the cut comes after it. */
  lemma OmittedRanksLower(ranked: seq<Group>, top: seq<Group>, m: int)
    requires 0 <= m < |ranked| && |top| <= |ranked| && top == ranked[..|top|]
    requires ranked[m].key !in RowKeys(top)
    ensures m >= |top|
  {
    assert forall i :: 0 <= i < |top| ==> RowKeys(top)[i] == ranked[i].key;
  }

  /** The response reads the cut groups off in order: their keys as labels
      and their values under the sort name. */
  lemma RouteIsTop(sales: seq<Sale>, p: Params, sortParam: Option<string>, limitParam: Option<string>)
    ensures var r := TopProductsRoute(sales, p, sortParam, limitParam);
      var top := Top(Where(sales, SearchFilter(p)), SortName(sortParam), ParseLimit(limitParam));
      r.labels == RowKeys(top) && |r.values| == |top|
      && forall i :: 0 <= i < |top| ==> r.values[i] == Value(top[i], SortName(sortParam))
  {
  }

  /** The response lists at most `limit` products, and every product when
      there are no more than that; a limit that is not a number gives an
      empty list. Labels are distinct products of the filtered sales, each
      with its summed metric, in non-increasing order of value. */
  lemma TopProductsSpec(sales: seq<Sale>, p: Params, sortParam: Option<string>, limitParam: Option<string>)
    ensures var r := TopProductsRoute(sales, p, sortParam, limitParam);
      var rows := Where(sales, SearchFilter(p));
      var sort := SortName(sortParam);
      var limit := ParseLimit(limitParam);
      && (limit.None? ==> |r.labels| == 0)
      && (limit.Some? ==> |r.labels| == if limit.value < ProductCount(rows) then limit.value else ProductCount(rows))
      && NoDuplicates(r.labels)
      && (forall i :: 0 <= i < |r.labels| ==>
            r.labels[i] in KeysOf(rows, Product) && r.values[i] == Sum(Select(rows, Product, r.labels[i]), Metric(sort)))
      && (forall i, j :: 0 <= i < j < |r.values| ==> r.values[i] >= r.values[j])
  {
    RouteIsTop(sales, p, sortParam, limitParam);
    TopResponse(Where(sales, SearchFilter(p)), SortName(sortParam), ParseLimit(limitParam),
      TopProductsRoute(sales, p, sortParam, limitParam));
  }

  /** A response read off the cut groups lists them by key and value. */
  lemma TopResponse(rows: seq<Sale>, sort: string, limit: Option<int>, r: TopResult)
    requires limit.None? || limit.value >= 1
    requires var top := Top(rows, sort, limit);
      r.labels == RowKeys(top) && |r.values| == |top|
      && forall i :: 0 <= i < |top| ==> r.values[i] == Value(top[i], sort)
    ensures && (limit.None? ==> |r.labels| == 0)
      && (limit.Some? ==> |r.labels| == if limit.value < ProductCount(rows) then limit.value else ProductCount(rows))
      && NoDuplicates(r.labels)
      && (forall i :: 0 <= i < |r.labels| ==>
            r.labels[i] in KeysOf(rows, Product) && r.values[i] == Sum(Select(rows, Product, r.labels[i]), Metric(sort)))
      && (forall i, j :: 0 <= i < j < |r.values| ==> r.values[i] >= r.values[j])
  {
    TopValues(rows, sort, limit);
    TopOrdered(rows, sort, limit);
  }

  /** A product of the filtered sales that the response leaves out is worth
      no more than the last product listed, which then exists, unless the
      limit is not a number. */
  lemma TopProductsOmitted(sales: seq<Sale>, p: Params, sortParam: Option<string>, limitParam: Option<string>, k: string)
    requires ParseLimit(limitParam).Some?
    requires k in KeysOf(Where(sales, SearchFilter(p)), Product)
    requires k !in TopProductsRoute(sales, p, sortParam, limitParam).labels
    ensures var r := TopProductsRoute(sales, p, sortParam, limitParam);
      |r.values| > 0
      && Sum(Select(Where(sales, SearchFilter(p)), Product, k), Metric(SortName(sortParam))) <= r.values[|r.values| - 1]
  {
    RouteIsTop(sales, p, sortParam, limitParam);
    TopOmitted(Where(sales, SearchFilter(p)), SortName(sortParam), ParseLimit(limitParam), k);
  }
}
