/** The by-category route (revenue and units per category over a date
    range) and the categories route (the distinct non-empty categories of
    all sales). */
module ByCategory {
  import opened Wrappers
  import opened Sales
  import opened Grouping
  import Overview

  datatype CategorySeries = CategorySeries(labels: seq<string>, revenue: seq<int>, units: seq<int>)

  /** `GET /api/metrics/by-category`: the date filter only, one `groupBy`
      row per category, a null sum read as 0. */
  function ByCategoryRoute(sales: seq<Sale>, p: Params): (r: CategorySeries)
    ensures |r.labels| == |r.revenue| == |r.units|
  {
    var rows := GroupBy(Where(sales, DateFilter(p)), Category);
    CategorySeries(
      RowKeys(rows),
      seq(|rows|, i requires 0 <= i < |rows| => rows[i].sumAmount.GetOr(0)),
      seq(|rows|, i requires 0 <= i < |rows| => rows[i].sumQuantity.GetOr(0)))
  }

  /** The labels are the categories of the sales in the date range, each
      once; each category carries the amount and quantity summed over its
      sales; so the revenues and units add up to the range's totals. */
  lemma ByCategorySpec(sales: seq<Sale>, p: Params)
    ensures var r := ByCategoryRoute(sales, p);
      var rows := Where(sales, DateFilter(p));
      && NoDuplicates(r.labels)
      && (forall c :: c in r.labels <==> exists x :: x in rows && x.category == c)
      && (forall i :: 0 <= i < |r.labels| ==>
            r.revenue[i] == Sum(Select(rows, Category, r.labels[i]), Amount)
            && r.units[i] == Sum(Select(rows, Category, r.labels[i]), Quantity))
      && Total(r.revenue) == Sum(rows, Amount)
      && Total(r.units) == Sum(rows, Quantity)
  {
    var r := ByCategoryRoute(sales, p);
    var rows := Where(sales, DateFilter(p));
    ByCategoryColumns(sales, p, rows);
    forall c ensures c in r.labels <==> exists x :: x in rows && x.category == c {
      InKeysOf(rows, Category, c);
    }
    ByCategoryTotals(rows, r);
  }

  /** The labels are the group-by keys; each column entry sums its
      category's sales. */
  lemma ByCategoryColumns(sales: seq<Sale>, p: Params, rows: seq<Sale>)
    requires rows == Where(sales, DateFilter(p))
    ensures var r := ByCategoryRoute(sales, p);
      && r.labels == Distinct(KeysOf(rows, Category))
      && (forall i :: 0 <= i < |r.labels| ==>
            r.revenue[i] == Sum(Select(rows, Category, r.labels[i]), Amount)
            && r.units[i] == Sum(Select(rows, Category, r.labels[i]), Quantity))
  {
    GroupByRows(rows, Category);
  }

  lemma ByCategoryTotals(rows: seq<Sale>, r: CategorySeries)
    requires r.labels == Distinct(KeysOf(rows, Category))
    requires |r.revenue| == |r.labels| == |r.units|
    requires forall i :: 0 <= i < |r.labels| ==>
      r.revenue[i] == Sum(Select(rows, Category, r.labels[i]), Amount)
      && r.units[i] == Sum(Select(rows, Category, r.labels[i]), Quantity)
    ensures Total(r.revenue) == Sum(rows, Amount) && Total(r.units) == Sum(rows, Quantity)
  {
    DistinctCoversKeys(rows, Category);
    GroupTotals(rows, Category, Amount, r.labels, r.revenue);
    GroupTotals(rows, Category, Quantity, r.labels, r.units);
  }

  /** With no category or region filter the overview and the by-category
      routes see the same sales, so the per-category revenues and units add
      up to the overview's revenue and units. */
  lemma ByCategoryAddsUpToOverview(sales: seq<Sale>, p: Params)
    requires p.category.None? || p.category == Some("")
    requires p.region.None? || p.region == Some("")
    ensures Total(ByCategoryRoute(sales, p).revenue) == Overview.OverviewRoute(sales, p).revenue
    ensures Total(ByCategoryRoute(sales, p).units) == Overview.OverviewRoute(sales, p).units
  {
    ByCategorySpec(sales, p);
    SameWhere(sales, DateFilter(p), OverviewFilter(p));
  }

  /** Two where-clauses that admit the same sales select the same
      sequence. */
  lemma {:induction false} SameWhere(sales: seq<Sale>, f: Filter, g: Filter)
    requires forall x :: Matches(x, f) <==> Matches(x, g)
    ensures Where(sales, f) == Where(sales, g)
  {
    if |sales| > 0 {
      SameWhere(sales[..|sales| - 1], f, g);
    }
  }

  // ---------------------------------------------------------------------
  // Categories

  /** `filter(Boolean)` on strings: drops the empty ones, keeps the order. */
  function NonBlank(ks: seq<string>): (r: seq<string>)
    ensures forall k :: k in r <==> k in ks && k != ""
    ensures NoDuplicates(ks) ==> NoDuplicates(r)
  {
    if |ks| == 0 then []
    else
      var init := NonBlank(ks[..|ks| - 1]);
      var x := ks[|ks| - 1];
      assert NoDuplicates(ks) ==> NoDuplicates(ks[..|ks| - 1]) && x !in ks[..|ks| - 1];
      if x == "" then init
      else
        assert NoDuplicates(ks) ==> NoDuplicates(init + [x]) by {
          if NoDuplicates(ks) {
            AppendFresh(init, x);
          }
        }
        init + [x]
  }

  lemma AppendFresh(xs: seq<string>, x: string)
    requires NoDuplicates(xs) && x !in xs
    ensures NoDuplicates(xs + [x])
  {
  }

  /** `GET /api/categories`: the categories of all sales, one per `groupBy`
      row, without the empty one. */
  function CategoriesRoute(sales: seq<Sale>): (cs: seq<string>)
    ensures NoDuplicates(cs)
    ensures forall c :: c in cs <==> c != "" && exists x :: x in sales && x.category == c
  {
    GroupByRows(sales, Category);
    forall c ensures c in KeysOf(sales, Category) <==> exists x :: x in sales && x.category == c {
      InKeysOf(sales, Category, c);
    }
    NonBlank(RowKeys(GroupBy(sales, Category)))
  }

  /** The categories route lists the by-category labels of the whole table
      (no date range), except the empty category. */
  lemma CategoriesAreByCategoryLabels(sales: seq<Sale>)
    ensures forall c :: c in CategoriesRoute(sales) <==>
      c in ByCategoryRoute(sales, Params(None, None, None, None, None)).labels && c != ""
  {
    var p := Params(None, None, None, None, None);
    SameWhere(sales, DateFilter(p), NoFilter);
    NoFilterKeepsAll(sales);
    ByCategorySpec(sales, p);
  }

  lemma {:induction false} NoFilterKeepsAll(sales: seq<Sale>)
    ensures Where(sales, NoFilter) == sales
  {
    if |sales| > 0 {
      NoFilterKeepsAll(sales[..|sales| - 1]);
      assert sales[..|sales| - 1] + [sales[|sales| - 1]] == sales;
    }
  }
}
