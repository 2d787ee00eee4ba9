/** The overview route: revenue, units, number of sales, average order
    value and average price per unit of the sales that match the date,
    category and region filters. */
module Overview {
  import opened Wrappers
  import opened Sales
  import opened Grouping

  datatype Kpis = Kpis(revenue: int, units: int, aov: real, avgPricePerUnit: real, count: nat)

  /** `revenue / divisor` when the divisor is positive, and 0 otherwise. */
  function Ratio(revenue: int, divisor: int): (q: real)
    ensures divisor > 0 ==> q * divisor as real == revenue as real
    ensures divisor <= 0 ==> q == 0.0
  {
    if divisor > 0 then revenue as real / divisor as real else 0.0
  }

  /** `GET /api/metrics/overview`: two SQL sums (null over no rows, read as
      0) and a count over the same where-clause. */
  function OverviewRoute(sales: seq<Sale>, p: Params): (k: Kpis)
    ensures var rows := Where(sales, OverviewFilter(p));
      && k.count == |rows|
      && k.revenue == Sum(rows, Amount)
      && k.units == Sum(rows, Quantity)
    ensures k.aov == Ratio(k.revenue, k.count) && k.avgPricePerUnit == Ratio(k.revenue, k.units)
    ensures k.count == 0 ==> k.revenue == 0 && k.units == 0 && k.aov == 0.0 && k.avgPricePerUnit == 0.0
  {
    var rows := Where(sales, OverviewFilter(p));
    var revenue := SqlSum(rows, Amount).GetOr(0);
    var units := SqlSum(rows, Quantity).GetOr(0);
    var count := |rows|;
    Kpis(revenue, units, Ratio(revenue, count), Ratio(revenue, units), count)
  }

  /** The search term is not part of the overview's where-clause. */
  lemma OverviewIgnoresSearch(sales: seq<Sale>, p: Params, term: Option<string>)
    ensures OverviewRoute(sales, p) == OverviewRoute(sales, p.(searchTerm := term))
  {
  }

  /** Two sales of 100 (two units) and 50 (one unit) give revenue 150,
      3 units, 2 sales, an average order of 75 and 50 per unit. */
  lemma OverviewExample(a: Sale, b: Sale)
    requires a.amount == 100 && a.quantity == 2 && b.amount == 50 && b.quantity == 1
    ensures OverviewRoute([a, b], Params(None, None, None, None, None)) == Kpis(150, 3, 75.0, 50.0, 2)
  {
    var p := Params(None, None, None, None, None);
    var rows := Where([a, b], OverviewFilter(p));
    assert rows == [a, b] by {
      assert [a, b][..1] == [a];
      assert [a][..0] == [];
    }
    assert [a, b][..1] == [a] && [a][..0] == [];
    assert Sum([a], Amount) == Sum([], Amount) + Amount(a) == 100;
    assert Sum([a], Quantity) == Sum([], Quantity) + Quantity(a) == 2;
    assert Sum([a, b], Amount) == 150 && Sum([a, b], Quantity) == 3;
    assert Ratio(150, 2) == 75.0 && Ratio(150, 3) == 50.0;
  }
}
