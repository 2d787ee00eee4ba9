/** The sale record and the where-clause the metric routes hand to the
    database, evaluated here as a predicate over a sequence of records. */
module Sales {
  import opened Wrappers
  import Text

  /** One row of the `sale` table. `date` is a timestamp in milliseconds
      since 1970-01-01T00:00:00Z; `customerAge` is absent when unknown. */
  datatype Sale = Sale(
    id: int,
    date: int,
    product: string,
    category: string,
    amount: int,
    quantity: int,
    region: string,
    customerAge: Option<int>)

  function Amount(s: Sale): int { s.amount }
  function Quantity(s: Sale): int { s.quantity }
  function Category(s: Sale): string { s.category }
  function Product(s: Sale): string { s.product }

  /** A where-clause: each present field constrains one column, an absent one
      constrains nothing. Date, amount and age bounds are inclusive. */
  datatype Filter = Filter(
    start: Option<int>,
    end: Option<int>,
    category: Option<string>,
    region: Option<string>,
    search: Option<string>,
    minAmount: Option<int>,
    maxAmount: Option<int>,
    minAge: Option<int>,
    maxAge: Option<int>)

  const NoFilter: Filter := Filter(None, None, None, None, None, None, None, None, None)

  predicate InDateRange(s: Sale, f: Filter) {
    (f.start.Some? ==> s.date >= f.start.value) && (f.end.Some? ==> s.date <= f.end.value)
  }

  /** An age bound is a comparison on a nullable column, which no null
      satisfies. */
  predicate InAgeRange(s: Sale, f: Filter) {
    && (f.minAge.Some? ==> s.customerAge.Some? && s.customerAge.value >= f.minAge.value)
    && (f.maxAge.Some? ==> s.customerAge.Some? && s.customerAge.value <= f.maxAge.value)
  }

  predicate Matches(s: Sale, f: Filter) {
    && InDateRange(s, f)
    && (f.category.Some? ==> s.category == f.category.value)
    && (f.region.Some? ==> s.region == f.region.value)
    && (f.search.Some? ==> Text.ContainsInsensitive(s.product, f.search.value))
    && (f.minAmount.Some? ==> s.amount >= f.minAmount.value)
    && (f.maxAmount.Some? ==> s.amount <= f.maxAmount.value)
    && InAgeRange(s, f)
  }

  /** The records that satisfy `f`, in their original order. */
  function Where(sales: seq<Sale>, f: Filter): (r: seq<Sale>)
    ensures |r| <= |sales|
    ensures forall x :: x in r <==> x in sales && Matches(x, f)
  {
    if |sales| == 0 then []
    else Where(sales[..|sales| - 1], f) + (if Matches(sales[|sales| - 1], f) then [sales[|sales| - 1]] else [])
  }

  // ---------------------------------------------------------------------
  // Query parameters as the metric routes read them

  /** The common query parameters, already read from the URL: a date is
      present only when it parsed to a valid timestamp, a string is `None`
      when the parameter is missing. */
  datatype Params = Params(
    startDate: Option<int>,
    endDate: Option<int>,
    category: Option<string>,
    region: Option<string>,
    searchTerm: Option<string>)

  /** `value && { field: value }`: a missing or empty string adds no
      condition. */
  function NonEmpty(p: Option<string>): (r: Option<string>)
    ensures r.Some? <==> p.Some? && p.value != ""
    ensures r.Some? ==> r.value == p.value
  {
    if p.Some? && p.value != "" then p else None
  }

  /** The date bounds of the parameters, inclusive at both ends. */
  predicate InParamDates(s: Sale, p: Params) {
    (p.startDate.Some? ==> s.date >= p.startDate.value) && (p.endDate.Some? ==> s.date <= p.endDate.value)
  }

  /** A non-empty parameter `value` restricts `column` to equal it. */
  predicate EqualsParam(column: string, value: Option<string>) {
    value.Some? && value.value != "" ==> column == value.value
  }

  /** The where-clause of the age-buckets and by-category routes: dates only. */
  function DateFilter(p: Params): (f: Filter)
    ensures forall s: Sale :: Matches(s, f) <==> InParamDates(s, p)
  {
    NoFilter.(start := p.startDate, end := p.endDate)
  }

  /** The where-clause of the overview route: dates, category and region. */
  function OverviewFilter(p: Params): (f: Filter)
    ensures forall s: Sale :: Matches(s, f) <==>
      InParamDates(s, p) && EqualsParam(s.category, p.category) && EqualsParam(s.region, p.region)
  {
    DateFilter(p).(category := NonEmpty(p.category), region := NonEmpty(p.region))
  }

  /** The where-clause of the timeseries and top-products routes: the
      overview clause plus a case-insensitive product substring. */
  function SearchFilter(p: Params): (f: Filter)
    ensures forall s: Sale :: Matches(s, f) <==>
      && Matches(s, OverviewFilter(p))
      && (p.searchTerm.Some? && p.searchTerm.value != "" ==> Text.ContainsInsensitive(s.product, p.searchTerm.value))
  {
    OverviewFilter(p).(search := NonEmpty(p.searchTerm))
  }

  /** An empty search term filters nothing: the search clause then admits
      the same sales as the overview clause. */
  lemma EmptySearchIsOverview(p: Params, s: Sale)
    requires p.searchTerm == None || p.searchTerm == Some("")
    ensures Matches(s, SearchFilter(p)) <==> Matches(s, OverviewFilter(p))
  {
  }
}
