/** The paginated sales listing: the sales that match category, region,
    amount, age and date bounds, newest first, one page at a time. */
module SalesList {
  import opened Wrappers
  import Text
  import opened Sales
  import Sorting

  const DefaultLimit: int := 50

  /** `Number(str)` of a present, non-empty parameter. */
  datatype NumberValue = Finite(value: int) | NotFinite

  /** The query parameters of the listing. Dates are present only when they
      parsed to a valid timestamp; a number parameter is `None` when missing
      or empty; `page` and `limit` are the raw strings. */
  datatype ListQuery = ListQuery(
    category: Option<string>,
    region: Option<string>,
    minAmount: Option<NumberValue>,
    maxAmount: Option<NumberValue>,
    minAge: Option<NumberValue>,
    maxAge: Option<NumberValue>,
    startDate: Option<int>,
    endDate: Option<int>,
    page: Option<string>,
    limit: Option<string>)

  /** A bound takes effect only when it is a finite number. */
  function FiniteBound(n: Option<NumberValue>): (b: Option<int>)
    ensures b.Some? <==> n.Some? && n.value.Finite?
    ensures b.Some? ==> b.value == n.value.value
  {
    if n.Some? && n.value.Finite? then Some(n.value.value) else None
  }

  predicate FiniteAtLeast(n: Option<NumberValue>) { n.Some? && n.value.Finite? }

  /** The listing's where-clause. */
  function ListFilter(q: ListQuery): (f: Filter)
    ensures forall s: Sale :: Matches(s, f) <==>
      && (q.startDate.Some? ==> s.date >= q.startDate.value)
      && (q.endDate.Some? ==> s.date <= q.endDate.value)
      && EqualsParam(s.category, q.category)
      && EqualsParam(s.region, q.region)
      && (FiniteAtLeast(q.minAmount) ==> s.amount >= q.minAmount.value.value)
      && (FiniteAtLeast(q.maxAmount) ==> s.amount <= q.maxAmount.value.value)
      && (FiniteAtLeast(q.minAge) ==> s.customerAge.Some? && s.customerAge.value >= q.minAge.value.value)
      && (FiniteAtLeast(q.maxAge) ==> s.customerAge.Some? && s.customerAge.value <= q.maxAge.value.value)
  {
    Filter(q.startDate, q.endDate, NonEmpty(q.category), NonEmpty(q.region), None,
      FiniteBound(q.minAmount), FiniteBound(q.maxAmount), FiniteBound(q.minAge), FiniteBound(q.maxAge))
  }

  /** `str ? parseInt(str) : fallback`, kept only when finite and
      positive. */
  function PositiveOr(param: Option<string>, fallback: int): (n: int)
    requires fallback >= 1
    ensures n >= 1
    ensures param.None? || param == Some("") ==> n == fallback
    ensures param.Some? && param.value != "" && Text.ParseInt(param.value).NaN? ==> n == fallback
    ensures param.Some? && param.value != "" && Text.ParseInt(param.value).Num? ==>
      n == (if Text.ParseInt(param.value).value > 0 then Text.ParseInt(param.value).value else fallback)
  {
    if param.None? || param.value == "" then fallback
    else match Text.ParseInt(param.value)
      case NaN => fallback
      case Num(v) => if v > 0 then v else fallback
  }

  /** A positive number written as a numeral is read back as it is; zero
      or a negative number gives the fallback. */
  lemma PositiveOrRoundTrip(k: int, fallback: int)
    requires fallback >= 1
    ensures PositiveOr(Some(Text.IntToString(k)), fallback) == if k > 0 then k else fallback
  {
    Text.ParseIntOfIntToString(k);
  }

  /** `Math.ceil(total / limit) || 1`. */
  function PageCount(total: nat, limit: int): (pages: int)
    requires limit >= 1
    ensures pages >= 1
    ensures total > 0 ==> (pages - 1) * limit < total <= pages * limit
    ensures total == 0 ==> pages == 1
  {
    if total == 0 then 1
    else
      var q := (total + limit - 1) / limit;
      CeilDivBounds(total, limit, q);
      q
  }

  lemma CeilDivBounds(total: nat, limit: int, q: int)
    requires limit >= 1 && total > 0 && q == (total + limit - 1) / limit
    ensures q >= 1 && (q - 1) * limit < total <= q * limit
  {
    var r := (total + limit - 1) % limit;
    assert q * limit + r == total + limit - 1;
    assert (q - 1) * limit == q * limit - limit;
  }

  /** `skip` and `take` of a query: the elements from position `skip` on,
      at most `take` of them. */
  function Window<T>(xs: seq<T>, skip: nat, take: nat): (w: seq<T>)
    ensures |w| == if skip >= |xs| then 0 else if |xs| - skip < take then |xs| - skip else take
    ensures forall i :: 0 <= i < |w| ==> w[i] == xs[skip + i]
  {
    if skip >= |xs| then []
    else if |xs| - skip < take then xs[skip..]
    else xs[skip..skip + take]
  }

  function SaleDate(s: Sale): int { s.date }

  /** `orderBy: { date: 'desc' }`; the order of sales with equal dates is
      left to the database, and this model keeps their stored order. */
  function NewestFirst(rows: seq<Sale>): (r: seq<Sale>)
    ensures Sorting.DescendingBy(r, SaleDate)
    ensures multiset(r) == multiset(rows) && |r| == |rows|
  {
    Sorting.SortDesc(rows, SaleDate)
  }

  /** `(safePage - 1) * safeLimit`: the matches on the pages before this
      one. */
  function Skip(page: int, limit: int): (skip: nat)
    requires page >= 1 && limit >= 1
    ensures skip == (page - 1) * limit
  {
    MulMonotone(0, page - 1, limit);
    (page - 1) * limit
  }

  /** Page `page` of `limit` sales of the matches, newest first. */
  function PageOf(rows: seq<Sale>, page: int, limit: int): (w: seq<Sale>)
    requires page >= 1 && limit >= 1
    ensures |w| <= limit
  {
    Window(NewestFirst(rows), Skip(page, limit), limit)
  }

  datatype Pagination = Pagination(page: int, limit: int, total: nat, pages: int)
  datatype SalesPage = SalesPage(sales: seq<Sale>, pagination: Pagination)

  /** `GET /api/sales`. */
  function SalesRoute(sales: seq<Sale>, q: ListQuery): (r: SalesPage)
    ensures r.pagination.page >= 1 && r.pagination.limit >= 1 && r.pagination.pages >= 1
    ensures |r.sales| <= r.pagination.limit
  {
    var page := PositiveOr(q.page, 1);
    var limit := PositiveOr(q.limit, DefaultLimit);
    var rows := Where(sales, ListFilter(q));
    SalesPage(PageOf(rows, page, limit), Pagination(page, limit, |rows|, PageCount(|rows|, limit)))
  }

  /** A page holds the sales at positions `(page - 1) * limit` onwards of
      the newest-first order, at most `limit` of them; they come from the
      matches and are newest first. */
  lemma PageOfSpec(rows: seq<Sale>, page: int, limit: int)
    requires page >= 1 && limit >= 1
    ensures var w := PageOf(rows, page, limit);
      && (forall i :: 0 <= i < |w| ==> w[i] == NewestFirst(rows)[Skip(page, limit) + i])
      && (forall x :: x in w ==> x in rows)
      && Sorting.DescendingBy(w, SaleDate)
  {
    var sorted := NewestFirst(rows);
    WindowMembers(sorted, Skip(page, limit), limit);
    WindowDescending(sorted, Skip(page, limit), limit);
    forall x | x in sorted ensures x in rows {
      assert x in multiset(sorted);
    }
  }

  lemma WindowMembers<T>(xs: seq<T>, skip: nat, take: nat)
    ensures forall x :: x in Window(xs, skip, take) ==> x in xs
  {
    var w := Window(xs, skip, take);
    forall x | x in w ensures x in xs {
      var i :| 0 <= i < |w| && w[i] == x;
      assert xs[skip + i] == x;
    }
  }

  lemma WindowDescending(xs: seq<Sale>, skip: nat, take: nat)
    requires Sorting.DescendingBy(xs, SaleDate)
    ensures Sorting.DescendingBy(Window(xs, skip, take), SaleDate)
  {
    var w := Window(xs, skip, take);
    forall i, j | 0 <= i < j < |w| ensures SaleDate(w[i]) >= SaleDate(w[j]) {
      assert w[i] == xs[skip + i] && w[j] == xs[skip + j];
    }
  }

  /** The pages split the matches: the sale at position `j` of the
      newest-first order is on page `j / limit + 1`, at place `j % limit`,
      and that page is at most the page count. */
  lemma PageOfIndex(rows: seq<Sale>, limit: int, j: int)
    requires limit >= 1 && 0 <= j < |rows|
    ensures var page := j / limit + 1;
      && 1 <= page <= PageCount(|rows|, limit)
      && j % limit < |PageOf(rows, page, limit)|
      && PageOf(rows, page, limit)[j % limit] == NewestFirst(rows)[j]
  {
    var page := j / limit + 1;
    var pages := PageCount(|rows|, limit);
    assert Skip(page, limit) + j % limit == j;
    assert page <= pages by {
      if page > pages {
        MulMonotone(pages, page - 1, limit);
      }
    }
  }

  /** The last counted page is not empty when there are sales, and the page
      after it is. */
  lemma PageOfLast(rows: seq<Sale>, limit: int)
    requires limit >= 1 && |rows| > 0
    ensures |PageOf(rows, PageCount(|rows|, limit), limit)| > 0
    ensures |PageOf(rows, PageCount(|rows|, limit) + 1, limit)| == 0
  {
  }

  lemma MulMonotone(a: int, b: int, c: int)
    requires a <= b && c >= 0
    ensures a * c <= b * c
  {
  }

  /** The response carries the requested page of the matches, newest first,
      and `total` counts every match, whatever the page. */
  lemma SalesRouteSpec(sales: seq<Sale>, q: ListQuery)
    ensures var r := SalesRoute(sales, q);
      var rows := Where(sales, ListFilter(q));
      && r.pagination.total == |rows|
      && r.pagination.pages == PageCount(|rows|, r.pagination.limit)
      && r.sales == PageOf(rows, r.pagination.page, r.pagination.limit)
      && (forall x :: x in r.sales ==> x in sales && Matches(x, ListFilter(q)))
      && Sorting.DescendingBy(r.sales, SaleDate)
  {
    var r := SalesRoute(sales, q);
    PageOfSpec(Where(sales, ListFilter(q)), r.pagination.page, r.pagination.limit);
  }

  /** Requesting page `j / limit + 1`, for the limit the query asks for,
      returns the match at position `j` of the newest-first order, and that
      page is among the announced ones. */
  lemma EveryMatchOnItsPage(sales: seq<Sale>, q: ListQuery, j: int, page: int)
    requires 0 <= j < |Where(sales, ListFilter(q))|
    requires page == j / PositiveOr(q.limit, DefaultLimit) + 1
    ensures var r := SalesRoute(sales, q.(page := Some(Text.IntToString(page))));
      && r.pagination.page == page && r.pagination.limit == PositiveOr(q.limit, DefaultLimit)
      && page <= r.pagination.pages
      && j % r.pagination.limit < |r.sales|
      && r.sales[j % r.pagination.limit] == NewestFirst(Where(sales, ListFilter(q)))[j]
  {
    var limit := PositiveOr(q.limit, DefaultLimit);
    var asked := q.(page := Some(Text.IntToString(page)));
    var rows := Where(sales, ListFilter(q));
    PositiveOrRoundTrip(page, 1);
    assert ListFilter(asked) == ListFilter(q);
    RouteParts(sales, asked);
    PageOfIndex(rows, limit, j);
  }

  lemma RouteParts(sales: seq<Sale>, q: ListQuery)
    ensures var r := SalesRoute(sales, q);
      var rows := Where(sales, ListFilter(q));
      && r.pagination.page == PositiveOr(q.page, 1)
      && r.pagination.limit == PositiveOr(q.limit, DefaultLimit)
      && r.pagination.pages == PageCount(|rows|, r.pagination.limit)
      && r.sales == PageOf(rows, r.pagination.page, r.pagination.limit)
  {
  }
}
