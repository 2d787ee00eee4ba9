# Sales analytics dashboard, modelled in Dafny

This project models the aggregation layer of a small sales-analytics web
application (a Next.js dashboard over a Prisma `Sale` table) and proves
properties of it. Each API route reads its query parameters, builds a
where-clause, fetches or groups rows, and then buckets, ranks, sums or
pages them. The database is replaced by pure functions over a `seq<Sale>`:
a query is `Where` (filter, in stored order), `GroupBy` (one row per
distinct key with SQL sums that are null over no rows) and `Sum`.

Modules, following the program's structure:

- `Wrappers`: `Option` with `GetOr`, which models `?? default`.
- `Text`: `String(n)`, `padStart(2, '0')`, `trim`, `parseInt`, `split`
  and ASCII case-insensitive substring search.
- `CivilDate`: the proleptic Gregorian calendar behind `Date.UTC` and the
  `getUTC*` fields. It converts between day numbers and dates in both
  directions and proves each round trip.
- `Sorting`: stable insertion sorts (descending by a measure, ascending
  integers, ascending strings) with order and permutation contracts.
- `Sales`: the sale record, the shared where-clause `Matches` and the
  filters each route enables.
- `Grouping`: sums, distinct keys, `groupBy` rows and conservation of
  totals across groups.
- `Timeseries`: the `timeseries` route. It computes day, month and week
  keys, accumulates buckets, sorts labels and builds the revenue, units and
  average-order arrays.
- `AgeBuckets`: the `age-buckets` route. It validates and sorts the bucket
  edges, builds labels and assigns each age to the first matching bucket.
- `TopProducts`: the `top-products` route. It clamps the limit, ranks
  products by revenue or units and cuts the ranking to a prefix.
- `Overview`: the `overview` route (totals and guarded ratios).
- `ByCategory`: the `by-category` route and the `categories` route.
- `SalesList`: the paginated `sales` route.
- `Filters`: the Redux filters slice (draft versus applied filters).
- `Dashboard`: the dashboard page's ten-bin histogram, its date window and
  its sale-id check.
- `QueryString`: the client's `qs` helper, object-spread overrides,
  `fetchRecentSales` and the dashboard's request parameters.

Amounts, quantities and ages are `int`. Average order value and price per
unit are `real`. A timestamp is an `int` count of milliseconds since
1970-01-01T00:00Z, and its UTC day is the floor of the division by
86 400 000.

## Model

| member | source | states |
|---|---|---|
| CivilDate.CivilFromDays | taller-3-intro-web/app/api/metrics/timeseries/route.ts:14-16 | the UTC year, month and day of a day number form a valid calendar date, and that date converts back to the same day number |
| CivilDate.CivilRoundTrip | taller-3-intro-web/app/api/metrics/timeseries/route.ts:20 | a valid date rebuilt with `Date.UTC` and read back with the `getUTC*` fields is the same date |
| CivilDate.DayInYear | taller-3-intro-web/app/api/metrics/timeseries/route.ts:23-26 | every valid date lies between 1 January and 31 December of its year, a year spans 366 days exactly when it is a leap year and 365 otherwise, and the next year starts the day after 31 December |
| Text.ParseIntOfIntToString | taller-3-intro-web/app/api/sales/route.ts:27-28 | `parseInt` reads back every integer that `String` writes |
| Text.TwoDigitsInjective | taller-3-intro-web/app/api/metrics/timeseries/route.ts:15-16 | two numbers in 0..99 with the same zero-padded text are equal, so padding never merges two months, days or weeks |
| Text.SplitThree | taller-3-intro-web/app/dashboard/page.tsx:59 | splitting three dash-free fields joined by dashes gives back exactly those three fields |
| Sorting.SortDesc | taller-3-intro-web/app/api/metrics/top-products/route.ts:42-46 | the result is a permutation of the input in non-increasing order of the measure |
| Sorting.SortAsc | taller-3-intro-web/app/api/metrics/age-buckets/route.ts:41 | the result is a permutation of the edges in ascending numeric order |
| Sorting.AscendingUnique | taller-3-intro-web/app/api/metrics/age-buckets/route.ts:41 | two ascending sequences with the same elements are equal, so the sorted edges depend only on which edges were sent |
| Sorting.SortStrings | taller-3-intro-web/app/api/metrics/timeseries/route.ts:68 | distinct keys come out as a permutation in strictly increasing string order |
| Sales.Where | taller-3-intro-web/app/api/sales/route.ts:73-80 | a query returns exactly the stored sales that satisfy the where-clause, and no more rows than are stored |
| Sales.NonEmpty | taller-3-intro-web/app/api/metrics/overview/route.ts:19-20 | a parameter takes effect exactly when it is present and not the empty string, which is falsy |
| Sales.DateFilter | taller-3-intro-web/app/api/metrics/by-category/route.ts:16-25 | a sale matches exactly when its date is within the present bounds, both inclusive |
| Sales.OverviewFilter | taller-3-intro-web/app/api/metrics/overview/route.ts:18-29 | a sale matches exactly when it is within the dates and equals every non-empty category and region parameter |
| Sales.SearchFilter | taller-3-intro-web/app/api/metrics/top-products/route.ts:21-33 | a sale matches exactly when it passes the overview filter and, for a non-empty search term, its product contains the term ignoring case |
| Grouping.SqlSum | taller-3-intro-web/app/api/metrics/overview/route.ts:33-39 | a SQL sum is null exactly over no rows, and read with `?? 0` it is the sum of the column |
| Grouping.Distinct | taller-3-intro-web/app/api/metrics/by-category/route.ts:28-32 | the distinct keys hold each key of the rows once and nothing else |
| Grouping.GroupBy | taller-3-intro-web/app/api/metrics/by-category/route.ts:28-32 | there is one group per distinct key, and each group holds the sums over the rows of its key |
| Grouping.GroupByRows | taller-3-intro-web/app/api/metrics/by-category/route.ts:28-36 | every group has non-null sums, and the group keys are the distinct keys |
| Grouping.GroupTotals | taller-3-intro-web/app/api/metrics/by-category/route.ts:34-36 | per-key sums over distinct keys that cover every row add up to the sum over all rows |
| Timeseries.ParseGranularity | taller-3-intro-web/app/api/metrics/timeseries/route.ts:38-39 | the granularity is day unless the parameter is exactly the name of another granularity, which it then is |
| Timeseries.GranularityRoundTrip | taller-3-intro-web/app/api/metrics/timeseries/route.ts:38-39 | the name of each granularity is parsed back to that granularity |
| Timeseries.DayAndMonthKeyExample | taller-3-intro-web/app/api/metrics/timeseries/route.ts:14-18 | 15:00 UTC on 5 March 2024 keys to "2024-03-05" by day and "2024-03" by month |
| Timeseries.MonthKeySameMonth | taller-3-intro-web/app/api/metrics/timeseries/route.ts:14-18 | two moments get the same month key exactly when they fall in the same UTC year and month, so monthly buckets are the calendar months |
| Timeseries.MondayOfIs | taller-3-intro-web/app/api/metrics/timeseries/route.ts:20-22 | the shifted day is the Thursday of the Monday-to-Sunday week that holds the date |
| Timeseries.WeekRange | taller-3-intro-web/app/api/metrics/timeseries/route.ts:23-26 | counted from the first Thursday of its own year, a Thursday's week number is in 1..53 |
| Timeseries.WeekAsWrittenIsIso | taller-3-intro-web/app/api/metrics/timeseries/route.ts:20-26 | outside the years 0..99 the route's week number is the ISO 8601 week number |
| Timeseries.WeekKeysJan2024 | taller-3-intro-web/app/api/metrics/timeseries/route.ts:13-28 | 1 January 2024, a Monday, keys to "2024-W01" |
| Timeseries.WeekKeyCollision | taller-3-intro-web/app/api/metrics/timeseries/route.ts:14-28 | 1 January 2024 and 30 December 2024 lie in different weeks yet share the key "2024-W01" |
| Timeseries.WeekKeyYearStart | taller-3-intro-web/app/api/metrics/timeseries/route.ts:14-28 | 1 January 2021 keys to "2021-W53", while its ISO week is "2020-W53" |
| Timeseries.IsoWeekKeySameWeek | taller-3-intro-web/app/api/metrics/timeseries/route.ts:20-28 | the corrected week keys of two days are equal exactly when the days share a Monday-to-Sunday week |
| Timeseries.AccumulateBuckets | taller-3-intro-web/app/api/metrics/timeseries/route.ts:58-66 | the loop's map has exactly the keys of the records, and each bucket holds the revenue, units and count of its records |
| Timeseries.SeriesLabels | taller-3-intro-web/app/api/metrics/timeseries/route.ts:68 | the labels are strictly ascending and are exactly the keys of the records |
| Timeseries.BuildSeries | taller-3-intro-web/app/api/metrics/timeseries/route.ts:68-74 | the four arrays have the length of the labels, and entry i holds the revenue, units and average order of label i's bucket |
| Timeseries.SeriesBuckets | taller-3-intro-web/app/api/metrics/timeseries/route.ts:59-74 | each label's bucket sums its records, holds at least one record, and its average order is revenue over count |
| Timeseries.SeriesTotals | taller-3-intro-web/app/api/metrics/timeseries/route.ts:59-70 | the bucket revenues and units add up to the totals over all records |
| Timeseries.TimeseriesRoute | taller-3-intro-web/app/api/metrics/timeseries/route.ts:38-39 | the response echoes the granularity that the parameter resolves to |
| Timeseries.TimeseriesSpec | taller-3-intro-web/app/api/metrics/timeseries/route.ts:31-74 | labels are the date keys of the matching sales, each once and in ascending order; every bucket is non-empty with its sums and average order; the buckets add up to the totals |
| Timeseries.CorrectedWeekBuckets | taller-3-intro-web/app/api/metrics/timeseries/route.ts:60 | with the corrected key, two sales share a weekly bucket exactly when they fall in the same UTC week |
| AgeBuckets.ParseBuckets | taller-3-intro-web/app/api/metrics/age-buckets/route.ts:11-18 | an array of finite numbers is taken element by element; a missing parameter, bad JSON, a non-array or a non-finite element gives 18, 25, 35, 45, 55, 65, 80 |
| AgeBuckets.ParseBucketsRoundTrip | taller-3-intro-web/app/api/metrics/age-buckets/route.ts:15 | any edges sent as a JSON array are read back unchanged, and the empty array is not replaced by the defaults |
| AgeBuckets.Labels | taller-3-intro-web/app/api/metrics/age-buckets/route.ts:46-57 | there is one label per edge; label i reads "e_i-(e_{i+1}-1)", and the last label is the last edge followed by "+" |
| AgeBuckets.DefaultLabelExamples | taller-3-intro-web/app/api/metrics/age-buckets/route.ts:46-57 | the default edges give first label "18-24" and last label "80+" |
| AgeBuckets.BucketIndex | taller-3-intro-web/app/api/metrics/age-buckets/route.ts:62-69 | an age goes to the first bucket whose half-open range holds it, and to the last bucket when none does |
| AgeBuckets.BucketHoldsAge | taller-3-intro-web/app/api/metrics/age-buckets/route.ts:62-69 | on sorted edges, an age at or above the first edge lies at or above its bucket's edge and below the next edge |
| AgeBuckets.BelowFirstEdge | taller-3-intro-web/app/api/metrics/age-buckets/route.ts:69 | on sorted edges, an age below the first edge falls through to the open-ended last bucket |
| AgeBuckets.DefaultBucketExamples | taller-3-intro-web/app/api/metrics/age-buckets/route.ts:62-69 | with the default edges, 18 and 24 go to the first bucket, and 17, 80 and 95 go to the "80+" bucket |
| AgeBuckets.TallyIsInBucket | taller-3-intro-web/app/api/metrics/age-buckets/route.ts:59-72 | count i is the number of aged sales whose bucket is i, and revenue i is their amount |
| AgeBuckets.TallyConserves | taller-3-intro-web/app/api/metrics/age-buckets/route.ts:59-72 | with at least one edge, the counts add up to the number of sales with an age and the revenues add up to their amounts |
| AgeBuckets.TallyNoEdges | taller-3-intro-web/app/api/metrics/age-buckets/route.ts:55-72 | with no edges the single slot stays at zero, so every sale is dropped |
| AgeBuckets.ExactlyOneBucket | taller-3-intro-web/app/api/metrics/age-buckets/route.ts:60-69 | a sale with an age lies in exactly the bucket of its age, which is a real slot when there is an edge; a sale without an age lies in none |
| AgeBuckets.AgeBucketsRoute | taller-3-intro-web/app/api/metrics/age-buckets/route.ts:41-57 | labels, counts and revenues have one entry per edge, and one when there are no edges |
| AgeBuckets.EdgeOrderIrrelevant | taller-3-intro-web/app/api/metrics/age-buckets/route.ts:41 | two parameters that list the same edges in any order give the same histogram |
| AgeBuckets.AgeBucketsIgnoresOtherParams | taller-3-intro-web/app/api/metrics/age-buckets/route.ts:27-36 | only the date bounds narrow the histogram; category, region and search term do not |
| TopProducts.ParseLimit | taller-3-intro-web/app/api/metrics/top-products/route.ts:19 | a readable limit is clamped to 1..50; one that `parseInt` cannot read stays NaN |
| TopProducts.LimitDefault | taller-3-intro-web/app/api/metrics/top-products/route.ts:19 | a missing or empty limit means 10 |
| TopProducts.LimitRoundTrip | taller-3-intro-web/app/api/metrics/top-products/route.ts:19 | every limit in 1..50 written as a numeral is used as written |
| TopProducts.SortName | taller-3-intro-web/app/api/metrics/top-products/route.ts:18 | only a missing sort parameter becomes "revenue"; any other value is kept verbatim |
| TopProducts.ValueOfGroup | taller-3-intro-web/app/api/metrics/top-products/route.ts:43-44 | a product's value is its amount summed over its sales for "revenue", and its quantity summed for any other sort |
| TopProducts.Take | taller-3-intro-web/app/api/metrics/top-products/route.ts:48 | the slice is the prefix of length min(limit, size), and a NaN limit gives an empty slice |
| TopProducts.Ranked | taller-3-intro-web/app/api/metrics/top-products/route.ts:42-46 | the ranking is a permutation of the product groups, highest value first |
| TopProducts.RankedGroups | taller-3-intro-web/app/api/metrics/top-products/route.ts:36-46 | there is one ranked group per distinct product, each holding its own product's sums, and every product appears |
| TopProducts.Top | taller-3-intro-web/app/api/metrics/top-products/route.ts:42-48 | the cut is the ranking's prefix of length min(limit, number of products) |
| TopProducts.TopValues | taller-3-intro-web/app/api/metrics/top-products/route.ts:48-50 | the listed products are distinct products of the sales, each with its metric summed over its sales |
| TopProducts.TopOrdered | taller-3-intro-web/app/api/metrics/top-products/route.ts:42-48 | the listed values never increase |
| TopProducts.TopOmitted | taller-3-intro-web/app/api/metrics/top-products/route.ts:42-48 | a product left out is worth no more than the last product listed |
| TopProducts.TopProductsRoute | taller-3-intro-web/app/api/metrics/top-products/route.ts:48-53 | labels and values have the same length, and the sort parameter is echoed back as read |
| TopProducts.RouteIsTop | taller-3-intro-web/app/api/metrics/top-products/route.ts:48-50 | the response lists the cut groups in order, as their products and their values |
| TopProducts.TopProductsSpec | taller-3-intro-web/app/api/metrics/top-products/route.ts:11-53 | at most `limit` products are listed, and all of them when there are no more; labels are distinct, each value is its product's summed metric, and values do not increase |
| TopProducts.TopProductsOmitted | taller-3-intro-web/app/api/metrics/top-products/route.ts:42-50 | a filtered product the response leaves out is worth no more than the last listed value |
| Overview.Ratio | taller-3-intro-web/app/api/metrics/overview/route.ts:41-42 | a positive divisor gives the quotient, whose product with the divisor is the revenue; otherwise the ratio is 0 |
| Overview.OverviewRoute | taller-3-intro-web/app/api/metrics/overview/route.ts:11-45 | count, revenue and units are the count and sums of the matching sales; aov and price per unit are guarded ratios; no match gives all zeros |
| Overview.OverviewIgnoresSearch | taller-3-intro-web/app/api/metrics/overview/route.ts:15-29 | the search term does not change the overview |
| Overview.OverviewExample | taller-3-intro-web/app/api/metrics/overview/route.ts:38-42 | sales of 100 (2 units) and 50 (1 unit) give revenue 150, 3 units, aov 75 and 50 per unit |
| ByCategory.ByCategoryRoute | taller-3-intro-web/app/api/metrics/by-category/route.ts:34-36 | labels, revenues and units are parallel arrays of the same length |
| ByCategory.ByCategorySpec | taller-3-intro-web/app/api/metrics/by-category/route.ts:11-36 | labels are the categories of the sales in the range, each once; each category has its summed amount and quantity; the arrays add up to the range's totals |
| ByCategory.ByCategoryAddsUpToOverview | taller-3-intro-web/app/api/metrics/by-category/route.ts:16-36 | with no category or region filter, the per-category revenues and units add up to the overview's revenue and units |
| ByCategory.NonBlank | taller-3-intro-web/app/api/categories/route.ts:7 | `filter(Boolean)` keeps exactly the non-empty strings and introduces no repeats |
| ByCategory.CategoriesRoute | taller-3-intro-web/app/api/categories/route.ts:4-8 | each non-empty category of some sale is listed exactly once, and nothing else |
| ByCategory.CategoriesAreByCategoryLabels | taller-3-intro-web/app/api/categories/route.ts:6-7 | the categories are the by-category labels of the whole table, minus the empty category |
| SalesList.FiniteBound | taller-3-intro-web/app/api/sales/route.ts:33-51 | an amount or age bound takes effect exactly when it is a finite number |
| SalesList.ListFilter | taller-3-intro-web/app/api/sales/route.ts:33-71 | a sale is listed exactly when it is within the valid dates, equals the non-empty category and region, and meets every finite amount and age bound inclusively; an age bound excludes null ages |
| SalesList.PositiveOr | taller-3-intro-web/app/api/sales/route.ts:25-30 | page and limit are the `parseInt` value when it is finite and positive, and the fallback otherwise |
| SalesList.PositiveOrRoundTrip | taller-3-intro-web/app/api/sales/route.ts:27-30 | a positive number sent as a numeral is used as sent; zero or a negative number gives the fallback |
| SalesList.PageCount | taller-3-intro-web/app/api/sales/route.ts:90 | the page count is the least number of pages that holds every match, and 1 when there are none |
| SalesList.Window | taller-3-intro-web/app/api/sales/route.ts:77-78 | `skip` then `take` gives the elements from position `skip` on, at most `take` of them |
| SalesList.NewestFirst | taller-3-intro-web/app/api/sales/route.ts:76 | the matches are reordered by non-increasing date |
| SalesList.Skip | taller-3-intro-web/app/api/sales/route.ts:31 | the offset is the number of matches on the pages before the requested one |
| SalesList.PageOf | taller-3-intro-web/app/api/sales/route.ts:73-79 | a page holds at most `limit` sales |
| SalesList.SalesRoute | taller-3-intro-web/app/api/sales/route.ts:83-91 | page, limit and page count are at least 1, and the page holds at most `limit` sales |
| SalesList.PageOfSpec | taller-3-intro-web/app/api/sales/route.ts:73-79 | a page is the slice of the newest-first order starting at the offset; its sales are matches, newest first |
| SalesList.PageOfIndex | taller-3-intro-web/app/api/sales/route.ts:31-90 | the match at position j is on page j / limit + 1 at place j mod limit, and that page is within the page count |
| SalesList.PageOfLast | taller-3-intro-web/app/api/sales/route.ts:90 | the last counted page is not empty when there are matches, and the page after it is empty |
| SalesList.SalesRouteSpec | taller-3-intro-web/app/api/sales/route.ts:64-91 | `total` counts every match whatever the page, `pages` is its page count, and the page holds matches newest first |
| SalesList.EveryMatchOnItsPage | taller-3-intro-web/app/api/sales/route.ts:25-90 | requesting page j / limit + 1 returns the match at position j, and that page is among those announced |
| Filters.InitialStateIs | taller-3-intro-web/store/slices/filtersSlice.ts:16-27 | the initial state has a 30-day range, every category, no search term, no date and daily granularity, with the same values applied |
| Filters.Reduce | taller-3-intro-web/store/slices/filtersSlice.ts:33-57 | a setter writes its own draft field only and leaves the applied filters alone; reset restores the initial state; apply copies the draft into the applied filters |
| Filters.ApplyIdempotent | taller-3-intro-web/store/slices/filtersSlice.ts:51-57 | applying twice is the same as applying once |
| Filters.SetterNoOp | taller-3-intro-web/store/slices/filtersSlice.ts:33-47 | setting a field to the value it already holds changes nothing |
| Filters.SettersCommute | taller-3-intro-web/store/slices/filtersSlice.ts:33-47 | setters of different fields commute |
| Filters.SettersKeepApplied | taller-3-intro-web/store/slices/filtersSlice.ts:33-47 | no run of setters changes what the data requests see |
| Filters.AppliedIsLastApply | taller-3-intro-web/store/slices/filtersSlice.ts:33-57 | after an apply followed only by setters, the applied filters are the draft as it stood at that apply |
| Dashboard.MetricValues | taller-3-intro-web/app/dashboard/page.tsx:100 | there is one value per sale: its amount or its quantity, by the chosen metric |
| Dashboard.MaxOf | taller-3-intro-web/app/dashboard/page.tsx:101 | the maximum is at least 0 and at least every value, and it is 0 or one of the values |
| Dashboard.BinSize | taller-3-intro-web/app/dashboard/page.tsx:103 | the bin width is at least 1; for a positive maximum it is the least width for which ten bins reach the maximum |
| Dashboard.BinIndex | taller-3-intro-web/app/dashboard/page.tsx:116 | a non-negative value gets a bin in 0..9 whose range holds it, the last bin taking everything beyond; a negative value gets a negative index |
| Dashboard.Bins | taller-3-intro-web/app/dashboard/page.tsx:104-114 | there are always ten bins |
| Dashboard.BinsTile | taller-3-intro-web/app/dashboard/page.tsx:106-108 | the bins start at 0 and follow each other without gap or overlap, and the last one ends at the maximum |
| Dashboard.Counts | taller-3-intro-web/app/dashboard/page.tsx:105-118 | there are always ten counts |
| Dashboard.HistogramOf | taller-3-intro-web/app/dashboard/page.tsx:100-119 | the histogram has ten bins and ten counts |
| Dashboard.CountsAreCountIn | taller-3-intro-web/app/dashboard/page.tsx:115-118 | count i is the number of values whose bin index is i |
| Dashboard.CountsConserve | taller-3-intro-web/app/dashboard/page.tsx:115-118 | the counts add up to the number of non-negative values |
| Dashboard.ValueInItsBin | taller-3-intro-web/app/dashboard/page.tsx:106-117 | each non-negative value lies within the label range of the bin that counts it |
| Dashboard.HistogramSpec | taller-3-intro-web/app/dashboard/page.tsx:134-153 | the histogram recomputed after a metric change counts each bin's values and every non-negative value |
| Dashboard.HistogramCountsEverySale | taller-3-intro-web/app/dashboard/page.tsx:100-118 | when no value is negative, the counts add up to the number of recent sales |
| Dashboard.NumberOfPart | taller-3-intro-web/app/dashboard/page.tsx:59 | a field that is a decimal numeral is its value (the empty field is 0); any other field is NaN |
| Dashboard.FieldOrOne | taller-3-intro-web/app/dashboard/page.tsx:60 | a missing, NaN or zero month or day reads as 1; any other value is kept |
| Dashboard.RangeDays | taller-3-intro-web/app/dashboard/page.tsx:64-66 | the range is the `parseInt` value of the applied range, or 30 when that value is not finite |
| Dashboard.RangeDaysDefault | taller-3-intro-web/app/dashboard/page.tsx:64 | an empty applied range means 30 days |
| Dashboard.MoveBack | taller-3-intro-web/app/dashboard/page.tsx:65-66 | moving the day of the month back by `range` moves the date back by `range` days, across month and year ends |
| Dashboard.DateWindow | taller-3-intro-web/app/dashboard/page.tsx:63-67 | the window ends on the applied date, or on today when none is applied, and starts `range` days earlier; an unreadable date gives no valid window |
| Dashboard.FormatParseRoundTrip | taller-3-intro-web/app/dashboard/page.tsx:52-61 | for years from 100 on, the page's own parser reads back every date its formatter writes |
| Dashboard.WindowOfFormattedDate | taller-3-intro-web/app/dashboard/page.tsx:51-67 | applying a date the page formatted gives the window that ends on that day and spans the applied range |
| Dashboard.MissingFieldsAreOne | taller-3-intro-web/app/dashboard/page.tsx:58-61 | a bare year reads as 1 January of that year |
| Dashboard.SaleIdTarget | taller-3-intro-web/app/dashboard/page.tsx:171-176 | the page navigates exactly when the trimmed input is non-empty and `parseInt` reads a positive number from it, and then to that id |
| Dashboard.SaleIdRoundTrip | taller-3-intro-web/app/dashboard/page.tsx:182-187 | a positive id typed as a numeral leads to that id, and zero or a negative id leads nowhere |
| QueryString.Stringify | taller-3-intro-web/lib/metrics.ts:24 | a kept value never stringifies to the empty string |
| QueryString.Qs | taller-3-intro-web/lib/metrics.ts:21-27 | the query has at most one pair per entry, and no empty value |
| QueryString.QsSingle | taller-3-intro-web/lib/metrics.ts:24 | an entry is kept, stringified, exactly when it is neither undefined nor the empty string |
| QueryString.QsKeepsZero | taller-3-intro-web/lib/metrics.ts:24 | the number 0 is kept, as "0" |
| QueryString.QsAppend | taller-3-intro-web/lib/metrics.ts:23-25 | the query of two records in turn is their two queries in turn, so kept pairs keep their insertion order |
| QueryString.QsMembers | taller-3-intro-web/lib/sales.ts:17-23 | a pair is in the query exactly when the record has that key with a kept value that stringifies to it |
| QueryString.QsUnique | taller-3-intro-web/lib/sales.ts:19-21 | a record without repeated keys gives a query without repeated keys |
| QueryString.Lookup | taller-3-intro-web/app/api/sales/route.ts:7-8 | `searchParams.get` finds a value exactly when some pair has the key, and the value belongs to such a pair |
| QueryString.LookupKept | taller-3-intro-web/lib/sales.ts:20 | for a record without repeated keys, the route reads back each kept value, stringified |
| QueryString.QsAbsent | taller-3-intro-web/lib/metrics.ts:24 | a key whose entries are all undefined or empty is absent from the query |
| QueryString.Override | taller-3-intro-web/lib/sales.ts:26 | a spread override puts the new value under the key and keeps every entry of every other key |
| QueryString.OverrideKeys | taller-3-intro-web/lib/sales.ts:26 | an existing key keeps its place and the keys keep their order; a new key is added at the end |
| QueryString.OverrideUnique | taller-3-intro-web/lib/sales.ts:26 | an override keeps the keys distinct |
| QueryString.OverrideValue | taller-3-intro-web/lib/sales.ts:26 | with distinct keys, the overridden key holds only the new value |
| QueryString.DashboardParams | taller-3-intro-web/app/dashboard/page.tsx:74-79 | the dashboard's parameter record has no repeated key |
| QueryString.DashboardQuery | taller-3-intro-web/app/dashboard/page.tsx:74-79 | routes read the window dates as given; they read no category for 'all' or empty, no search term for an empty one, and no region |
| QueryString.AllCategoriesAdmitsEverySale | taller-3-intro-web/app/dashboard/page.tsx:77 | with category 'all', the routes' category condition admits every sale |
| QueryString.RecentSalesQuerySpec | taller-3-intro-web/lib/sales.ts:25-26 | the recent-sales request asks for page 1 and the given limit, 200 by default, whatever the caller's parameters hold |
| QueryString.RecentSalesOtherKeys | taller-3-intro-web/lib/sales.ts:26 | every other parameter is passed on as `qs` would pass it |
| QueryString.RecentSalesServedAsAsked | taller-3-intro-web/lib/sales.ts:25-26 | the sales route serves the recent-sales request from page 1 with the limit asked for (200 by default) |

## Left out

- Database and HTTP: Prisma queries, `fetch`, `Response.json`, cache headers and the error responses are not modelled. A query is a pure function over the table as a `seq<Sale>`.
- `Date` string parsing: the routes' `parseDate` and `new Date(str)` depend on the engine, so dates arrive as already parsed timestamps (`Option<int>`).
- `JSON.parse`: the age-bucket parameter arrives already parsed, as one of missing, unparseable, not an array, or an array of elements flagged finite or not.
- Floating point: amounts, quantities and ages are integers. Averages are exact reals, and no rounding is modelled.
- AgeBuckets.ParseBuckets: bucket edges are integers. A JSON array of finite fractional numbers such as `[18.5, 30]`, which the route accepts and labels "18.5-29", cannot be written in the model, because the number-to-string conversion of JavaScript for non-integers is not modelled.
- SalesList.FiniteBound: the amount and age bounds arrive as the outcome of `Number(str)`, finite integer or not finite. The `Number` conversion of the query string is not modelled, and finite fractional bounds such as `minAmount=9.5` cannot be written, because amounts and ages are integers in this model.
- `toLocaleString`: the histogram's "$from - $to" label strings are left out. The bins keep their numeric `from` and `to`.
- Percent-encoding: `URLSearchParams` encoding (the application/x-www-form-urlencoded serializer of the WHATWG URL Standard) is left out. A query is its sequence of pairs.
- Object key order: `Object.entries` lists integer-like keys first. The dashboard's parameter names are not integer-like, so insertion order is modelled.
- Case folding: the search term's `contains` with `mode: 'insensitive'` is ASCII lower-casing, with no Unicode folding.
- Tie order: products of equal value in top-products, and the order of `groupBy` rows, are left to the database. The model uses a stable sort and first-seen group order. The top-products and grouping properties do not depend on that choice; the sales list's do, as the next line says.
- SalesList.NewestFirst: `orderBy: { date: 'desc' }` leaves the order of sales with equal dates to the database, and two page requests need not agree on it. The model fixes that order as the stored order, which fits a table modelled as a pure `seq<Sale>`. `SalesList.PageOfSpec`, `SalesList.PageOfIndex` and `SalesList.EveryMatchOnItsPage` name positions in this chosen order, so among sales with equal dates they state more than the database promises.
- Dashboard.NumberOfPart: `Number` is modelled only for plain decimal numerals and the empty string. It differs from JavaScript on every other spelling: surrounding blanks (" 2024"), a sign ("+5"), a fraction ("2024.5"), an exponent ("2e3"), a hexadecimal, octal or binary prefix ("0x10"), and "Infinity" all read as NaN here, where JavaScript gives a number (Infinity for "Infinity"). On such a field the model and the page can compute different windows: a year " 2024" gives no valid window here and 1 January 2024 in the page.
- Dashboard.DateWindow: it works on civil dates without a time of day. The local time zone and daylight-saving shifts of `new Date()` and `setDate` are not modelled; today's date is a parameter.
- Dashboard.FormatParseRoundTrip: years 0..99 are excluded, because `new Date(y, …)` reads them as 1900 + y. This quirk is modelled in `LocalDay`.
- Text.ParseInt: `parseInt` of a digit string too long for a double (Infinity) is not modelled; integers are unbounded.
- The by-region route and the paged sales fetch helper are called by the dashboard but are not part of this model.
- The store setup file and the React components (charts, KPI grid, filter form, store provider) are not part of this model.
- The detail route for a single sale is not part of this model. Only the path the search box navigates to is.
- The seed script is not part of this model.

## Findings

| source | as written | input that shows it | evidently intended | confidence | as-written member | corrected member |
|---|---|---|---|---|---|---|
| taller-3-intro-web/app/api/metrics/timeseries/route.ts:28 | the week key is prefixed with the date's own calendar year (from line 14), while the week number counts from the first Thursday of the shifted Thursday's year | 2024-01-01 and 2024-12-30 both key to "2024-W01" although they are a year apart; 2021-01-01 keys to "2021-W53" | prefix the year of the shifted Thursday (the ISO 8601 week-numbering year), so that two days share a key exactly when they share a week | high; not executed | Timeseries.WeekKeyCollision | Timeseries.IsoWeekKeySameWeek |

`Timeseries.TimeseriesRoute` keeps the week key as written.
`Timeseries.TimeseriesRouteCorrected` uses the corrected key, and `Timeseries.CorrectedWeekBuckets` proves that its weekly buckets are exactly the calendar weeks.
