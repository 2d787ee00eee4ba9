/** How the dashboard turns its parameters into the query of a request, and
    what the routes read back from it. A query is the sequence of its
    key/value pairs; percent-encoding is not modelled. */
module QueryString {
  import opened Wrappers
  import Text
  import Sales
  import SalesList

  /** A value of a `Record<string, string | number | undefined>`. */
  datatype JsValue = Undefined | Str(s: string) | Number(n: int)

  /** A parameter record: its entries in insertion order. */
  type Record = seq<(string, JsValue)>

  /** The query string, as the pairs it holds. */
  type Query = seq<(string, string)>

  /** `v !== undefined && v !== ''`. */
  predicate Kept(v: JsValue) {
    !v.Undefined? && v != Str("")
  }

  /** `String(v)` of a defined value. */
  function Stringify(v: JsValue): (s: string)
    requires !v.Undefined?
    ensures Kept(v) ==> s != ""
  {
    match v
    case Str(s) => s
    case Number(n) => Text.IntToString(n)
  }

  /** `qs`: appends every kept entry, stringified, in the record's order. */
  function Qs(r: Record): (q: Query)
    ensures |q| <= |r|
    ensures forall i :: 0 <= i < |q| ==> q[i].1 != ""
  {
    if |r| == 0 then []
    else
      var (k, v) := r[|r| - 1];
      Qs(r[..|r| - 1]) + (if Kept(v) then [(k, Stringify(v))] else [])
  }

  /** One entry is kept, stringified, exactly when it is neither undefined
      nor the empty string. */
  lemma QsSingle(k: string, v: JsValue)
    ensures Qs([(k, v)]) == if Kept(v) then [(k, Stringify(v))] else []
  {
    assert [(k, v)][..0] == [];
  }

  /** The number 0 is kept, as "0". */
  lemma QsKeepsZero(k: string)
    ensures Qs([(k, Number(0))]) == [(k, "0")]
  {
    QsSingle(k, Number(0));
  }

  /** The query of two records one after the other is the two queries one
      after the other: the kept pairs keep their relative order. */
  lemma {:induction false} QsAppend(a: Record, b: Record)
    ensures Qs(a + b) == Qs(a) + Qs(b)
  {
    if |b| == 0 {
      assert a + b == a;
    } else {
      assert (a + b)[..|a + b| - 1] == a + b[..|b| - 1];
      QsAppend(a, b[..|b| - 1]);
    }
  }

  /** A pair is in the query exactly when the record has an entry with that
      key and a kept value that stringifies to it. */
  lemma {:induction false} QsMembers(r: Record, k: string, s: string)
    ensures (k, s) in Qs(r) <==> exists v :: (k, v) in r && Kept(v) && Stringify(v) == s
  {
    if |r| > 0 {
      QsMembers(r[..|r| - 1], k, s);
      assert r == r[..|r| - 1] + [r[|r| - 1]];
      var (k', v') := r[|r| - 1];
      if (exists v :: (k, v) in r && Kept(v) && Stringify(v) == s) {
        var v :| (k, v) in r && Kept(v) && Stringify(v) == s;
        if (k, v) !in r[..|r| - 1] {
          assert (k, v) == (k', v');
        }
      }
    }
  }

  /** No key occurs twice, as in a JavaScript object or a query built from
      one. */
  predicate UniqueKeys<V>(r: seq<(string, V)>) {
    forall i, j :: 0 <= i < j < |r| ==> r[i].0 != r[j].0
  }

  predicate HasKey<V>(r: seq<(string, V)>, key: string) {
    exists i :: 0 <= i < |r| && r[i].0 == key
  }

  /** `searchParams.get(key)`: the value of the first pair with that key. */
  function Lookup(q: Query, key: string): (v: Option<string>)
    ensures v.Some? <==> HasKey(q, key)
    ensures v.Some? ==> (key, v.value) in q
  {
    if |q| == 0 then None
    else if q[0].0 == key then Some(q[0].1)
    else
      assert HasKey(q, key) <==> HasKey(q[1..], key) by {
        if HasKey(q, key) {
          var i :| 0 <= i < |q| && q[i].0 == key;
          assert q[1..][i - 1].0 == key;
        }
      }
      Lookup(q[1..], key)
  }

  /** With no repeated key, the value looked up is the one paired with the
      key. */
  lemma {:induction false} LookupUnique(q: Query, key: string, s: string)
    requires UniqueKeys(q) && (key, s) in q
    ensures Lookup(q, key) == Some(s)
  {
    if q[0].0 != key {
      assert (key, s) in q[1..] by {
        assert q == [q[0]] + q[1..];
      }
      LookupUnique(q[1..], key, s);
    } else {
      var i :| 0 <= i < |q| && q[i] == (key, s);
      assert q[0].0 == q[i].0;
    }
  }

  /** With no repeated key, a kept entry is what the query holds for its
      key. */
  lemma LookupKept(r: Record, key: string, v: JsValue)
    requires UniqueKeys(r) && (key, v) in r && Kept(v)
    ensures Lookup(Qs(r), key) == Some(Stringify(v))
  {
    QsUnique(r);
    QsMembers(r, key, Stringify(v));
    LookupUnique(Qs(r), key, Stringify(v));
  }

  /** A key the record has no kept entry for is absent from the query. */
  lemma QsAbsent(r: Record, key: string)
    requires forall v :: (key, v) in r ==> !Kept(v)
    ensures Lookup(Qs(r), key).None?
  {
    if Lookup(Qs(r), key).Some? {
      QsMembers(r, key, Lookup(Qs(r), key).value);
    }
  }

  /** The query of a record without repeated keys has no repeated keys. */
  lemma {:induction false} QsUnique(r: Record)
    requires UniqueKeys(r)
    ensures UniqueKeys(Qs(r))
  {
    if |r| > 0 {
      var init := r[..|r| - 1];
      var (k, v) := r[|r| - 1];
      assert UniqueKeys(init);
      QsUnique(init);
      if Kept(v) {
        var q := Qs(init);
        forall i | 0 <= i < |q| ensures q[i].0 != k {
          QsMembers(init, q[i].0, q[i].1);
          var w :| (q[i].0, w) in init && Kept(w) && Stringify(w) == q[i].1;
          var j :| 0 <= j < |init| && init[j] == (q[i].0, w);
          assert r[j].0 != r[|r| - 1].0;
        }
        assert Qs(r) == q + [(k, Stringify(v))];
      }
    }
  }

  /** `{ ...r, [key]: v }`: an existing key keeps its place and takes the
      new value; a new key goes at the end. */
  function Override(r: Record, key: string, v: JsValue): (o: Record)
    ensures (key, v) in o
    ensures forall k, w :: k != key ==> ((k, w) in o <==> (k, w) in r)
  {
    if |r| == 0 then [(key, v)]
    else if r[0].0 == key then
      assert r == [r[0]] + r[1..];
      [(key, v)] + r[1..]
    else
      assert r == [r[0]] + r[1..];
      [r[0]] + Override(r[1..], key, v)
  }

  /** An existing key keeps its place; a new key is added at the end. */
  lemma {:induction false} OverrideKeys(r: Record, key: string, v: JsValue)
    ensures var o := Override(r, key, v);
      && |o| == (if HasKey(r, key) then |r| else |r| + 1)
      && (forall i :: 0 <= i < |r| ==> o[i].0 == r[i].0)
      && (!HasKey(r, key) ==> o[|r|] == (key, v))
  {
    if |r| > 0 {
      if r[0].0 != key {
        OverrideKeys(r[1..], key, v);
        assert HasKey(r, key) <==> HasKey(r[1..], key) by {
          if HasKey(r, key) {
            var i :| 0 <= i < |r| && r[i].0 == key;
            assert r[1..][i - 1].0 == key;
          }
        }
      }
    }
  }

  /** Overriding keeps the keys distinct. */
  lemma OverrideUnique(r: Record, key: string, v: JsValue)
    requires UniqueKeys(r)
    ensures UniqueKeys(Override(r, key, v))
  {
    var o := Override(r, key, v);
    OverrideKeys(r, key, v);
    forall i, j | 0 <= i < j < |o| ensures o[i].0 != o[j].0 {
      if j >= |r| {
        assert !HasKey(r, key) && o[i].0 == r[i].0;
      }
    }
  }

  /** With distinct keys, the overridden key holds the new value only. */
  lemma OverrideValue(r: Record, key: string, v: JsValue)
    requires UniqueKeys(r)
    ensures forall w :: (key, w) in Override(r, key, v) ==> w == v
  {
    var o := Override(r, key, v);
    OverrideUnique(r, key, v);
    forall w | (key, w) in o ensures w == v {
      var i :| 0 <= i < |o| && o[i] == (key, w);
      var j :| 0 <= j < |o| && o[j] == (key, v);
      assert o[i].0 == o[j].0;
    }
  }

  // ---------------------------------------------------------------------
  // Requests of the dashboard

  /** The parameters every dashboard request starts from: the window, the
      category unless it is 'all', and the search term unless it is
      empty. */
  function DashboardParams(startDate: string, endDate: string, category: string, searchTerm: string): (r: Record)
    ensures UniqueKeys(r)
  {
    [("startDate", Str(startDate)),
     ("endDate", Str(endDate)),
     ("category", if category != "all" then Str(category) else Undefined),
     ("searchTerm", if searchTerm != "" then Str(searchTerm) else Undefined)]
  }

  /** What a route reads from the dashboard's query: the dates as given, no
      category for 'all' (nor for an empty one), no search term for an empty
      one, and no region. */
  lemma DashboardQuery(startDate: string, endDate: string, category: string, searchTerm: string)
    requires startDate != "" && endDate != ""
    ensures var q := Qs(DashboardParams(startDate, endDate, category, searchTerm));
      && Lookup(q, "startDate") == Some(startDate)
      && Lookup(q, "endDate") == Some(endDate)
      && Lookup(q, "category") == (if category == "all" || category == "" then None else Some(category))
      && Lookup(q, "searchTerm") == (if searchTerm == "" then None else Some(searchTerm))
      && Lookup(q, "region").None?
  {
    var r := DashboardParams(startDate, endDate, category, searchTerm);
    LookupKept(r, "startDate", Str(startDate));
    LookupKept(r, "endDate", Str(endDate));
    if category == "all" || category == "" {
      QsAbsent(r, "category");
    } else {
      LookupKept(r, "category", Str(category));
    }
    if searchTerm == "" {
      QsAbsent(r, "searchTerm");
    } else {
      LookupKept(r, "searchTerm", Str(searchTerm));
    }
    QsAbsent(r, "region");
  }

  /** With category 'all' the routes' category condition admits every
      sale. */
  lemma AllCategoriesAdmitsEverySale(startDate: string, endDate: string, searchTerm: string, s: Sales.Sale)
    requires startDate != "" && endDate != ""
    ensures Sales.EqualsParam(s.category, Lookup(Qs(DashboardParams(startDate, endDate, "all", searchTerm)), "category"))
  {
    DashboardQuery(startDate, endDate, "all", searchTerm);
  }

  const RecentDefaultLimit: int := 200

  /** `fetchRecentSales(params, limit)`: the caller's parameters with `page`
      set to 1 and `limit` to the given limit, 200 when none is given. */
  function RecentSalesQuery(params: Record, limit: Option<int>): Query {
    var lim := if limit.None? then RecentDefaultLimit else limit.value;
    Qs(Override(Override(params, "page", Number(1)), "limit", Number(lim)))
  }

  /** The recent-sales request asks for page 1 and the given limit whatever
      the caller's parameters hold. */
  lemma RecentSalesQuerySpec(params: Record, limit: Option<int>)
    requires UniqueKeys(params)
    ensures var q := RecentSalesQuery(params, limit);
      && Lookup(q, "page") == Some("1")
      && Lookup(q, "limit") == Some(Text.IntToString(if limit.None? then RecentDefaultLimit else limit.value))
  {
    var lim := if limit.None? then RecentDefaultLimit else limit.value;
    var o1 := Override(params, "page", Number(1));
    var o := Override(o1, "limit", Number(lim));
    OverrideUnique(params, "page", Number(1));
    OverrideUnique(o1, "limit", Number(lim));
    assert ("page", Number(1)) in o;
    assert Text.IntToString(1) == "1";
    LookupKept(o, "page", Number(1));
    LookupKept(o, "limit", Number(lim));
  }

  /** Every other parameter is passed on as `qs` would pass it. */
  lemma RecentSalesOtherKeys(params: Record, limit: Option<int>, key: string, s: string)
    requires key != "page" && key != "limit"
    ensures (key, s) in RecentSalesQuery(params, limit) <==> (key, s) in Qs(params)
  {
    var lim := if limit.None? then RecentDefaultLimit else limit.value;
    var o := Override(Override(params, "page", Number(1)), "limit", Number(lim));
    QsMembers(o, key, s);
    QsMembers(params, key, s);
  }

  /** The sales route serves the recent-sales request from its first page,
      with the limit asked for (200 by default) when that limit is
      positive. */
  lemma RecentSalesServedAsAsked(params: Record, limit: Option<int>)
    requires UniqueKeys(params)
    requires limit.None? || limit.value >= 1
    ensures var q := RecentSalesQuery(params, limit);
      && SalesList.PositiveOr(Lookup(q, "page"), 1) == 1
      && SalesList.PositiveOr(Lookup(q, "limit"), SalesList.DefaultLimit) == (if limit.None? then 200 else limit.value)
  {
    RecentSalesQuerySpec(params, limit);
    SalesList.PositiveOrRoundTrip(1, 1);
    assert Text.IntToString(1) == "1";
    var lim := if limit.None? then RecentDefaultLimit else limit.value;
    SalesList.PositiveOrRoundTrip(lim, SalesList.DefaultLimit);
  }
}
