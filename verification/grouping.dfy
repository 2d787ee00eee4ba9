/** Sums and group-by over a sequence of sales: the aggregate and `groupBy`
    queries the routes send to the database, and the facts that make grouped
    totals add up to the ungrouped total. */
module Grouping {
  import opened Wrappers
  import opened Sales

  predicate NoDuplicates<T(==)>(xs: seq<T>) {
    forall i, j :: 0 <= i < j < |xs| ==> xs[i] != xs[j]
  }

  /** Sum of `f` over the records. */
  function Sum(s: seq<Sale>, f: Sale -> int): int {
    if |s| == 0 then 0 else Sum(s[..|s| - 1], f) + f(s[|s| - 1])
  }

  /** Sum of an array of numbers. */
  function Total(xs: seq<int>): int {
    if |xs| == 0 then 0 else Total(xs[..|xs| - 1]) + xs[|xs| - 1]
  }

  /** SQL `SUM`: null over no rows. */
  function SqlSum(s: seq<Sale>, f: Sale -> int): (r: Option<int>)
    ensures r.None? <==> |s| == 0
    ensures r.GetOr(0) == Sum(s, f)
  {
    if |s| == 0 then None else Some(Sum(s, f))
  }

  /** The records whose `key` is `k`, in their original order. */
  function Select(s: seq<Sale>, key: Sale -> string, k: string): (r: seq<Sale>)
    ensures |r| <= |s|
    ensures forall x :: x in r <==> x in s && key(x) == k
  {
    if |s| == 0 then []
    else Select(s[..|s| - 1], key, k) + (if key(s[|s| - 1]) == k then [s[|s| - 1]] else [])
  }

  function KeysOf(s: seq<Sale>, key: Sale -> string): (ks: seq<string>)
    ensures |ks| == |s| && forall i :: 0 <= i < |s| ==> ks[i] == key(s[i])
  {
    seq(|s|, i requires 0 <= i < |s| => key(s[i]))
  }

  /** The distinct values of `ks` in order of first appearance, which is the
      iteration order of a JavaScript `Map` filled from `ks`. */
  function Distinct(ks: seq<string>): (r: seq<string>)
    ensures NoDuplicates(r)
    ensures forall k :: k in r <==> k in ks
    ensures |r| <= |ks|
  {
    if |ks| == 0 then []
    else
      var r := Distinct(ks[..|ks| - 1]);
      if ks[|ks| - 1] in r then r else r + [ks[|ks| - 1]]
  }

  /** One row of `groupBy({ by: [key], _sum: { amount, quantity } })`. */
  datatype Group = Group(key: string, sumAmount: Option<int>, sumQuantity: Option<int>)

  function GroupRow(s: seq<Sale>, key: Sale -> string, k: string): Group {
    var members := Select(s, key, k);
    Group(k, SqlSum(members, Amount), SqlSum(members, Quantity))
  }

  /** `groupBy` on `key`: one row per distinct key of the records. The
      database does not specify the order of the rows; this model lists them
      in order of first appearance, and no property stated about a route
      depends on that choice. */
  function GroupBy(s: seq<Sale>, key: Sale -> string): (r: seq<Group>)
    ensures |r| == |Distinct(KeysOf(s, key))|
    ensures forall i :: 0 <= i < |r| ==> r[i] == GroupRow(s, key, Distinct(KeysOf(s, key))[i])
  {
    var ks := Distinct(KeysOf(s, key));
    seq(|ks|, i requires 0 <= i < |ks| => GroupRow(s, key, ks[i]))
  }

  function RowKeys(rows: seq<Group>): (ks: seq<string>)
    ensures |ks| == |rows| && forall i :: 0 <= i < |rows| ==> ks[i] == rows[i].key
  {
    seq(|rows|, i requires 0 <= i < |rows| => rows[i].key)
  }

  /** Every row of a group-by stands for a non-empty group, so its sums are
      never null; its keys are the keys present in the records, each once. */
  lemma GroupByRows(s: seq<Sale>, key: Sale -> string)
    ensures forall i :: 0 <= i < |GroupBy(s, key)| ==> GroupBy(s, key)[i].sumAmount.Some? && GroupBy(s, key)[i].sumQuantity.Some?
    ensures RowKeys(GroupBy(s, key)) == Distinct(KeysOf(s, key))
  {
    var r := GroupBy(s, key);
    var ks := Distinct(KeysOf(s, key));
    forall i | 0 <= i < |r|
      ensures r[i].sumAmount.Some? && r[i].sumQuantity.Some?
    {
      assert ks[i] in KeysOf(s, key);
      var j :| 0 <= j < |s| && KeysOf(s, key)[j] == ks[i];
      assert s[j] in Select(s, key, ks[i]);
    }
  }

  /** A key occurs among the keys of the records exactly when some record
      has it. */
  lemma InKeysOf(s: seq<Sale>, key: Sale -> string, k: string)
    ensures k in KeysOf(s, key) <==> exists x :: x in s && key(x) == k
  {
    if exists x :: x in s && key(x) == k {
      var x :| x in s && key(x) == k;
      var j :| 0 <= j < |s| && s[j] == x;
      assert KeysOf(s, key)[j] == k;
    }
  }

  // ---------------------------------------------------------------------
  // Grouped totals add up

  /** Sum of `f` over the groups named by `ks`. */
  function SumOverKeys(s: seq<Sale>, key: Sale -> string, f: Sale -> int, ks: seq<string>): int {
    if |ks| == 0 then 0 else SumOverKeys(s, key, f, ks[..|ks| - 1]) + Sum(Select(s, key, ks[|ks| - 1]), f)
  }

  /** Appending one record adds its value to exactly the group of its key. */
  lemma {:induction false} SumOverKeysSnoc(s: seq<Sale>, x: Sale, key: Sale -> string, f: Sale -> int, ks: seq<string>)
    requires NoDuplicates(ks)
    ensures SumOverKeys(s + [x], key, f, ks) == SumOverKeys(s, key, f, ks) + (if key(x) in ks then f(x) else 0)
  {
    if |ks| > 0 {
      var init := ks[..|ks| - 1];
      var k := ks[|ks| - 1];
      assert NoDuplicates(init);
      SumOverKeysSnoc(s, x, key, f, init);
      SumSelectSnoc(s, x, key, f, k);
      assert key(x) in ks <==> key(x) in init || key(x) == k;
      assert key(x) == k ==> key(x) !in init;
    }
  }

  lemma SumSelectSnoc(s: seq<Sale>, x: Sale, key: Sale -> string, f: Sale -> int, k: string)
    ensures Sum(Select(s + [x], key, k), f) == Sum(Select(s, key, k), f) + (if key(x) == k then f(x) else 0)
  {
    var sx := s + [x];
    assert sx[..|sx| - 1] == s;
    var sel := Select(s, key, k);
    assert Select(sx, key, k) == sel + (if key(x) == k then [x] else []);
    if key(x) == k {
      var t := sel + [x];
      assert t[..|t| - 1] == sel && t[|t| - 1] == x;
      assert Sum(t, f) == Sum(sel, f) + f(x);
    } else {
      assert sel + [] == sel;
    }
  }

  /** When `ks` lists every key of the records once, the group sums add up
      to the sum over all records. */
  lemma {:induction false} SumOverKeysIsSum(s: seq<Sale>, key: Sale -> string, f: Sale -> int, ks: seq<string>)
    requires NoDuplicates(ks)
    requires forall x :: x in s ==> key(x) in ks
    ensures SumOverKeys(s, key, f, ks) == Sum(s, f)
  {
    if |s| == 0 {
      SumOverKeysEmpty(key, f, ks);
    } else {
      var init := s[..|s| - 1];
      var x := s[|s| - 1];
      assert init + [x] == s;
      SumOverKeysIsSum(init, key, f, ks);
      SumOverKeysSnoc(init, x, key, f, ks);
    }
  }

  lemma {:induction false} SumOverKeysEmpty(key: Sale -> string, f: Sale -> int, ks: seq<string>)
    ensures SumOverKeys([], key, f, ks) == 0
  {
    if |ks| > 0 {
      SumOverKeysEmpty(key, f, ks[..|ks| - 1]);
    }
  }

  /** Per-key totals over a list of keys that names every key of the
      records exactly once add up to the total over all records, whatever
      the order of the list. */
  lemma GroupTotals(s: seq<Sale>, key: Sale -> string, f: Sale -> int, ks: seq<string>, rows: seq<int>)
    requires NoDuplicates(ks)
    requires forall x :: x in s ==> key(x) in ks
    requires |rows| == |ks|
    requires forall i :: 0 <= i < |rows| ==> rows[i] == Sum(Select(s, key, ks[i]), f)
    ensures Total(rows) == Sum(s, f)
  {
    TotalIsSumOverKeys(s, key, f, ks, rows);
    SumOverKeysIsSum(s, key, f, ks);
  }

  /** The distinct keys of the records name the key of every record. */
  lemma DistinctCoversKeys(s: seq<Sale>, key: Sale -> string)
    ensures forall x :: x in s ==> key(x) in Distinct(KeysOf(s, key))
  {
    forall x | x in s
      ensures key(x) in KeysOf(s, key)
    {
      var j :| 0 <= j < |s| && s[j] == x;
      assert KeysOf(s, key)[j] == key(x);
    }
  }

  lemma {:induction false} TotalIsSumOverKeys(s: seq<Sale>, key: Sale -> string, f: Sale -> int, ks: seq<string>, rows: seq<int>)
    requires |rows| == |ks|
    requires forall i :: 0 <= i < |rows| ==> rows[i] == Sum(Select(s, key, ks[i]), f)
    ensures Total(rows) == SumOverKeys(s, key, f, ks)
  {
    if |rows| > 0 {
      TotalIsSumOverKeys(s, key, f, ks[..|ks| - 1], rows[..|rows| - 1]);
    }
  }

  /** The sum over the records of one key, split off from a sequence. */
  lemma {:induction false} SumAppend(a: seq<Sale>, b: seq<Sale>, f: Sale -> int)
    ensures Sum(a + b, f) == Sum(a, f) + Sum(b, f)
  {
    if |b| > 0 {
      assert (a + b)[..|a + b| - 1] == a + b[..|b| - 1];
      SumAppend(a, b[..|b| - 1], f);
    } else {
      assert a + b == a;
    }
  }

  // ---------------------------------------------------------------------
  // Arrays of counters

  /** `new Array(n).fill(0)`. */
  function Zeros(n: nat): (z: seq<int>)
    ensures |z| == n && forall i :: 0 <= i < n ==> z[i] == 0
  {
    seq(n, _ => 0)
  }

  /** Updating one slot of an array changes its total by the difference. */
  lemma {:induction false} TotalUpdate(xs: seq<int>, i: int, v: int)
    requires 0 <= i < |xs|
    ensures Total(xs[i := xs[i] + v]) == Total(xs) + v
  {
    var ys := xs[i := xs[i] + v];
    if i < |xs| - 1 {
      TotalUpdate(xs[..|xs| - 1], i, v);
      assert ys[..|ys| - 1] == xs[..|xs| - 1][i := xs[i] + v];
    } else {
      assert ys[..|ys| - 1] == xs[..|xs| - 1];
    }
  }

  lemma {:induction false} TotalZeros(n: nat)
    ensures Total(Zeros(n)) == 0
  {
    if n > 0 {
      TotalZeros(n - 1);
      assert Zeros(n)[..n - 1] == Zeros(n - 1);
    }
  }
}
