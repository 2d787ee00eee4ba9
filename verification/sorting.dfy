/** Insertion sorts for the three orders the routes use: descending by a
    numeric rank (top products by metric, sales by date), ascending integers
    (age-bucket edges) and ascending strings (time-series labels). */
module Sorting {
  import Text

  // ---------------------------------------------------------------------
  // Descending by a rank

  predicate DescendingBy<T>(xs: seq<T>, rank: T -> int) {
    forall i, j :: 0 <= i < j < |xs| ==> rank(xs[i]) >= rank(xs[j])
  }

  /** Inserts `x` after every element ranked at least as high, which keeps
      equal-ranked elements in arrival order as a stable sort does. */
  function InsertDesc<T(==)>(x: T, xs: seq<T>, rank: T -> int): (r: seq<T>)
    requires DescendingBy(xs, rank)
    ensures DescendingBy(r, rank)
    ensures multiset(r) == multiset(xs) + multiset{x}
    ensures |r| == |xs| + 1
  {
    if |xs| == 0 then [x]
    else if rank(xs[0]) < rank(x) then
      ConsDesc(x, xs, rank);
      assert multiset([x] + xs) == multiset{x} + multiset(xs);
      [x] + xs
    else
      var tail := InsertDesc(x, xs[1..], rank);
      InsertDescBehind(x, xs, tail, rank);
      [xs[0]] + tail
  }

  /** Putting the head of `xs` back in front of the insertion into its tail
      keeps the order and the elements. */
  lemma InsertDescBehind<T>(x: T, xs: seq<T>, tail: seq<T>, rank: T -> int)
    requires |xs| > 0 && DescendingBy(xs, rank) && rank(x) <= rank(xs[0])
    requires DescendingBy(tail, rank) && multiset(tail) == multiset(xs[1..]) + multiset{x}
    ensures DescendingBy([xs[0]] + tail, rank)
    ensures multiset([xs[0]] + tail) == multiset(xs) + multiset{x}
  {
    forall y | y in tail ensures rank(y) <= rank(xs[0]) {
      assert y in multiset(tail);
      if y != x {
        assert y in multiset(xs[1..]);
      }
    }
    ConsDesc(xs[0], tail, rank);
    assert xs == [xs[0]] + xs[1..];
    assert multiset([xs[0]] + tail) == multiset{xs[0]} + multiset(tail);
  }

  lemma ConsDesc<T>(a: T, tail: seq<T>, rank: T -> int)
    requires DescendingBy(tail, rank)
    requires forall y :: y in tail ==> rank(y) <= rank(a)
    ensures DescendingBy([a] + tail, rank)
  {
    var r := [a] + tail;
    forall i, j | 0 <= i < j < |r| ensures rank(r[i]) >= rank(r[j]) {
      if i == 0 {
        assert r[j] == tail[j - 1];
      } else {
        assert r[i] == tail[i - 1] && r[j] == tail[j - 1];
      }
    }
  }

  /** `Array.prototype.sort` with a comparator that orders by `rank`
      descending. */
  function SortDesc<T(==)>(xs: seq<T>, rank: T -> int): (r: seq<T>)
    ensures DescendingBy(r, rank)
    ensures multiset(r) == multiset(xs)
    ensures |r| == |xs|
  {
    if |xs| == 0 then []
    else
      assert xs == xs[..|xs| - 1] + [xs[|xs| - 1]];
      InsertDesc(xs[|xs| - 1], SortDesc(xs[..|xs| - 1], rank), rank)
  }

  // ---------------------------------------------------------------------
  // Ascending integers

  predicate Ascending(xs: seq<int>) {
    forall i, j :: 0 <= i < j < |xs| ==> xs[i] <= xs[j]
  }

  function InsertAsc(x: int, xs: seq<int>): (r: seq<int>)
    requires Ascending(xs)
    ensures Ascending(r)
    ensures multiset(r) == multiset(xs) + multiset{x}
    ensures |r| == |xs| + 1
  {
    if |xs| == 0 then [x]
    else if x <= xs[0] then
      ConsAsc(x, xs);
      assert multiset([x] + xs) == multiset{x} + multiset(xs);
      [x] + xs
    else
      var tail := InsertAsc(x, xs[1..]);
      InsertAscBehind(x, xs, tail);
      [xs[0]] + tail
  }

  lemma InsertAscBehind(x: int, xs: seq<int>, tail: seq<int>)
    requires |xs| > 0 && Ascending(xs) && xs[0] < x
    requires Ascending(tail) && multiset(tail) == multiset(xs[1..]) + multiset{x}
    ensures Ascending([xs[0]] + tail)
    ensures multiset([xs[0]] + tail) == multiset(xs) + multiset{x}
  {
    forall y | y in tail ensures xs[0] <= y {
      assert y in multiset(tail);
      if y != x {
        assert y in multiset(xs[1..]);
      }
    }
    ConsAsc(xs[0], tail);
    assert xs == [xs[0]] + xs[1..];
    assert multiset([xs[0]] + tail) == multiset{xs[0]} + multiset(tail);
  }

  lemma ConsAsc(a: int, tail: seq<int>)
    requires Ascending(tail)
    requires forall y :: y in tail ==> a <= y
    ensures Ascending([a] + tail)
  {
    var r := [a] + tail;
    forall i, j | 0 <= i < j < |r| ensures r[i] <= r[j] {
      if i == 0 {
        assert r[j] == tail[j - 1] && tail[j - 1] in tail;
      } else {
        assert r[i] == tail[i - 1] && r[j] == tail[j - 1];
      }
    }
  }

  /** `[...xs].sort((a, b) => a - b)`. */
  function SortAsc(xs: seq<int>): (r: seq<int>)
    ensures Ascending(r)
    ensures multiset(r) == multiset(xs)
    ensures |r| == |xs|
  {
    if |xs| == 0 then []
    else
      assert xs == xs[..|xs| - 1] + [xs[|xs| - 1]];
      InsertAsc(xs[|xs| - 1], SortAsc(xs[..|xs| - 1]))
  }

  /** Two ascending sequences with the same elements are equal: the sorted
      order of a collection does not depend on the order it arrived in. */
  lemma {:induction false} AscendingUnique(a: seq<int>, b: seq<int>)
    requires Ascending(a) && Ascending(b)
    requires multiset(a) == multiset(b)
    ensures a == b
  {
    assert |a| == |multiset(a)| == |multiset(b)| == |b|;
    if |a| > 0 {
      AscendingHeads(a, b);
      AscendingTail(a);
      AscendingTail(b);
      SameTails(a, b);
      AscendingUnique(a[1..], b[1..]);
      assert a == [a[0]] + a[1..] && b == [b[0]] + b[1..];
    }
  }

  /** Two ascending sequences with the same elements start with the same
      least element. */
  lemma AscendingHeads(a: seq<int>, b: seq<int>)
    requires |a| > 0 && |b| > 0 && Ascending(a) && Ascending(b)
    requires multiset(a) == multiset(b)
    ensures a[0] == b[0]
  {
    assert a[0] in multiset(b) && b[0] in multiset(a);
    var i :| 0 <= i < |b| && b[i] == a[0];
    var j :| 0 <= j < |a| && a[j] == b[0];
    assert b[0] <= b[i] && a[0] <= a[j];
  }

  lemma AscendingTail(a: seq<int>)
    requires |a| > 0 && Ascending(a)
    ensures Ascending(a[1..])
  {
    var t := a[1..];
    forall i, j | 0 <= i < j < |t| ensures t[i] <= t[j] {
      assert t[i] == a[i + 1] && t[j] == a[j + 1];
    }
  }

  /** Removing equal heads from sequences with the same elements leaves
      tails with the same elements. */
  lemma SameTails(a: seq<int>, b: seq<int>)
    requires |a| > 0 && |b| > 0 && a[0] == b[0]
    requires multiset(a) == multiset(b)
    ensures multiset(a[1..]) == multiset(b[1..])
  {
    assert a == [a[0]] + a[1..] && b == [b[0]] + b[1..];
    assert multiset(a) == multiset{a[0]} + multiset(a[1..]);
    assert multiset(b) == multiset{b[0]} + multiset(b[1..]);
    assert multiset(a[1..]) == multiset(a) - multiset{a[0]};
    assert multiset(b[1..]) == multiset(b) - multiset{b[0]};
  }

  // ---------------------------------------------------------------------
  // Ascending strings

  predicate StrictlyIncreasing(xs: seq<string>) {
    forall i, j :: 0 <= i < j < |xs| ==> Text.LexLess(xs[i], xs[j])
  }

  /** A strictly increasing sequence holds no string twice. */
  lemma StrictlyIncreasingDistinct(xs: seq<string>)
    requires StrictlyIncreasing(xs)
    ensures forall i, j :: 0 <= i < j < |xs| ==> xs[i] != xs[j]
  {
    forall i, j | 0 <= i < j < |xs| ensures xs[i] != xs[j] {
      Text.LexLessIrreflexive(xs[i]);
    }
  }

  function InsertString(x: string, xs: seq<string>): (r: seq<string>)
    requires StrictlyIncreasing(xs) && x !in xs
    ensures StrictlyIncreasing(r)
    ensures multiset(r) == multiset(xs) + multiset{x}
    ensures |r| == |xs| + 1
  {
    if |xs| == 0 then [x]
    else if Text.LexLess(x, xs[0]) then
      InsertStringFront(x, xs);
      [x] + xs
    else
      Text.LexLessTotal(x, xs[0]);
      assert xs == [xs[0]] + xs[1..];
      var tail := InsertString(x, xs[1..]);
      InsertStringBehind(x, xs, tail);
      [xs[0]] + tail
  }

  lemma InsertStringFront(x: string, xs: seq<string>)
    requires |xs| > 0 && StrictlyIncreasing(xs) && Text.LexLess(x, xs[0])
    ensures StrictlyIncreasing([x] + xs)
    ensures multiset([x] + xs) == multiset(xs) + multiset{x}
  {
    forall y | y in xs ensures Text.LexLess(x, y) {
      var j :| 0 <= j < |xs| && xs[j] == y;
      if j > 0 {
        Text.LexLessTransitive(x, xs[0], xs[j]);
      }
    }
    ConsIncreasing(x, xs);
    assert multiset([x] + xs) == multiset{x} + multiset(xs);
  }

  lemma InsertStringBehind(x: string, xs: seq<string>, tail: seq<string>)
    requires |xs| > 0 && StrictlyIncreasing(xs) && Text.LexLess(xs[0], x)
    requires StrictlyIncreasing(tail) && multiset(tail) == multiset(xs[1..]) + multiset{x}
    ensures StrictlyIncreasing([xs[0]] + tail)
    ensures multiset([xs[0]] + tail) == multiset(xs) + multiset{x}
  {
    forall y | y in tail ensures Text.LexLess(xs[0], y) {
      assert y in multiset(tail);
      if y != x {
        assert y in multiset(xs[1..]);
        var j :| 0 <= j < |xs[1..]| && xs[1..][j] == y;
        assert xs[j + 1] == y;
      }
    }
    ConsIncreasing(xs[0], tail);
    assert xs == [xs[0]] + xs[1..];
    assert multiset([xs[0]] + tail) == multiset{xs[0]} + multiset(tail);
  }

  lemma ConsIncreasing(a: string, tail: seq<string>)
    requires StrictlyIncreasing(tail)
    requires forall y :: y in tail ==> Text.LexLess(a, y)
    ensures StrictlyIncreasing([a] + tail)
  {
    var r := [a] + tail;
    forall i, j | 0 <= i < j < |r| ensures Text.LexLess(r[i], r[j]) {
      if i == 0 {
        assert r[j] == tail[j - 1];
      } else {
        assert r[i] == tail[i - 1] && r[j] == tail[j - 1];
      }
    }
  }

  /** `Array.prototype.sort()` with no comparator on distinct strings. */
  function SortStrings(xs: seq<string>): (r: seq<string>)
    requires forall i, j :: 0 <= i < j < |xs| ==> xs[i] != xs[j]
    ensures StrictlyIncreasing(r)
    ensures multiset(r) == multiset(xs)
    ensures |r| == |xs|
  {
    if |xs| == 0 then []
    else
      var init := xs[..|xs| - 1];
      assert xs == init + [xs[|xs| - 1]];
      var sorted := SortStrings(init);
      LastIsNew(xs, sorted);
      InsertString(xs[|xs| - 1], sorted)
  }

  /** The last of distinct strings is not among any arrangement of the
      others. */
  lemma LastIsNew(xs: seq<string>, sorted: seq<string>)
    requires |xs| > 0 && forall i, j :: 0 <= i < j < |xs| ==> xs[i] != xs[j]
    requires multiset(sorted) == multiset(xs[..|xs| - 1])
    ensures xs[|xs| - 1] !in sorted
  {
    var init := xs[..|xs| - 1];
    assert xs[|xs| - 1] !in init;
    assert xs[|xs| - 1] !in multiset(init);
  }
}
