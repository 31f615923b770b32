/** Finite sets under a strict total order: their sorted listing and how many precede each element. */
module Ranking {
  import opened Prelude

  ghost predicate StrictOrder<T>(s: set<T>, before: (T, T) -> bool) {
    && (forall x :: x in s ==> !before(x, x))
    && (forall x, y, z :: x in s && y in s && z in s && before(x, y) && before(y, z) ==> before(x, z))
    && (forall x, y :: x in s && y in s && x != y ==> before(x, y) || before(y, x))
  }

  /** The elements listed before x. */
  ghost function Before<T>(s: set<T>, before: (T, T) -> bool, x: T): set<T> {
    set y | y in s && before(y, x)
  }

  /** The first n elements of the listing. */
  ghost function First<T>(s: set<T>, before: (T, T) -> bool, n: nat): set<T> {
    set x | x in s && |Before(s, before, x)| < n
  }

  lemma {:induction false} LastExists<T>(s: set<T>, before: (T, T) -> bool) returns (last: T)
    requires s != {} && StrictOrder(s, before)
    ensures last in s && forall x :: x in s && x != last ==> before(x, last)
    decreases |s|
  {
    var x :| x in s;
    if s == {x} {
      last := x;
    } else {
      var rest := s - {x};
      assert rest != {} by { assert s == rest + {x}; }
      var candidate := LastExists(rest, before);
      last := if before(candidate, x) then x else candidate;
    }
  }

  /** Exactly min(n, |s|) elements have fewer than n predecessors. */
  lemma {:induction false} FirstCount<T>(s: set<T>, before: (T, T) -> bool, n: nat)
    requires StrictOrder(s, before)
    ensures |First(s, before, n)| == if n < |s| then n else |s|
    decreases |s|
  {
    if s == {} {
      assert First(s, before, n) == {};
    } else {
      var last := LastExists(s, before);
      var rest := s - {last};
      FirstCount(rest, before, n);
      assert Before(s, before, last) == rest;
      assert |s| == |rest| + 1;
      forall x | x in rest ensures Before(s, before, x) == Before(rest, before, x) {
        assert before(x, last);
      }
      assert First(s, before, n) == First(rest, before, n) + (if |rest| < n then {last} else {});
    }
  }

  /** What is listed first precedes everything that is not. */
  lemma FirstPrecede<T>(s: set<T>, before: (T, T) -> bool, n: nat, x: T, y: T)
    requires StrictOrder(s, before) && x in First(s, before, n) && y in s && y !in First(s, before, n)
    ensures before(x, y)
  {
    if before(y, x) {
      assert Before(s, before, y) < Before(s, before, x) by {
        assert y in Before(s, before, x) && y !in Before(s, before, y);
      }
      SmallerSubset(Before(s, before, y), Before(s, before, x));
    }
  }

  lemma SmallerSubset<T>(a: set<T>, b: set<T>)
    requires a <= b
    ensures |a| <= |b|
  {
    assert b == a + (b - a);
  }

  /** Asking for more than there are is asking for all. */
  lemma AllFirst<T>(s: set<T>, before: (T, T) -> bool, n: nat, k: nat)
    requires StrictOrder(s, before) && n <= k && (n == k || n == |s|)
    ensures First(s, before, n) == First(s, before, k)
    ensures n == |s| ==> First(s, before, n) == s
  {
    forall x | x in s ensures |Before(s, before, x)| < |s| {
      assert Before(s, before, x) <= s - {x};
      SmallerSubset(Before(s, before, x), s - {x});
    }
  }

  /** What is not among the first n leaves n before it. */
  lemma LeftOutOfFirst<T>(s: set<T>, before: (T, T) -> bool, n: nat, a: T)
    requires StrictOrder(s, before) && a in s && a !in First(s, before, n)
    ensures |First(s, before, n)| == n && forall x :: x in First(s, before, n) ==> before(x, a)
  {
    FirstCount(s, before, n);
    if |s| <= n {
      AllFirst(s, before, |s|, n);
      assert false;
    }
    forall x | x in First(s, before, n) ensures before(x, a) {
      FirstPrecede(s, before, n, x, a);
    }
  }

  lemma SameSize<T>(a: set<T>, b: set<T>)
    requires a <= b && |a| == |b|
    ensures a == b
  {
    assert b == a + (b - a);
  }

  /** A list has no more distinct elements than places. */
  lemma {:induction false} SetNoLonger<T>(xs: seq<T>)
    ensures |ToSet(xs)| <= |xs|
  {
    if xs != [] {
      var n := |xs| - 1;
      SetNoLonger(xs[..n]);
      assert ToSet(xs) == ToSet(xs[..n]) + {xs[n]};
    }
  }

  // ----- sorted listings -----

  ghost predicate Sorted<T>(xs: seq<T>, before: (T, T) -> bool) {
    forall i, j :: 0 <= i < j < |xs| ==> before(xs[i], xs[j])
  }

  /** `xs` is the set `s` in sorted order. */
  ghost predicate Listing<T>(s: set<T>, before: (T, T) -> bool, xs: seq<T>) {
    Sorted(xs, before) && ToSet(xs) == s
  }

  method FirstOf<T(==)>(s: set<T>, before: (T, T) -> bool) returns (best: T)
    requires s != {} && StrictOrder(s, before)
    ensures best in s && forall x :: x in s && x != best ==> before(best, x)
  {
    best :| best in s;
    var todo := s - {best};
    while todo != {}
      invariant todo <= s && best in s && best !in todo
      invariant forall x :: x in s && x !in todo && x != best ==> before(best, x)
      decreases todo
    {
      var x :| x in todo;
      if before(x, best) {
        best := x;
      }
      todo := todo - {x};
    }
  }

  /** Sorting by an order that never ties. */
  method Sort<T(==)>(s: set<T>, before: (T, T) -> bool) returns (xs: seq<T>)
    requires StrictOrder(s, before)
    ensures Listing(s, before, xs) && |xs| == |s|
  {
    xs := [];
    var rest := s;
    while rest != {}
      invariant rest <= s && ToSet(xs) == s - rest && |xs| + |rest| == |s|
      invariant Sorted(xs, before)
      invariant forall x, y :: x in xs && y in rest ==> before(x, y)
      decreases rest
    {
      var best := FirstOf(rest, before);
      var grown := xs + [best];
      assert ToSet(grown) == ToSet(xs) + {best};
      xs, rest := grown, rest - {best};
    }
  }

  /** In a listing, an element's index is the number of elements before it. */
  lemma IndexIsRank<T>(s: set<T>, before: (T, T) -> bool, xs: seq<T>, i: nat)
    requires StrictOrder(s, before) && Listing(s, before, xs) && i < |xs|
    ensures |Before(s, before, xs[i])| == i && xs[i] in s
  {
    ListingDistinct(s, before, xs);
    assert forall k :: 0 <= k < |xs| ==> xs[k] in ToSet(xs);
    assert Before(s, before, xs[i]) == ToSet(xs[..i]) by {
      forall y | y in s && before(y, xs[i]) ensures y in xs[..i] {
        assert y in ToSet(xs);
        var k :| 0 <= k < |xs| && xs[k] == y;
        assert k < i;
        assert xs[..i][k] == y;
      }
      forall y | y in xs[..i] ensures before(y, xs[i]) {}
    }
    CountDistinct(xs[..i]);
  }

  lemma ListingDistinct<T>(s: set<T>, before: (T, T) -> bool, xs: seq<T>)
    requires StrictOrder(s, before) && Listing(s, before, xs)
    ensures Distinct(xs) && |xs| == |s|
  {
    forall i, j | 0 <= i < j < |xs| ensures xs[i] != xs[j] {
      assert xs[i] in ToSet(xs) && before(xs[i], xs[j]);
    }
    CountDistinct(xs);
  }

  lemma {:induction false} CountDistinct<T>(xs: seq<T>)
    requires Distinct(xs)
    ensures |ToSet(xs)| == |xs|
  {
    if xs != [] {
      var last := |xs| - 1;
      CountDistinct(xs[..last]);
      assert ToSet(xs) == ToSet(xs[..last]) + {xs[last]};
    }
  }

  lemma CountSlice<T>(xs: seq<T>, lo: nat, hi: nat)
    requires Distinct(xs) && lo <= hi <= |xs|
    ensures |ToSet(xs[lo..hi])| == hi - lo
  {
    CountDistinct(xs[lo..hi]);
  }

  /** The first n of a listing are the n first elements of the set. */
  lemma PrefixIsFirst<T>(s: set<T>, before: (T, T) -> bool, xs: seq<T>, n: nat)
    requires StrictOrder(s, before) && Listing(s, before, xs) && n <= |xs|
    ensures ToSet(xs[..n]) == First(s, before, n)
  {
    forall i: nat | i < |xs| ensures |Before(s, before, xs[i])| == i {
      IndexIsRank(s, before, xs, i);
    }
    forall x | x in First(s, before, n) ensures x in xs[..n] {
      assert x in ToSet(xs);
      var i :| 0 <= i < |xs| && xs[i] == x;
      assert xs[..n][i] == x;
    }
    assert forall i :: 0 <= i < n ==> xs[i] in ToSet(xs);
  }

  /** A set has one sorted listing. */
  lemma SortedOnce<T>(s: set<T>, before: (T, T) -> bool, xs: seq<T>, ys: seq<T>)
    requires StrictOrder(s, before) && Listing(s, before, xs) && Listing(s, before, ys)
    ensures xs == ys
  {
    ListingDistinct(s, before, xs);
    ListingDistinct(s, before, ys);
    forall i: nat | i < |xs| ensures xs[i] == ys[i] {
      IndexIsRank(s, before, xs, i);
      assert ys[i] in ToSet(ys) && xs[i] in ToSet(ys);
      var j :| 0 <= j < |ys| && ys[j] == xs[i];
      IndexIsRank(s, before, ys, j);
    }
  }
}
