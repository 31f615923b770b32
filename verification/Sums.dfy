/** Exact sums over finite sets. */
module Sums {
  ghost function SumOver<T>(s: set<T>, f: T -> real): real {
    if s == {} then 0.0
    else var x :| x in s; f(x) + SumOver(s - {x}, f)
  }

  lemma SumRemove<T>(s: set<T>, f: T -> real, x: T)
    requires x in s
    ensures SumOver(s, f) == f(x) + SumOver(s - {x}, f)
    decreases |s|
  {
    var y :| y in s && SumOver(s, f) == f(y) + SumOver(s - {y}, f);
    if x != y {
      SumRemove(s - {y}, f, x);
      SumRemove(s - {x}, f, y);
      assert s - {x} - {y} == s - {y} - {x};
    }
  }

  lemma SumAdd<T>(s: set<T>, f: T -> real, x: T)
    requires x !in s
    ensures SumOver(s + {x}, f) == SumOver(s, f) + f(x)
  {
    SumRemove(s + {x}, f, x);
    assert s + {x} - {x} == s;
  }
}
