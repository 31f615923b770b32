/**
 The top-decile threshold of one generation's ready moves, and the lead time of each asset: how
 long until its first bar that moved as far as the threshold.
 */
module LeadTime {
  import opened Prelude
  import opened Bundles
  import opened Settlement

  // ----- counting -----

  function Count(xs: seq<real>, f: real -> bool): nat {
    if xs == [] then 0 else Count(xs[..|xs| - 1], f) + if f(xs[|xs| - 1]) then 1 else 0
  }

  function AtLeast(t: real): real -> bool {
    (x: real) => x >= t
  }

  function Above(t: real): real -> bool {
    (x: real) => x > t
  }

  lemma {:induction false} CountConcat(a: seq<real>, b: seq<real>, f: real -> bool)
    ensures Count(a + b, f) == Count(a, f) + Count(b, f)
  {
    if b == [] {
      assert a + b == a;
    } else {
      assert (a + b)[..|a + b| - 1] == a + b[..|b| - 1];
      CountConcat(a, b[..|b| - 1], f);
    }
  }

  predicate Descending(xs: seq<real>) {
    forall i, j :: 0 <= i < j < |xs| ==> xs[i] >= xs[j]
  }

  /** The same values, each as often. */
  ghost predicate SameCounts(a: seq<real>, b: seq<real>) {
    |a| == |b| && forall f: real -> bool :: Count(a, f) == Count(b, f)
  }

  lemma Inserted(a: seq<real>, b: seq<real>, x: real, source: seq<real>)
    requires SameCounts(a + b, source)
    ensures SameCounts(a + [x] + b, source + [x])
  {
    forall f: real -> bool ensures Count(a + [x] + b, f) == Count(source + [x], f) {
      CountConcat(a, b, f);
      CountConcat(a, [x], f);
      CountConcat(a + [x], b, f);
      CountConcat(source, [x], f);
      assert Count(a + b, f) == Count(source, f);
    }
  }

  /** Sorting, greatest first. */
  method SortDescending(xs: seq<real>) returns (sorted: seq<real>)
    ensures Descending(sorted) && SameCounts(sorted, xs)
  {
    hide SameCounts;
    sorted := [];
    assert SameCounts([], xs[..0]) by { Reflexive(); }
    for i := 0 to |xs|
      invariant Descending(sorted) && SameCounts(sorted, xs[..i])
    {
      assert xs[..i + 1] == xs[..i] + [xs[i]];
      sorted := Insert(sorted, xs[i], xs[..i]);
    }
    assert xs[..|xs|] == xs;
  }

  method Insert(sorted: seq<real>, x: real, ghost source: seq<real>) returns (grown: seq<real>)
    requires Descending(sorted) && SameCounts(sorted, source)
    ensures Descending(grown) && SameCounts(grown, source + [x])
  {
    hide SameCounts;
    var at := 0;
    while at < |sorted| && sorted[at] >= x
      invariant at <= |sorted| && forall j :: 0 <= j < at ==> sorted[j] >= x
    {
      at := at + 1;
    }
    InsertDescends(sorted, x, at);
    hide Descending;
    assert sorted[..at] + sorted[at..] == sorted;
    Inserted(sorted[..at], sorted[at..], x, source);
    grown := sorted[..at] + [x] + sorted[at..];
  }

  lemma InsertDescends(sorted: seq<real>, x: real, at: nat)
    requires Descending(sorted) && at <= |sorted| && forall j :: 0 <= j < at ==> sorted[j] >= x
    requires at < |sorted| ==> sorted[at] < x
    ensures Descending(sorted[..at] + [x] + sorted[at..])
  {
  }

  lemma Reflexive()
    ensures SameCounts([], [])
  {
  }

  /** In descending order, fewer than k values exceed the k-th and at least k reach it. */
  lemma KthLargest(sorted: seq<real>, k: nat)
    requires Descending(sorted) && 1 <= k <= |sorted|
    ensures Count(sorted, Above(sorted[k - 1])) < k <= Count(sorted, AtLeast(sorted[k - 1]))
  {
    SplitCount(sorted, k - 1, Above(sorted[k - 1]));
    NoneCount(sorted[k - 1..], Above(sorted[k - 1]));
    CountAtMost(sorted[..k - 1], Above(sorted[k - 1]));
    SplitCount(sorted, k, AtLeast(sorted[k - 1]));
    AllCount(sorted[..k], AtLeast(sorted[k - 1]));
  }

  lemma SplitCount(xs: seq<real>, k: nat, f: real -> bool)
    requires k <= |xs|
    ensures Count(xs, f) == Count(xs[..k], f) + Count(xs[k..], f)
  {
    assert xs[..k] + xs[k..] == xs;
    CountConcat(xs[..k], xs[k..], f);
  }

  lemma {:induction false} NoneCount(xs: seq<real>, f: real -> bool)
    requires forall i :: 0 <= i < |xs| ==> !f(xs[i])
    ensures Count(xs, f) == 0
  {
    if xs != [] {
      NoneCount(xs[..|xs| - 1], f);
    }
  }

  lemma {:induction false} AllCount(xs: seq<real>, f: real -> bool)
    requires forall i :: 0 <= i < |xs| ==> f(xs[i])
    ensures Count(xs, f) == |xs|
  {
    if xs != [] {
      AllCount(xs[..|xs| - 1], f);
    }
  }

  lemma {:induction false} CountAtMost(xs: seq<real>, f: real -> bool)
    ensures Count(xs, f) <= |xs|
  {
    if xs != [] {
      CountAtMost(xs[..|xs| - 1], f);
    }
  }

  function Below(t: real): real -> bool {
    (x: real) => x < t
  }

  /** The middle value, or the mean of the two middle ones. */
  ghost predicate IsMedian(xs: seq<real>, m: real) {
    exists sorted :: Descending(sorted) && SameCounts(sorted, xs) && IsMiddle(sorted, m)
  }

  predicate IsMiddle(sorted: seq<real>, m: real) {
    sorted != [] && m == (sorted[(|sorted| - 1) / 2] + sorted[|sorted| / 2]) / 2.0
  }

  method Median(xs: seq<real>) returns (median: Option<real>)
    ensures median == None <==> xs == []
    ensures median.Some? ==> IsMedian(xs, median.value)
  {
    if xs == [] {
      return None;
    }
    var sorted := SortDescending(xs);
    var m := (sorted[(|sorted| - 1) / 2] + sorted[|sorted| / 2]) / 2.0;
    assert IsMiddle(sorted, m);
    median := Some(m);
  }

  /** At most half of the values are above the median and at most half below. */
  lemma MedianBalances(xs: seq<real>, m: real)
    requires IsMedian(xs, m)
    ensures 2 * Count(xs, Above(m)) <= |xs| && 2 * Count(xs, Below(m)) <= |xs|
  {
    var sorted :| Descending(sorted) && SameCounts(sorted, xs) && IsMiddle(sorted, m);
    FewAbove(sorted, m, |sorted| / 2);
    FewBelow(sorted, m, (|sorted| - 1) / 2);
    hide Count;
    assert Count(sorted, Above(m)) == Count(xs, Above(m)) && Count(sorted, Below(m)) == Count(xs, Below(m));
  }

  lemma FewAbove(sorted: seq<real>, m: real, low: nat)
    requires Descending(sorted) && low < |sorted| && sorted[low] <= m
    ensures Count(sorted, Above(m)) <= low
  {
    hide Count;
    SplitCount(sorted, low, Above(m));
    NoneCount(sorted[low..], Above(m));
    CountAtMost(sorted[..low], Above(m));
  }

  lemma FewBelow(sorted: seq<real>, m: real, high: nat)
    requires Descending(sorted) && high < |sorted| && sorted[high] >= m
    ensures Count(sorted, Below(m)) <= |sorted| - 1 - high
  {
    hide Count;
    SplitCount(sorted, high + 1, Below(m));
    NoneCount(sorted[..high + 1], Below(m));
    CountAtMost(sorted[high + 1..], Below(m));
  }

  // ----- threshold -----

  function Decile(n: nat): nat {
    (n + 9) / 10
  }

  /** The ready moves of the cross-section, in feature order. */
  function Moves(results: seq<Result>): seq<real> {
    if results == [] then []
    else Moves(results[..|results| - 1]) + ReadyMove(results[|results| - 1])
  }

  function ReadyMove(r: Result): seq<real> {
    if r.outcome.Ready? then [r.outcome.maxAbsReturn] else []
  }

  /** The ceil(n / 10)-th largest: fewer values exceed it, at least that many reach it. */
  ghost predicate IsThreshold(moves: seq<real>, t: real) {
    Count(moves, Above(t)) < Decile(|moves|) <= Count(moves, AtLeast(t))
  }

  method Threshold(moves: seq<real>) returns (t: Option<real>)
    ensures t == None <==> moves == []
    ensures t.Some? ==> IsThreshold(moves, t.value)
  {
    if moves == [] {
      return None;
    }
    var ready := SortDescending(moves);
    var k := Decile(|ready|);
    KthLargest(ready, k);
    t := Some(ready[if k - 1 < 0 then 0 else k - 1]);
  }

  /** Fewer than a tenth of the moves exceed the threshold, and at least a tenth reach it. */
  lemma ThresholdIsTopTenth(moves: seq<real>, t: real)
    requires IsThreshold(moves, t)
    ensures 10 * Count(moves, Above(t)) < |moves| <= 10 * Count(moves, AtLeast(t))
  {
  }

  /** Only one value can be the threshold. */
  lemma ThresholdUnique(moves: seq<real>, s: real, t: real)
    requires IsThreshold(moves, s) && IsThreshold(moves, t)
    ensures s == t
  {
    if s < t {
      Shrinks(moves, AtLeast(t), Above(s));
    } else if t < s {
      Shrinks(moves, AtLeast(s), Above(t));
    }
  }

  lemma {:induction false} Shrinks(xs: seq<real>, f: real -> bool, g: real -> bool)
    requires forall x :: f(x) ==> g(x)
    ensures Count(xs, f) <= Count(xs, g)
  {
    if xs != [] {
      Shrinks(xs[..|xs| - 1], f, g);
    }
  }

  // ----- lead time -----

  /** The first bar, in time order, whose move reaches the threshold. */
  ghost predicate FirstReaching(bars: seq<Bar>, price: real, t: real, b: Bar)
    requires price > 0.0
  {
    b in bars && Move(b, price) >= t && forall x :: x in bars && x.at < b.at ==> Move(x, price) < t
  }

  function Seconds(d: Decision, b: Bar): real {
    (b.at - d.decisionAt) as real / 1000.0
  }

  ghost predicate IsLead(d: Decision, r: Result, t: Option<real>, lead: Option<real>) {
    if r.outcome.Ready? && t.Some? && r.price > 0.0 then
      && (lead.Some? <==> r.outcome.maxAbsReturn >= t.value)
      && (lead.Some? ==> exists b :: FirstReaching(r.bars, r.price, t.value, b) && lead.value == Seconds(d, b))
    else lead == None
  }

  method LeadOf(d: Decision, ghost f: Feature, ghost reader: Reader, ghost horizon: nat, r: Result, t: Option<real>) returns (lead: Option<real>)
    requires Carries(d, f, reader, horizon, r)
    ensures IsLead(d, r, t, lead)
  {
    if !r.outcome.Ready? || t == None {
      return None;
    }
    hide Move;
    for i := 0 to |r.bars|
      invariant forall j :: 0 <= j < i ==> Move(r.bars[j], r.price) < t.value
    {
      if Move(r.bars[i], r.price) >= t.value {
        assert FirstReaching(r.bars, r.price, t.value, r.bars[i]);
        return Some(Seconds(d, r.bars[i]));
      }
    }
    lead := None;
  }

  // ----- one generation and horizon -----

  /** The settled results of all features, and their lead times against one common threshold. */
  ghost predicate SettledAll(d: Decision, features: seq<Feature>, reader: Reader, horizon: nat, now: int, results: seq<Result>) {
    |results| == |features| && forall i :: 0 <= i < |features| ==>
      Settled(d, features[i], reader, horizon, now, results[i].outcome) && Carries(d, features[i], reader, horizon, results[i])
  }

  method Settle(d: Decision, features: seq<Feature>, reader: Reader, horizon: nat, now: int)
    returns (results: seq<Result>, threshold: Option<real>, leads: seq<Option<real>>)
    requires ValidBars(reader.data.bars) && horizon >= 1
    ensures SettledAll(d, features, reader, horizon, now, results) && |leads| == |results|
    ensures threshold == None <==> Moves(results) == []
    ensures threshold.Some? ==> IsThreshold(Moves(results), threshold.value)
    ensures forall i :: 0 <= i < |results| ==> IsLead(d, results[i], threshold, leads[i])
  {
    hide Settled, Carries, ValidBars, IsThreshold, IsLead, Move;
    results := [];
    for i := 0 to |features|
      invariant |results| == i
      invariant forall j :: 0 <= j < i ==>
        Settled(d, features[j], reader, horizon, now, results[j].outcome) && Carries(d, features[j], reader, horizon, results[j])
    {
      var r := ReferenceOutcome(d, features[i], reader, horizon, now);
      results := results + [r];
    }
    threshold := Threshold(Moves(results));
    leads := [];
    for i := 0 to |results|
      invariant |leads| == i && forall j :: 0 <= j < i ==> IsLead(d, results[j], threshold, leads[j])
    {
      var lead := LeadOf(d, features[i], reader, horizon, results[i], threshold);
      leads := leads + [lead];
    }
  }

  /** How many assets have a lead time. */
  function Leading(leads: seq<Option<real>>): nat {
    if leads == [] then 0 else Leading(leads[..|leads| - 1]) + if leads[|leads| - 1].Some? then 1 else 0
  }

  /** As many assets have a lead time as moves reach the threshold: at least a tenth of the ready ones. */
  lemma {:induction false} LeadsAreTheTop(d: Decision, results: seq<Result>, t: real, leads: seq<Option<real>>)
    requires |leads| == |results| && forall i :: 0 <= i < |results| ==> IsLead(d, results[i], Some(t), leads[i])
    requires forall i :: 0 <= i < |results| && results[i].outcome.Ready? ==> results[i].price > 0.0
    ensures Leading(leads) == Count(Moves(results), AtLeast(t))
    ensures IsThreshold(Moves(results), t) ==> 10 * Leading(leads) >= |Moves(results)|
  {
    if results != [] {
      var n := |results| - 1;
      LeadsAreTheTop(d, results[..n], t, leads[..n]);
      CountConcat(Moves(results[..n]), ReadyMove(results[n]), AtLeast(t));
      assert IsLead(d, results[n], Some(t), leads[n]);
      assert ReadyMove(results[n]) != [] ==> ReadyMove(results[n])[..0] == [];
    }
  }
}
