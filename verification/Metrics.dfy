/** The metrics accumulator: one candidate policy, one generation at a time. */
module Metrics {
  import opened Prelude
  import opened Ranking
  import opened Evaluation
  import LeadTime

  datatype Status = Ready | Pending | Unscorable

  /** One outcome edition of an asset, as settled for a generation and horizon. */
  datatype Outcome = Outcome(status: Status, referenceKey: Option<nat>, cutoff: int, maxAbsReturn: Option<real>, lead: Option<real>)

  /** An asset's features: whether its identity is ready or partial, and its score under the policy. */
  datatype Feature = Feature(identified: bool, referenceKey: Option<nat>, score: Option<real>)

  datatype Generation = Generation(id: nat, mapVersion: nat, decisionAt: int, features: map<nat, Feature>)

  datatype Key = Key(generation: nat, asset: nat, horizon: nat)

  type Outcomes = map<Key, Outcome>

  // ----- what one generation contributes -----

  predicate Scored(f: Feature) {
    f.identified && f.referenceKey.Some? && f.score.Some?
  }

  function Scores(g: Generation): map<nat, real> {
    map a | a in g.features && Scored(g.features[a]) :: g.features[a].score.value
  }

  /** The policy's selection: its k best scored assets, best first, ties by asset id. */
  ghost predicate Selects(g: Generation, k: nat, selected: seq<nat>) {
    && Sorted(selected, RealisedOrder(Scores(g)))
    && ToSet(selected) == First(Scores(g).Keys, RealisedOrder(Scores(g)), k)
  }

  predicate IsReady(g: Generation, horizon: nat, outcomes: Outcomes, a: nat) {
    && a in g.features && g.features[a].identified && g.features[a].referenceKey.Some?
    && Key(g.id, a, horizon) in outcomes
    && var o := outcomes[Key(g.id, a, horizon)];
      o.referenceKey == g.features[a].referenceKey && o.cutoff == OutcomeCutoff(g.decisionAt)
      && o.status == Ready && o.maxAbsReturn.Some?
  }

  /** The realised gains: outcomes ready for exactly this decision and reference. */
  function ReadyGains(g: Generation, horizon: nat, outcomes: Outcomes): Gains {
    map a | a in ReadyAssets(g, horizon, outcomes) :: Realisation(g, horizon, outcomes, a)
  }

  function ReadyAssets(g: Generation, horizon: nat, outcomes: Outcomes): (ready: set<nat>)
    ensures forall a :: a in ready <==> a in g.features && IsReady(g, horizon, outcomes, a)
    ensures ready <= g.features.Keys
  {
    set a | a in g.features && IsReady(g, horizon, outcomes, a)
  }

  function Realisation(g: Generation, horizon: nat, outcomes: Outcomes, a: nat): real
    requires IsReady(g, horizon, outcomes, a)
  {
    outcomes[Key(g.id, a, horizon)].maxAbsReturn.value
  }

  predicate IsMature(g: Generation, horizon: nat, outcomes: Outcomes, a: nat) {
    Key(g.id, a, horizon) in outcomes && outcomes[Key(g.id, a, horizon)].status != Pending
  }

  function Mature(g: Generation, horizon: nat, outcomes: Outcomes): (mature: set<nat>)
    ensures forall a :: a in mature <==> a in g.features && IsMature(g, horizon, outcomes, a)
  {
    set a | a in g.features && IsMature(g, horizon, outcomes, a)
  }

  /** The top decile: positive gains ranked among the first ceil(n / 10). */
  ghost function Relevant(gains: Gains): set<nat> {
    set a | a in First(gains.Keys, RealisedOrder(gains), (|gains| + 9) / 10) && gains[a] > 0.0
  }

  function Ratio(n: nat, total: nat): real {
    if total == 0 then 0.0 else n as real / total as real
  }

  function Missing(selected: seq<nat>, gains: Gains): real {
    if selected == [] then 1.0 else Ratio(|ToSet(selected) - gains.Keys|, |selected|)
  }

  /** Jaccard distance of two selections. */
  function SetChurn(before: seq<nat>, after: seq<nat>): real {
    var union := ToSet(before) + ToSet(after);
    if union == {} then 0.0 else 1.0 - Ratio(|ToSet(before) * ToSet(after)|, |union|)
  }

  function Index(s: seq<nat>, a: nat): (i: nat)
    requires a in s
    ensures i < |s| && s[i] == a
  {
    if s[0] == a then 0 else 1 + Index(s[1..], a)
  }

  function Distance(before: seq<nat>, after: seq<nat>, a: nat): nat
    requires a in before && a in after
  {
    var d := Index(before, a) - Index(after, a);
    if d < 0 then -d else d
  }

  /** The rank moves of the assets common to both selections, added up over the first n. */
  function Moves(before: seq<nat>, after: seq<nat>, k: nat, n: nat): real
    requires n <= |before|
  {
    if n == 0 then 0.0
    else Moves(before, after, k, n - 1) + Move(before, after, k, before[n - 1])
  }

  /** How far a common asset moved, in units of the largest possible move. */
  function Move(before: seq<nat>, after: seq<nat>, k: nat, a: nat): real {
    if a in before && a in after then Distance(before, after, a) as real / Largest(k) as real else 0.0
  }

  function Largest(k: nat): nat {
    if k <= 2 then 1 else k - 1
  }

  predicate Complete(selected: seq<nat>, gains: Gains) {
    selected != [] && ToSet(selected) <= gains.Keys
  }

  predicate Fraction(x: real) {
    0.0 <= x <= 1.0
  }

  predicate MaybeFraction(x: Option<real>) {
    x.Some? ==> Fraction(x.value)
  }

  predicate Fractions(xs: seq<real>) {
    forall i :: 0 <= i < |xs| ==> Fraction(xs[i])
  }

  lemma QuotientIsFraction(x: real, y: real)
    requires 0.0 <= x <= y && y > 0.0
    ensures Fraction(x / y)
  {
    assert x / y * y == x;
  }

  lemma RatioIsFraction(n: nat, total: nat)
    requires n <= total
    ensures Fraction(Ratio(n, total))
  {
    if total > 0 {
      QuotientIsFraction(n as real, total as real);
    }
  }

  lemma SelectionFits(g: Generation, k: nat, selected: seq<nat>)
    requires Selects(g, k, selected)
    ensures Distinct(selected) && ToSet(selected) <= Scores(g).Keys
    ensures |selected| == Least(k, |Scores(g)|) && |Scores(g)| <= |g.features|
  {
    var scores := Scores(g);
    var order := RealisedOrder(scores);
    forall i, j | 0 <= i < j < |selected| ensures selected[i] != selected[j] {
      assert order(selected[i], selected[j]);
    }
    CountDistinct(selected);
    FirstCount(scores.Keys, order, k);
    SmallerSubset(scores.Keys, g.features.Keys);
  }

  /** Two selections are at distance 0 exactly when they agree and 1 exactly when they share nothing. */
  lemma ChurnMeasuresOverlap(before: seq<nat>, after: seq<nat>)
    ensures Fraction(SetChurn(before, after)) && SetChurn(before, after) == SetChurn(after, before)
    ensures SetChurn(before, after) == 0.0 <==> ToSet(before) == ToSet(after)
    ensures before != [] || after != [] ==>
      (SetChurn(before, after) == 1.0 <==> ToSet(before) * ToSet(after) == {})
  {
    var a, b := ToSet(before), ToSet(after);
    assert a + b == b + a && a * b == b * a;
    SmallerSubset(a * b, a + b);
    RatioIsFraction(|a * b|, |a + b|);
    if a == b {
      assert a * b == a + b;
    }
    if a + b != {} && |a * b| == |a + b| {
      SameSize(a * b, a + b);
      assert a == b;
    }
    if before != [] {
      assert before[0] in a + b;
    }
    if after != [] {
      assert after[0] in a + b;
    }
    if a + b != {} {
      RatioEnds(|a * b|, |a + b|);
    }
  }

  lemma RatioEnds(n: nat, total: nat)
    requires total > 0
    ensures Ratio(n, total) == 0.0 <==> n == 0
    ensures Ratio(n, total) == 1.0 <==> n == total
  {
    var x, y := n as real, total as real;
    assert x / y * y == x;
  }

  /** Moves add up to at most one per common asset. */
  lemma {:induction false} MovesBounded(before: seq<nat>, after: seq<nat>, k: nat, n: nat)
    requires n <= |before| <= k && |after| <= k && Distinct(before)
    ensures 0.0 <= Moves(before, after, k, n) <= |Prefix(before, n) * ToSet(after)| as real
  {
    hide Move, Largest, ToSet;
    if n > 0 {
      MovesBounded(before, after, k, n - 1);
      MoveIsFraction(before, after, k, before[n - 1]);
      OneMoreCommon(before, after, n);
    }
  }

  lemma OneMoreCommon(before: seq<nat>, after: seq<nat>, n: nat)
    requires 0 < n <= |before| && Distinct(before)
    ensures |Prefix(before, n) * ToSet(after)| ==
      |Prefix(before, n - 1) * ToSet(after)| + if before[n - 1] in after then 1 else 0
  {
    PrefixIs(before, n - 1);
    OneMoreIn(Prefix(before, n - 1), ToSet(after), before[n - 1]);
  }

  lemma OneMoreIn<T>(s: set<T>, t: set<T>, x: T)
    requires x !in s
    ensures |(s + {x}) * t| == |s * t| + if x in t then 1 else 0
  {
    assert (s + {x}) * t == if x in t then s * t + {x} else s * t;
  }

  lemma MoveIsFraction(before: seq<nat>, after: seq<nat>, k: nat, a: nat)
    requires |before| <= k && |after| <= k
    ensures Fraction(Move(before, after, k, a))
    ensures a !in after ==> Move(before, after, k, a) == 0.0
  {
    if a in before && a in after {
      QuotientIsFraction(Distance(before, after, a) as real, Largest(k) as real);
    }
  }

  // ----- the accumulator -----

  function RankChurn(before: seq<nat>, after: seq<nat>, k: nat): Option<real> {
    var common := ToSet(before) * ToSet(after);
    if common == {} then None else Some(Moves(before, after, k, |before|) / |common| as real)
  }

  function Optional(x: Option<real>): seq<real> {
    if x.Some? then [x.value] else []
  }

  /** The metrics of a complete selection against the realised gains. */
  datatype Retrieval = Retrieval(recall: Option<real>, precision: Option<real>, ndcg: Option<real>, future: real)

  /** What retrieval means, without a listing of the gains. */
  ghost predicate Measures(r: Retrieval, gains: Gains, w: Weight, selected: seq<nat>, k: nat, total: nat)
    requires |selected| > 0
  {
    var relevant := Relevant(gains);
    var hits := ToSet(selected) * relevant;
    && r.recall == (if relevant == {} then None else Some(Ratio(|hits|, |relevant|)))
    && r.precision == (if relevant == {} then None else Some(Ratio(|hits|, Least(k, total))))
    && r.future == SetGain(gains, ToSet(selected)) / |selected| as real
    && (exists realised: seq<nat> :: Realised(gains, realised) && IsNdcg(r.ndcg, gains, w, selected, realised, k))
  }

  ghost predicate IsNdcg(ndcg: Option<real>, gains: Gains, w: Weight, selected: seq<nat>, realised: seq<nat>, k: nat) {
    var ideal := Dcg(gains, w, realised, Least(k, |realised|));
    ndcg == if ideal > 0.0 then Some(Dcg(gains, w, selected, |selected|) / ideal) else None
  }

  /** Recall, precision and NDCG are fractions and the mean future return is not negative. */
  ghost predicate Bounded(r: Retrieval) {
    && r.recall.Some? == r.precision.Some?
    && MaybeFraction(r.recall) && MaybeFraction(r.precision) && MaybeFraction(r.ndcg)
    && r.future >= 0.0
  }

  lemma RetrievalBounded(r: Retrieval, gains: Gains, w: Weight, selected: seq<nat>, k: nat, total: nat)
    requires 0 < |selected| <= k && |selected| <= total && Distinct(selected) && ToSet(selected) <= gains.Keys
    requires NonNegative(gains) && Discounts(w) && Measures(r, gains, w, selected, k, total)
    ensures Bounded(r)
  {
    hide Relevant, Realised, IsNdcg, Discounts, NonNegative, Fraction, SetGain, Ratio;
    var relevant := Relevant(gains);
    HitsAreFractions(selected, relevant, k, total);
    var realised :| Realised(gains, realised) && IsNdcg(r.ndcg, gains, w, selected, realised, k);
    NdcgIsFraction(r.ndcg, gains, w, realised, selected, k);
    SetGainNonNegative(gains, ToSet(selected));
  }

  lemma HitsAreFractions(selected: seq<nat>, relevant: set<nat>, k: nat, total: nat)
    requires |selected| <= k && |selected| <= total && Distinct(selected)
    ensures Fraction(Ratio(|ToSet(selected) * relevant|, |relevant|))
    ensures Fraction(Ratio(|ToSet(selected) * relevant|, Least(k, total)))
  {
    var hits := ToSet(selected) * relevant;
    CountDistinct(selected);
    SmallerSubset(hits, relevant);
    SmallerSubset(hits, ToSet(selected));
    RatioIsFraction(|hits|, |relevant|);
    RatioIsFraction(|hits|, Least(k, total));
  }

  /** Selecting the realised leaders in realised order has NDCG one. */
  lemma PerfectSelection(r: Retrieval, gains: Gains, w: Weight, selected: seq<nat>, k: nat, total: nat)
    requires 0 < |selected| <= k && Measures(r, gains, w, selected, k, total)
    requires Sorted(selected, RealisedOrder(gains)) && ToSet(selected) == First(gains.Keys, RealisedOrder(gains), k)
    ensures r.ndcg.Some? ==> r.ndcg == Some(1.0)
  {
    hide Relevant, Sorted, First, Realised, SetGain, Ratio, Dcg, RealisedOrder;
    var realised :| Realised(gains, realised) && IsNdcg(r.ndcg, gains, w, selected, realised, k);
    LeadersAreThePrefix(gains, realised, selected, k);
    DcgOfPrefix(gains, w, selected, realised, |selected|);
    var ideal := Dcg(gains, w, realised, |selected|);
    assert ideal > 0.0 ==> ideal / ideal == 1.0;
  }

  lemma NdcgIsFraction(ndcg: Option<real>, gains: Gains, w: Weight, realised: seq<nat>, selected: seq<nat>, k: nat)
    requires Discounts(w) && NonNegative(gains) && Realised(gains, realised)
    requires Distinct(selected) && ToSet(selected) <= gains.Keys && |selected| <= k
    requires IsNdcg(ndcg, gains, w, selected, realised, k)
    ensures MaybeFraction(ndcg)
  {
    NdcgBounds(gains, w, realised, selected, k);
    if ndcg.Some? {
      QuotientIsFraction(Dcg(gains, w, selected, |selected|), Dcg(gains, w, realised, Least(k, |realised|)));
    }
  }

  lemma {:induction false} SetGainNonNegative(gains: Gains, s: set<nat>)
    requires NonNegative(gains)
    ensures SetGain(gains, s) >= 0.0
  {
    if s != {} {
      var x :| x in s;
      SetGainNonNegative(gains, s - {x});
      SetGainAdd(gains, s - {x}, x);
      assert s - {x} + {x} == s;
    }
  }

  lemma LeadersAreThePrefix(gains: Gains, realised: seq<nat>, selected: seq<nat>, k: nat)
    requires Realised(gains, realised) && Sorted(selected, RealisedOrder(gains))
    requires ToSet(selected) == First(gains.Keys, RealisedOrder(gains), k)
    ensures selected == realised[..Least(k, |realised|)]
  {
    var s, before := gains.Keys, RealisedOrder(gains);
    var n := Least(k, |realised|);
    ListingDistinct(s, before, realised);
    PrefixIsFirst(s, before, realised, n);
    FirstCount(s, before, k);
    FirstCount(s, before, n);
    SmallerSubset(First(s, before, n), First(s, before, k));
    SameSize(First(s, before, n), First(s, before, k));
    SortedOnce(First(s, before, n), before, selected, realised[..n]);
  }

  lemma {:induction false} DcgOfPrefix(gains: Gains, w: Weight, a: seq<nat>, b: seq<nat>, n: nat)
    requires n <= |a| && n <= |b| && a[..n] == b[..n]
    ensures Dcg(gains, w, a, n) == Dcg(gains, w, b, n)
  {
    if n > 0 {
      assert a[..n][..n - 1] == a[..n - 1] && b[..n][..n - 1] == b[..n - 1];
      assert a[..n][n - 1] == a[n - 1] && b[..n][n - 1] == b[n - 1];
      DcgOfPrefix(gains, w, a, b, n - 1);
    }
  }

  // ----- the loops -----

  /** The k best of the ranking: selection looks at scores only. */
  method Select(g: Generation, k: nat) returns (selected: seq<nat>)
    ensures Selects(g, k, selected)
  {
    var scores := Scores(g);
    var ranked := Sort(scores.Keys, RealisedOrder(scores));
    var n := Least(k, |ranked|);
    selected := ranked[..n];
    FirstOfListing(scores, ranked, k);
  }

  lemma FirstOfListing(gains: Gains, realised: seq<nat>, k: nat)
    requires Realised(gains, realised)
    ensures ToSet(realised[..Least(k, |realised|)]) == First(gains.Keys, RealisedOrder(gains), k)
  {
    var s, before, n := gains.Keys, RealisedOrder(gains), Least(k, |realised|);
    ListingDistinct(s, before, realised);
    PrefixIsFirst(s, before, realised, n);
    FirstCount(s, before, k);
    FirstCount(s, before, n);
    SmallerSubset(First(s, before, n), First(s, before, k));
    SameSize(First(s, before, n), First(s, before, k));
  }

  method MatchOutcomes(g: Generation, horizon: nat, outcomes: Outcomes) returns (gains: Gains, mature: nat)
    ensures gains == ReadyGains(g, horizon, outcomes) && mature == |Mature(g, horizon, outcomes)|
  {
    hide Gathered, IsReady, Realisation, ReadyGains, Mature, IsMature;
    gains, mature := map[], 0;
    var todo := g.features.Keys;
    ghost var seen: set<nat> := {};
    assert Gathered(g, horizon, outcomes, todo, gains) by { GatheredEnds(g, horizon, outcomes); }
    while todo != {}
      invariant todo <= g.features.Keys && Gathered(g, horizon, outcomes, todo, gains)
      invariant seen == Mature(g, horizon, outcomes) - todo && mature == |seen|
      decreases todo
    {
      var a :| a in todo;
      if IsMature(g, horizon, outcomes, a) {
        mature := mature + 1;
        seen := seen + {a};
      }
      GatheredStep(g, horizon, outcomes, todo, gains, a);
      if IsReady(g, horizon, outcomes, a) {
        gains := gains[a := Realisation(g, horizon, outcomes, a)];
      }
      todo := todo - {a};
    }
    GatheredEnds(g, horizon, outcomes);
  }

  ghost predicate Gathered(g: Generation, horizon: nat, outcomes: Outcomes, todo: set<nat>, gains: Gains) {
    gains == map a | a in ReadyAssets(g, horizon, outcomes) - todo :: Realisation(g, horizon, outcomes, a)
  }

  lemma GatheredStep(g: Generation, horizon: nat, outcomes: Outcomes, todo: set<nat>, gains: Gains, a: nat)
    requires a in todo && todo <= g.features.Keys && Gathered(g, horizon, outcomes, todo, gains)
    ensures Gathered(g, horizon, outcomes, todo - {a},
      if IsReady(g, horizon, outcomes, a) then gains[a := Realisation(g, horizon, outcomes, a)] else gains)
  {
  }

  lemma GatheredEnds(g: Generation, horizon: nat, outcomes: Outcomes)
    ensures Gathered(g, horizon, outcomes, g.features.Keys, map[])
    ensures Gathered(g, horizon, outcomes, {}, ReadyGains(g, horizon, outcomes))
    ensures forall gains :: Gathered(g, horizon, outcomes, {}, gains) ==> gains == ReadyGains(g, horizon, outcomes)
  {
  }

  /** The discounted gain, added up over a ranked list. */
  method Discounted(gains: Gains, w: Weight, assets: seq<nat>, n: nat) returns (sum: real)
    requires n <= |assets|
    ensures sum == Dcg(gains, w, assets, n)
  {
    sum := 0.0;
    for i := 0 to n
      invariant sum == Dcg(gains, w, assets, i)
    {
      sum := sum + Gain(gains, assets[i]) * w(i);
    }
  }

  method MeanGain(gains: Gains, selected: seq<nat>) returns (mean: real)
    requires |selected| > 0 && Distinct(selected)
    ensures mean == SetGain(gains, ToSet(selected)) / |selected| as real
  {
    mean := 0.0;
    for i := 0 to |selected|
      invariant mean == Total(gains, selected, i)
    {
      mean := mean + Gain(gains, selected[i]);
    }
    TotalIsSetGain(gains, selected, |selected|);
    PrefixIs(selected, |selected|);
    assert Prefix(selected, |selected|) == ToSet(selected);
    mean := mean / |selected| as real;
  }

  /** The positive gains of the realised order, cut at ceil(n / 10). */
  method TopDecile(gains: Gains, realised: seq<nat>) returns (relevant: set<nat>)
    requires Realised(gains, realised)
    ensures relevant == Relevant(gains)
  {
    var n := Least((|realised| + 9) / 10, |realised|);
    var positive: seq<nat> := [];
    for i := 0 to |realised|
      invariant |positive| <= i
      invariant forall j :: 0 <= j < i ==> (Gain(gains, realised[j]) > 0.0 <==> j < |positive|)
      invariant positive == realised[..|positive|]
    {
      ghost var next := Gain(gains, realised[|positive|]);
      if Gain(gains, realised[i]) > 0.0 {
        forall j | 0 <= j < i ensures Gain(gains, realised[j]) > 0.0 {
          assert RealisedOrder(gains)(realised[j], realised[i]);
        }
        positive := positive + [realised[i]];
      }
    }
    relevant := ToSet(positive[..Least((|realised| + 9) / 10, |positive|)]);
    DecileIsRelevant(gains, realised, |positive|);
    assert positive[..Least(n, |positive|)] == realised[..Least(n, |positive|)];
  }

  lemma DecileIsRelevant(gains: Gains, realised: seq<nat>, positives: nat)
    requires Realised(gains, realised) && positives <= |realised|
    requires forall j :: 0 <= j < |realised| ==> (Gain(gains, realised[j]) > 0.0 <==> j < positives)
    ensures ToSet(realised[..Least(Least((|realised| + 9) / 10, |realised|), positives)]) == Relevant(gains)
  {
    var n := Least((|realised| + 9) / 10, |realised|);
    RealisedDistinct(gains, realised);
    assert |gains| == |gains.Keys|;
    FirstOfListing(gains, realised, (|realised| + 9) / 10);
    var m := Least(n, positives);
    forall a | a in ToSet(realised[..m]) ensures a in Relevant(gains) {
      var i :| 0 <= i < m && realised[..m][i] == a;
      assert realised[..n][i] == a && realised[i] == a;
      assert a in ToSet(realised[..n]);
    }
    forall a | a in Relevant(gains) ensures a in ToSet(realised[..m]) {
      assert a in ToSet(realised[..n]);
      var i :| 0 <= i < n && realised[..n][i] == a;
      assert realised[i] == a && i < positives;
      assert realised[..m][i] == a;
    }
  }

  /** The comparison of a complete selection with the realised order. */
  method Retrieve(gains: Gains, w: Weight, selected: seq<nat>, k: nat, total: nat) 
    returns (r: Retrieval, relevant: set<nat>)
    requires |selected| > 0 && Distinct(selected)
    ensures Measures(r, gains, w, selected, k, total) && relevant == Relevant(gains)
  {
    hide Relevant, RealisedOrder, Dcg, SetGain, Ratio, Realised;
    var realised := SortRealised(gains);
    relevant := TopDecile(gains, realised);
    var hits := |ToSet(selected) * relevant|;
    var recall, precision := None, None;
    if relevant != {} {
      recall, precision := Some(Ratio(hits, |relevant|)), Some(Ratio(hits, Least(k, total)));
    }
    var dcg := Discounted(gains, w, selected, |selected|);
    var ideal := Discounted(gains, w, realised, Least(k, |realised|));
    var ndcg := if ideal > 0.0 then Some(dcg / ideal) else None;
    var future := MeanGain(gains, selected);
    assert IsNdcg(ndcg, gains, w, selected, realised, k);
    r := Retrieval(recall, precision, ndcg, future);
  }

  method SortRealised(gains: Gains) returns (realised: seq<nat>)
    ensures Realised(gains, realised)
  {
    realised := Sort(gains.Keys, RealisedOrder(gains));
  }

  /** The mean rank move of the common assets, when there are any. */
  method MeanMove(before: seq<nat>, after: seq<nat>, k: nat) returns (mean: Option<real>)
    ensures mean == RankChurn(before, after, k)
  {
    var common := ToSet(before) * ToSet(after);
    var sum := 0.0;
    for i := 0 to |before|
      invariant sum == Moves(before, after, k, i)
    {
      sum := sum + Move(before, after, k, before[i]);
    }
    mean := if common == {} then None else Some(sum / |common| as real);
  }

  /** The lead times of the relevant assets among the first n selected. */
  function LeadsOf(g: Generation, horizon: nat, outcomes: Outcomes, selected: seq<nat>, relevant: set<nat>, n: nat): seq<real>
    requires n <= |selected|
  {
    if n == 0 then [] else LeadsOf(g, horizon, outcomes, selected, relevant, n - 1) + LeadAt(g, horizon, outcomes, selected[n - 1], relevant)
  }

  /** The lead times a complete selection records: those of its members in the top decile. */
  ghost function RelevantLeads(g: Generation, horizon: nat, outcomes: Outcomes, selected: seq<nat>): seq<real> {
    LeadsOf(g, horizon, outcomes, selected, Relevant(ReadyGains(g, horizon, outcomes)), |selected|)
  }

  function LeadAt(g: Generation, horizon: nat, outcomes: Outcomes, a: nat, relevant: set<nat>): seq<real> {
    if a in relevant && Key(g.id, a, horizon) in outcomes then Optional(outcomes[Key(g.id, a, horizon)].lead) else []
  }

  method GatherLeads(g: Generation, horizon: nat, outcomes: Outcomes, selected: seq<nat>, relevant: set<nat>) returns (leads: seq<real>)
    requires forall a :: a in selected ==> Key(g.id, a, horizon) in outcomes
    ensures leads == LeadsOf(g, horizon, outcomes, selected, relevant, |selected|)
  {
    leads := [];
    for i := 0 to |selected|
      invariant leads == LeadsOf(g, horizon, outcomes, selected, relevant, i)
    {
      var lead := outcomes[Key(g.id, selected[i], horizon)].lead;
      if selected[i] in relevant && lead.Some? {
        leads := leads + [lead.value];
      }
    }
  }

  lemma CompleteHasOutcomes(g: Generation, horizon: nat, outcomes: Outcomes, selected: seq<nat>)
    requires Complete(selected, ReadyGains(g, horizon, outcomes))
    ensures forall a :: a in selected ==> Key(g.id, a, horizon) in outcomes
  {
    forall a | a in selected ensures Key(g.id, a, horizon) in outcomes {
      assert a in ToSet(selected);
      assert IsReady(g, horizon, outcomes, a);
    }
  }

  class MetricsAccumulator {
    const k: nat
    const horizon: nat
    const w: Weight
    var recalls: seq<real>
    var precisions: seq<real>
    var ndcgs: seq<real>
    var future: seq<real>
    var leads: seq<real>
    var coverages: seq<real>
    var missingRates: seq<real>
    var universeCoverages: seq<real>
    var churns: seq<real>
    var rankChurns: seq<real>
    var futureAt: map<int, real>
    var matureCount: nat
    var previous: Option<seq<nat>>
    var previousMap: Option<nat>
    var count: nat

    ghost predicate Valid() reads this {
      && k >= 1 && Discounts(w)
      && Fractions(recalls) && Fractions(precisions) && Fractions(ndcgs)
      && Fractions(coverages) && Fractions(missingRates) && Fractions(universeCoverages)
      && Fractions(churns) && Fractions(rankChurns)
      && |coverages| == count && |missingRates| == count && |universeCoverages| == count
      && |recalls| == |precisions| && |futureAt| <= |future| <= count
      && (previous.Some? ==> Distinct(previous.value) && |previous.value| <= k)
    }

    constructor (k: nat, horizon: nat, w: Weight)
      requires k >= 1 && Discounts(w)
      ensures Valid() && this.k == k && this.horizon == horizon && this.w == w
      ensures count == 0 && matureCount == 0 && previous == None && previousMap == None && futureAt == map[]
      ensures recalls == [] && precisions == [] && ndcgs == [] && future == [] && leads == []
      ensures coverages == [] && missingRates == [] && universeCoverages == [] && churns == [] && rankChurns == []
    {
      this.k, this.horizon, this.w := k, horizon, w;
      recalls, precisions, ndcgs, future, leads := [], [], [], [], [];
      coverages, missingRates, universeCoverages, churns, rankChurns := [], [], [], [], [];
      futureAt, matureCount, previous, previousMap, count := map[], 0, None, None, 0;
    }

    /** The universe, coverage and missing-outcome rates of one generation. */
    method AddRates(g: Generation, gains: Gains, mature: nat, scored: nat, selected: seq<nat>)
      requires Valid() && |gains| <= |g.features| && scored <= |g.features|
      modifies this`count, this`matureCount, this`coverages, this`universeCoverages, this`missingRates
      ensures Valid() && |future| < count && count == old(count) + 1 && matureCount == old(matureCount) + mature
      ensures coverages == old(coverages) + [Ratio(scored, |g.features|)]
      ensures universeCoverages == old(universeCoverages) + [Ratio(|gains|, |g.features|)]
      ensures missingRates == old(missingRates) + [Missing(selected, gains)]
    {
      hide Ratio, Missing, Discounts;
      RatioIsFraction(scored, |g.features|);
      RatioIsFraction(|gains|, |g.features|);
      MissingIsFraction(selected, gains);
      count, matureCount := count + 1, matureCount + mature;
      coverages := coverages + [Ratio(scored, |g.features|)];
      universeCoverages := universeCoverages + [Ratio(|gains|, |g.features|)];
      missingRates := missingRates + [Missing(selected, gains)];
    }

    /** Churn against the previous selection, under one map only; then remember this selection. */
    method AddChurn(g: Generation, selected: seq<nat>)
      requires Valid() && Distinct(selected) && |selected| <= k
      modifies this`churns, this`rankChurns, this`previous, this`previousMap
      ensures Valid() && previous == Some(selected) && previousMap == Some(g.mapVersion)
      ensures churns == old(churns) + (if old(previous).Some? && old(previousMap) == Some(g.mapVersion)
        then [SetChurn(old(previous).value, selected)] else [])
      ensures rankChurns == old(rankChurns) + (if old(previous).Some? && old(previousMap) == Some(g.mapVersion)
        then Optional(RankChurn(old(previous).value, selected, k)) else [])
    {
      hide SetChurn, RankChurn, Discounts;
      if previous.Some? && previousMap == Some(g.mapVersion) {
        ChurnMeasuresOverlap(previous.value, selected);
        churns := churns + [SetChurn(previous.value, selected)];
        RankChurnIsFraction(previous.value, selected, k);
        var moved := MeanMove(previous.value, selected, k);
        if moved.Some? {
          rankChurns := rankChurns + [moved.value];
        }
      }
      previous, previousMap := Some(selected), Some(g.mapVersion);
    }

    twostate predicate Recorded(r: Retrieval, at: int) reads this {
      && recalls == old(recalls) + (if r.recall == None then [] else [r.recall.value])
      && precisions == old(precisions) + (if r.precision == None then [] else [r.precision.value])
      && ndcgs == old(ndcgs) + (if r.ndcg == None then [] else [r.ndcg.value]) && future == old(future) + [r.future]
      && futureAt == old(futureAt)[at := r.future]
    }

    method Record(r: Retrieval, at: int)
      requires Valid() && Bounded(r) && |future| < count
      modifies this`recalls, this`precisions, this`ndcgs, this`future, this`futureAt
      ensures Valid() && Recorded(r, at)
    {
      hide Discounts;
      recalls, precisions := recalls + Optional(r.recall), precisions + Optional(r.precision);
      ndcgs, future := ndcgs + Optional(r.ndcg), future + [r.future];
      futureAt := futureAt[at := r.future];
    }

    /** Every generation is counted; only a complete selection is measured against the future. */
    method Add(g: Generation, outcomes: Outcomes) returns (selected: seq<nat>, measured: Option<Retrieval>)
      requires Valid() && NonNegative(ReadyGains(g, horizon, outcomes))
      modifies this
      ensures Valid() && Selects(g, k, selected)
      ensures count == old(count) + 1 && previous == Some(selected) && previousMap == Some(g.mapVersion)
      ensures matureCount == old(matureCount) + |Mature(g, horizon, outcomes)|
      ensures coverages == old(coverages) + [Ratio(|Scores(g)|, |g.features|)]
      ensures universeCoverages == old(universeCoverages) + [Ratio(|ReadyGains(g, horizon, outcomes)|, |g.features|)]
      ensures missingRates == old(missingRates) + [Missing(selected, ReadyGains(g, horizon, outcomes))]
      ensures churns == old(churns) + (if old(previous).Some? && old(previousMap) == Some(g.mapVersion)
        then [SetChurn(old(previous).value, selected)] else [])
      ensures rankChurns == old(rankChurns) + (if old(previous).Some? && old(previousMap) == Some(g.mapVersion)
        then Optional(RankChurn(old(previous).value, selected, k)) else [])
      ensures measured.Some? <==> Complete(selected, ReadyGains(g, horizon, outcomes))
      ensures measured.Some? ==>
        Measures(measured.value, ReadyGains(g, horizon, outcomes), w, selected, k, |g.features|)
      ensures measured.Some? ==> Recorded(measured.value, g.decisionAt)
      ensures measured.Some? ==> leads == old(leads) + RelevantLeads(g, horizon, outcomes, selected)
      ensures measured == None ==> unchanged(`recalls, `precisions, `ndcgs, `future, `futureAt, `leads)
    {
      hide Missing, Discounts, Selects, ReadyGains, Mature, Measures, NonNegative, Scores,
        SetChurn, RankChurn, Bounded, Fractions, RelevantLeads, Ratio, Complete, Optional, Valid;
      selected := Select(g, k);
      var gains, mature := MatchOutcomes(g, horizon, outcomes);
      SelectionFits(g, k, selected);
      ReadyFits(g, horizon, outcomes);
      AddRates(g, gains, mature, |Scores(g)|, selected);
      AddChurn(g, selected);
      measured := MeasureSelection(g, outcomes, gains, selected);
    }

    /** Measure a complete selection against the realised gains; any other leaves nothing. */
    method MeasureSelection(g: Generation, outcomes: Outcomes, gains: Gains, selected: seq<nat>) returns (measured: Option<Retrieval>)
      requires Valid() && gains == ReadyGains(g, horizon, outcomes) && NonNegative(gains) && |future| < count
      requires Distinct(selected) && |selected| <= k && |selected| <= |g.features|
      modifies this`recalls, this`precisions, this`ndcgs, this`future, this`futureAt, this`leads
      ensures Valid()
      ensures measured.Some? <==> Complete(selected, gains)
      ensures measured.Some? ==> Measures(measured.value, gains, w, selected, k, |g.features|)
      ensures measured.Some? ==> Recorded(measured.value, g.decisionAt)
      ensures measured.Some? ==> leads == old(leads) + RelevantLeads(g, horizon, outcomes, selected)
      ensures measured == None ==> unchanged(`recalls, `precisions, `ndcgs, `future, `futureAt, `leads)
    {
      hide Discounts, ReadyGains, Measures, NonNegative, Bounded, Fractions, Relevant, LeadsOf;
      if !Complete(selected, gains) {
        return None;
      }
      var r, relevant := Retrieve(gains, w, selected, k, |g.features|);
      RetrievalBounded(r, gains, w, selected, k, |g.features|);
      CompleteHasOutcomes(g, horizon, outcomes, selected);
      Record(r, g.decisionAt);
      var more := GatherLeads(g, horizon, outcomes, selected, relevant);
      leads := leads + more;
      measured := Some(r);
    }

    /** The means: fractions stay fractions, and complete selections are a fraction of all. */
    method Finish() returns (recall: Option<real>, precision: Option<real>, ndcg: Option<real>,
        meanFuture: Option<real>, medianLead: Option<real>, coverage: real, missing: real, universe: real,
        setChurn: Option<real>, rankChurn: Option<real>, complete: real)
      requires Valid()
      ensures recall == Average(recalls) && precision == Average(precisions) && ndcg == Average(ndcgs)
      ensures setChurn == Average(churns) && rankChurn == Average(rankChurns) && meanFuture == Average(future)
      ensures (medianLead == None <==> leads == []) && (medianLead.Some? ==> LeadTime.IsMedian(leads, medianLead.value))
      ensures count > 0 ==> Some(coverage) == Average(coverages) && Some(missing) == Average(missingRates)
      ensures count > 0 ==> Some(universe) == Average(universeCoverages)
      ensures count == 0 ==> coverage == 0.0 && missing == 1.0 && universe == 0.0
      ensures complete == Ratio(|futureAt|, count)
      ensures MaybeFraction(recall) && MaybeFraction(precision) && MaybeFraction(ndcg)
      ensures MaybeFraction(setChurn) && MaybeFraction(rankChurn)
      ensures Fraction(coverage) && Fraction(missing) && Fraction(universe) && Fraction(complete)
    {
      hide Discounts, Ratio;
      recall := Mean(recalls);
      precision := Mean(precisions);
      ndcg := Mean(ndcgs);
      setChurn := Mean(churns);
      rankChurn := Mean(rankChurns);
      meanFuture := MeanOf(future);
      medianLead := LeadTime.Median(leads);
      coverage, missing, universe := 0.0, 1.0, 0.0;
      if count > 0 {
        var mean := Mean(coverages);
        coverage := mean.value;
        mean := Mean(missingRates);
        missing := mean.value;
        mean := Mean(universeCoverages);
        universe := mean.value;
      }
      RatioIsFraction(|futureAt|, count);
      complete := Ratio(|futureAt|, count);
    }
  }

  function Sum(xs: seq<real>, n: nat): real
    requires n <= |xs|
  {
    if n == 0 then 0.0 else Sum(xs, n - 1) + xs[n - 1]
  }

  function Average(xs: seq<real>): Option<real> {
    if xs == [] then None else Some(Sum(xs, |xs|) / |xs| as real)
  }

  method MeanOf(xs: seq<real>) returns (mean: Option<real>)
    ensures mean == Average(xs)
  {
    if xs == [] {
      return None;
    }
    var sum := 0.0;
    for i := 0 to |xs|
      invariant sum == Sum(xs, i)
    {
      sum := sum + xs[i];
    }
    mean := Some(sum / |xs| as real);
  }

  /** A mean of fractions is a fraction. */
  method Mean(xs: seq<real>) returns (mean: Option<real>)
    requires Fractions(xs)
    ensures mean == Average(xs) && MaybeFraction(mean)
  {
    if xs == [] {
      return None;
    }
    var sum := 0.0;
    for i := 0 to |xs|
      invariant sum == Sum(xs, i) && 0.0 <= sum <= i as real
    {
      sum := sum + xs[i];
    }
    QuotientIsFraction(sum, |xs| as real);
    mean := Some(sum / |xs| as real);
  }

  lemma MissingIsFraction(selected: seq<nat>, gains: Gains)
    ensures Fraction(Missing(selected, gains))
  {
    SetNoLonger(selected);
    SmallerSubset(ToSet(selected) - gains.Keys, ToSet(selected));
    RatioIsFraction(|ToSet(selected) - gains.Keys|, |selected|);
  }

  /** No asset moves by more than the whole list. */
  lemma RankChurnIsFraction(before: seq<nat>, after: seq<nat>, k: nat)
    requires |before| <= k && |after| <= k && Distinct(before)
    ensures MaybeFraction(RankChurn(before, after, k))
  {
    hide Moves, Fraction;
    MovesBounded(before, after, k, |before|);
    PrefixIs(before, |before|);
    var common := ToSet(before) * ToSet(after);
    assert Prefix(before, |before|) * ToSet(after) == common;
    if common != {} {
      QuotientIsFraction(Moves(before, after, k, |before|), |common| as real);
    }
  }

  /** Rank churn is zero exactly when every common asset keeps its place. */
  lemma RankChurnZero(before: seq<nat>, after: seq<nat>, k: nat)
    requires ToSet(before) * ToSet(after) != {}
    ensures RankChurn(before, after, k).Some?
    ensures RankChurn(before, after, k) == Some(0.0) <==>
      forall a :: a in before && a in after ==> Index(before, a) == Index(after, a)
  {
    MovesZero(before, after, k, |before|);
    var common := |ToSet(before) * ToSet(after)|;
    var x, y := Moves(before, after, k, |before|), common as real;
    assert x / y * y == x;
    forall a | a in before && a in after ensures Index(before, a) == Index(after, a) <==> Move(before, after, k, a) == 0.0 {
      MoveZero(before, after, k, a);
    }
  }

  lemma {:induction false} MovesZero(before: seq<nat>, after: seq<nat>, k: nat, n: nat)
    requires n <= |before|
    ensures Moves(before, after, k, n) >= 0.0
    ensures Moves(before, after, k, n) == 0.0 <==> forall i :: 0 <= i < n ==> Move(before, after, k, before[i]) == 0.0
  {
    if n > 0 {
      MovesZero(before, after, k, n - 1);
      MoveZero(before, after, k, before[n - 1]);
      hide Move;
    }
  }

  lemma MoveZero(before: seq<nat>, after: seq<nat>, k: nat, a: nat)
    ensures Move(before, after, k, a) >= 0.0
    ensures a in before && a in after ==> (Move(before, after, k, a) == 0.0 <==> Index(before, a) == Index(after, a))
  {
    if a in before && a in after {
      var x, y := Distance(before, after, a) as real, Largest(k) as real;
      assert x / y * y == x;
    }
  }

  lemma ReadyFits(g: Generation, horizon: nat, outcomes: Outcomes)
    ensures |ReadyGains(g, horizon, outcomes)| <= |g.features|
  {
    SmallerSubset(ReadyGains(g, horizon, outcomes).Keys, g.features.Keys);
  }
}
