/**
 What the recorded metrics say, read off the gains, the selection and the outcomes alone.
 */
module MetricsLaws {
  import opened Prelude
  import opened Ranking
  import opened Evaluation
  import opened Metrics

  // ----- recall and precision -----

  /** The assets that gained more than a, or as much with a smaller id. */
  function AheadOf(gains: Gains, a: nat): set<nat>
    requires a in gains
  {
    set b | b in gains && (gains[b] > gains[a] || (gains[b] == gains[a] && b < a))
  }

  /** It gained, and fewer than a tenth of the assets are ahead of it. */
  predicate InTopDecile(gains: Gains, a: nat) {
    a in gains && gains[a] > 0.0 && 10 * |AheadOf(gains, a)| < |gains|
  }

  lemma RelevantMeans(gains: Gains, a: nat)
    ensures a in Relevant(gains) <==> InTopDecile(gains, a)
  {
    if a in gains {
      assert AheadOf(gains, a) == Before(gains.Keys, RealisedOrder(gains), a);
    }
  }

  function TopDecileOf(gains: Gains): set<nat> {
    set a | a in gains && InTopDecile(gains, a)
  }

  lemma RelevantIsTop(gains: Gains)
    ensures Relevant(gains) == TopDecileOf(gains)
  {
    hide Relevant;
    forall a ensures a in Relevant(gains) <==> a in TopDecileOf(gains) {
      RelevantMeans(gains, a);
    }
  }

  /** Recall and precision share out the same hits: over the top decile, and over the slots there were. */
  lemma HitsAreShared(r: Retrieval, gains: Gains, w: Weight, selected: seq<nat>, k: nat, total: nat)
    requires |selected| > 0 && Measures(r, gains, w, selected, k, total) && k > 0 && total > 0
    ensures var top := TopDecileOf(gains);
      var hits := set a | a in selected && InTopDecile(gains, a);
      && (r.recall == None <==> top == {}) && (r.precision == None <==> top == {})
      && (top != {} ==> r.recall == Some(|hits| as real / |top| as real))
      && (top != {} ==> r.precision == Some(|hits| as real / (if k < total then k else total) as real))
  {
    hide Relevant, InTopDecile, TopDecileOf, IsNdcg, SetGain, Realised;
    var hits := set a | a in selected && InTopDecile(gains, a);
    RelevantIsTop(gains);
    TopMembers(gains);
    assert ToSet(selected) * TopDecileOf(gains) == hits;
  }

  lemma TopMembers(gains: Gains)
    ensures forall a :: a in TopDecileOf(gains) <==> InTopDecile(gains, a)
  {
  }

  /** Recall is one exactly when the whole top decile was selected, and zero when none of it was. */
  lemma FullRecall(r: Retrieval, gains: Gains, w: Weight, selected: seq<nat>, k: nat, total: nat)
    requires |selected| > 0 && Measures(r, gains, w, selected, k, total) && r.recall.Some?
    ensures r.recall == Some(1.0) <==> forall a :: InTopDecile(gains, a) ==> a in selected
    ensures r.recall == Some(0.0) <==> forall a :: InTopDecile(gains, a) ==> a !in selected
  {
    forall a ensures a in Relevant(gains) <==> InTopDecile(gains, a) {
      RelevantMeans(gains, a);
    }
    var relevant, chosen := Relevant(gains), ToSet(selected);
    var hits := chosen * relevant;
    hide Relevant, InTopDecile;
    SmallerSubset(hits, relevant);
    RatioEnds(|hits|, |relevant|);
    if |hits| == |relevant| {
      SameSize(hits, relevant);
    }
    if forall a :: InTopDecile(gains, a) ==> a in selected {
      assert hits == relevant;
    }
    if forall a :: InTopDecile(gains, a) ==> a !in selected {
      assert hits == {};
    }
  }

  /** Precision is one exactly when as many selected assets as there were slots to fill are in the top decile. */
  lemma FullPrecision(r: Retrieval, gains: Gains, w: Weight, selected: seq<nat>, k: nat, total: nat)
    requires 0 < |selected| <= k && |selected| <= total && Distinct(selected) && Measures(r, gains, w, selected, k, total)
    requires r.precision.Some?
    ensures r.precision == Some(1.0) <==>
      (|selected| == k || |selected| == total) && forall a :: a in selected ==> InTopDecile(gains, a)
  {
    hide Relevant, InTopDecile, TopDecileOf, IsNdcg, SetGain, Realised, Ratio;
    RelevantIsTop(gains);
    TopMembers(gains);
    var chosen, slots := ToSet(selected), Least(k, total);
    var hits := chosen * TopDecileOf(gains);
    CountDistinct(selected);
    SmallerSubset(hits, chosen);
    RatioEnds(|hits|, slots);
    assert (forall a :: a in selected ==> InTopDecile(gains, a)) <==> chosen <= TopDecileOf(gains) by {
      assert forall a :: a in selected <==> a in chosen;
    }
    if |hits| == |chosen| {
      SameSize(hits, chosen);
    }
    if chosen <= TopDecileOf(gains) {
      assert hits == chosen;
    }
  }

  /** Recall looks at neither the number of slots nor the size of the universe. */
  lemma RecallIgnoresSlots(r: Retrieval, q: Retrieval, gains: Gains, w: Weight, selected: seq<nat>, k: nat, n: nat, total: nat, size: nat)
    requires |selected| > 0 && Measures(r, gains, w, selected, k, total) && Measures(q, gains, w, selected, n, size)
    ensures r.recall == q.recall && r.future == q.future
  {
    hide Relevant, SetGain, Ratio;
  }

  // ----- NDCG -----

  /** NDCG exists exactly when something gained, and for one slot it is the share of the greatest gain. */
  lemma NdcgOfOne(r: Retrieval, gains: Gains, w: Weight, a: nat, best: nat, total: nat)
    requires Measures(r, gains, w, [a], 1, total) && Discounts(w) && NonNegative(gains)
    requires best in gains && forall b :: b in gains ==> gains[b] <= gains[best]
    ensures r.ndcg.Some? <==> gains[best] > 0.0
    ensures r.ndcg.Some? ==> r.ndcg.value * gains[best] == Gain(gains, a)
  {
    hide Relevant, SetGain, Ratio, Sorted;
    var realised :| Realised(gains, realised) && IsNdcg(r.ndcg, gains, w, [a], realised, 1);
    FirstIsGreatest(gains, realised, best);
    assert Dcg(gains, w, realised, 1) == Dcg(gains, w, realised, 0) + Gain(gains, realised[0]) * w(0);
    assert Dcg(gains, w, [a], 1) == Dcg(gains, w, [a], 0) + Gain(gains, a) * w(0);
    Cancels(Gain(gains, a), gains[best], w(0));
  }

  lemma FirstIsGreatest(gains: Gains, realised: seq<nat>, best: nat)
    requires Realised(gains, realised) && best in gains && forall b :: b in gains ==> gains[b] <= gains[best]
    ensures |realised| > 0 && Gain(gains, realised[0]) == gains[best]
  {
    assert best in ToSet(realised);
    var i :| 0 <= i < |realised| && realised[i] == best;
    assert realised[0] in ToSet(realised);
    if i > 0 {
      assert RealisedOrder(gains)(realised[0], realised[i]);
    }
  }

  lemma Cancels(x: real, y: real, w: real)
    requires w > 0.0 && y >= 0.0
    ensures y * w > 0.0 <==> y > 0.0
    ensures y > 0.0 ==> (x * w) / (y * w) * y == x
  {
    if y > 0.0 {
      var q := (x * w) / (y * w);
      assert q * (y * w) == x * w;
      assert (q * y) * w == q * (y * w);
      assert (q * y - x) * w == 0.0;
    }
  }

  function SwapAt(selected: seq<nat>, i: nat): seq<nat>
    requires i + 1 < |selected|
  {
    selected[..i] + [selected[i + 1], selected[i]] + selected[i + 2..]
  }

  /** Moving a greater gain one place up never lowers the discounted gain, and raises it where the discount falls. */
  lemma BetterOrderGainsMore(gains: Gains, w: Weight, selected: seq<nat>, i: nat)
    requires Discounts(w) && i + 1 < |selected| && Gain(gains, selected[i]) < Gain(gains, selected[i + 1])
    ensures Dcg(gains, w, SwapAt(selected, i), |selected|) >= Dcg(gains, w, selected, |selected|)
    ensures w(i + 1) < w(i) ==> Dcg(gains, w, SwapAt(selected, i), |selected|) > Dcg(gains, w, selected, |selected|)
  {
    var swapped := SwapAt(selected, i);
    assert swapped[..i] == selected[..i];
    DcgOfPrefix(gains, w, swapped, selected, i);
    SameTail(gains, w, swapped, selected, i + 2, |selected|);
    TwoMore(gains, w, swapped, i);
    TwoMore(gains, w, selected, i);
    hide Gain, Dcg, SwapAt, Discounts;
    Exchange(Gain(gains, selected[i]), Gain(gains, selected[i + 1]), w(i), w(i + 1));
  }

  lemma TwoMore(gains: Gains, w: Weight, s: seq<nat>, i: nat)
    requires i + 1 < |s|
    ensures Dcg(gains, w, s, i + 2) == Dcg(gains, w, s, i) + Gain(gains, s[i]) * w(i) + Gain(gains, s[i + 1]) * w(i + 1)
  {
  }

  lemma Exchange(x: real, y: real, v: real, w: real)
    requires x < y && w <= v
    ensures y * v + x * w >= x * v + y * w && (w < v ==> y * v + x * w > x * v + y * w)
  {
    assert (y - x) * (v - w) == y * v + x * w - x * v - y * w;
  }

  lemma {:induction false} SameTail(gains: Gains, w: Weight, a: seq<nat>, b: seq<nat>, from: nat, n: nat)
    requires from <= n <= |a| == |b| && forall j :: from <= j < n ==> a[j] == b[j]
    ensures Dcg(gains, w, a, n) - Dcg(gains, w, b, n) == Dcg(gains, w, a, from) - Dcg(gains, w, b, from)
  {
    if from < n {
      SameTail(gains, w, a, b, from, n - 1);
    }
  }

  // ----- churn and missing rates -----

  /** Churn is the share of the assets of either selection that only one of them has. */
  lemma ChurnIsShareOfChange(before: seq<nat>, after: seq<nat>)
    requires before != [] || after != []
    ensures var all, once := ToSet(before) + ToSet(after), (ToSet(before) - ToSet(after)) + (ToSet(after) - ToSet(before));
      |all| > 0 && SetChurn(before, after) == |once| as real / |all| as real
  {
    var a, b := ToSet(before), ToSet(after);
    assert before != [] ==> before[0] in a;
    assert after != [] ==> after[0] in b;
    hide ToSet;
    OnceOrBoth(a, b);
    RestOf(|a + b|, |a * b|, |(a - b) + (b - a)|);
  }

  lemma OnceOrBoth(a: set<nat>, b: set<nat>)
    ensures |a + b| == |(a - b) + (b - a)| + |a * b|
    ensures a != {} || b != {} ==> |a + b| > 0
  {
    assert a + b == (a - b) + (b - a) + a * b;
    assert ((a - b) + (b - a)) * (a * b) == {};
    if a != {} || b != {} {
      assert a + b != {};
    }
  }

  lemma RestOf(all: nat, both: nat, once: nat)
    requires all == once + both && all > 0
    ensures 1.0 - both as real / all as real == once as real / all as real
  {
    Distributes(once as real, both as real, all as real);
    SelfQuotient(all as real);
  }

  lemma SelfQuotient(z: real)
    requires z > 0.0
    ensures z / z == 1.0
  {
  }

  function Apart(i: int, j: int): nat {
    if i < j then j - i else i - j
  }

  /** The places that the common assets among the first n have moved, added up. */
  function PlacesMoved(before: seq<nat>, after: seq<nat>, n: nat): nat
    requires n <= |before|
  {
    if n == 0 then 0 else PlacesMoved(before, after, n - 1) + PlacesOf(before, after, before[n - 1])
  }

  function PlacesOf(before: seq<nat>, after: seq<nat>, a: nat): nat
    requires a in before
  {
    if a in after then Apart(Index(before, a), Index(after, a)) else 0
  }

  function Span(k: nat): nat {
    if k <= 2 then 1 else k - 1
  }

  lemma {:induction false} MovesArePlaces(before: seq<nat>, after: seq<nat>, k: nat, n: nat)
    requires n <= |before|
    ensures Moves(before, after, k, n) == PlacesMoved(before, after, n) as real / Span(k) as real
  {
    hide Move, Index, PlacesOf;
    if n > 0 {
      MovesArePlaces(before, after, k, n - 1);
      MoveIsPlaces(before, after, k, before[n - 1]);
      Distributes(PlacesMoved(before, after, n - 1) as real, PlacesOf(before, after, before[n - 1]) as real, Span(k) as real);
    }
  }

  lemma Distributes(x: real, y: real, z: real)
    requires z != 0.0
    ensures (x + y) / z == x / z + y / z
  {
  }

  lemma MoveIsPlaces(before: seq<nat>, after: seq<nat>, k: nat, a: nat)
    requires a in before
    ensures Move(before, after, k, a) == PlacesOf(before, after, a) as real / Span(k) as real
  {
  }

  /** Rank churn is the mean of the places common assets moved, over the k - 1 places there are to move. */
  lemma RankChurnIsMeanMove(before: seq<nat>, after: seq<nat>, k: nat)
    ensures var common := set a | a in before && a in after;
      RankChurn(before, after, k) == if common == {} then None
        else Some(PlacesMoved(before, after, |before|) as real / Span(k) as real / |common| as real)
  {
    hide Moves, PlacesMoved, Span;
    MovesArePlaces(before, after, k, |before|);
    assert (set a | a in before && a in after) == ToSet(before) * ToSet(after);
  }

  /** The missing rate is the share of selected assets without a realised gain, and one of nothing selected. */
  lemma MissingIsShare(selected: seq<nat>, gains: Gains)
    ensures var missing := set a | a in selected && a !in gains;
      Missing(selected, gains) == if selected == [] then 1.0 else |missing| as real / |selected| as real
  {
    assert (set a | a in selected && a !in gains) == ToSet(selected) - gains.Keys;
  }

  // ----- what is matched and recorded -----

  /** The outcome is of this decision: same reference, settled from the first minute at or after it, and ready. */
  predicate BoundReady(g: Generation, a: nat, o: Outcome) {
    && a in g.features && g.features[a].identified && g.features[a].referenceKey.Some?
    && o.referenceKey == g.features[a].referenceKey && o.status == Ready && o.maxAbsReturn.Some?
    && o.cutoff % 60_000 == 0 && g.decisionAt <= o.cutoff < g.decisionAt + 60_000
  }

  /** Every bound ready outcome is a gain, and there is no other gain. */
  lemma GainsAreBound(g: Generation, horizon: nat, outcomes: Outcomes, a: nat, gain: real)
    ensures a in ReadyGains(g, horizon, outcomes) && ReadyGains(g, horizon, outcomes)[a] == gain <==>
      && Key(g.id, a, horizon) in outcomes && BoundReady(g, a, outcomes[Key(g.id, a, horizon)])
      && outcomes[Key(g.id, a, horizon)].maxAbsReturn == Some(gain)
  {
    OneMinuteMark(g.decisionAt);
  }

  lemma OneMinuteMark(at: int)
    ensures forall t :: t % 60_000 == 0 && at <= t < at + 60_000 ==> t == OutcomeCutoff(at)
  {
    forall t | t % 60_000 == 0 && at <= t < at + 60_000 ensures t == OutcomeCutoff(at) {
      var c := OutcomeCutoff(at);
      assert t / 60_000 * 60_000 == t && c / 60_000 * 60_000 == c;
    }
  }

  /** A selection is measured exactly if it is not empty and each of its assets has its bound ready outcome. */
  lemma MeasuredIffAllBound(g: Generation, horizon: nat, outcomes: Outcomes, selected: seq<nat>)
    ensures Complete(selected, ReadyGains(g, horizon, outcomes)) <==>
      selected != [] && forall a :: a in selected ==> Key(g.id, a, horizon) in outcomes && BoundReady(g, a, outcomes[Key(g.id, a, horizon)])
  {
    var gains := ReadyGains(g, horizon, outcomes);
    forall a ensures a in gains <==> Key(g.id, a, horizon) in outcomes && BoundReady(g, a, outcomes[Key(g.id, a, horizon)]) {
      if a in gains {
        GainsAreBound(g, horizon, outcomes, a, gains[a]);
      }
      if Key(g.id, a, horizon) in outcomes && BoundReady(g, a, outcomes[Key(g.id, a, horizon)]) {
        GainsAreBound(g, horizon, outcomes, a, outcomes[Key(g.id, a, horizon)].maxAbsReturn.value);
      }
    }
    hide BoundReady, ReadyGains;
    assert forall a :: a in selected <==> a in ToSet(selected);
  }

  /** An outcome is mature once it is settled one way or the other. */
  lemma MatureIsSettled(g: Generation, horizon: nat, outcomes: Outcomes, a: nat)
    ensures a in Mature(g, horizon, outcomes) <==>
      && a in g.features && Key(g.id, a, horizon) in outcomes
      && (outcomes[Key(g.id, a, horizon)].status == Ready || outcomes[Key(g.id, a, horizon)].status == Unscorable)
  {
  }

  /** Outcomes of other generations, horizons and assets never matter. */
  lemma ForeignOutcomesIgnored(g: Generation, horizon: nat, outcomes: Outcomes, others: Outcomes)
    requires forall a :: a in g.features ==>
      (Key(g.id, a, horizon) in outcomes <==> Key(g.id, a, horizon) in others)
      && (Key(g.id, a, horizon) in outcomes ==> outcomes[Key(g.id, a, horizon)] == others[Key(g.id, a, horizon)])
    ensures ReadyGains(g, horizon, outcomes) == ReadyGains(g, horizon, others)
    ensures Mature(g, horizon, outcomes) == Mature(g, horizon, others)
  {
  }

  predicate ScoresAhead(g: Generation, b: nat, a: nat)
    requires a in g.features && g.features[a].score.Some?
  {
    && b in g.features && g.features[b].identified && g.features[b].referenceKey.Some? && g.features[b].score.Some?
    && (g.features[b].score.value > g.features[a].score.value
        || (g.features[b].score.value == g.features[a].score.value && b < a))
  }

  /** An eligible asset is left out of a selection only by k assets with better scores. */
  lemma SelectionLeavesOut(g: Generation, k: nat, selected: seq<nat>, a: nat)
    requires Selects(g, k, selected) && a in g.features && a !in selected
    requires g.features[a].identified && g.features[a].referenceKey.Some? && g.features[a].score.Some?
    ensures |selected| == k && forall b :: b in selected ==> ScoresAhead(g, b, a)
  {
    var scores := Scores(g);
    var order := RealisedOrder(scores);
    assert a in scores.Keys && a !in ToSet(selected);
    SelectionFits(g, k, selected);
    hide First, Scores;
    ScoresOrder(scores);
    LeftOutOfFirst(scores.Keys, order, k, a);
    FirstCount(scores.Keys, order, k);
    forall b | b in selected ensures order(b, a) && b in scores {
      assert b in ToSet(selected);
    }
    ScoredAre(g);
  }

  lemma ScoresOrder(scores: Gains)
    ensures StrictOrder(scores.Keys, RealisedOrder(scores))
  {
  }

  lemma ScoredAre(g: Generation)
    ensures forall a :: a in Scores(g) ==> a in g.features && Scored(g.features[a]) && Scores(g)[a] == g.features[a].score.value
    ensures forall a :: a in g.features && Scored(g.features[a]) ==> a in Scores(g)
  {
  }

  /** The recorded lead times are those of the selected assets in the top decile. */
  lemma {:induction false} LeadsAreOfHits(g: Generation, horizon: nat, outcomes: Outcomes, selected: seq<nat>, lead: real, n: nat)
    requires n <= |selected|
    ensures var gains := ReadyGains(g, horizon, outcomes);
      lead in LeadsOf(g, horizon, outcomes, selected, Relevant(gains), n) <==>
        exists i :: 0 <= i < n && InTopDecile(gains, selected[i]) && Key(g.id, selected[i], horizon) in outcomes
          && outcomes[Key(g.id, selected[i], horizon)].lead == Some(lead)
  {
    hide ReadyGains, InTopDecile, Relevant;
    if n > 0 {
      LeadsAreOfHits(g, horizon, outcomes, selected, lead, n - 1);
      RelevantMeans(ReadyGains(g, horizon, outcomes), selected[n - 1]);
    }
  }

  // ----- means -----

  /** A mean times its count grows by each value, so it is the mean. */
  lemma AverageGrows(xs: seq<real>, x: real)
    ensures Average([x]) == Some(x) && (Average(xs) == None <==> xs == [])
    ensures xs != [] ==> var more := Average(xs + [x]); more.Some? && more.value * (|xs| + 1) as real == Average(xs).value * |xs| as real + x
  {
    assert Sum([x], 1) == Sum([x], 0) + x;
    SumOfPrefix(xs, xs + [x], |xs|);
    if xs != [] {
      Quotient(Sum(xs, |xs|), |xs| as real);
      Quotient(Sum(xs + [x], |xs| + 1), (|xs| + 1) as real);
    }
  }

  lemma Quotient(x: real, y: real)
    requires y > 0.0
    ensures x / y * y == x
  {
  }

  lemma {:induction false} SumOfPrefix(xs: seq<real>, ys: seq<real>, n: nat)
    requires n <= |xs| && n <= |ys| && xs[..n] == ys[..n]
    ensures Sum(xs, n) == Sum(ys, n)
  {
    if n > 0 {
      assert xs[..n - 1] == xs[..n][..n - 1] && ys[..n - 1] == ys[..n][..n - 1];
      assert xs[n - 1] == xs[..n][n - 1] && ys[n - 1] == ys[..n][n - 1];
      SumOfPrefix(xs, ys, n - 1);
    }
  }
}
