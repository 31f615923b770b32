/**
 Retrieval metrics of one policy over prospective generations: what was selected is compared
 with what later moved. Gains are future maximum absolute returns; the rank discount is any
 positive, non-increasing weight.
 */
module Evaluation {
  import opened Prelude
  import opened Ranking
  import opened Sums

  type Gains = map<nat, real>
  type Weight = nat -> real

  ghost predicate Discounts(w: Weight) {
    && (forall i :: w(i) > 0.0)
    && (forall i, j :: i <= j ==> w(j) <= w(i))
  }

  predicate NonNegative(gains: Gains) {
    forall a :: a in gains ==> gains[a] >= 0.0
  }

  function Gain(gains: Gains, a: nat): real {
    if a in gains then gains[a] else 0.0
  }

  /** Realised order: greatest gain first, ties by asset id. */
  function RealisedOrder(gains: Gains): (nat, nat) -> bool {
    (a: nat, b: nat) => Gain(gains, a) > Gain(gains, b) || (Gain(gains, a) == Gain(gains, b) && a < b)
  }

  ghost predicate Realised(gains: Gains, realised: seq<nat>) {
    Listing(gains.Keys, RealisedOrder(gains), realised)
  }

  /** Discounted gain of the first n assets listed. */
  function Dcg(gains: Gains, w: Weight, assets: seq<nat>, n: nat): real
    requires n <= |assets|
  {
    if n == 0 then 0.0 else Dcg(gains, w, assets, n - 1) + Gain(gains, assets[n - 1]) * w(n - 1)
  }

  /** Undiscounted gain of the first n assets listed. */
  function Total(gains: Gains, assets: seq<nat>, n: nat): real
    requires n <= |assets|
  {
    if n == 0 then 0.0 else Total(gains, assets, n - 1) + Gain(gains, assets[n - 1])
  }

  function Prefix(assets: seq<nat>, n: nat): (s: set<nat>)
    requires n <= |assets|
  {
    if n == 0 then {} else Prefix(assets, n - 1) + {assets[n - 1]}
  }

  // ----- the rearrangement inequality -----

  /** A lead in total gain, at the smallest weight used so far, is covered by the discounted lead. */
  ghost predicate Covers(ahead: real, lead: real, weight: real) {
    0.0 <= ahead * weight <= lead
  }

  /** If every prefix of b gains at least as much as the same prefix of a, discounting keeps b ahead. */
  lemma {:induction false} DominatedPrefixes(gains: Gains, w: Weight, a: seq<nat>, b: seq<nat>, n: nat)
    requires Discounts(w) && n <= |a| && n <= |b|
    requires forall m :: 0 <= m <= n ==> Total(gains, a, m) <= Total(gains, b, m)
    ensures n > 0 ==>
      Covers(Total(gains, b, n) - Total(gains, a, n), Dcg(gains, w, b, n) - Dcg(gains, w, a, n), w(n - 1))
  {
    if n > 0 {
      hide Covers, Gain;
      var x, y, weight := Gain(gains, a[n - 1]), Gain(gains, b[n - 1]), w(n - 1);
      var ahead := Total(gains, b, n - 1) - Total(gains, a, n - 1);
      var lead := Dcg(gains, w, b, n - 1) - Dcg(gains, w, a, n - 1);
      var gained := y * weight - x * weight;
      assert Total(gains, b, n) - Total(gains, a, n) == ahead + y - x;
      assert Dcg(gains, w, b, n) - Dcg(gains, w, a, n) == lead + gained;
      if n == 1 {
        FirstCovers(x, y, weight);
      } else {
        DominatedPrefixes(gains, w, a, b, n - 1);
        StillCovers(ahead, lead, w(n - 2), x, y, weight);
      }
    }
  }

  lemma FirstCovers(x: real, y: real, w: real)
    requires x <= y && w > 0.0
    ensures Covers(y - x, y * w - x * w, w)
  {
  }

  lemma StillCovers(ahead: real, lead: real, before: real, x: real, y: real, w: real)
    requires Covers(ahead, lead, before) && 0.0 < w <= before && ahead >= 0.0 && ahead + y - x >= 0.0
    ensures Covers(ahead + y - x, lead + (y * w - x * w), w)
  {
    assert ahead * w <= ahead * before;
    assert (ahead + y - x) * w == ahead * w + y * w - x * w;
  }

  ghost function SetGain(gains: Gains, s: set<nat>): real {
    SumOver(s, (a: nat) => Gain(gains, a))
  }

  lemma SetGainAdd(gains: Gains, s: set<nat>, x: nat)
    requires x !in s
    ensures SetGain(gains, s + {x}) == SetGain(gains, s) + Gain(gains, x)
  {
    SumAdd(s, (a: nat) => Gain(gains, a), x);
  }

  /** The first n assets of a duplicate-free list, as a set. */
  lemma {:induction false} PrefixIs(assets: seq<nat>, n: nat)
    requires n <= |assets|
    ensures forall x :: x in Prefix(assets, n) <==> exists i :: 0 <= i < n && assets[i] == x
    ensures Distinct(assets) ==> |Prefix(assets, n)| == n
  {
    if n > 0 {
      PrefixIs(assets, n - 1);
      var before, last := Prefix(assets, n - 1), assets[n - 1];
      forall x ensures x in before + {last} <==> exists i :: 0 <= i < n && assets[i] == x {
        if x == last {
          assert assets[n - 1] == x;
        }
      }
      hide Prefix;
      assert Distinct(assets) ==> last !in before;
    }
  }

  lemma {:induction false} TotalIsSetGain(gains: Gains, assets: seq<nat>, n: nat)
    requires Distinct(assets) && n <= |assets|
    ensures Total(gains, assets, n) == SetGain(gains, Prefix(assets, n))
  {
    if n > 0 {
      TotalIsSetGain(gains, assets, n - 1);
      PrefixIs(assets, n - 1);
      SetGainAdd(gains, Prefix(assets, n - 1), assets[n - 1]);
    }
  }

  /** No m assets gain more together than the first m of the realised order. */
  lemma {:induction false} FirstGainMost(gains: Gains, realised: seq<nat>, chosen: set<nat>, m: nat)
    requires NonNegative(gains) && Realised(gains, realised)
    requires chosen <= gains.Keys && |chosen| <= m <= |realised|
    ensures SetGain(gains, chosen) <= SetGain(gains, Prefix(realised, m))
  {
    hide Realised, NonNegative, Gain, SetGain;
    if m == 0 {
      assert chosen == {};
    } else {
      var first := Prefix(realised, m - 1);
      PrefixGain(gains, realised, m - 1);
      if chosen <= first {
        SmallerSubset(chosen, first);
        FirstGainMost(gains, realised, chosen, m - 1);
      } else {
        var y :| y in chosen && y !in first;
        LaterGainsLess(gains, realised, y, m);
        SetGainAdd(gains, chosen - {y}, y);
        assert chosen - {y} + {y} == chosen;
        FirstGainMost(gains, realised, chosen - {y}, m - 1);
      }
    }
  }

  lemma PrefixGain(gains: Gains, realised: seq<nat>, m: nat)
    requires NonNegative(gains) && Realised(gains, realised) && m < |realised|
    ensures |Prefix(realised, m)| == m && Gain(gains, realised[m]) >= 0.0
    ensures SetGain(gains, Prefix(realised, m + 1)) == SetGain(gains, Prefix(realised, m)) + Gain(gains, realised[m])
  {
    RealisedDistinct(gains, realised);
    PrefixIs(realised, m);
    SetGainAdd(gains, Prefix(realised, m), realised[m]);
  }

  lemma RealisedDistinct(gains: Gains, realised: seq<nat>)
    requires Realised(gains, realised)
    ensures Distinct(realised) && |realised| == |gains.Keys|
    ensures forall i :: 0 <= i < |realised| ==> realised[i] in gains
  {
    ListingDistinct(gains.Keys, RealisedOrder(gains), realised);
    assert forall i :: 0 <= i < |realised| ==> realised[i] in ToSet(realised);
  }

  /** Whatever is not among the first m - 1 gains no more than the m-th. */
  lemma LaterGainsLess(gains: Gains, realised: seq<nat>, y: nat, m: nat)
    requires Realised(gains, realised) && 0 < m <= |realised|
    requires y in gains && y !in Prefix(realised, m - 1)
    ensures Gain(gains, y) <= Gain(gains, realised[m - 1])
  {
    hide Gain, Prefix;
    assert y in ToSet(realised);
    var i :| 0 <= i < |realised| && realised[i] == y;
    PrefixIs(realised, m - 1);
    assert i >= m - 1;
    if i > m - 1 {
      assert RealisedOrder(gains)(realised[m - 1], realised[i]);
    }
  }

  /** Any distinct selection has at most the discounted gain of equally many leaders. */
  lemma SelectionIsAtMostIdeal(gains: Gains, w: Weight, realised: seq<nat>, selected: seq<nat>)
    requires Discounts(w) && NonNegative(gains) && Realised(gains, realised)
    requires Distinct(selected) && ToSet(selected) <= gains.Keys
    ensures |selected| <= |realised|
    ensures Dcg(gains, w, selected, |selected|) <= Dcg(gains, w, realised, |selected|)
  {
    RealisedDistinct(gains, realised);
    CountDistinct(selected);
    SmallerSubset(ToSet(selected), gains.Keys);
    forall m | 0 <= m <= |selected|
      ensures Total(gains, selected, m) <= Total(gains, realised, m)
    {
      TotalIsSetGain(gains, selected, m);
      TotalIsSetGain(gains, realised, m);
      PrefixIs(selected, m);
      assert Prefix(selected, m) <= ToSet(selected);
      FirstGainMost(gains, realised, Prefix(selected, m), m);
    }
    DominatedPrefixes(gains, w, selected, realised, |selected|);
  }

  /** Longer lists only gain. */
  lemma {:induction false} DcgGrows(gains: Gains, w: Weight, assets: seq<nat>, m: nat, n: nat)
    requires Discounts(w) && NonNegative(gains) && m <= n <= |assets|
    ensures Dcg(gains, w, assets, m) <= Dcg(gains, w, assets, n)
  {
    if m < n {
      DcgGrows(gains, w, assets, m, n - 1);
      assert Gain(gains, assets[n - 1]) * w(n - 1) >= 0.0;
    }
  }

  /** NDCG is at most one, and one for the realised leaders themselves. */
  lemma NdcgBounds(gains: Gains, w: Weight, realised: seq<nat>, selected: seq<nat>, k: nat)
    requires Discounts(w) && NonNegative(gains) && Realised(gains, realised)
    requires Distinct(selected) && ToSet(selected) <= gains.Keys && |selected| <= k
    ensures var n := Least(k, |realised|);
      && 0.0 <= Dcg(gains, w, selected, |selected|) <= Dcg(gains, w, realised, n)
  {
    SelectionIsAtMostIdeal(gains, w, realised, selected);
    DcgGrows(gains, w, realised, |selected|, Least(k, |realised|));
    DcgGrows(gains, w, selected, 0, |selected|);
  }

  function Least(a: nat, b: nat): nat {
    if a < b then a else b
  }
}
