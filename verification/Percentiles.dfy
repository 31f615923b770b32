/**
 Cross-sectional midrank percentiles over exact values. Keys are asset ids, named here by
 their position in text order.
 */
module Percentiles {
  import opened Prelude
  import opened Ranking

  type Values = map<nat, real>

  datatype Result = InvalidInput | InsufficientPeers | Percentiles(scores: map<nat, real>)

  function Less(values: Values, k: nat): set<nat>
    requires k in values
  {
    set j | j in values && values[j] < values[k]
  }

  function Tied(values: Values, k: nat): set<nat>
    requires k in values
  {
    set j | j in values && values[j] == values[k]
  }

  /** The midrank percentile by counting: peers below, plus half of the other tied ones. */
  function Midrank(values: Values, k: nat): real
    requires k in values
  {
    if |values| == 1 then 50.0
    else 100.0 * (|Less(values, k)| as real + (|Tied(values, k)| - 1) as real / 2.0) / (|values| - 1) as real
  }

  /** The score of a group of `tied` equal values that starts at `offset`. */
  function GroupScore(offset: nat, tied: nat, peers: nat): real
    requires peers >= 2
  {
    100.0 * (offset as real + (tied - 1) as real / 2.0) / (peers - 1) as real
  }

  function Midranks(values: Values): map<nat, real> {
    map k | k in values :: Midrank(values, k)
  }

  predicate KeyBefore(values: Values, i: nat, j: nat)
    requires i in values && j in values
  {
    values[i] < values[j] || (values[i] == values[j] && i < j)
  }

  function Order(values: Values): (nat, nat) -> bool {
    (i: nat, j: nat) => i in values && j in values && KeyBefore(values, i, j)
  }

  /** The grouped loop: keys in value order, one score for each run of equal values. */
  method MidrankPercentiles(values: Values, minimumPeers: int) returns (result: Result)
    ensures result ==
      if minimumPeers < 1 then InvalidInput
      else if |values| < minimumPeers then InsufficientPeers
      else Percentiles(Midranks(values))
  {
    hide Midrank, Listing, GroupScore;
    if minimumPeers < 1 {
      return InvalidInput;
    }
    if |values| < minimumPeers {
      return InsufficientPeers;
    }
    if |values| == 1 {
      AloneIsFifty(values);
      return Percentiles(map k | k in values :: 50.0);
    }
    var keys := Sort(values.Keys, Order(values));
    var scores := ScoreGroups(values, keys);
    result := Percentiles(scores);
  }

  method ScoreGroups(values: Values, keys: seq<nat>) returns (scores: map<nat, real>)
    requires |values| >= 2 && Listing(values.Keys, Order(values), keys)
    ensures scores == Midranks(values)
  {
    hide Midrank, Listing, GroupScore, IsRun;
    ListsKeys(values, keys);
    scores := map[];
    var offset := 0;
    while offset < |keys|
      invariant 0 <= offset <= |keys|
      invariant 0 < offset < |keys| ==> values[keys[offset - 1]] < values[keys[offset]]
      invariant forall i :: 0 <= i < offset ==> keys[i] in scores
      invariant forall k :: k in scores ==> k in values && scores[k] == Midrank(values, k)
    {
      var end := RunEnd(values, keys, offset);
      var score := GroupScore(offset, end - offset, |values|);
      RunScore(values, keys, offset, end);
      scores := scores + map i | offset <= i < end :: keys[i] := score;
      offset := end;
    }
  }

  /** Where the group of equal values that starts at `offset` ends. */
  method RunEnd(values: Values, keys: seq<nat>, offset: nat) returns (end: nat)
    requires offset < |keys| && forall k :: k in keys ==> k in values
    requires offset > 0 ==> values[keys[offset - 1]] < values[keys[offset]]
    ensures offset < end <= |keys| && IsRun(values, keys, offset, end)
  {
    end := offset + 1;
    while end < |keys| && values[keys[end]] == values[keys[offset]]
      invariant offset < end <= |keys|
      invariant forall i :: offset <= i < end ==> values[keys[i]] == values[keys[offset]]
    {
      end := end + 1;
    }
  }

  lemma ListsKeys(values: Values, keys: seq<nat>)
    requires Listing(values.Keys, Order(values), keys)
    ensures forall k :: k in keys <==> k in values
  {
  }

  lemma AloneIsFifty(values: Values)
    requires |values| == 1
    ensures forall k :: k in values ==> Midrank(values, k) == 50.0
  {
  }

  /** keys[offset..end] is a maximal run of equal values in key order. */
  ghost predicate IsRun(values: Values, keys: seq<nat>, offset: nat, end: nat) {
    && offset < end <= |keys| && (forall k :: k in keys ==> k in values)
    && (forall i :: offset <= i < end ==> values[keys[i]] == values[keys[offset]])
    && (offset > 0 ==> values[keys[offset - 1]] < values[keys[offset]])
    && (end < |keys| ==> values[keys[end]] != values[keys[offset]])
  }

  lemma RunBounds(values: Values, keys: seq<nat>, offset: nat, end: nat)
    requires Listing(values.Keys, Order(values), keys) && IsRun(values, keys, offset, end)
    ensures forall i :: 0 <= i < offset ==> values[keys[i]] < values[keys[offset]]
    ensures forall i :: end <= i < |keys| ==> values[keys[offset]] < values[keys[i]]
  {
  }

  /** A run's keys have one score, given by the run's position and length. */
  lemma RunIsTied(values: Values, keys: seq<nat>, offset: nat, end: nat, k: nat)
    requires Listing(values.Keys, Order(values), keys) && IsRun(values, keys, offset, end)
    requires k in keys[offset..end]
    ensures |Less(values, k)| == offset && |Tied(values, k)| == end - offset
  {
    ListingDistinct(values.Keys, Order(values), keys);
    RunBounds(values, keys, offset, end);
    SplitKeys(values, keys, offset, end, k);
    hide *;
    CountSlice(keys, 0, offset);
    assert keys[0..offset] == keys[..offset];
    CountSlice(keys, offset, end);
  }

  lemma SplitKeys(values: Values, keys: seq<nat>, offset: nat, end: nat, k: nat)
    requires ToSet(keys) == values.Keys && IsRun(values, keys, offset, end) && k in keys[offset..end]
    requires forall i :: 0 <= i < offset ==> values[keys[i]] < values[keys[offset]]
    requires forall i :: end <= i < |keys| ==> values[keys[offset]] < values[keys[i]]
    ensures Less(values, k) == ToSet(keys[..offset])
    ensures Tied(values, k) == ToSet(keys[offset..end])
  {
  }

  lemma ScoreByCounts(values: Values, k: nat, less: nat, tied: nat)
    requires |values| >= 2 && k in values && |Less(values, k)| == less && |Tied(values, k)| == tied
    ensures Midrank(values, k) == GroupScore(less, tied, |values|)
  {
  }

  lemma RunScore(values: Values, keys: seq<nat>, offset: nat, end: nat)
    requires |values| >= 2 && Listing(values.Keys, Order(values), keys) && IsRun(values, keys, offset, end)
    ensures forall i :: offset <= i < end ==>
      keys[i] in values && Midrank(values, keys[i]) == GroupScore(offset, end - offset, |values|)
    ensures end < |keys| ==> values[keys[end - 1]] < values[keys[end]]
  {
    hide Midrank, GroupScore, Less, Tied, Listing;
    forall i | offset <= i < end
      ensures Midrank(values, keys[i]) == GroupScore(offset, end - offset, |values|)
    {
      assert keys[offset..end][i - offset] == keys[i];
      RunIsTied(values, keys, offset, end, keys[i]);
      ScoreByCounts(values, keys[i], offset, end - offset);
    }
    RunBounds(values, keys, offset, end);
  }

  // ----- what the percentiles mean -----

  /** Percentiles order the values: strictly lower values score strictly lower, ties score the same. */
  lemma OrderPreserved(values: Values, a: nat, b: nat)
    requires a in values && b in values
    ensures values[a] < values[b] <==> Midrank(values, a) < Midrank(values, b)
    ensures values[a] == values[b] ==> Midrank(values, a) == Midrank(values, b)
  {
    if values[a] < values[b] {
      StrictlyLower(values, a, b);
    } else if values[b] < values[a] {
      StrictlyLower(values, b, a);
    } else {
      assert Less(values, a) == Less(values, b) && Tied(values, a) == Tied(values, b);
    }
  }

  lemma StrictlyLower(values: Values, a: nat, b: nat)
    requires a in values && b in values && values[a] < values[b]
    ensures Midrank(values, a) < Midrank(values, b)
  {
    assert Less(values, a) + Tied(values, a) <= Less(values, b);
    assert Less(values, a) !! Tied(values, a);
    SmallerSubset(Less(values, a) + Tied(values, a), Less(values, b));
    assert a in Tied(values, a) && b in Tied(values, b);
    SmallerSubset({a, b}, values.Keys);
    assert |values| == |values.Keys| && |{a, b}| == 2;
    var x := |Less(values, a)| as real + (|Tied(values, a)| - 1) as real / 2.0;
    var y := |Less(values, b)| as real + (|Tied(values, b)| - 1) as real / 2.0;
    assert x < y;
    ScaleMonotone(x, y, (|values| - 1) as real);
  }

  lemma ScaleMonotone(x: real, y: real, d: real)
    requires x < y && d > 0.0
    ensures 100.0 * x / d < 100.0 * y / d
  {
  }

  lemma Partition(values: Values, k: nat)
    requires k in values
    ensures |Less(values, k)| + |Tied(values, k)| + |Less(Negated(values), k)| == |values|
    ensures |Tied(values, k)| >= 1
  {
    var greater := Less(Negated(values), k);
    assert values.Keys == Less(values, k) + Tied(values, k) + greater;
    assert |values| == |values.Keys|;
    assert k in Tied(values, k);
  }

  lemma Bounded(values: Values, k: nat)
    requires k in values
    ensures 0.0 <= Midrank(values, k) <= 100.0
  {
    Partition(values, k);
    if |values| != 1 {
      var x := |Less(values, k)| as real + (|Tied(values, k)| - 1) as real / 2.0;
      var d := (|values| - 1) as real;
      assert 0.0 <= x <= d;
      RatioBounded(x, d);
    }
  }

  lemma RatioBounded(x: real, d: real)
    requires 0.0 <= x <= d && d > 0.0
    ensures 0.0 <= 100.0 * x / d <= 100.0
  {
  }

  function Negated(values: Values): Values {
    map k | k in values :: -values[k]
  }

  /** Turning the values around turns the percentiles around. */
  lemma NegationMirrors(values: Values, k: nat)
    requires k in values
    ensures Midrank(Negated(values), k) == 100.0 - Midrank(values, k)
  {
    var mirror := Negated(values);
    assert mirror.Keys == values.Keys && |mirror| == |mirror.Keys| && |values| == |values.Keys|;
    Partition(values, k);
    assert Tied(mirror, k) == Tied(values, k);
    if |values| != 1 {
      var d := (|values| - 1) as real;
      var x := |Less(values, k)| as real + (|Tied(values, k)| - 1) as real / 2.0;
      assert |Less(mirror, k)| as real + (|Tied(values, k)| - 1) as real / 2.0 == d - x;
      Mirror(x, d);
    }
  }

  lemma Mirror(x: real, d: real)
    requires d > 0.0
    ensures 100.0 * (d - x) / d == 100.0 - 100.0 * x / d
  {
    AddScaled(d - x, x, d);
  }

  // ----- the scores always sum to 50 n -----

  /** How far k beats j: a whole point for a lower value, half a point for a tie. */
  function Beats(values: Values, k: nat, j: nat): real
    requires k in values && j in values
  {
    if j == k then 0.0 else if values[j] < values[k] then 1.0 else if values[j] == values[k] then 0.5 else 0.0
  }

  ghost function Points(values: Values, k: nat, peers: set<nat>): (points: real)
    requires k in values && peers <= values.Keys
  {
    if peers == {} then 0.0
    else var j :| j in peers; Beats(values, k, j) + Points(values, k, peers - {j})
  }

  lemma PointsRemove(values: Values, k: nat, peers: set<nat>, j: nat)
    requires k in values && peers <= values.Keys && j in peers
    ensures Points(values, k, peers) == Beats(values, k, j) + Points(values, k, peers - {j})
    decreases |peers|
  {
    var i :| i in peers && Points(values, k, peers) == Beats(values, k, i) + Points(values, k, peers - {i});
    if i != j {
      PointsRemove(values, k, peers - {i}, j);
      PointsRemove(values, k, peers - {j}, i);
      assert peers - {i} - {j} == peers - {j} - {i};
    }
  }

  /** Counting peers is adding up points. */
  lemma {:induction false} PointsCount(values: Values, k: nat, peers: set<nat>)
    requires k in values && peers <= values.Keys
    ensures Points(values, k, peers) ==
      |Less(values, k) * peers| as real + |(Tied(values, k) - {k}) * peers| as real / 2.0
    decreases |peers|
  {
    if peers == {} {
      assert Less(values, k) * peers == {} && (Tied(values, k) - {k}) * peers == {};
    } else {
      var j :| j in peers;
      hide Points;
      PointsRemove(values, k, peers, j);
      PointsCount(values, k, peers - {j});
      var less, tied := Less(values, k) * peers, (Tied(values, k) - {k}) * peers;
      assert Less(values, k) * (peers - {j}) == less - {j};
      assert (Tied(values, k) - {k}) * (peers - {j}) == tied - {j};
      CountWithout(less, j);
      CountWithout(tied, j);
    }
  }

  lemma CountWithout<T>(s: set<T>, x: T)
    ensures |s| as real == |s - {x}| as real + if x in s then 1.0 else 0.0
  {
    if x !in s {
      assert s - {x} == s;
    }
  }

  ghost function Total(values: Values, keys: set<nat>, peers: set<nat>): real
    requires keys <= values.Keys && peers <= values.Keys
  {
    if keys == {} then 0.0
    else var k :| k in keys; Points(values, k, peers) + Total(values, keys - {k}, peers)
  }

  lemma TotalRemove(values: Values, keys: set<nat>, peers: set<nat>, j: nat)
    requires keys <= values.Keys && peers <= values.Keys && j in keys
    ensures Total(values, keys, peers) == Points(values, j, peers) + Total(values, keys - {j}, peers)
    decreases |keys|
  {
    var i :| i in keys && Total(values, keys, peers) == Points(values, i, peers) + Total(values, keys - {i}, peers);
    if i != j {
      TotalRemove(values, keys - {i}, peers, j);
      TotalRemove(values, keys - {j}, peers, i);
      assert keys - {i} - {j} == keys - {j} - {i};
    }
  }

  /** One more peer: what everyone else wins against it, it loses. */
  lemma {:induction false} TotalAgainst(values: Values, keys: set<nat>, peers: set<nat>, j: nat)
    requires keys <= values.Keys && peers <= values.Keys && j in peers && j !in keys
    ensures Total(values, keys, peers) + Points(values, j, keys) == Total(values, keys, peers - {j}) + |keys| as real
    decreases |keys|
  {
    if keys != {} {
      var k :| k in keys;
      TotalRemove(values, keys, peers, k);
      TotalRemove(values, keys, peers - {j}, k);
      PointsRemove(values, k, peers, j);
      PointsRemove(values, j, keys, k);
      TotalAgainst(values, keys - {k}, peers, j);
      assert Beats(values, k, j) + Beats(values, j, k) == 1.0;
    }
  }

  lemma {:induction false} AllPoints(values: Values, keys: set<nat>)
    requires keys <= values.Keys
    ensures Total(values, keys, keys) == (|keys| * (|keys| - 1)) as real / 2.0
    decreases |keys|
  {
    if keys != {} {
      var j :| j in keys;
      var rest := keys - {j};
      AllPoints(values, rest);
      TotalRemove(values, keys, keys, j);
      TotalAgainst(values, rest, keys, j);
      PointsRemove(values, j, keys, j);
      var n := |rest|;
      assert |keys| == n + 1;
      assert (n + 1) * n == n * (n - 1) + 2 * n;
    }
  }

  ghost function Sum(scores: map<nat, real>, keys: set<nat>): real
    requires keys <= scores.Keys
  {
    if keys == {} then 0.0
    else var k :| k in keys; scores[k] + Sum(scores, keys - {k})
  }

  lemma {:induction false} SumIsTotal(values: Values, keys: set<nat>)
    requires keys <= values.Keys && |values| >= 2
    ensures Sum(Midranks(values), keys) == 100.0 * Total(values, keys, values.Keys) / (|values| - 1) as real
    decreases |keys|
  {
    hide Midrank, Points;
    if keys != {} {
      var k :| k in keys && Sum(Midranks(values), keys) == Midranks(values)[k] + Sum(Midranks(values), keys - {k});
      SumIsTotal(values, keys - {k});
      TotalRemove(values, keys, values.Keys, k);
      MidrankIsPoints(values, k);
      AddScaled(Points(values, k, values.Keys), Total(values, keys - {k}, values.Keys), (|values| - 1) as real);
    }
  }

  lemma MidrankIsPoints(values: Values, k: nat)
    requires k in values && |values| >= 2
    ensures Midrank(values, k) == 100.0 * Points(values, k, values.Keys) / (|values| - 1) as real
  {
    hide Points;
    PointsCount(values, k, values.Keys);
    TiedCounts(values, k);
    hide Less, Tied;
  }

  lemma TiedCounts(values: Values, k: nat)
    requires k in values
    ensures Less(values, k) * values.Keys == Less(values, k)
    ensures |(Tied(values, k) - {k}) * values.Keys| == |Tied(values, k)| - 1
  {
    assert (Tied(values, k) - {k}) * values.Keys == Tied(values, k) - {k};
    assert k in Tied(values, k);
  }

  lemma AddScaled(p: real, t: real, d: real)
    requires d > 0.0
    ensures 100.0 * p / d + 100.0 * t / d == 100.0 * (p + t) / d
  {
  }

  /** Whatever the values, the percentiles of n peers sum to 50 n. */
  lemma SumIsFiftyEach(values: Values)
    ensures Sum(Midranks(values), values.Keys) == 50.0 * |values| as real
  {
    assert |values| == |values.Keys|;
    if |values| == 1 {
      var k :| k in values.Keys;
      assert values.Keys - {k} == {} by { assert |values.Keys - {k}| == 0; }
      assert forall j :: j in values ==> j == k;
    } else if |values| >= 2 {
      SumIsTotal(values, values.Keys);
      AllPoints(values, values.Keys);
      var n := |values|;
      Halves(n);
    }
  }

  lemma Halves(n: nat)
    requires n >= 2
    ensures 100.0 * ((n * (n - 1)) as real / 2.0) / (n - 1) as real == 50.0 * n as real
  {
    var d := (n - 1) as real;
    assert (n * (n - 1)) as real == n as real * d;
    assert 100.0 * (n as real * d / 2.0) == (50.0 * n as real) * d;
  }
}
