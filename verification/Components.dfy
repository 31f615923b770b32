/**
 Component scoring: each asset's strongest ready candidate, midrank percentiles across the
 cross-section, ranks, confluence of the four components, and the published row order.
 */
module Components {
  import opened Prelude
  import opened Ranking
  import opened Allocation
  import AllocationProperties
  import Percentiles

  /** A candidate input: ready with a value, or not usable. */
  type Candidate = Option<real>

  datatype Feature = Feature(asset: nat, decisionAt: int, identityOk: bool, candidates: map<Component, seq<Candidate>>, originals: seq<Original>)

  /** The feature rows of one generation, one an asset. */
  type Features = map<nat, Feature>

  predicate ValidFeatures(features: Features) {
    forall a :: a in features ==> features[a].asset == a && forall c :: c != Confluence ==> c in features[a].candidates
  }

  function Strength(name: Component, value: real): real {
    if name == Activity || value >= 0.0 then value else -value
  }

  /** The best of the ready candidates, if any is ready. */
  function Strongest(name: Component, candidates: seq<Candidate>): (best: Option<real>)
    ensures best.None? <==> forall i :: 0 <= i < |candidates| ==> candidates[i].None?
    ensures best.Some? ==>
      && (exists i :: 0 <= i < |candidates| && candidates[i].Some? && best.value == Strength(name, candidates[i].value))
      && (forall i :: 0 <= i < |candidates| && candidates[i].Some? ==> Strength(name, candidates[i].value) <= best.value)
  {
    if candidates == [] then None
    else
      var last := candidates[|candidates| - 1];
      var before := Strongest(name, candidates[..|candidates| - 1]);
      if last.None? || (before.Some? && Strength(name, last.value) <= before.value) then before
      else Some(Strength(name, last.value))
  }

  function RawOf(f: Feature, name: Component): Option<real>
    requires name in f.candidates
  {
    if f.identityOk then Strongest(name, f.candidates[name]) else None
  }

  /** The raw values the component is scored on. */
  function Raw(features: Features, name: Component): map<nat, real>
    requires ValidFeatures(features) && name != Confluence
  {
    map a | a in features && RawOf(features[a], name).Some? :: RawOf(features[a], name).value
  }

  function BaseScores(features: Features, name: Component, minimumPeers: nat): map<nat, real>
    requires ValidFeatures(features) && name != Confluence
  {
    var raw := Raw(features, name);
    if |raw| >= minimumPeers then Percentiles.Midranks(raw) else map[]
  }

  function Scores(features: Features, name: Component, minimumPeers: nat): map<nat, real>
    requires ValidFeatures(features)
  {
    if name != Confluence then BaseScores(features, name, minimumPeers)
    else
      var m, v := BaseScores(features, Movement, minimumPeers), BaseScores(features, Activity, minimumPeers);
      var p, d := BaseScores(features, Positioning, minimumPeers), BaseScores(features, Dislocation, minimumPeers);
      map a | a in m && a in v && a in p && a in d :: (m[a] + v[a] + p[a] + d[a]) / 4.0
  }

  predicate ScoreBefore(scores: map<nat, real>, a: nat, b: nat) {
    a in scores && b in scores && (scores[a] > scores[b] || (scores[a] == scores[b] && a < b))
  }

  function ScoreOrder(scores: map<nat, real>): (nat, nat) -> bool {
    (a: nat, b: nat) => ScoreBefore(scores, a, b)
  }

  lemma ScoreOrderStrict(scores: map<nat, real>)
    ensures StrictOrder(scores.Keys, ScoreOrder(scores))
  {
  }

  ghost function RankIn(scores: map<nat, real>, a: nat): nat {
    |Before(scores.Keys, ScoreOrder(scores), a)| + 1
  }

  /** Number the scored assets, best first. */
  method RankScores(scores: map<nat, real>) returns (ranks: map<nat, nat>)
    ensures ranks.Keys == scores.Keys
    ensures forall a :: a in scores ==> ranks[a] == RankIn(scores, a)
  {
    ScoreOrderStrict(scores);
    var listed := Sort(scores.Keys, ScoreOrder(scores));
    ranks := map[];
    var i := 0;
    while i < |listed|
      invariant 0 <= i <= |listed|
      invariant forall j :: 0 <= j < i ==> listed[j] in ranks
      invariant forall a :: a in ranks ==> a in scores && ranks[a] == RankIn(scores, a)
    {
      IndexIsRank(scores.Keys, ScoreOrder(scores), listed, i);
      ranks := ranks[listed[i] := i + 1];
      i := i + 1;
    }
    assert forall a :: a in scores ==> a in ToSet(listed);
  }

  ghost function ReadingIn(scores: map<nat, real>, a: nat): Reading {
    if a in scores then Ranked(scores[a], RankIn(scores, a)) else Unready
  }

  ghost predicate ReadingIs(features: Features, minimumPeers: nat, row: Row, c: Component)
    requires ValidFeatures(features)
  {
    c in row.readings && row.readings[c] == ReadingIn(Scores(features, c, minimumPeers), row.asset)
  }

  /** A row carries its asset's reading of every component. */
  ghost predicate ReadingsAre(features: Features, minimumPeers: nat, row: Row)
    requires ValidFeatures(features)
  {
    && ReadingIs(features, minimumPeers, row, Movement) && ReadingIs(features, minimumPeers, row, Activity)
    && ReadingIs(features, minimumPeers, row, Positioning) && ReadingIs(features, minimumPeers, row, Dislocation)
    && ReadingIs(features, minimumPeers, row, Confluence)
  }

  lemma ReadingOf(features: Features, minimumPeers: nat, row: Row, c: Component)
    requires ValidFeatures(features) && ReadingsAre(features, minimumPeers, row)
    ensures ReadingIs(features, minimumPeers, row, c)
  {
  }

  /** Higher scores go first, missing ones last. */
  predicate Ahead(x: Reading, y: Reading) {
    x.Ranked? && (y.Unready? || x.score > y.score)
  }

  predicate Level(x: Reading, y: Reading) {
    !Ahead(x, y) && !Ahead(y, x)
  }

  function ReadingAt(row: Row, c: Component): Reading {
    if c in row.readings then row.readings[c] else Unready
  }

  /** The published order: confluence, then movement, then activity, then asset id. */
  predicate PublishedBefore(a: Row, b: Row) {
    AheadIn(a, b, [Confluence, Movement, Activity])
  }

  predicate AheadIn(a: Row, b: Row, keys: seq<Component>) {
    if keys == [] then a.asset < b.asset
    else
      || Ahead(ReadingAt(a, keys[0]), ReadingAt(b, keys[0]))
      || (Level(ReadingAt(a, keys[0]), ReadingAt(b, keys[0])) && AheadIn(a, b, keys[1..]))
  }

  lemma {:induction false} AheadInOrders(a: Row, b: Row, c: Row, keys: seq<Component>)
    ensures !AheadIn(a, a, keys)
    ensures AheadIn(a, b, keys) && AheadIn(b, c, keys) ==> AheadIn(a, c, keys)
    ensures a.asset != b.asset ==> AheadIn(a, b, keys) || AheadIn(b, a, keys)
  {
    if keys != [] {
      AheadInOrders(a, b, c, keys[1..]);
    }
  }

  function PublishedOrder(rows: map<nat, Row>): (nat, nat) -> bool {
    (a: nat, b: nat) => a in rows && b in rows && PublishedBefore(rows[a], rows[b])
  }

  lemma PublishedOrderStrict(rows: map<nat, Row>)
    requires forall a :: a in rows ==> rows[a].asset == a
    ensures StrictOrder(rows.Keys, PublishedOrder(rows))
  {
    forall a, b, c | a in rows && b in rows && c in rows
      ensures !PublishedBefore(rows[a], rows[a])
      ensures PublishedBefore(rows[a], rows[b]) && PublishedBefore(rows[b], rows[c]) ==> PublishedBefore(rows[a], rows[c])
      ensures a != b ==> PublishedBefore(rows[a], rows[b]) || PublishedBefore(rows[b], rows[a])
    {
      AheadInOrders(rows[a], rows[b], rows[c], [Confluence, Movement, Activity]);
    }
  }

  datatype Clock = Clock(decisionAt: int, rankingCutoff: int, mapVersion: string, policyVersion: string)

  function StatusOf(rows: seq<Row>): ResponseStatus {
    if rows != [] && forall r :: r in rows ==> ReadingAt(r, Confluence).Ranked? then Ready
    else if exists r :: r in rows && AnyBaseReady(r) then Partial
    else Unavailable
  }

  predicate AnyBaseReady(r: Row) {
    || ReadingAt(r, Movement).Ranked? || ReadingAt(r, Activity).Ranked?
    || ReadingAt(r, Positioning).Ranked? || ReadingAt(r, Dislocation).Ranked?
  }

  /** A response that scoring these features publishes. */
  ghost predicate IsScored(features: Features, minimumPeers: nat, clock: Clock, r: Response)
    requires ValidFeatures(features)
  {
    && r.decisionAt == clock.decisionAt && r.mapVersion == clock.mapVersion && r.scorePolicy == clock.policyVersion
    && r.status == StatusOf(r.rows)
    && RowsFor(features, minimumPeers, clock, r.rows)
    && InPublishedOrder(r.rows)
  }

  /** The rows are the features' rows, one each, in some order. */
  ghost predicate RowsFor(features: Features, minimumPeers: nat, clock: Clock, rows: seq<Row>)
    requires ValidFeatures(features)
  {
    && |rows| == |features|
    && (forall a :: a in features ==> HasRow(features[a], clock, rows))
    && (forall i :: 0 <= i < |rows| ==>
          && rows[i].asset in features && RowFor(features[rows[i].asset], clock, rows[i])
          && ReadingsAre(features, minimumPeers, rows[i]))
  }

  predicate HasRow(f: Feature, clock: Clock, rows: seq<Row>) {
    exists i :: 0 <= i < |rows| && RowFor(f, clock, rows[i])
  }

  predicate InPublishedOrder(rows: seq<Row>) {
    forall i, j :: 0 <= i < j < |rows| ==> rows[i].asset != rows[j].asset && PublishedBefore(rows[i], rows[j])
  }

  predicate RowFor(f: Feature, clock: Clock, row: Row) {
    row.asset == f.asset && row.identityOk == f.identityOk && row.originals == f.originals && row.dataAsOf == clock.rankingCutoff
  }

  /** Score one component: gather the raw values, then rank them if there are enough peers. */
  method ScoreComponent(features: Features, name: Component, minimumPeers: nat) returns (scores: map<nat, real>)
    requires ValidFeatures(features) && name != Confluence && minimumPeers >= 1
    ensures scores == BaseScores(features, name, minimumPeers)
  {
    var raw := GatherRaw(features, name);
    scores := map[];
    if |raw| >= minimumPeers {
      var result := Percentiles.MidrankPercentiles(raw, minimumPeers);
      scores := result.scores;
    }
  }

  method GatherRaw(features: Features, name: Component) returns (raw: map<nat, real>)
    requires ValidFeatures(features) && name != Confluence
    ensures raw == Raw(features, name)
  {
    hide RawOf;
    raw := map[];
    var todo := features.Keys;
    while todo != {}
      invariant todo <= features.Keys
      invariant raw == map a | a in features && a !in todo && RawOf(features[a], name).Some? :: RawOf(features[a], name).value
      decreases todo
    {
      var a :| a in todo;
      var value := RawOf(features[a], name);
      if value.Some? {
        raw := raw[a := value.value];
      }
      todo := todo - {a};
    }
  }

  method ReadComponent(features: Features, scores: map<nat, real>) returns (readings: map<nat, Reading>)
    requires ValidFeatures(features)
    ensures readings == map a | a in features :: ReadingIn(scores, a)
  {
    var ranks := RankScores(scores);
    hide RankIn;
    readings := map a | a in features :: if a in scores then Ranked(scores[a], ranks[a]) else Unready;
  }

  /** Score a generation; duplicate assets are refused. */
  predicate Repeats(rows: seq<Feature>) {
    exists i, j :: 0 <= i < j < |rows| && rows[i].asset == rows[j].asset
  }

  method ScoreAttention(rows: seq<Feature>, minimumPeers: nat, clock: Clock) returns (r: Option<Response>)
    requires minimumPeers >= 1 && forall f, c :: f in rows && c != Confluence ==> c in f.candidates
    ensures r.None? <==> Repeats(rows) || exists f :: f in rows && f.decisionAt != clock.decisionAt
    ensures r.Some? ==> ValidFeatures(FeatureMap(rows)) && FeatureMap(rows).Keys == set f | f in rows :: f.asset
    ensures r.Some? ==> IsScored(FeatureMap(rows), minimumPeers, clock, r.value)
  {
    hide IsScored;
    var features: Features := map[];
    var i := 0;
    while i < |rows|
      invariant 0 <= i <= |rows|
      invariant features == FeatureMap(rows[..i])
      invariant forall j, k :: 0 <= j < k < i ==> rows[j].asset != rows[k].asset
      invariant forall a :: a in features ==> features[a] in rows && features[a].asset == a
      invariant features.Keys == set j | 0 <= j < i :: rows[j].asset
    {
      if rows[i].asset in features {
        var j :| 0 <= j < i && rows[j].asset == rows[i].asset;
        assert Repeats(rows);
        return None;
      }
      assert rows[..i + 1][..i] == rows[..i];
      features := features[rows[i].asset := rows[i]];
      i := i + 1;
    }
    assert rows[..i] == rows;
    if exists f :: f in rows && f.decisionAt != clock.decisionAt {
      return None;
    }
    var response := ScoreFeatures(features, minimumPeers, clock);
    r := Some(response);
  }

  function FeatureMap(rows: seq<Feature>): Features {
    if rows == [] then map[]
    else FeatureMap(rows[..|rows| - 1])[rows[|rows| - 1].asset := rows[|rows| - 1]]
  }

  method ScoreFeatures(features: Features, minimumPeers: nat, clock: Clock) returns (r: Response)
    requires ValidFeatures(features) && minimumPeers >= 1
    ensures IsScored(features, minimumPeers, clock, r)
  {
    hide BaseScores, ReadingsAre, RowFor, IsScored, ValidFeatures;
    var m := ScoreComponent(features, Movement, minimumPeers);
    var v := ScoreComponent(features, Activity, minimumPeers);
    var p := ScoreComponent(features, Positioning, minimumPeers);
    var d := ScoreComponent(features, Dislocation, minimumPeers);
    var c := map a | a in m && a in v && a in p && a in d :: (m[a] + v[a] + p[a] + d[a]) / 4.0;
    var rows := ReadRows(features, minimumPeers, clock, m, v, p, d, c);
    r := Publish(features, minimumPeers, clock, rows);
  }

  method ReadRows(features: Features, minimumPeers: nat, clock: Clock, m: map<nat, real>, v: map<nat, real>, p: map<nat, real>, d: map<nat, real>, c: map<nat, real>)
    returns (rows: map<nat, Row>)
    requires ValidFeatures(features)
    requires m == Scores(features, Movement, minimumPeers) && v == Scores(features, Activity, minimumPeers)
    requires p == Scores(features, Positioning, minimumPeers) && d == Scores(features, Dislocation, minimumPeers)
    requires c == Scores(features, Confluence, minimumPeers)
    ensures rows.Keys == features.Keys
    ensures forall a :: a in features ==> RowFor(features[a], clock, rows[a]) && ReadingsAre(features, minimumPeers, rows[a])
  {
    hide Scores, ReadingIn;
    var movement := ReadComponent(features, m);
    var activity := ReadComponent(features, v);
    var positioning := ReadComponent(features, p);
    var dislocation := ReadComponent(features, d);
    var confluence := ReadComponent(features, c);
    rows := map a | a in features :: MakeRow(features[a], clock, movement[a], activity[a], positioning[a], dislocation[a], confluence[a]);
    hide MakeRow, RowFor, ReadingsAre;
    forall a | a in features ensures RowFor(features[a], clock, rows[a]) && ReadingsAre(features, minimumPeers, rows[a]) {
      RowMade(features, minimumPeers, clock, a);
    }
  }

  function MakeRow(f: Feature, clock: Clock, m: Reading, v: Reading, p: Reading, d: Reading, c: Reading): Row {
    Row(f.asset, f.identityOk, clock.rankingCutoff,
        map[Movement := m, Activity := v, Positioning := p, Dislocation := d, Confluence := c], f.originals)
  }

  lemma RowMade(features: Features, minimumPeers: nat, clock: Clock, a: nat)
    requires ValidFeatures(features) && a in features
    ensures var row := MakeRow(features[a], clock,
        ReadingIn(Scores(features, Movement, minimumPeers), a), ReadingIn(Scores(features, Activity, minimumPeers), a),
        ReadingIn(Scores(features, Positioning, minimumPeers), a), ReadingIn(Scores(features, Dislocation, minimumPeers), a),
        ReadingIn(Scores(features, Confluence, minimumPeers), a));
      RowFor(features[a], clock, row) && ReadingsAre(features, minimumPeers, row)
  {
    hide Scores, ReadingIn;
  }

  /** Sort the rows into the published order. */
  method Publish(features: Features, minimumPeers: nat, clock: Clock, rows: map<nat, Row>) returns (r: Response)
    requires ValidFeatures(features)
    requires rows.Keys == features.Keys
    requires forall a :: a in features ==> RowFor(features[a], clock, rows[a]) && ReadingsAre(features, minimumPeers, rows[a])
    ensures IsScored(features, minimumPeers, clock, r)
  {
    hide PublishedBefore, ReadingsAre;
    var listed := SortRows(rows);
    var published := seq(|listed|, i requires 0 <= i < |listed| => if listed[i] in rows then rows[listed[i]] else Row(0, false, 0, map[], []));
    assert |features| == |features.Keys|;
    PublishedRows(features, minimumPeers, clock, rows, listed, published);
    hide *;
    assert IsScored(features, minimumPeers, clock, Response(clock.decisionAt, StatusOf(published), clock.mapVersion, clock.policyVersion, published))
      by { ScoredParts(features, minimumPeers, clock, published); }
    r := Response(clock.decisionAt, StatusOf(published), clock.mapVersion, clock.policyVersion, published);
  }

  lemma ScoredParts(features: Features, minimumPeers: nat, clock: Clock, rows: seq<Row>)
    requires ValidFeatures(features) && RowsFor(features, minimumPeers, clock, rows) && InPublishedOrder(rows)
    ensures IsScored(features, minimumPeers, clock, Response(clock.decisionAt, StatusOf(rows), clock.mapVersion, clock.policyVersion, rows))
  {
  }

  method SortRows(rows: map<nat, Row>) returns (listed: seq<nat>)
    requires forall a :: a in rows ==> rows[a].asset == a
    ensures Listing(rows.Keys, PublishedOrder(rows), listed) && |listed| == |rows|
  {
    PublishedOrderStrict(rows);
    listed := Sort(rows.Keys, PublishedOrder(rows));
    assert |rows| == |rows.Keys|;
  }

  lemma PublishedRows(features: Features, minimumPeers: nat, clock: Clock, rows: map<nat, Row>, listed: seq<nat>, published: seq<Row>)
    requires ValidFeatures(features)
    requires rows.Keys == features.Keys
    requires forall a :: a in features ==> RowFor(features[a], clock, rows[a]) && ReadingsAre(features, minimumPeers, rows[a])
    requires Listing(rows.Keys, PublishedOrder(rows), listed) && |listed| == |features| == |published|
    requires forall i :: 0 <= i < |listed| && listed[i] in rows ==> published[i] == rows[listed[i]]
    ensures RowsFor(features, minimumPeers, clock, published) && InPublishedOrder(published)
  {
    hide PublishedBefore, ReadingsAre;
    assert forall i :: 0 <= i < |listed| ==> listed[i] in ToSet(listed);
    assert forall i :: 0 <= i < |published| ==> published[i] == rows[listed[i]] && published[i].asset == listed[i];
    forall a | a in features ensures HasRow(features[a], clock, published) {
      assert a in ToSet(listed);
      var i :| 0 <= i < |listed| && listed[i] == a;
      assert RowFor(features[a], clock, published[i]);
    }
    PublishedSorted(rows, listed, published);
    hide InPublishedOrder, Listing, PublishedOrder;
  }

  lemma PublishedSorted(rows: map<nat, Row>, listed: seq<nat>, published: seq<Row>)
    requires Sorted(listed, PublishedOrder(rows)) && |listed| == |published|
    requires forall i :: 0 <= i < |listed| ==> listed[i] in rows && published[i] == rows[listed[i]] && published[i].asset == listed[i]
    ensures InPublishedOrder(published)
  {
    hide PublishedBefore;
    forall i, j | 0 <= i < j < |published| ensures published[i].asset != published[j].asset && PublishedBefore(published[i], published[j]) {
      assert PublishedOrder(rows)(listed[i], listed[j]);
      NeverBeforeItself(published[i]);
    }
  }

  lemma NeverBeforeItself(row: Row)
    ensures !PublishedBefore(row, row)
  {
    AheadInOrders(row, row, row, [Confluence, Movement, Activity]);
  }

  // ----- what a scored response promises -----

  /** A component with enough peers ranks its assets by their raw values, ties by asset id. */
  lemma RankIsRawOrder(features: Features, name: Component, minimumPeers: nat, a: nat, b: nat)
    requires ValidFeatures(features) && name != Confluence
    requires var scores := Scores(features, name, minimumPeers); a in scores && b in scores && a != b
    ensures var raw := Raw(features, name);
      && a in raw && b in raw
      && (RankIn(Scores(features, name, minimumPeers), a) < RankIn(Scores(features, name, minimumPeers), b)
          <==> raw[a] > raw[b] || (raw[a] == raw[b] && a < b))
  {
    var scores, raw := Scores(features, name, minimumPeers), Raw(features, name);
    assert scores == Percentiles.Midranks(raw);
    Percentiles.OrderPreserved(raw, a, b);
    Percentiles.OrderPreserved(raw, b, a);
    hide Percentiles.Midrank, Raw, Scores, RankIn;
    if ScoreBefore(scores, a, b) {
      RankByOrder(scores, a, b);
    } else {
      RankByOrder(scores, b, a);
    }
  }

  lemma RankByOrder(scores: map<nat, real>, a: nat, b: nat)
    requires ScoreBefore(scores, a, b)
    ensures RankIn(scores, a) < RankIn(scores, b)
  {
    var s, order := scores.Keys, ScoreOrder(scores);
    ScoreOrderStrict(scores);
    assert Before(s, order, a) <= Before(s, order, b) - {a};
    SmallerSubset(Before(s, order, a), Before(s, order, b) - {a});
  }

  /** Every published score is a percentile. */
  lemma ScoresBounded(features: Features, c: Component, minimumPeers: nat, a: nat)
    requires ValidFeatures(features) && a in Scores(features, c, minimumPeers)
    ensures 0.0 <= Scores(features, c, minimumPeers)[a] <= 100.0
  {
    if c != Confluence {
      Percentiles.Bounded(Raw(features, c), a);
    } else {
      Percentiles.Bounded(Raw(features, Movement), a);
      Percentiles.Bounded(Raw(features, Activity), a);
      Percentiles.Bounded(Raw(features, Positioning), a);
      Percentiles.Bounded(Raw(features, Dislocation), a);
    }
  }

  /** An asset scored in any component has an eligible identity. */
  lemma ScoredIsEligible(features: Features, c: Component, minimumPeers: nat, a: nat)
    requires ValidFeatures(features) && a in Scores(features, c, minimumPeers)
    ensures a in features && features[a].identityOk
  {
  }

  /** Confluence-ready rows lead the published order, in the order of their ranks. */
  lemma ConfluenceLeads(features: Features, minimumPeers: nat, clock: Clock, r: Response, i: nat, j: nat)
    requires ValidFeatures(features) && IsScored(features, minimumPeers, clock, r) && i < j < |r.rows|
    ensures ReadingAt(r.rows[j], Confluence).Ranked? ==>
      ReadingAt(r.rows[i], Confluence).Ranked? && r.rows[i].readings[Confluence].score >= r.rows[j].readings[Confluence].score
  {
    hide ReadingsAre, RowsFor, StatusOf;
    assert PublishedBefore(r.rows[i], r.rows[j]);
  }

  /**
   Whatever is scored, an allocator's eligible ranks are exactly the positions of its score
   order, for every component: eligibility cannot punch a hole into the ranks.
   */
  lemma ScoredRanksAgree(features: Features, minimumPeers: nat, clock: Clock, r: Response, policy: Policy, previous: Option<Allocation>)
    requires ValidFeatures(features) && IsScored(features, minimumPeers, clock, r)
    requires previous.Some? ==> ValidAllocation(previous.value)
    ensures ValidResponse(r)
    ensures var c := ChoiceOf(r, policy, previous);
      forall a :: a in c.eligible ==> c.Rank(a) == |Before(c.eligible.Keys, c.BetterOrder(), a)| + 1
  {
    var scores := Scores(features, policy.component, minimumPeers);
    EligibleScores(features, minimumPeers, clock, r, policy);
    var c := ChoiceOf(r, policy, previous);
    hide Scores, IsScored, Eligible, ChoiceOf, ValidResponse;
    if c.eligible != map[] {
      RanksFromScores(c, scores);
    }
  }

  lemma RanksFromScores(c: Choice, scores: map<nat, real>)
    requires c.eligible.Keys == scores.Keys
    requires ReadAs(c.eligible, c.policy.component, scores)
    ensures forall a :: a in c.eligible ==> c.Rank(a) == |Before(c.eligible.Keys, c.BetterOrder(), a)| + 1
  {
    forall a | a in c.eligible ensures c.Rank(a) == |Before(c.eligible.Keys, c.BetterOrder(), a)| + 1 {
      SameBefore(c, scores, a);
    }
  }

  lemma SameBefore(c: Choice, scores: map<nat, real>, a: nat)
    requires c.eligible.Keys == scores.Keys && ReadAs(c.eligible, c.policy.component, scores) && a in scores
    ensures Before(c.eligible.Keys, c.BetterOrder(), a) == Before(scores.Keys, ScoreOrder(scores), a)
    ensures c.Rank(a) == RankIn(scores, a)
  {
    assert forall b :: b in scores ==> c.Score(b) == scores[b];
    hide RankIn, ReadAs;
  }

  /** Either nothing is eligible or every scored asset is, with the scores as read. */
  lemma EligibleScores(features: Features, minimumPeers: nat, clock: Clock, r: Response, policy: Policy)
    requires ValidFeatures(features) && IsScored(features, minimumPeers, clock, r)
    ensures ValidResponse(r)
    ensures var eligible := Eligible(r, policy);
      var scores := Scores(features, policy.component, minimumPeers);
      eligible == map[] || (eligible.Keys == scores.Keys && ReadAs(eligible, policy.component, scores))
  {
    ScoredShape(features, minimumPeers, clock, r);
    var scores := Scores(features, policy.component, minimumPeers);
    RowsRead(features, minimumPeers, clock, r.rows, policy.component);
    forall a | a in scores ensures a in features && features[a].identityOk {
      ScoredIsEligible(features, policy.component, minimumPeers, a);
    }
    hide *;
    EligibleAll(r, policy, features, clock, scores);
  }

  /** Rows by asset: every feature has one, read as scored and all equally fresh. */
  ghost predicate RowsAs(rows: map<nat, Row>, features: Features, clock: Clock, c: Component, scores: map<nat, real>) {
    && rows.Keys == features.Keys
    && forall a :: a in rows ==>
         && rows[a].identityOk == features[a].identityOk && rows[a].dataAsOf == clock.rankingCutoff
         && c in rows[a].readings && rows[a].readings[c] == ReadingIn(scores, a)
  }

  lemma RowsRead(features: Features, minimumPeers: nat, clock: Clock, rows: seq<Row>, c: Component)
    requires ValidFeatures(features) && RowsFor(features, minimumPeers, clock, rows)
    requires forall i, j :: 0 <= i < j < |rows| ==> rows[i].asset != rows[j].asset
    ensures RowsAs(RowMap(rows), features, clock, c, Scores(features, c, minimumPeers))
  {
    hide RowMap, Scores, ReadingIn, ReadingsAre, ReadingIs;
    var m := RowMap(rows);
    forall a | a in m
      ensures a in features && RowFor(features[a], clock, m[a]) && ReadingIs(features, minimumPeers, m[a], c)
    {
      var i :| 0 <= i < |rows| && rows[i] == m[a];
      ReadingOf(features, minimumPeers, rows[i], c);
    }
    forall a | a in features ensures a in m {
      assert HasRow(features[a], clock, rows);
      var i :| 0 <= i < |rows| && RowFor(features[a], clock, rows[i]);
    }
    RowsAgree(m, features, minimumPeers, clock, c);
  }

  lemma RowsAgree(m: map<nat, Row>, features: Features, minimumPeers: nat, clock: Clock, c: Component)
    requires ValidFeatures(features) && m.Keys == features.Keys
    requires forall a :: a in m ==> RowFor(features[a], clock, m[a]) && ReadingIs(features, minimumPeers, m[a], c)
    ensures RowsAs(m, features, clock, c, Scores(features, c, minimumPeers))
  {
  }

  lemma EligibleAll(r: Response, policy: Policy, features: Features, clock: Clock, scores: map<nat, real>)
    requires ValidResponse(r) && RowsAs(RowMap(r.rows), features, clock, policy.component, scores)
    requires forall a :: a in scores ==> a in features && features[a].identityOk
    ensures var eligible := Eligible(r, policy);
      eligible == map[] || (eligible.Keys == scores.Keys && ReadAs(eligible, policy.component, scores))
  {
    hide RowMap, RankIn, ValidResponse;
  }

  ghost predicate ReadAs(eligible: map<nat, Row>, c: Component, scores: map<nat, real>) {
    forall a :: a in eligible ==> a in scores && c in eligible[a].readings && eligible[a].readings[c] == Ranked(scores[a], RankIn(scores, a))
  }

  lemma ScoredShape(features: Features, minimumPeers: nat, clock: Clock, r: Response)
    requires ValidFeatures(features) && IsScored(features, minimumPeers, clock, r)
    ensures ValidResponse(r)
  {
    hide PublishedBefore, StatusOf, Scores;
    forall i, c: Component | 0 <= i < |r.rows| ensures c in r.rows[i].readings {
      ReadingOf(features, minimumPeers, r.rows[i], c);
    }
  }

  /** On any scored response, hysteresis without buffer and hold chooses the top k. */
  lemma ScoredHysteresisIsTopK(features: Features, minimumPeers: nat, clock: Clock, r: Response, policy: Policy, previous: Option<Allocation>)
    requires ValidFeatures(features) && IsScored(features, minimumPeers, clock, r) && ValidPolicy(policy)
    requires policy.buffer == 0 && policy.minimumHoldMinutes == 0
    requires previous.Some? ==> ValidAllocation(previous.value)
    ensures ValidResponse(r)
    ensures HysteresisChoice(ChoiceOf(r, policy, previous)) == TopChoice(ChoiceOf(r, policy, previous))
  {
    ScoredRanksAgree(features, minimumPeers, clock, r, policy, previous);
    ChoiceValid(r, policy, previous);
    AllocationProperties.PlainHysteresisIsTopK(ChoiceOf(r, policy, previous));
  }
}
