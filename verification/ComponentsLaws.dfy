/** What the published readings say, row by row and candidate by candidate. */
module ComponentsLaws {
  import opened Prelude
  import opened Allocation
  import opened Components
  import Percentiles

  /** An eligible asset with a ready candidate. */
  predicate Usable(f: Feature, name: Component)
    requires name in f.candidates
  {
    f.identityOk && exists i :: 0 <= i < |f.candidates[name]| && f.candidates[name][i].Some?
  }

  function UsableAssets(features: Features, name: Component): set<nat>
    requires ValidFeatures(features) && name != Confluence
  {
    set a | a in features && Usable(features[a], name)
  }

  lemma RawAreUsable(features: Features, name: Component)
    requires ValidFeatures(features) && name != Confluence
    ensures Raw(features, name).Keys == UsableAssets(features, name)
  {
    forall a ensures a in Raw(features, name) <==> a in UsableAssets(features, name) {
    }
  }

  /** A base component is scored exactly for usable assets, and only if there are enough of them. */
  lemma ScoredIffUsable(features: Features, name: Component, minimumPeers: nat, a: nat)
    requires ValidFeatures(features) && name != Confluence && a in features
    ensures a in Scores(features, name, minimumPeers) <==>
      Usable(features[a], name) && |UsableAssets(features, name)| >= minimumPeers
  {
    RawAreUsable(features, name);
    var raw := Raw(features, name);
    assert |raw| == |raw.Keys|;
    hide Raw;
  }

  /** Movement, positioning and dislocation are scored on the greatest magnitude of a ready candidate. */
  lemma GreatestMagnitude(f: Feature, name: Component, best: real)
    requires name in f.candidates && name != Activity && RawOf(f, name) == Some(best)
    ensures exists i :: 0 <= i < |f.candidates[name]| && (f.candidates[name][i] == Some(best) || f.candidates[name][i] == Some(0.0 - best))
    ensures forall i :: 0 <= i < |f.candidates[name]| && f.candidates[name][i].Some? ==> 0.0 - best <= f.candidates[name][i].value <= best
  {
    var candidates := f.candidates[name];
    var i :| 0 <= i < |candidates| && candidates[i].Some? && best == Strength(name, candidates[i].value);
    assert candidates[i] == Some(best) || candidates[i] == Some(0.0 - best);
    hide Strongest;
    forall j | 0 <= j < |candidates| && candidates[j].Some? ensures 0.0 - best <= candidates[j].value <= best {
      assert Strength(name, candidates[j].value) <= best;
    }
  }

  /** Activity is scored on the greatest ready candidate itself, whatever its sign. */
  lemma GreatestActivity(f: Feature, best: real)
    requires Activity in f.candidates && RawOf(f, Activity) == Some(best)
    ensures exists i :: 0 <= i < |f.candidates[Activity]| && f.candidates[Activity][i] == Some(best)
    ensures forall i :: 0 <= i < |f.candidates[Activity]| && f.candidates[Activity][i].Some? ==> f.candidates[Activity][i].value <= best
  {
    var candidates := f.candidates[Activity];
    var i :| 0 <= i < |candidates| && candidates[i].Some? && best == Strength(Activity, candidates[i].value);
    assert candidates[i] == Some(best);
    hide Strongest;
    forall j | 0 <= j < |candidates| && candidates[j].Some? ensures candidates[j].value <= best {
      assert Strength(Activity, candidates[j].value) <= best;
    }
  }

  predicate AllBase(row: Row) {
    && ReadingAt(row, Movement).Ranked? && ReadingAt(row, Activity).Ranked?
    && ReadingAt(row, Positioning).Ranked? && ReadingAt(row, Dislocation).Ranked?
  }

  lemma ConfluenceScores(features: Features, minimumPeers: nat, a: nat)
    requires ValidFeatures(features)
    ensures var m, v := Scores(features, Movement, minimumPeers), Scores(features, Activity, minimumPeers);
      var p, d := Scores(features, Positioning, minimumPeers), Scores(features, Dislocation, minimumPeers);
      var c := Scores(features, Confluence, minimumPeers);
      && (a in c <==> a in m && a in v && a in p && a in d)
      && (a in c ==> 4.0 * c[a] == m[a] + v[a] + p[a] + d[a])
  {
    hide BaseScores, ValidFeatures;
  }

  lemma ReadAtRow(features: Features, minimumPeers: nat, row: Row, c: Component)
    requires ValidFeatures(features) && ReadingsAre(features, minimumPeers, row)
    ensures var scores := Scores(features, c, minimumPeers);
      && (ReadingAt(row, c).Ranked? <==> row.asset in scores)
      && (row.asset in scores ==> ReadingAt(row, c).score == scores[row.asset])
  {
    ReadingOf(features, minimumPeers, row, c);
    hide Scores, ReadingsAre, RankIn, ValidFeatures;
  }

  function BaseSum(row: Row): real
    requires AllBase(row)
  {
    ReadingAt(row, Movement).score + ReadingAt(row, Activity).score
    + ReadingAt(row, Positioning).score + ReadingAt(row, Dislocation).score
  }

  /** A row has confluence exactly if all four components are ready, and it is their mean. */
  lemma ConfluenceIsMean(features: Features, minimumPeers: nat, clock: Clock, r: Response, i: nat)
    requires ValidFeatures(features) && IsScored(features, minimumPeers, clock, r) && i < |r.rows|
    ensures ReadingAt(r.rows[i], Confluence).Ranked? <==> AllBase(r.rows[i])
    ensures AllBase(r.rows[i]) ==> 4.0 * ReadingAt(r.rows[i], Confluence).score == BaseSum(r.rows[i])
  {
    var row := r.rows[i];
    assert ReadingsAre(features, minimumPeers, row);
    hide IsScored, Scores, ReadingAt, ValidFeatures, ReadingsAre;
    ConfluenceScores(features, minimumPeers, row.asset);
    ReadAtRow(features, minimumPeers, row, Movement);
    ReadAtRow(features, minimumPeers, row, Activity);
    ReadAtRow(features, minimumPeers, row, Positioning);
    ReadAtRow(features, minimumPeers, row, Dislocation);
    ReadAtRow(features, minimumPeers, row, Confluence);
  }

  /** The response is ready if every row has confluence, partial if some row has any component, and unavailable otherwise. */
  lemma StatusTells(features: Features, minimumPeers: nat, clock: Clock, r: Response)
    requires ValidFeatures(features) && IsScored(features, minimumPeers, clock, r)
    ensures r.status == Ready <==> r.rows != [] && forall i :: 0 <= i < |r.rows| ==> AllBase(r.rows[i])
    ensures r.status == Unavailable <==> forall i :: 0 <= i < |r.rows| ==> !AnyBaseReady(r.rows[i])
    ensures r.status != Stale
  {
    forall i | 0 <= i < |r.rows| ensures ReadingAt(r.rows[i], Confluence).Ranked? <==> AllBase(r.rows[i]) {
      ConfluenceIsMean(features, minimumPeers, clock, r, i);
    }
    StatusMeans(r.rows, r.status);
    assert r.rows != [] ==> r.rows[0] in r.rows;
    hide IsScored, ReadingAt;
  }

  lemma StatusMeans(rows: seq<Row>, status: ResponseStatus)
    requires status == StatusOf(rows)
    requires forall i :: 0 <= i < |rows| ==> (ReadingAt(rows[i], Confluence).Ranked? <==> AllBase(rows[i]))
    ensures status == Ready <==> rows != [] && forall i :: 0 <= i < |rows| ==> AllBase(rows[i])
    ensures status == Unavailable <==> forall i :: 0 <= i < |rows| ==> !AnyBaseReady(rows[i])
    ensures status != Stale
  {
    hide ReadingAt;
    assert forall i :: 0 <= i < |rows| ==> rows[i] in rows;
    assert forall r :: r in rows ==> exists i :: 0 <= i < |rows| && rows[i] == r;
    if rows != [] && forall i :: 0 <= i < |rows| ==> AllBase(rows[i]) {
      assert AnyBaseReady(rows[0]);
    }
  }

  /** A row of its feature: asset, identity and originals as they are, data as of the ranking cutoff. */
  predicate RowOf(f: Feature, clock: Clock, row: Row) {
    row.asset == f.asset && row.identityOk == f.identityOk && row.originals == f.originals && row.dataAsOf == clock.rankingCutoff
  }

  /** x leads y by score, a missing score coming last. */
  predicate Leads(x: Reading, y: Reading) {
    (x.Ranked? && y.Unready?) || (x.Ranked? && y.Ranked? && x.score > y.score)
  }

  predicate Even(x: Reading, y: Reading) {
    (x.Unready? && y.Unready?) || (x.Ranked? && y.Ranked? && x.score == y.score)
  }

  /** Confluence decides first, then movement, then activity, then the asset id. */
  predicate ListedFirst(a: Row, b: Row) {
    || Leads(ReadingAt(a, Confluence), ReadingAt(b, Confluence))
    || (Even(ReadingAt(a, Confluence), ReadingAt(b, Confluence)) && Leads(ReadingAt(a, Movement), ReadingAt(b, Movement)))
    || (Even(ReadingAt(a, Confluence), ReadingAt(b, Confluence)) && Even(ReadingAt(a, Movement), ReadingAt(b, Movement))
        && (Leads(ReadingAt(a, Activity), ReadingAt(b, Activity))
            || (Even(ReadingAt(a, Activity), ReadingAt(b, Activity)) && a.asset < b.asset)))
  }

  /** The rows are the features' rows, one each, in published order. */
  lemma RowsAreFeatures(features: Features, minimumPeers: nat, clock: Clock, r: Response)
    requires ValidFeatures(features) && IsScored(features, minimumPeers, clock, r)
    ensures |r.rows| == |features| && r.decisionAt == clock.decisionAt
    ensures forall i :: 0 <= i < |r.rows| ==> r.rows[i].asset in features && RowOf(features[r.rows[i].asset], clock, r.rows[i])
    ensures forall i, j :: 0 <= i < j < |r.rows| ==> r.rows[i].asset != r.rows[j].asset && ListedFirst(r.rows[i], r.rows[j])
  {
    hide ReadingsAre, StatusOf, PublishedBefore, ListedFirst;
    forall i, j | 0 <= i < j < |r.rows| ensures ListedFirst(r.rows[i], r.rows[j]) {
      assert PublishedBefore(r.rows[i], r.rows[j]);
      PublishedMeans(r.rows[i], r.rows[j]);
    }
  }

  lemma PublishedMeans(a: Row, b: Row)
    ensures PublishedBefore(a, b) <==> ListedFirst(a, b)
  {
    Unfold(a, b, Activity, []);
    Unfold(a, b, Movement, [Activity]);
    Unfold(a, b, Confluence, [Movement, Activity]);
    LeadsAndEven(ReadingAt(a, Confluence), ReadingAt(b, Confluence));
    LeadsAndEven(ReadingAt(a, Movement), ReadingAt(b, Movement));
    LeadsAndEven(ReadingAt(a, Activity), ReadingAt(b, Activity));
    hide ReadingAt, Ahead, Level, Leads, Even;
    assert AheadIn(a, b, []) <==> a.asset < b.asset;
    assert [Activity] + [] == [Activity] && [Movement] + [Activity] == [Movement, Activity];
    assert [Confluence] + [Movement, Activity] == [Confluence, Movement, Activity];
  }

  lemma Unfold(a: Row, b: Row, c: Component, rest: seq<Component>)
    ensures AheadIn(a, b, [c] + rest) <==>
      Ahead(ReadingAt(a, c), ReadingAt(b, c)) || (Level(ReadingAt(a, c), ReadingAt(b, c)) && AheadIn(a, b, rest))
  {
    assert ([c] + rest)[1..] == rest;
  }

  lemma LeadsAndEven(x: Reading, y: Reading)
    ensures Ahead(x, y) <==> Leads(x, y)
    ensures Level(x, y) <==> Even(x, y)
  {
  }

  /** The best of several scores a hundred, the worst zero, if nobody ties with it. */
  lemma ExtremesScore(values: Percentiles.Values, k: nat)
    requires k in values && |values| >= 2
    ensures (forall j :: j in values && j != k ==> values[j] < values[k]) ==> Percentiles.Midrank(values, k) == 100.0
    ensures (forall j :: j in values && j != k ==> values[j] > values[k]) ==> Percentiles.Midrank(values, k) == 0.0
  {
    var n := |values|;
    assert |values.Keys| == n;
    if forall j :: j in values && j != k ==> values[j] < values[k] {
      assert Percentiles.Less(values, k) == values.Keys - {k} && Percentiles.Tied(values, k) == {k};
    }
    if forall j :: j in values && j != k ==> values[j] > values[k] {
      assert Percentiles.Less(values, k) == {} && Percentiles.Tied(values, k) == {k};
    }
  }
}
