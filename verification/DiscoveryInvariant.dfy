/**
 What every discovery operation keeps: which episodes are open and who refers to them,
 how long an episode may claim to have been observed, and that every projection table
 shows the latest response.
 */
module DiscoveryInvariant {
  import opened Prelude
  import opened Discovery

  /** An episode is named after its first cutoff and never claims unobserved time. */
  predicate EpisodeOk(id: EpisodeId, e: Episode, horizon: int) {
    && e.id == id == EpisodeId(e.policy, e.identity, e.firstCutoff)
    && e.identity.asset == e.asset
    && (e.status == Ended <==> !e.Open())
    && 0 < e.firstObservedAt
    && 1 <= e.confirmations
    && (e.confirmations - 1) * MINUTE <= e.observedMs <= e.lastCutoff - e.firstCutoff
    && e.lastCutoff <= horizon
  }

  /** A state refers to its asset's open episode, which it confirmed last if it is matched. */
  predicate StateOk(t: Tables, a: string, horizon: int)
    requires a in t.states
  {
    var s := t.states[a];
    && s.identity.asset == a
    && s.cutoff <= horizon
    && (s.interrupted <==> s.state == Unknown)
    && (s.state == Matched ==> s.episodeId.Some?)
    && (s.state == NotMatched ==> s.episodeId.None?)
    && (s.episodeId.Some? ==>
          && s.episodeId.value in t.episodes
          && var e := t.episodes[s.episodeId.value];
             && e.Open()
             && e.asset == a
             && e.identity == s.identity
             && e.policy == s.policy
             && (s.state == Matched ==> e.lastCutoff == s.cutoff))
  }

  /** Every open episode is the one its asset's state refers to. */
  predicate Owned(t: Tables, e: Episode) {
    e.Open() ==> e.asset in t.states && t.states[e.asset].episodeId == Some(e.id)
  }

  predicate Coherent(t: Tables, horizon: int) {
    && (forall id :: id in t.episodes ==> EpisodeOk(id, t.episodes[id], horizon))
    && (forall id :: id in t.episodes ==> Owned(t, t.episodes[id]))
    && (forall a :: a in t.states ==> StateOk(t, a, horizon))
  }

  ghost predicate Valid(t: Tables) {
    && Projected(t)
    && (t.latest.None? ==> t.states == map[] && t.episodes == map[])
    && (t.latest.Some? ==> Coherent(t, t.latest.value.inputs.cutoff))
  }

  predicate ValidInputs(i: Inputs) {
    0 < i.cutoff <= i.decisionAt && i.cutoff % MINUTE == 0
  }

  lemma EmptyValid()
    ensures Valid(EMPTY)
  {
  }

  /** An asset never has two open episodes. */
  lemma OneOpenEpisodePerAsset(t: Tables, i: EpisodeId, j: EpisodeId)
    requires Valid(t) && i in t.episodes && j in t.episodes
    requires t.episodes[i].Open() && t.episodes[j].Open()
    requires t.episodes[i].asset == t.episodes[j].asset
    ensures i == j
  {
    assert Owned(t, t.episodes[i]) && Owned(t, t.episodes[j]);
  }

  /** The open episodes are exactly those the states refer to. */
  lemma OpenIffReferenced(t: Tables, id: EpisodeId)
    requires Valid(t) && id in t.episodes
    ensures t.episodes[id].Open() <==> exists a :: a in t.states && t.states[a].episodeId == Some(id)
  {
    var e := t.episodes[id];
    assert EpisodeOk(id, e, t.latest.value.inputs.cutoff);
    if e.Open() {
      assert Owned(t, e);
    }
    if a :| a in t.states && t.states[a].episodeId == Some(id) {
      assert StateOk(t, a, t.latest.value.inputs.cutoff);
    }
  }

  // ----- breaking continuity -----

  lemma BrokenCoherent(t: Tables, reasons: map<string, string>, horizon: int)
    requires Coherent(t, horizon)
    ensures Coherent(Broken(t, reasons), horizon)
  {
    var b := Broken(t, reasons);
    forall id | id in b.episodes
      ensures EpisodeOk(id, b.episodes[id], horizon) && Owned(b, b.episodes[id])
    {
      assert EpisodeOk(id, t.episodes[id], horizon) && Owned(t, t.episodes[id]);
    }
    forall a | a in b.states ensures StateOk(b, a, horizon) {
      assert StateOk(t, a, horizon);
    }
  }

  // ----- evaluating a new cutoff -----

  lemma CarriedOk(t: Tables, id: EpisodeId, rows: seq<Row>, c: Context, touched: set<string>, horizon: int)
    requires Coherent(t, horizon) && id in t.episodes && horizon < c.inputs.cutoff
    ensures EpisodeOk(id, EvaluatedEpisode(t, t.episodes[id], rows, c, touched), c.inputs.cutoff)
  {
    var e := t.episodes[id];
    assert EpisodeOk(id, e, horizon) && Owned(t, e);
    if e.Open() && e.asset in touched && e.asset in t.states {
      assert StateOk(t, e.asset, horizon);
    }
  }

  /** A continued episode gains one confirmation and exactly one minute. */
  lemma ContinuingAddsOneMinute(t: Tables, row: Row, c: Context)
    requires Valid(t) && row.identity.asset == row.asset
    requires ConfirmationOf(Lookup(t.states, row.asset), row, c) == Some(Continuing)
    ensures row.asset in t.states && t.states[row.asset].episodeId.Some?
    ensures t.states[row.asset].episodeId.value in t.episodes
    ensures
      var e := t.episodes[t.states[row.asset].episodeId.value];
      var after := Carried(t.states[row.asset], e, row, c);
      && after.observedMs == e.observedMs + MINUTE
      && after.confirmations == e.confirmations + 1
      && after.lastCutoff == e.lastCutoff + MINUTE == c.inputs.cutoff
  {
    assert StateOk(t, row.asset, t.latest.value.inputs.cutoff);
  }

  lemma StartedOk(t: Tables, rows: seq<Row>, c: Context, touched: set<string>, id: EpisodeId)
    requires DistinctAssets(rows) && OwnIdentities(rows) && ValidInputs(c.inputs)
    requires id in StartedEpisodes(t, rows, c, touched)
    ensures EpisodeOk(id, StartedEpisodes(t, rows, c, touched)[id], c.inputs.cutoff)
    ensures id.cutoff == c.inputs.cutoff
  {
    var r :| r in rows && r.asset in touched && Starts(Lookup(t.states, r.asset), r, c) && NewId(r, c) == id;
    FreshIdsDistinct(rows, c);
  }

  /** Started episodes have ids no stored episode has. */
  lemma StartedFresh(t: Tables, rows: seq<Row>, c: Context, touched: set<string>, horizon: int)
    requires DistinctAssets(rows) && OwnIdentities(rows) && ValidInputs(c.inputs)
    requires Coherent(t, horizon) && horizon < c.inputs.cutoff
    ensures StartedEpisodes(t, rows, c, touched).Keys !! t.episodes.Keys
  {
    forall id | id in t.episodes ensures id !in StartedEpisodes(t, rows, c, touched) {
      assert EpisodeOk(id, t.episodes[id], horizon);
      if id in StartedEpisodes(t, rows, c, touched) {
        StartedOk(t, rows, c, touched, id);
        assert false;
      }
    }
  }

  /** The started episode of an asset is there exactly if its row starts one. */
  lemma StartedByRow(t: Tables, rows: seq<Row>, c: Context, touched: set<string>, row: Row)
    requires DistinctAssets(rows) && OwnIdentities(rows)
    requires row in rows && row.asset in touched
    ensures Starts(Lookup(t.states, row.asset), row, c) <==> NewId(row, c) in StartedEpisodes(t, rows, c, touched)
    ensures Starts(Lookup(t.states, row.asset), row, c) ==>
      StartedEpisodes(t, rows, c, touched)[NewId(row, c)] == Started(Lookup(t.states, row.asset), row, c)
  {
    FreshIdsDistinct(rows, c);
  }

  lemma EvaluatedStateOk(t: Tables, rows: seq<Row>, c: Context, horizon: int, a: string)
    requires DistinctAssets(rows) && OwnIdentities(rows) && ValidInputs(c.inputs)
    requires Coherent(t, horizon) && horizon < c.inputs.cutoff
    requires a in Touched(t, rows)
    ensures
      var after := Evaluated(t, rows, c, Touched(t, rows));
      a in after.states && StateOk(after, a, c.inputs.cutoff)
  {
    var touched := Touched(t, rows);
    StartedFresh(t, rows, c, touched, horizon);
    EvaluatedLookup(t, rows, c, touched);
    assert a in t.states ==> StateOk(t, a, horizon);
    match FindRow(rows, a)
    case Some(row) =>
      StartedByRow(t, rows, c, touched, row);
      if CarriesOn(Lookup(t.states, a), row, c) {
        CarriedStateOk(t, Evaluated(t, rows, c, touched), row, c, horizon);
      } else {
        FreshStateOk(t, Evaluated(t, rows, c, touched), row, c);
      }
    case None =>
      hide EvaluatedEpisodes, StartedEpisodes, EpisodeOk, Owned, Coherent, ValidInputs;
  }

  /** A condition that carries on keeps its state's episode, if that has one. */
  lemma CarriedStateOk(t: Tables, after: Tables, row: Row, c: Context, horizon: int)
    requires row.asset in t.states && StateOk(t, row.asset, horizon) && horizon < c.inputs.cutoff
    requires row.identity.asset == row.asset && CarriesOn(Some(t.states[row.asset]), row, c)
    requires row.asset in after.states && after.states[row.asset] == StateOf(Some(t.states[row.asset]), row, c)
    requires t.states[row.asset].episodeId.Some? ==>
      var id := t.states[row.asset].episodeId.value;
      id in after.episodes && after.episodes[id] == Carried(t.states[row.asset], t.episodes[id], row, c)
    ensures StateOk(after, row.asset, c.inputs.cutoff)
  {
  }

  /** Otherwise a matched condition refers to the episode it starts, and any other to none. */
  lemma FreshStateOk(t: Tables, after: Tables, row: Row, c: Context)
    requires row.identity.asset == row.asset && !CarriesOn(Lookup(t.states, row.asset), row, c)
    requires row.asset in after.states && after.states[row.asset] == StateOf(Lookup(t.states, row.asset), row, c)
    requires Starts(Lookup(t.states, row.asset), row, c) ==>
      NewId(row, c) in after.episodes && after.episodes[NewId(row, c)] == Started(Lookup(t.states, row.asset), row, c)
    ensures StateOk(after, row.asset, c.inputs.cutoff)
  {
  }

  lemma EvaluatedLookup(t: Tables, rows: seq<Row>, c: Context, touched: set<string>)
    requires DistinctAssets(rows) && OwnIdentities(rows)
    ensures var after, started := EvaluatedEpisodes(t, rows, c, touched), StartedEpisodes(t, rows, c, touched);
      && (forall id :: id in started ==> id in after && after[id] == started[id])
      && (forall id :: id in t.episodes && id !in started ==>
        id in after && after[id] == EvaluatedEpisode(t, t.episodes[id], rows, c, touched))
  {
  }

  lemma StartedOwned(t: Tables, rows: seq<Row>, c: Context, id: EpisodeId)
    requires DistinctAssets(rows) && OwnIdentities(rows) && ValidInputs(c.inputs)
    requires id in StartedEpisodes(t, rows, c, Touched(t, rows))
    ensures
      var after := Evaluated(t, rows, c, Touched(t, rows));
      EpisodeOk(id, after.episodes[id], c.inputs.cutoff) && Owned(after, after.episodes[id])
  {
    StartedOk(t, rows, c, Touched(t, rows), id);
    var i :| 0 <= i < |rows| && NewId(rows[i], c) == id && Starts(Lookup(t.states, rows[i].asset), rows[i], c);
    FindRowUnique(rows, i);
    StartedByRow(t, rows, c, Touched(t, rows), rows[i]);
  }

  lemma CarriedOwned(t: Tables, rows: seq<Row>, c: Context, horizon: int, id: EpisodeId)
    requires DistinctAssets(rows) && OwnIdentities(rows) && ValidInputs(c.inputs)
    requires Coherent(t, horizon) && horizon < c.inputs.cutoff
    requires id in t.episodes
    ensures
      var after := Evaluated(t, rows, c, Touched(t, rows));
      EpisodeOk(id, after.episodes[id], c.inputs.cutoff) && Owned(after, after.episodes[id])
  {
    StartedFresh(t, rows, c, Touched(t, rows), horizon);
    CarriedOk(t, id, rows, c, Touched(t, rows), horizon);
    var e := t.episodes[id];
    var after := Evaluated(t, rows, c, Touched(t, rows));
    assert EpisodeOk(id, e, horizon) && Owned(t, e);
    assert after.episodes[id] == EvaluatedEpisode(t, e, rows, c, Touched(t, rows));
    if e.Open() {
      assert StateOk(t, e.asset, horizon);
      match FindRow(rows, e.asset)
      case None => assert after.states[e.asset] == Forgotten(t.states[e.asset]);
      case Some(row) =>
        if after.episodes[id].Open() {
          StillOwned(t.states[e.asset], e, row, c);
        }
    }
  }

  /** If the asset's episode stays open, its new state still refers to it. */
  lemma StillOwned(prior: AssetState, e: Episode, row: Row, c: Context)
    requires prior.episodeId == Some(e.id) && e.Open()
    requires Carried(prior, e, row, c).Open()
    ensures StateOf(Some(prior), row, c).episodeId == Some(e.id)
  {
  }

  lemma EvaluatedCoherent(t: Tables, rows: seq<Row>, c: Context, horizon: int)
    requires DistinctAssets(rows) && OwnIdentities(rows) && ValidInputs(c.inputs)
    requires Coherent(t, horizon) && horizon < c.inputs.cutoff
    ensures Coherent(Evaluated(t, rows, c, Touched(t, rows)), c.inputs.cutoff)
  {
    var after := Evaluated(t, rows, c, Touched(t, rows));
    forall a | a in after.states ensures StateOk(after, a, c.inputs.cutoff) {
      EvaluatedStateOk(t, rows, c, horizon, a);
    }
    forall id | id in after.episodes
      ensures EpisodeOk(id, after.episodes[id], c.inputs.cutoff) && Owned(after, after.episodes[id])
    {
      if id in StartedEpisodes(t, rows, c, Touched(t, rows)) {
        StartedOwned(t, rows, c, id);
      } else {
        CarriedOwned(t, rows, c, horizon, id);
      }
    }
  }

  /** Retention keeps every open episode as it is. */
  lemma PrunedKeepsOpen(episodes: map<EpisodeId, Episode>, order: DigestOrder, now: int, id: EpisodeId)
    requires id in episodes && episodes[id].Open()
    ensures id in Pruned(episodes, order, now) && Pruned(episodes, order, now)[id] == episodes[id]
  {
  }

  lemma PrunedCoherent(t: Tables, order: DigestOrder, now: int, horizon: int)
    requires Coherent(t, horizon)
    ensures Coherent(t.(episodes := Pruned(t.episodes, order, now)), horizon)
  {
    var after := t.(episodes := Pruned(t.episodes, order, now));
    forall id | id in after.episodes
      ensures EpisodeOk(id, after.episodes[id], horizon) && Owned(after, after.episodes[id])
    {
      assert EpisodeOk(id, t.episodes[id], horizon) && Owned(t, t.episodes[id]);
    }
    forall a | a in after.states ensures StateOk(after, a, horizon) {
      assert StateOk(t, a, horizon);
    }
  }

  // ----- every operation -----

  lemma BlankedDistinct(rows: seq<Row>, reason: string)
    requires DistinctAssets(rows)
    ensures DistinctAssets(Blanked(rows, reason))
  {
  }

  lemma InterruptValid(t: Tables, reason: string)
    requires Valid(t)
    ensures Valid(InterruptTables(t, reason))
  {
    if t.latest.Some? {
      var r := t.latest.value;
      BrokenCoherent(t, map a | a in t.states :: reason, r.inputs.cutoff);
      BlankedDistinct(r.rows, reason);
      hide Broken, Coherent, Projected, Reprojected, Blanked, DistinctAssets;
      ReprojectedValid(Broken(t, map a | a in t.states :: reason),
        r.(status := Stale, reason := Some(reason), rows := Blanked(r.rows, reason)));
    }
  }

  lemma ReprojectedValid(t: Tables, response: Response)
    requires DistinctAssets(response.rows) && Coherent(t, response.inputs.cutoff)
    ensures Valid(Reprojected(t, response))
  {
    var after := Reprojected(t, response);
    forall a | a in after.states ensures StateOk(after, a, response.inputs.cutoff) {
      assert StateOk(t, a, response.inputs.cutoff);
    }
    forall id | id in after.episodes ensures Owned(after, after.episodes[id]) {
      assert Owned(t, t.episodes[id]);
    }
  }

  lemma EvaluateValid(t: Tables, rows: seq<Row>, c: Context, order: DigestOrder)
    requires Valid(t) && DistinctAssets(rows) && OwnIdentities(rows) && ValidInputs(c.inputs)
    requires IsNewCutoff(t, c.inputs.cutoff)
    ensures Valid(EvaluateTables(t, rows, c, order))
  {
    EvaluatedCoherent(t, rows, c, if t.latest.Some? then t.latest.value.inputs.cutoff else 0);
    var after := Evaluated(t, rows, c, Touched(t, rows));
    PrunedCoherent(after, order, c.inputs.decisionAt, c.inputs.cutoff);
    ReprojectedValid(after.(episodes := Pruned(after.episodes, order, c.inputs.decisionAt)), EvaluatedResponse(t, rows, c));
  }

  lemma SaveValid(t: Tables, rows: seq<Row>, c: Context, order: DigestOrder)
    requires Valid(t) && OwnIdentities(rows) && ValidInputs(c.inputs)
    ensures Valid(SaveTables(t, rows, c, order))
  {
    if DistinctAssets(rows) {
      if IsNewCutoff(t, c.inputs.cutoff) {
        EvaluateValid(t, rows, c, order);
      } else if IsSameCutoff(t, c.inputs.cutoff) {
        BrokenCoherent(t, RefreshBreaks(t.states, rows, c), c.inputs.cutoff);
        ReprojectedValid(Broken(t, RefreshBreaks(t.states, rows, c)), RefreshedResponse(t, rows, c));
      }
    }
  }
}
