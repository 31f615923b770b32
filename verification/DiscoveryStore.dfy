/**
 The single writer's discovery tables, updated in place row by row as the store does.
 Each method is proved to make the whole-table change that module Discovery describes.
 A method is one committed transaction; a rolled-back one changes nothing.
 */
module DiscoveryStore {
  import opened Prelude
  import opened Discovery
  import opened DiscoveryInvariant

  datatype SaveResult = DuplicateRow | NotEvaluated | EvaluatedCutoff

  /** The duplicate check counts distinct asset ids. */
  lemma {:induction false} DistinctByCount(rows: seq<Row>)
    ensures |AssetsOf(rows)| <= |rows|
    ensures |AssetsOf(rows)| == |rows| <==> DistinctAssets(rows)
  {
    if rows != [] {
      var rest := rows[..|rows| - 1];
      var last := rows[|rows| - 1];
      DistinctByCount(rest);
      assert rows == rest + [last];
      LastAsset(rest, last);
      hide DistinctAssets, AssetsOf;
    }
  }

  lemma LastAsset(rest: seq<Row>, last: Row)
    ensures DistinctAssets(rest + [last]) <==> DistinctAssets(rest) && last.asset !in AssetsOf(rest)
    ensures AssetsOf(rest + [last]) == AssetsOf(rest) + {last.asset}
  {
    var rows := rest + [last];
    assert forall r :: r in rows <==> r in rest || r == last;
    if last.asset in AssetsOf(rest) {
      var r :| r in rest && r.asset == last.asset;
      var i :| 0 <= i < |rest| && rest[i] == r;
      assert rows[i].asset == rows[|rest|].asset;
    } else {
      forall i | 0 <= i < |rest| ensures rows[i].asset != last.asset {
        assert rest[i] in rest;
      }
    }
    if DistinctAssets(rows) {
      assert forall i :: 0 <= i < |rest| ==> rows[i] == rest[i];
    }
  }

  /** Breaking one more asset forgets its state and suspends its open episode. */
  lemma BreakOne(t: Tables, done: map<string, string>, a: string, reason: string)
    requires t.latest.Some? && Coherent(t, t.latest.value.inputs.cutoff)
    requires a in t.states && a !in done
    ensures a in Broken(t, done).states && Broken(t, done).states[a] == t.states[a]
    ensures t.states[a].episodeId.Some? ==>
      var id := t.states[a].episodeId.value;
      id in t.episodes && t.episodes[id].Open() && id in Broken(t, done).episodes && Broken(t, done).episodes[id] == t.episodes[id]
    ensures Broken(t, done[a := reason]) ==
      var forgotten := Broken(t, done).(states := Broken(t, done).states[a := Forgotten(t.states[a])]);
      match t.states[a].episodeId
      case None => forgotten
      case Some(id) => forgotten.(episodes := Broken(t, done).episodes[id := Suspend(t.episodes[id], Some(reason))])
  {
    OpenOfAsset(t, a);
    BreakOneState(t.states, done, a, reason);
    hide Coherent, BrokenEpisodes, BrokenStates;
    BreakOneEpisode(t.episodes, done, a, reason, t.states[a].episodeId);
  }

  /** The open episode of an asset is the one its state refers to. */
  lemma OpenOfAsset(t: Tables, a: string)
    requires t.latest.Some? && Coherent(t, t.latest.value.inputs.cutoff) && a in t.states
    ensures t.states[a].episodeId.Some? ==>
      t.states[a].episodeId.value in t.episodes && t.episodes[t.states[a].episodeId.value].Open()
    ensures forall id :: id in t.episodes ==>
      (t.episodes[id].Open() && t.episodes[id].asset == a <==> t.states[a].episodeId == Some(id))
  {
    assert StateOk(t, a, t.latest.value.inputs.cutoff);
    forall id | id in t.episodes
      ensures t.episodes[id].Open() && t.episodes[id].asset == a <==> t.states[a].episodeId == Some(id)
    {
      assert Owned(t, t.episodes[id]) && EpisodeOk(id, t.episodes[id], t.latest.value.inputs.cutoff);
    }
  }

  lemma BreakOneState(states: map<string, AssetState>, done: map<string, string>, a: string, reason: string)
    requires a in states && a !in done
    ensures a in BrokenStates(states, done) && BrokenStates(states, done)[a] == states[a]
    ensures BrokenStates(states, done[a := reason]) == BrokenStates(states, done)[a := Forgotten(states[a])]
  {
  }

  lemma BreakOneEpisode(episodes: map<EpisodeId, Episode>, done: map<string, string>, a: string, reason: string, open: Option<EpisodeId>)
    requires a !in done
    requires forall id :: id in episodes ==> (episodes[id].Open() && episodes[id].asset == a <==> open == Some(id))
    requires open.Some? ==> open.value in episodes
    ensures open.Some? ==>
      open.value in BrokenEpisodes(episodes, done) && BrokenEpisodes(episodes, done)[open.value] == episodes[open.value]
    ensures BrokenEpisodes(episodes, done[a := reason]) ==
      match open
      case None => BrokenEpisodes(episodes, done)
      case Some(id) => BrokenEpisodes(episodes, done)[id := Suspend(episodes[id], Some(reason))]
  {
  }

  lemma BrokenNothing(t: Tables)
    ensures Broken(t, map[]) == t
  {
  }

  /** Interrupting every open episode is breaking every remembered asset. */
  lemma InterruptAll(t: Tables, reason: string)
    requires t.latest.Some? && Coherent(t, t.latest.value.inputs.cutoff)
    ensures Broken(t, map a | a in t.states :: reason) == t.(
      states := map a | a in t.states :: Forgotten(t.states[a]),
      episodes := map id | id in t.episodes ::
        if t.episodes[id].Open() then Suspend(t.episodes[id], Some(reason)) else t.episodes[id])
  {
    forall id | id in t.episodes ensures t.episodes[id].Open() ==> t.episodes[id].asset in t.states {
      assert Owned(t, t.episodes[id]);
    }
  }

  /** The episode writes of one row over the stored episodes. */
  function RowWrites(prior: Option<AssetState>, row: Row, c: Context, base: map<EpisodeId, Episode>): map<EpisodeId, Episode> {
    var carried :=
      if prior.Some? && prior.value.episodeId.Some? && prior.value.episodeId.value in base then
        var id := prior.value.episodeId.value;
        base[id := Carried(prior.value, base[id], row, c)]
      else base;
    if Starts(prior, row, c) then carried[NewId(row, c) := Started(prior, row, c)] else carried
  }

  function MissingWrites(prior: AssetState, base: map<EpisodeId, Episode>): map<EpisodeId, Episode> {
    var id := prior.episodeId;
    if id.Some? && id.value in base then base[id.value := Suspend(base[id.value], Some("row_missing"))] else base
  }

  /** What a row relies on about its asset's memory. */
  predicate UsableState(prior: AssetState, asset: string, episodes: map<EpisodeId, Episode>) {
    && prior.identity.asset == asset
    && (prior.state == Matched ==> prior.episodeId.Some?)
    && (prior.state == NotMatched ==> prior.episodeId.None?)
    && (prior.episodeId.Some? ==>
          && prior.episodeId.value in episodes
          && episodes[prior.episodeId.value].Open()
          && episodes[prior.episodeId.value].id == prior.episodeId.value)
  }

  ghost function Horizon(t: Tables): int {
    if t.latest.Some? then t.latest.value.inputs.cutoff else 0
  }

  /** An asset that is not touched yet has the episode it had at the start. */
  lemma UntouchedEpisode(t: Tables, rows: seq<Row>, c: Context, touched: set<string>, a: string)
    requires Valid(t) && DistinctAssets(rows) && OwnIdentities(rows) && ValidInputs(c.inputs)
    requires IsNewCutoff(t, c.inputs.cutoff)
    requires a in t.states && a !in touched
    ensures UsableState(t.states[a], a, t.episodes)
    ensures UsableState(t.states[a], a, EvaluatedEpisodes(t, rows, c, touched))
    ensures t.states[a].episodeId.Some? ==>
      EvaluatedEpisodes(t, rows, c, touched)[t.states[a].episodeId.value] == t.episodes[t.states[a].episodeId.value]
  {
    assert StateOk(t, a, Horizon(t));
    StartedFresh(t, rows, c, touched, Horizon(t));
    if t.states[a].episodeId.Some? {
      var id := t.states[a].episodeId.value;
      assert EpisodeOk(id, t.episodes[id], Horizon(t));
    }
  }

  function CarriedEpisodes(t: Tables, rows: seq<Row>, c: Context, touched: set<string>): map<EpisodeId, Episode> {
    map id | id in t.episodes :: EvaluatedEpisode(t, t.episodes[id], rows, c, touched)
  }

  lemma StartedOneMore(t: Tables, rows: seq<Row>, c: Context, touched: set<string>, i: nat)
    requires DistinctAssets(rows) && OwnIdentities(rows) && i < |rows| && rows[i].asset !in touched
    ensures StartedEpisodes(t, rows, c, touched + {rows[i].asset}) ==
      if Starts(Lookup(t.states, rows[i].asset), rows[i], c)
      then StartedEpisodes(t, rows, c, touched)[NewId(rows[i], c) := Started(Lookup(t.states, rows[i].asset), rows[i], c)]
      else StartedEpisodes(t, rows, c, touched)
  {
    FreshIdsDistinct(rows, c);
    var more := touched + {rows[i].asset};
    forall r | r in rows ensures r.asset in more <==> r.asset in touched || r == rows[i] {
      if r.asset == rows[i].asset {
        var j :| 0 <= j < |rows| && rows[j] == r;
        FindRowUnique(rows, i);
        FindRowUnique(rows, j);
      }
    }
  }

  /** Among stored episodes, touching an asset rewrites only the one its state refers to. */
  lemma CarriedOneMore(t: Tables, rows: seq<Row>, c: Context, touched: set<string>, a: string, id: EpisodeId)
    requires Valid(t) && a !in touched && id in t.episodes
    ensures
      var e := t.episodes[id];
      EvaluatedEpisode(t, e, rows, c, touched + {a}) ==
        if a in t.states && t.states[a].episodeId == Some(id) then
          match FindRow(rows, a)
          case Some(row) => Carried(t.states[a], e, row, c)
          case None => Suspend(e, Some("row_missing"))
        else EvaluatedEpisode(t, e, rows, c, touched)
  {
    var e := t.episodes[id];
    assert EpisodeOk(id, e, Horizon(t)) && Owned(t, e);
    if a in t.states {
      assert StateOk(t, a, Horizon(t));
    }
  }

  lemma CarriedEpisodesOneMore(t: Tables, rows: seq<Row>, c: Context, touched: set<string>, a: string)
    requires Valid(t) && a !in touched
    requires a in t.states ==> UsableState(t.states[a], a, t.episodes)
    ensures CarriedEpisodes(t, rows, c, touched + {a}) ==
      if a in t.states && t.states[a].episodeId.Some? then
        var id := t.states[a].episodeId.value;
        CarriedEpisodes(t, rows, c, touched)[id :=
          match FindRow(rows, a)
          case Some(row) => Carried(t.states[a], t.episodes[id], row, c)
          case None => Suspend(t.episodes[id], Some("row_missing"))]
      else CarriedEpisodes(t, rows, c, touched)
  {
    hide EvaluatedEpisode, Carried, Suspend, Valid, FindRow;
    forall id | id in t.episodes {
      CarriedOneMore(t, rows, c, touched, a, id);
    }
  }

  lemma UnionUpdates<K, V>(a: map<K, V>, b: map<K, V>, x: K, v: V)
    requires x !in b
    ensures a[x := v] + b == (a + b)[x := v]
  {
  }

  lemma EvaluatedNothing(t: Tables, rows: seq<Row>, c: Context)
    requires DistinctAssets(rows) && OwnIdentities(rows)
    ensures Evaluated(t, rows, c, {}) == t
  {
    assert StartedEpisodes(t, rows, c, {}) == map[];
    assert EvaluatedStates(t, rows, c, {}) == t.states;
    assert EvaluatedEpisodes(t, rows, c, {}) == t.episodes;
  }

  lemma EvaluatedParts(t: Tables, rows: seq<Row>, c: Context, touched: set<string>, horizon: int)
    requires DistinctAssets(rows) && OwnIdentities(rows) && ValidInputs(c.inputs)
    requires Coherent(t, horizon) && horizon < c.inputs.cutoff
    ensures EvaluatedEpisodes(t, rows, c, touched) == CarriedEpisodes(t, rows, c, touched) + StartedEpisodes(t, rows, c, touched)
    ensures CarriedEpisodes(t, rows, c, touched).Keys == t.episodes.Keys
    ensures CarriedEpisodes(t, rows, c, touched).Keys !! StartedEpisodes(t, rows, c, touched).Keys
  {
    StartedFresh(t, rows, c, touched, horizon);
  }

  lemma TouchRowStates(t: Tables, rows: seq<Row>, c: Context, touched: set<string>, i: nat)
    requires DistinctAssets(rows) && i < |rows| && rows[i].asset !in touched
    ensures EvaluatedStates(t, rows, c, touched + {rows[i].asset}) ==
      EvaluatedStates(t, rows, c, touched)[rows[i].asset := StateOf(Lookup(t.states, rows[i].asset), rows[i], c)]
  {
    FindRowUnique(rows, i);
    assert rows[i].asset in AssetsOf(rows);
  }

  lemma TouchRowEpisodes(t: Tables, rows: seq<Row>, c: Context, touched: set<string>, i: nat)
    requires Valid(t) && DistinctAssets(rows) && OwnIdentities(rows) && ValidInputs(c.inputs)
    requires IsNewCutoff(t, c.inputs.cutoff)
    requires i < |rows| && rows[i].asset !in touched
    ensures EvaluatedEpisodes(t, rows, c, touched + {rows[i].asset}) ==
      RowWrites(Lookup(t.states, rows[i].asset), rows[i], c, EvaluatedEpisodes(t, rows, c, touched))
  {
    var a := rows[i].asset;
    CoherentFromValid(t);
    EvaluatedParts(t, rows, c, touched, Horizon(t));
    EvaluatedParts(t, rows, c, touched + {a}, Horizon(t));
    FindRowUnique(rows, i);
    StartedOneMore(t, rows, c, touched, i);
    if a in t.states {
      UntouchedEpisode(t, rows, c, touched, a);
    }
    CarriedEpisodesOneMore(t, rows, c, touched, a);
    hide *;
    JoinWrites(t, rows[i], c, CarriedEpisodes(t, rows, c, touched), StartedEpisodes(t, rows, c, touched),
               CarriedEpisodes(t, rows, c, touched + {a}), StartedEpisodes(t, rows, c, touched + {a}));
  }

  lemma JoinWrites(t: Tables, row: Row, c: Context, carried: map<EpisodeId, Episode>, started: map<EpisodeId, Episode>,
                   carried': map<EpisodeId, Episode>, started': map<EpisodeId, Episode>)
    requires carried.Keys !! started.Keys
    requires var prior := Lookup(t.states, row.asset);
      && (prior.Some? && prior.value.episodeId.Some? ==>
            var id := prior.value.episodeId.value;
            id in t.episodes && id in carried && carried[id] == t.episodes[id]
            && carried' == carried[id := Carried(prior.value, t.episodes[id], row, c)])
      && (prior.None? || prior.value.episodeId.None? ==> carried' == carried)
      && started' == if Starts(prior, row, c) then started[NewId(row, c) := Started(prior, row, c)] else started
    ensures carried' + started' == RowWrites(Lookup(t.states, row.asset), row, c, carried + started)
  {
    hide Carried, Started;
    var prior := Lookup(t.states, row.asset);
    if prior.Some? && prior.value.episodeId.Some? {
      var id := prior.value.episodeId.value;
      UnionUpdates(carried, started, id, Carried(prior.value, t.episodes[id], row, c));
      assert carried' + started == (carried + started)[id := Carried(prior.value, t.episodes[id], row, c)];
    }
    if Starts(prior, row, c) {
      UnionExtends(carried', started, NewId(row, c), Started(prior, row, c));
    }
  }

  lemma UnionExtends<K, V>(a: map<K, V>, b: map<K, V>, x: K, v: V)
    ensures a + b[x := v] == (a + b)[x := v]
  {
  }

  lemma CoherentFromValid(t: Tables)
    requires Valid(t)
    ensures Coherent(t, Horizon(t))
  {
  }

  /** Evaluating one more row writes its asset's state and episodes, and nothing else. */
  lemma TouchRow(t: Tables, rows: seq<Row>, c: Context, touched: set<string>, i: nat)
    requires Valid(t) && DistinctAssets(rows) && OwnIdentities(rows) && ValidInputs(c.inputs)
    requires IsNewCutoff(t, c.inputs.cutoff)
    requires i < |rows| && rows[i].asset !in touched
    ensures
      var base := Evaluated(t, rows, c, touched);
      var prior := Lookup(t.states, rows[i].asset);
      && (prior.Some? ==> UsableState(prior.value, rows[i].asset, base.episodes))
      && Evaluated(t, rows, c, touched + {rows[i].asset}) ==
           base.(states := base.states[rows[i].asset := StateOf(prior, rows[i], c)],
                 episodes := RowWrites(prior, rows[i], c, base.episodes))
  {
    hide EvaluatedEpisodes, EvaluatedStates, RowWrites, StateOf, Valid;
    if rows[i].asset in t.states {
      UntouchedEpisode(t, rows, c, touched, rows[i].asset);
    }
    TouchRowStates(t, rows, c, touched, i);
    TouchRowEpisodes(t, rows, c, touched, i);
  }

  lemma TouchMissing(t: Tables, rows: seq<Row>, c: Context, touched: set<string>, a: string)
    requires Valid(t) && DistinctAssets(rows) && OwnIdentities(rows) && ValidInputs(c.inputs)
    requires IsNewCutoff(t, c.inputs.cutoff)
    requires a in t.states && a !in touched && FindRow(rows, a).None?
    ensures
      var base := Evaluated(t, rows, c, touched);
      && UsableState(t.states[a], a, base.episodes)
      && Evaluated(t, rows, c, touched + {a}) ==
           base.(states := base.states[a := Forgotten(t.states[a])], episodes := MissingWrites(t.states[a], base.episodes))
  {
    assert StartedEpisodes(t, rows, c, touched + {a}) == StartedEpisodes(t, rows, c, touched);
    assert EvaluatedStates(t, rows, c, touched + {a}) == EvaluatedStates(t, rows, c, touched)[a := Forgotten(t.states[a])];
    TouchMissingEpisodes(t, rows, c, touched, a);
    hide Valid, EvaluatedStates, EvaluatedEpisodes, StartedEpisodes, UsableState, MissingWrites;
  }

  lemma TouchMissingEpisodes(t: Tables, rows: seq<Row>, c: Context, touched: set<string>, a: string)
    requires Valid(t) && DistinctAssets(rows) && OwnIdentities(rows) && ValidInputs(c.inputs)
    requires IsNewCutoff(t, c.inputs.cutoff)
    requires a in t.states && a !in touched && FindRow(rows, a).None?
    requires StartedEpisodes(t, rows, c, touched + {a}) == StartedEpisodes(t, rows, c, touched)
    ensures UsableState(t.states[a], a, EvaluatedEpisodes(t, rows, c, touched))
    ensures EvaluatedEpisodes(t, rows, c, touched + {a}) ==
      MissingWrites(t.states[a], EvaluatedEpisodes(t, rows, c, touched))
  {
    hide EvaluatedEpisodes, CarriedEpisodes, StartedEpisodes, Valid, FindRow;
    assert Coherent(t, Horizon(t)) && Horizon(t) < c.inputs.cutoff by { CoherentFromValid(t); }
    EvaluatedParts(t, rows, c, touched, Horizon(t));
    EvaluatedParts(t, rows, c, touched + {a}, Horizon(t));
    UntouchedEpisode(t, rows, c, touched, a);
    CarriedEpisodesOneMore(t, rows, c, touched, a);
    if t.states[a].episodeId.Some? {
      var id := t.states[a].episodeId.value;
      UnionUpdates(CarriedEpisodes(t, rows, c, touched), StartedEpisodes(t, rows, c, touched), id,
                   Suspend(t.episodes[id], Some("row_missing")));
    }
  }

  lemma DetailsOneMore(rows: seq<Row>, i: nat)
    requires DistinctAssets(rows) && i < |rows|
    ensures DistinctAssets(rows[..i]) && DistinctAssets(rows[..i + 1])
    ensures DetailsOf(rows[..i + 1]) == DetailsOf(rows[..i])[rows[i].asset := (i, rows[i])]
  {
    var m := DetailsOf(rows[..i + 1]);
    var n := DetailsOf(rows[..i])[rows[i].asset := (i, rows[i])];
    assert rows[..i + 1] == rows[..i] + [rows[i]];
    forall a | a in n ensures a in m && m[a] == n[a] {
      var j :| 0 <= j <= i && rows[j].asset == a;
      assert rows[..i + 1][j] == rows[j];
    }
    assert m.Keys == n.Keys;
  }

  /** The interruptions found once the first i rows are refreshed: every absent asset's, and theirs. */
  ghost predicate BreaksSoFar(interruptions: map<string, string>, states: map<string, AssetState>, rows: seq<Row>, i: nat, c: Context)
    requires i <= |rows|
  {
    interruptions == map a | a in RefreshBreaks(states, rows, c) && (FindRow(rows, a).None? || a in AssetsOf(rows[..i])) ::
      RefreshBreaks(states, rows, c)[a]
  }

  lemma BreaksStart(states: map<string, AssetState>, rows: seq<Row>, c: Context)
    ensures BreaksSoFar(map a | a in states && a !in AssetsOf(rows) :: "row_missing", states, rows, 0, c)
  {
    forall a ensures FindRow(rows, a).None? <==> a !in AssetsOf(rows) {
      FindRowMissing(rows, a);
    }
  }

  lemma FindRowMissing(rows: seq<Row>, a: string)
    ensures FindRow(rows, a).None? <==> a !in AssetsOf(rows)
  {
  }

  /** The row of an asset that has a state adds its interruption, if it has one. */
  lemma BreaksNext(interruptions: map<string, string>, states: map<string, AssetState>, rows: seq<Row>, i: nat, c: Context)
    requires DistinctAssets(rows) && i < |rows| && BreaksSoFar(interruptions, states, rows, i, c)
    ensures var a, row := rows[i].asset, rows[i];
      BreaksSoFar(
        if a in states && RefreshBreak(states[a], Some(row), c).Some?
        then interruptions[a := RefreshBreak(states[a], Some(row), c).value] else interruptions,
        states, rows, i + 1, c)
  {
    FindRowUnique(rows, i);
    assert rows[..i + 1] == rows[..i] + [rows[i]];
    assert AssetsOf(rows[..i + 1]) == AssetsOf(rows[..i]) + {rows[i].asset};
  }

  lemma BreaksEnd(interruptions: map<string, string>, states: map<string, AssetState>, rows: seq<Row>, c: Context)
    requires BreaksSoFar(interruptions, states, rows, |rows|, c)
    ensures interruptions == RefreshBreaks(states, rows, c)
  {
    assert rows[..|rows|] == rows;
    forall a ensures FindRow(rows, a).None? <==> a !in AssetsOf(rows) {
      FindRowMissing(rows, a);
    }
  }

  lemma RefreshedDistinct(t: Tables, rows: seq<Row>, c: Context)
    requires t.latest.Some? && DistinctAssets(rows)
    ensures DistinctAssets(RefreshedRows(t, rows, c))
  {
  }

  /** The refresh loop: republish each row's evaluated condition, and note what breaks continuity. */
  method RefreshRows(states: map<string, AssetState>, previous: seq<Row>, rows: seq<Row>, c: Context)
    returns (refreshed: seq<Row>, interruptions: map<string, string>)
    requires DistinctAssets(rows)
    ensures interruptions == RefreshBreaks(states, rows, c)
    ensures |refreshed| == |rows| && forall i :: 0 <= i < |rows| ==>
      refreshed[i] == RefreshedRow(Lookup(states, rows[i].asset), FindRow(previous, rows[i].asset), rows[i], c)
  {
    hide RefreshBreaks, BreaksSoFar, FindRow;
    refreshed := [];
    interruptions := map a | a in states && a !in AssetsOf(rows) :: "row_missing";
    BreaksStart(states, rows, c);
    for i := 0 to |rows|
      invariant BreaksSoFar(interruptions, states, rows, i, c)
      invariant |refreshed| == i && forall j :: 0 <= j < i ==>
        refreshed[j] == RefreshedRow(Lookup(states, rows[j].asset), FindRow(previous, rows[j].asset), rows[j], c)
    {
      var row := rows[i];
      BreaksNext(interruptions, states, rows, i, c);
      var known := Lookup(states, row.asset);
      var sameState := known.Some? && SameIdentity(known.value, row, c.policy);
      var unavailable := Unavailable(row, c.restarted);
      if known.Some? && (unavailable || !sameState) {
        interruptions := interruptions[row.asset :=
          if unavailable then UnavailableReason(row, c.restarted) else "identity_changed"];
      }
      var published := RefreshOne(FindRow(previous, row.asset), known, sameState, unavailable, row, c);
      refreshed := refreshed + [published];
    }
    BreaksEnd(interruptions, states, rows, c);
  }

  /** The row a refresh publishes: the evaluated condition of the same identity, or unknown. */
  method RefreshOne(before: Option<Row>, known: Option<AssetState>, sameState: bool, unavailable: bool, row: Row, c: Context)
    returns (published: Row)
    requires sameState == (known.Some? && SameIdentity(known.value, row, c.policy))
    requires unavailable == Unavailable(row, c.restarted)
    ensures published == RefreshedRow(known, before, row, c)
  {
    var state, reason, confirmation, episodeId := Unknown, Some("awaiting_new_cutoff"), None, None;
    if before.Some? && before.value.identity == row.identity {
      reason, episodeId := before.value.reason, before.value.episodeId;
      if !unavailable {
        state := before.value.state;
        if state != Unknown {
          confirmation := before.value.confirmation;
        }
      }
    } else if sameState {
      episodeId := known.value.episodeId;
    }
    if unavailable {
      reason := Some(UnavailableReason(row, c.restarted));
    }
    published := row.(state := state, reason := reason, confirmation := confirmation, episodeId := episodeId);
  }

  class Store {
    const order: DigestOrder
    var states: map<string, AssetState>
    var episodes: map<EpisodeId, Episode>
    var latest: Option<Response>
    var metadata: Option<Response>
    var details: map<string, (nat, Row)>
    var summary: Option<Summary>

    constructor (order: DigestOrder)
      ensures this.order == order && Snapshot() == EMPTY && Valid(Snapshot())
    {
      this.order := order;
      states, episodes, latest, metadata, details, summary := map[], map[], None, None, map[], None;
    }

    ghost function Snapshot(): Tables
      reads this
    {
      Tables(states, episodes, latest, metadata, details, summary)
    }

    method HistoryMinimumQuery() returns (first: Option<int>)
      ensures first == HistoryMinimum(episodes)
    {
      first := None;
      var seen: map<EpisodeId, Episode> := map[];
      var todo := episodes.Keys;
      while todo != {}
        invariant todo <= episodes.Keys
        invariant seen == map id | id in episodes && id !in todo :: episodes[id]
        invariant IsHistoryMinimum(seen, first)
        decreases todo
      {
        var id :| id in todo;
        var at := episodes[id].firstObservedAt;
        ghost var before := seen;
        seen := seen[id := episodes[id]];
        assert forall j :: j in seen ==> j == id || j in before;
        first := if first.None? || at < first.value then Some(at) else first;
        assert first.value == at ==> seen[id].firstObservedAt == first.value;
        assert forall j :: j in before ==> seen[j] == before[j];
        todo := todo - {id};
      }
      assert seen == episodes;
      HistoryMinimumUnique(episodes, first, HistoryMinimum(episodes));
    }

    method WriteProjection(response: Response, writeLegacy: bool)
      requires DistinctAssets(response.rows)
      modifies `latest, `metadata, `details, `summary
      ensures Snapshot() ==
        var projected := Reprojected(old(Snapshot()), response);
        if writeLegacy then projected else projected.(latest := old(latest))
    {
      if writeLegacy {
        latest := Some(response);
      }
      metadata := Some(response.(rows := []));
      details := map[];
      var i := 0;
      while i < |response.rows|
        invariant 0 <= i <= |response.rows|
        invariant latest == (if writeLegacy then Some(response) else old(latest))
        invariant metadata == Some(response.(rows := [])) && summary == old(summary)
        invariant DistinctAssets(response.rows[..i])
        invariant details == DetailsOf(response.rows[..i])
      {
        DetailsOneMore(response.rows, i);
        details := details[response.rows[i].asset := (i, response.rows[i])];
        i := i + 1;
      }
      assert response.rows[..i] == response.rows;
      var first := HistoryMinimumQuery();
      summary := Some(SummaryOf(response, first));
    }

    /** Rebuild the additive tables on startup, whatever an older writer left in them. */
    method Initialize()
      requires latest.Some? ==> DistinctAssets(latest.value.rows)
      requires latest.None? ==> metadata.None? && details == map[] && summary.None?
      modifies `metadata, `details, `summary, `latest
      ensures states == old(states) && episodes == old(episodes) && latest == old(latest)
      ensures Projected(Snapshot())
      ensures old(Projected(Snapshot())) ==> Snapshot() == old(Snapshot())
    {
      if latest.Some? {
        WriteProjection(latest.value, false);
        if old(Projected(Snapshot())) {
          HistoryMinimumUnique(episodes, HistoryMinimum(episodes), old(summary).value.historyFrom);
        }
      }
    }

    /** Writer-side failed observation. */
    method InterruptDiscovery(reason: string)
      requires Valid(Snapshot())
      modifies this
      ensures Snapshot() == InterruptTables(old(Snapshot()), reason)
      ensures Valid(Snapshot())
    {
      InterruptValid(Snapshot(), reason);
      if latest.None? {
        return;
      }
      ghost var start := Snapshot();
      ForgetStates();
      SuspendOpen(reason);
      InterruptAll(start, reason);
      WriteProjection(latest.value.(status := Stale, reason := Some(reason), rows := Blanked(latest.value.rows, reason)), true);
    }

    method ForgetStates()
      modifies `states
      ensures states == map a | a in old(states) :: Forgotten(old(states)[a])
    {
      ghost var start := states;
      var todo := states.Keys;
      while todo != {}
        invariant todo <= start.Keys
        invariant states == map a | a in start :: if a in todo then start[a] else Forgotten(start[a])
        decreases todo
      {
        var a :| a in todo;
        states := states[a := states[a].(interrupted := true, state := Unknown)];
        todo := todo - {a};
      }
    }

    method SuspendOpen(reason: string)
      modifies `episodes
      ensures episodes == map id | id in old(episodes) ::
        if old(episodes)[id].Open() then Suspend(old(episodes)[id], Some(reason)) else old(episodes)[id]
    {
      ghost var start := episodes;
      var open := set id | id in episodes && episodes[id].endedAt.None?;
      while open != {}
        invariant open <= start.Keys
        invariant forall id :: id in open ==> start[id].Open()
        invariant episodes == map id | id in start ::
          if start[id].Open() && id !in open then Suspend(start[id], Some(reason)) else start[id]
        decreases open
      {
        var id :| id in open;
        episodes := episodes[id := episodes[id].(status := Interrupted, interruptionReason := Some(reason))];
        open := open - {id};
      }
    }

    /** Save a generation's rows: evaluate a strictly new cutoff once, refresh the same one. */
    method SaveDiscovery(policy: string, inputs: Inputs, rows: seq<Row>, restarted: bool) returns (result: SaveResult)
      requires Valid(Snapshot()) && OwnIdentities(rows) && ValidInputs(inputs)
      modifies this
      ensures Snapshot() == SaveTables(old(Snapshot()), rows, Context(policy, inputs, restarted), order)
      ensures Valid(Snapshot())
      ensures result ==
        if !DistinctAssets(rows) then DuplicateRow
        else if IsNewCutoff(old(Snapshot()), inputs.cutoff) then EvaluatedCutoff else NotEvaluated
    {
      SaveValid(Snapshot(), rows, Context(policy, inputs, restarted), order);
      if |AssetsOf(rows)| != |rows| {
        DistinctByCount(rows);
        return DuplicateRow;
      }
      DistinctByCount(rows);
      if latest.Some? && inputs.cutoff < latest.value.inputs.cutoff {
        return NotEvaluated;
      }
      if latest.Some? && latest.value.inputs.cutoff == inputs.cutoff {
        Refresh(policy, inputs, rows, restarted);
        return NotEvaluated;
      }
      Evaluate(policy, inputs, rows, restarted);
      return EvaluatedCutoff;
    }

    method Refresh(policy: string, inputs: Inputs, rows: seq<Row>, restarted: bool)
      requires Valid(Snapshot()) && DistinctAssets(rows)
      requires IsSameCutoff(Snapshot(), inputs.cutoff)
      modifies this
      ensures Snapshot() == RefreshTables(old(Snapshot()), rows, Context(policy, inputs, restarted))
    {
      hide Broken, RefreshedRow, RefreshBreak;
      ghost var start := Snapshot();
      var c := Context(policy, inputs, restarted);
      var refreshed, interruptions := RefreshRows(states, latest.value.rows, rows, c);
      BreakAssets(interruptions);
      var stale := latest.value.status == Stale;
      var incomplete := interruptions != map[] || AnyUnknown(refreshed);
      var status := if stale then Stale else if incomplete then Partial else Ready;
      var reason := if stale then latest.value.reason else if incomplete then Some(INCOMPLETE) else None;
      assert refreshed == RefreshedRows(start, rows, c);
      RefreshedDistinct(start, rows, c);
      WriteProjection(Response(inputs, status, reason, refreshed), true);
    }

    method BreakAssets(interruptions: map<string, string>)
      requires latest.Some? && Coherent(Snapshot(), latest.value.inputs.cutoff)
      requires interruptions.Keys <= states.Keys
      modifies `states, `episodes
      ensures Snapshot() == Broken(old(Snapshot()), interruptions)
    {
      hide Broken, Coherent;
      ghost var start := Snapshot();
      var todo := interruptions.Keys;
      ghost var done: map<string, string> := map[];
      BrokenNothing(start);
      while todo != {}
        invariant todo <= interruptions.Keys
        invariant done == map a | a in interruptions && a !in todo :: interruptions[a]
        invariant Snapshot() == Broken(start, done)
        decreases todo
      {
        var a :| a in todo;
        BreakOne(start, done, a, interruptions[a]);
        var prior := states[a];
        states := states[a := prior.(state := Unknown, interrupted := true)];
        if prior.episodeId.Some? {
          var episode := episodes[prior.episodeId.value];
          if episode.endedAt.None? {
            episodes := episodes[prior.episodeId.value :=
              episode.(status := Interrupted, interruptionReason := Some(interruptions[a]))];
          }
        }
        done := done[a := interruptions[a]];
        todo := todo - {a};
      }
      assert done == interruptions;
    }

    method Evaluate(policy: string, inputs: Inputs, rows: seq<Row>, restarted: bool)
      requires Valid(Snapshot()) && DistinctAssets(rows) && OwnIdentities(rows) && ValidInputs(inputs)
      requires IsNewCutoff(Snapshot(), inputs.cutoff)
      modifies this
      ensures Snapshot() == EvaluateTables(old(Snapshot()), rows, Context(policy, inputs, restarted), order)
    {
      hide Evaluated, Valid, Pruned, MissingActive, AnyUnknown;
      ghost var start := Snapshot();
      var c := Context(policy, inputs, restarted);
      var previous := states;
      var projected := EvaluateRows(rows, c, previous);
      var missingActive := EvaluateMissingAssets(start, rows, c, previous);
      episodes := Pruned(episodes, order, inputs.decisionAt);
      var incomplete := missingActive || AnyUnknown(rows);
      WriteProjection(
        Response(inputs, if incomplete then Partial else Ready, if incomplete then Some(INCOMPLETE) else None, projected),
        true);
    }

    method EvaluateRows(rows: seq<Row>, c: Context, previous: map<string, AssetState>) returns (projected: seq<Row>)
      requires Valid(Snapshot()) && DistinctAssets(rows) && OwnIdentities(rows) && ValidInputs(c.inputs)
      requires IsNewCutoff(Snapshot(), c.inputs.cutoff) && previous == states
      modifies `states, `episodes
      ensures Snapshot() == Evaluated(old(Snapshot()), rows, c, AssetsOf(rows))
      ensures projected == EvaluatedRows(old(Snapshot()), rows, c)
    {
      hide Evaluated, RowWrites, StateOf, ConfirmationOf, EpisodeIdOf, Valid;
      ghost var start := Snapshot();
      projected := [];
      EvaluatedNothing(start, rows, c);
      assert AssetsOf(rows[..0]) == {};
      var i := 0;
      while i < |rows|
        invariant 0 <= i <= |rows| == |EvaluatedRows(start, rows, c)|
        invariant Snapshot() == Evaluated(start, rows, c, AssetsOf(rows[..i]))
        invariant projected == EvaluatedRows(start, rows, c)[..i]
      {
        ghost var touched := AssetsOf(rows[..i]);
        assert rows[i].asset !in touched && AssetsOf(rows[..i + 1]) == touched + {rows[i].asset} by {
          assert rows[..i + 1] == rows[..i] + [rows[i]];
        }
        TouchRow(start, rows, c, touched, i);
        var row := EvaluateRow(rows[i], c, Lookup(previous, rows[i].asset));
        projected := projected + [row];
        i := i + 1;
      }
      assert rows[..i] == rows;
    }

    method EvaluateMissingAssets(ghost start: Tables, rows: seq<Row>, c: Context, previous: map<string, AssetState>)
      returns (missingActive: bool)
      requires Valid(start) && DistinctAssets(rows) && OwnIdentities(rows) && ValidInputs(c.inputs)
      requires IsNewCutoff(start, c.inputs.cutoff) && previous == start.states
      requires Snapshot() == Evaluated(start, rows, c, AssetsOf(rows))
      modifies `states, `episodes
      ensures Snapshot() == Evaluated(start, rows, c, Touched(start, rows))
      ensures missingActive <==> MissingActive(start, rows)
    {
      hide Evaluated, Valid, MissingWrites;
      missingActive := false;
      var todo := set a | a in previous && FindRow(rows, a).None?;
      ghost var touched := AssetsOf(rows);
      while todo != {}
        invariant forall a :: a in todo ==> a in previous && FindRow(rows, a).None?
        invariant touched !! todo && touched + todo == Touched(start, rows)
        invariant Snapshot() == Evaluated(start, rows, c, touched)
        invariant missingActive <==> exists a :: a in previous && a !in todo && FindRow(rows, a).None? && previous[a].episodeId.Some?
        decreases todo
      {
        var a :| a in todo;
        TouchMissing(start, rows, c, touched, a);
        var active := EvaluateMissing(a, previous[a]);
        missingActive := missingActive || active;
        touched := touched + {a};
        todo := todo - {a};
      }
      assert touched == Touched(start, rows);
    }

    /** One row of a new cutoff: end, continue, reconfirm, start or suspend its episode. */
    method EvaluateRow(row: Row, c: Context, prior: Option<AssetState>) returns (projected: Row)
      requires row.identity.asset == row.asset
      requires prior.Some? ==> UsableState(prior.value, row.asset, episodes)
      modifies `states, `episodes
      ensures states == old(states)[row.asset := StateOf(prior, row, c)]
      ensures episodes == RowWrites(prior, row, c, old(episodes))
      ensures projected == row.(confirmation := ConfirmationOf(prior, row, c), episodeId := EpisodeIdOf(prior, row, c))
    {
      var episode: Option<Episode> := None;
      if prior.Some? && prior.value.episodeId.Some? {
        episode := Some(episodes[prior.value.episodeId.value]);
      }
      var same := prior.Some? && prior.value.identity == row.identity && prior.value.policy == c.policy;
      if prior.Some? && !same && episode.Some? && episode.value.endedAt.None? {
        var why := if prior.value.policy == c.policy then "identity_changed" else "policy_changed";
        episodes := episodes[episode.value.id := episode.value.(
          status := Ended, endedAt := Some(c.inputs.decisionAt), endReason := Some(why), interruptionReason := None)];
        episode := None;
      }
      var contiguous := same && !prior.value.interrupted && !c.restarted
        && prior.value.cutoff + MINUTE == c.inputs.cutoff
        && prior.value.mapVersion == c.inputs.mapVersion
        && prior.value.metricVersion == c.inputs.metricVersion
        && prior.value.state != Unknown;
      var confirmation: Option<Confirmation> := None;
      var episodeId: Option<EpisodeId> := None;
      if row.state == Matched {
        if episode.Some? && episode.value.endedAt.None? && same {
          var continuing := contiguous && prior.value.state == Matched;
          confirmation := Some(if continuing then Continuing else Reconfirmation);
          episode := Some(episode.value.(
            status := Active,
            lastConfirmedAt := c.inputs.decisionAt,
            confirmations := if continuing then episode.value.confirmations + 1 else 1,
            observedMs := episode.value.observedMs + (if continuing then c.inputs.cutoff - episode.value.lastCutoff else 0),
            lastSource := c.inputs.rankingGeneration,
            lastCutoff := c.inputs.cutoff,
            direction := row.direction,
            interruptionReason := None));
        } else {
          var kind := if contiguous && prior.value.state == NotMatched then New
                      else if same then Reconfirmation else InitialConfirmation;
          confirmation := Some(kind);
          episode := Some(Episode(
            EpisodeId(c.policy, row.identity, c.inputs.cutoff), c.policy, row.identity, row.asset, row.raw,
            Active, kind, c.inputs.decisionAt, c.inputs.decisionAt, 1, 0, None, None, None,
            row.direction, c.inputs.rankingGeneration, c.inputs.rankingGeneration, c.inputs.cutoff, c.inputs.cutoff));
        }
        episodes := episodes[episode.value.id := episode.value];
        episodeId := Some(episode.value.id);
      } else if episode.Some? && episode.value.endedAt.None? && same {
        if row.state == NotMatched {
          episodes := episodes[episode.value.id := episode.value.(
            status := Ended, endedAt := Some(c.inputs.decisionAt), endReason := Some("condition_not_matched"),
            interruptionReason := None)];
        } else {
          episodes := episodes[episode.value.id := episode.value.(status := Interrupted, interruptionReason := row.reason)];
          episodeId := Some(episode.value.id);
        }
      }
      states := states[row.asset := AssetState(
        row.identity, c.policy, row.state, c.inputs.cutoff, c.inputs.mapVersion, c.inputs.metricVersion,
        row.state == Unknown, episodeId)];
      projected := row.(confirmation := confirmation, episodeId := episodeId);
    }

    /** An asset of the memory that the new cutoff did not observe. */
    method EvaluateMissing(a: string, prior: AssetState) returns (active: bool)
      requires UsableState(prior, a, episodes)
      modifies `states, `episodes
      ensures states == old(states)[a := Forgotten(prior)]
      ensures episodes == MissingWrites(prior, old(episodes))
      ensures active <==> prior.episodeId.Some?
    {
      active := false;
      if prior.episodeId.Some? {
        var episode := episodes[prior.episodeId.value];
        if episode.endedAt.None? {
          active := true;
          episodes := episodes[episode.id := episode.(status := Interrupted, interruptionReason := Some("row_missing"))];
        }
      }
      states := states[a := prior.(state := Unknown, interrupted := true)];
    }
  }
}
