/** What pruning leaves: every open episode, and exactly the newest ended ones. */
module DiscoveryRetention {
  import opened DiscoveryInvariant
  import opened Discovery
  import opened Ranking

  /** Distinct episodes have distinct digests. */
  ghost predicate DigestsDistinct(episodes: map<EpisodeId, Episode>, order: DigestOrder) {
    forall i, j :: i in episodes && j in episodes && order(i) == order(j) ==> i == j
  }

  function EndedIds(episodes: map<EpisodeId, Episode>): set<EpisodeId> {
    set id | id in episodes && !episodes[id].Open()
  }

  ghost function EndedOrder(episodes: map<EpisodeId, Episode>, order: DigestOrder): (EpisodeId, EpisodeId) -> bool {
    (j: EpisodeId, id: EpisodeId) => j in episodes && id in episodes && NewerEnded(episodes, order, j, id)
  }

  lemma EndedListed(episodes: map<EpisodeId, Episode>, order: DigestOrder)
    requires DigestsDistinct(episodes, order)
    ensures StrictOrder(EndedIds(episodes), EndedOrder(episodes, order))
  {
  }

  lemma KeptIsFirst(episodes: map<EpisodeId, Episode>, order: DigestOrder, limit: nat)
    ensures EndedIds(WithinLimit(episodes, order, limit)) == First(EndedIds(episodes), EndedOrder(episodes, order), limit)
  {
    forall id | id in EndedIds(episodes)
      ensures NewerThan(episodes, order, id) == Before(EndedIds(episodes), EndedOrder(episodes, order), id)
    {
    }
  }

  /** i ended later than j, or at the same time with the greater digest. */
  predicate EndedLater(episodes: map<EpisodeId, Episode>, order: DigestOrder, i: EpisodeId, j: EpisodeId) {
    && i in episodes && j in episodes && episodes[i].endedAt.Some? && episodes[j].endedAt.Some?
    && (episodes[j].endedAt.value < episodes[i].endedAt.value
        || (episodes[j].endedAt.value == episodes[i].endedAt.value && order(j) < order(i)))
  }

  /**
   Retention drops no open episode and rewrites none; of the ended ones it keeps as many
   unexpired ones as the limit of ten thousand allows, each later than every unexpired one it drops; ended
   more than a week ago is expired.
   */
  lemma PruneIsExact(episodes: map<EpisodeId, Episode>, order: DigestOrder, now: int)
    requires DigestsDistinct(episodes, order)
    ensures var kept := Pruned(episodes, order, now);
      var unexpired := Unexpired(episodes, now);
      && kept.Keys <= unexpired.Keys <= episodes.Keys
      && (forall id :: id in kept ==> kept[id] == episodes[id])
      && (forall id :: id in episodes && episodes[id].Open() ==> id in kept)
      && (forall id :: id in EndedIds(episodes) ==> (id in unexpired <==> now - 604_800_000 <= episodes[id].endedAt.value))
      && |EndedIds(kept)| == (if |EndedIds(unexpired)| > 10_000 then 10_000 else |EndedIds(unexpired)|)
      && (forall i, j :: i in EndedIds(kept) && j in EndedIds(unexpired) && j !in kept ==> EndedLater(episodes, order, i, j))
  {
    var unexpired := Unexpired(episodes, now);
    var kept := Pruned(episodes, order, now);
    EndedListed(unexpired, order);
    KeptIsFirst(unexpired, order, MAX_ENDED_EPISODES);
    FirstCount(EndedIds(unexpired), EndedOrder(unexpired, order), MAX_ENDED_EPISODES);
    forall i, j | i in EndedIds(kept) && j in EndedIds(unexpired) && j !in kept
      ensures EndedLater(episodes, order, i, j)
    {
      FirstPrecede(EndedIds(unexpired), EndedOrder(unexpired, order), MAX_ENDED_EPISODES, i, j);
    }
  }

  /**
   After a new cutoff no stored episode ended more than a week before its decision, at most ten thousand
   ended ones are stored, and one that ended within the week is dropped only for ten thousand later ones.
   */
  lemma EvaluationRetains(t: Tables, rows: seq<Row>, c: Context, order: DigestOrder)
    requires Valid(t) && DistinctAssets(rows) && OwnIdentities(rows) && ValidInputs(c.inputs) && IsNewCutoff(t, c.inputs.cutoff)
    requires DigestsDistinct(EvaluatedEpisodes(t, rows, c, Touched(t, rows)), order)
    ensures var after := EvaluateTables(t, rows, c, order).episodes;
      && (forall id :: id in EndedIds(after) ==> after[id].endedAt.value >= c.inputs.decisionAt - 604_800_000)
      && |EndedIds(after)| <= 10_000
      && (forall id :: id in t.episodes && StillCovered(t.episodes[id], c.inputs.decisionAt) && id !in after ==>
            |EndedIds(after)| == 10_000 && forall j :: j in EndedIds(after) ==> EndedBefore(t.episodes[id], id, after[j], j, order))
  {
    var evaluated := EvaluatedEpisodes(t, rows, c, Touched(t, rows));
    EndedEvaluated(t, rows, c);
    PrunedInEvaluation(t, rows, c, order);
    hide *;
    Retains(t.episodes, evaluated, order, c.inputs.decisionAt);
  }

  lemma PrunedInEvaluation(t: Tables, rows: seq<Row>, c: Context, order: DigestOrder)
    requires DistinctAssets(rows) && OwnIdentities(rows)
    ensures EvaluateTables(t, rows, c, order).episodes ==
      Pruned(EvaluatedEpisodes(t, rows, c, Touched(t, rows)), order, c.inputs.decisionAt)
  {
    hide EvaluatedEpisodes, Pruned;
  }

  /** Evaluation leaves what has ended. */
  lemma EndedEvaluated(t: Tables, rows: seq<Row>, c: Context)
    requires Valid(t) && DistinctAssets(rows) && OwnIdentities(rows) && ValidInputs(c.inputs) && IsNewCutoff(t, c.inputs.cutoff)
    ensures var evaluated := EvaluatedEpisodes(t, rows, c, Touched(t, rows));
      forall id :: id in t.episodes && t.episodes[id].endedAt.Some? ==> id in evaluated && evaluated[id] == t.episodes[id]
  {
    if t.latest.Some? {
      StartedFresh(t, rows, c, Touched(t, rows), t.latest.value.inputs.cutoff);
    }
    EvaluatedLookup(t, rows, c, Touched(t, rows));
    hide Coherent, Projected, EvaluatedEpisodes, StartedEpisodes;
  }

  lemma Retains(before: map<EpisodeId, Episode>, evaluated: map<EpisodeId, Episode>, order: DigestOrder, now: int)
    requires DigestsDistinct(evaluated, order)
    requires forall id :: id in before && before[id].endedAt.Some? ==> id in evaluated && evaluated[id] == before[id]
    ensures var after := Pruned(evaluated, order, now);
      && (forall id :: id in EndedIds(after) ==> after[id].endedAt.value >= now - 604_800_000)
      && |EndedIds(after)| <= 10_000
      && (forall id :: id in before && StillCovered(before[id], now) && id !in after ==>
            |EndedIds(after)| == 10_000 && forall j :: j in EndedIds(after) ==> EndedBefore(before[id], id, after[j], j, order))
  {
    PruneIsExact(evaluated, order, now);
    KeptIsRecent(evaluated, order, now);
    hide Pruned, Unexpired, DigestsDistinct, StillCovered, EndedBefore;
    forall id | id in before && StillCovered(before[id], now) && id !in Pruned(evaluated, order, now)
      ensures |EndedIds(Pruned(evaluated, order, now))| == 10_000
      ensures forall j :: j in EndedIds(Pruned(evaluated, order, now)) ==>
        EndedBefore(before[id], id, Pruned(evaluated, order, now)[j], j, order)
    {
      CoveredEnded(before[id], now);
      OneDropped(evaluated, order, now, id);
    }
  }

  lemma CoveredEnded(e: Episode, now: int)
    requires StillCovered(e, now)
    ensures e.endedAt.Some?
  {
  }

  lemma KeptIsRecent(episodes: map<EpisodeId, Episode>, order: DigestOrder, now: int)
    requires DigestsDistinct(episodes, order)
    ensures var after := Pruned(episodes, order, now);
      forall id :: id in EndedIds(after) ==> after[id].endedAt.value >= now - 604_800_000
  {
  }

  lemma OneDropped(episodes: map<EpisodeId, Episode>, order: DigestOrder, now: int, id: EpisodeId)
    requires DigestsDistinct(episodes, order)
    requires id in episodes && StillCovered(episodes[id], now) && id !in Pruned(episodes, order, now)
    ensures var after := Pruned(episodes, order, now);
      |EndedIds(after)| == 10_000 && forall j :: j in EndedIds(after) ==> EndedBefore(episodes[id], id, after[j], j, order)
  {
    assert id in EndedIds(Unexpired(episodes, now));
    SomeDropped(episodes, order, now);
    hide Pruned, Unexpired, DigestsDistinct, EndedLater, EndedBefore;
    forall j | j in EndedIds(Pruned(episodes, order, now))
      ensures EndedBefore(episodes[id], id, Pruned(episodes, order, now)[j], j, order)
    {
      DroppedForLater(episodes, order, now, j, id);
    }
  }

  lemma DroppedForLater(episodes: map<EpisodeId, Episode>, order: DigestOrder, now: int, i: EpisodeId, j: EpisodeId)
    requires DigestsDistinct(episodes, order)
    requires i in EndedIds(Pruned(episodes, order, now)) && j in EndedIds(Unexpired(episodes, now)) && j !in Pruned(episodes, order, now)
    ensures j in episodes && EndedBefore(episodes[j], j, Pruned(episodes, order, now)[i], i, order)
  {
    PruneIsExact(episodes, order, now);
    assert EndedLater(episodes, order, i, j);
  }

  /** An ended episode that the week still covers. */
  predicate StillCovered(e: Episode, now: int) {
    e.endedAt.Some? && e.endedAt.value >= now - 604_800_000
  }

  predicate EndedBefore(e: Episode, id: EpisodeId, f: Episode, j: EpisodeId, order: DigestOrder) {
    && e.endedAt.Some? && f.endedAt.Some?
    && (e.endedAt.value < f.endedAt.value || (e.endedAt.value == f.endedAt.value && order(id) < order(j)))
  }

  /** Whatever unexpired is dropped, the limit was reached. */
  lemma SomeDropped(episodes: map<EpisodeId, Episode>, order: DigestOrder, now: int)
    requires DigestsDistinct(episodes, order)
    ensures forall id :: id in EndedIds(Unexpired(episodes, now)) && id !in Pruned(episodes, order, now) ==>
      |EndedIds(Pruned(episodes, order, now))| == 10_000
  {
    PruneIsExact(episodes, order, now);
    var kept, all := EndedIds(Pruned(episodes, order, now)), EndedIds(Unexpired(episodes, now));
    forall id | id in all && id !in Pruned(episodes, order, now) ensures |kept| == 10_000 {
      assert kept <= all && id in all && id !in kept;
      if |kept| == |all| {
        SameSize(kept, all);
      }
    }
  }
}
