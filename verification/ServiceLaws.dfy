/**
 When a publishing cycle commits, retries, repeats or only records a failure, read off what was
 observed, the current and pending generations and the stored ones.
 */
module ServiceLaws {
  import opened Prelude
  import opened Discovery
  import opened DiscoveryHistory
  import opened Service

  /** The same ranking generation under the same map and metric, with the same market inputs; clocks and ids do not matter. */
  predicate SameMarket(a: Inputs, market: string, b: Inputs, other: string) {
    a.rankingGeneration == b.rankingGeneration && a.mapVersion == b.mapVersion && a.metricVersion == b.metricVersion && market == other
  }

  predicate Shows(g: Option<Generation>, o: Observation) {
    o.Observed? && g.Some? && SameMarket(g.value.inputs, g.value.market, o.inputs, o.market)
  }

  /** An observation repeats the current generation, or retries the pending one, exactly on those four inputs. */
  lemma RepeatsIffSameMarket(s: Service, o: Observation)
    ensures Repeated(s.current, o) <==> Shows(s.current, o)
    ensures o.Observed? ==> (Retries(s.pending, o) <==> Shows(s.pending, o))
  {
  }

  /** A failed observation is recorded under this reason, unless recording it fails too. */
  predicate OnlyFailure(events: seq<Event>, reason: string, faults: Faults) {
    events == if faults.interruptFails then [] else [Interrupt(reason)]
  }

  /** What a cycle records when it does not get as far as committing a generation. */
  lemma CycleWithoutCommit(s: Service, o: Observation, faults: Faults)
    ensures o.RankingDown? ==> OnlyFailure(Emitted(s, o, faults), "ranking_unavailable", faults)
    ensures o.MarketDown? ==> OnlyFailure(Emitted(s, o, faults), "market_input_unavailable", faults)
    ensures Shows(s.current, o) && s.discoveryRestarted ==> OnlyFailure(Emitted(s, o, faults), "awaiting_new_cutoff", faults)
    ensures Shows(s.current, o) && !s.discoveryRestarted ==> Emitted(s, o, faults) == []
    ensures o.Observed? && !Shows(s.current, o) && faults.preparing && !Shows(s.pending, o) ==>
      OnlyFailure(Emitted(s, o, faults), "storage_unavailable", faults)
    ensures !o.Observed? || Shows(s.current, o) ==> !Publishes(s, o, faults)
  {
  }

  const NO_FAULTS := Faults(false, NoFault, NoFault, false)

  /** Every stored generation was decided before the given time. */
  predicate AllBefore(generations: Generations, decisionAt: int) {
    forall id :: id in generations ==> generations[id].inputs.decisionAt < decisionAt
  }

  predicate EvidenceAt(generations: Generations, cutoff: int) {
    exists id :: id in generations && generations[id].evidence && generations[id].inputs.cutoff == cutoff
  }

  /**
   An undisturbed cycle with new inputs and a new id publishes them: it saves exactly the observed rows
   under the observed clocks, and the generation is evidence exactly for the first of a five-minute cutoff.
   */
  lemma NewInputsArePublished(s: Service, o: Observation)
    requires o.Observed? && !Shows(s.current, o) && !Shows(s.pending, o) && DistinctAssets(o.rows)
    requires o.inputs.generation !in s.generations && AllBefore(s.generations, o.inputs.decisionAt)
    ensures Publishes(s, o, NO_FAULTS) && Emitted(s, o, NO_FAULTS) == [Save(s.policy, o.inputs, o.rows, s.discoveryRestarted)]
    ensures Candidate(s.generations, s.pending, o) == Generation(o.inputs, o.market, o.rows,
      o.inputs.cutoff % 300_000 == 0 && !EvidenceAt(s.generations, o.inputs.cutoff))
  {
  }

  /** An undisturbed cycle over the inputs of the pending generation publishes that one, with its own clocks, rows and evidence. */
  lemma PendingIsRetried(s: Service, o: Observation)
    requires o.Observed? && !Shows(s.current, o) && Shows(s.pending, o) && DistinctAssets(s.pending.value.rows)
    requires AllBefore(s.generations - {s.pending.value.inputs.generation}, s.pending.value.inputs.decisionAt)
    requires s.pending.value.inputs.generation in s.generations ==>
      s.generations[s.pending.value.inputs.generation] == s.pending.value
    requires s.pending.value.inputs.generation !in s.generations ==>
      !(s.pending.value.evidence && EvidenceAt(s.generations, s.pending.value.inputs.cutoff))
    ensures Publishes(s, o, NO_FAULTS)
    ensures Emitted(s, o, NO_FAULTS) == [Save(s.policy, s.pending.value.inputs, s.pending.value.rows, s.discoveryRestarted)]
    ensures Candidate(s.generations, s.pending, o) == s.pending.value
  {
    var g := s.pending.value;
    var id := g.inputs.generation;
    forall j | j in s.generations[id := g] && j != id ensures s.generations[j].inputs.decisionAt < g.inputs.decisionAt {
      assert j in s.generations - {id};
    }
  }

  /** A generation is never published over another of its id, over a later decision, or as second evidence of its cutoff. */
  lemma NotPublished(s: Service, o: Observation, faults: Faults)
    requires o.Observed?
    requires var g := Candidate(s.generations, s.pending, o);
      || (g.inputs.generation in s.generations && s.generations[g.inputs.generation] != g)
      || (exists id :: id in s.generations && id != g.inputs.generation && s.generations[id].inputs.decisionAt > g.inputs.decisionAt)
      || (g.inputs.generation !in s.generations && g.evidence && EvidenceAt(s.generations, g.inputs.cutoff))
    ensures !Publishes(s, o, faults)
    ensures forall i :: 0 <= i < |Emitted(s, o, faults)| ==> !Emitted(s, o, faults)[i].Save?
  {
    var g := Candidate(s.generations, s.pending, o);
    if id :| id in s.generations && id != g.inputs.generation && s.generations[id].inputs.decisionAt > g.inputs.decisionAt {
      assert s.generations[g.inputs.generation := g][id] == s.generations[id];
    }
  }
}
