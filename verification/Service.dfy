/**
 The minute publisher: observe, commit a generation, then let discovery evaluate it, with
 retries of the exact pending generation and process restarts over the same store.

 The ghost log records every committed discovery operation; `Open` marks a process start.
 Reads of the two inputs and every storage failure are parameters of a cycle.
 */
module Service {
  import opened Prelude
  import opened Discovery
  import opened DiscoveryInvariant
  import opened DiscoveryHistory
  import opened DiscoveryStore

  /** A scored generation waiting to be, or already, committed. `market` names its market inputs. */
  datatype Generation = Generation(inputs: Inputs, market: string, rows: seq<Row>, evidence: bool)

  datatype Observation = RankingDown | MarketDown | Observed(inputs: Inputs, market: string, rows: seq<Row>)

  /** A write is refused and rolled back, or it commits and the call still raises. */
  datatype Fault = NoFault | FailsBefore | FailsAfter
  /** `preparing` is a failure to score, allocate or build the rows of a candidate that is not pending yet. */
  datatype Faults = Faults(preparing: bool, generation: Fault, discovery: Fault, interruptFails: bool)

  datatype InputKey = InputKey(rankingGeneration: string, mapVersion: string, metricVersion: string, market: string)

  function KeyOf(inputs: Inputs, market: string): InputKey {
    InputKey(inputs.rankingGeneration, inputs.mapVersion, inputs.metricVersion, market)
  }

  type Generations = map<string, Generation>

  predicate HasEvidenceCutoff(generations: Generations, cutoff: int) {
    exists id :: id in generations && generations[id].evidence && generations[id].inputs.cutoff == cutoff
  }

  /** The pending generation has these inputs, so it is retried as it is. */
  predicate Retries(pending: Option<Generation>, o: Observation)
    requires o.Observed?
  {
    pending.Some? && KeyOf(pending.value.inputs, pending.value.market) == KeyOf(o.inputs, o.market)
  }

  /** What a cycle commits: the pending generation of the same inputs, clocks and all, or a new one. */
  function Candidate(generations: Generations, pending: Option<Generation>, o: Observation): Generation
    requires o.Observed?
  {
    if Retries(pending, o) then pending.value
    else Generation(o.inputs, o.market, o.rows, o.inputs.cutoff % (5 * MINUTE) == 0 && !HasEvidenceCutoff(generations, o.inputs.cutoff))
  }

  predicate Storable(generations: Generations, g: Generation) {
    && (g.inputs.generation in generations ==> generations[g.inputs.generation] == g)
    && (g.inputs.generation !in generations && g.evidence ==> !HasEvidenceCutoff(generations, g.inputs.cutoff))
  }

  /** Newest decision first, then greatest id. `idOrder` is the text order of generation ids. */
  predicate IsLatest(generations: Generations, idOrder: string -> nat, id: string) {
    && id in generations
    && forall j :: j in generations ==>
         generations[j].inputs.decisionAt < generations[id].inputs.decisionAt
         || (generations[j].inputs.decisionAt == generations[id].inputs.decisionAt && idOrder(j) <= idOrder(id))
  }

  predicate Repeated(current: Option<Generation>, o: Observation) {
    o.Observed? && current.Some? && KeyOf(o.inputs, o.market) == KeyOf(current.value.inputs, current.value.market)
  }

  /** The committed generation is the one the store reads back as latest. */
  predicate GenerationCommitted(generations: Generations, idOrder: string -> nat, g: Generation, fault: Fault) {
    && fault == NoFault && Storable(generations, g)
    && IsLatest(generations[g.inputs.generation := g], idOrder, g.inputs.generation)
  }

  predicate Succeeds(generations: Generations, idOrder: string -> nat, g: Generation, faults: Faults) {
    && GenerationCommitted(generations, idOrder, g, faults.generation)
    && faults.discovery == NoFault && DistinctAssets(g.rows)
  }

  function Interruption(reason: string, faults: Faults): seq<Event> {
    if faults.interruptFails then [] else [Interrupt(reason)]
  }

  /** The discovery operations one cycle commits. */
  function Emitted(s: Service, o: Observation, faults: Faults): seq<Event>
    reads s
  {
    match o
    case RankingDown => Interruption("ranking_unavailable", faults)
    case MarketDown => Interruption("market_input_unavailable", faults)
    case Observed(_, _, _) =>
      var g := Candidate(s.generations, s.pending, o);
      if Repeated(s.current, o) then
        if s.discoveryRestarted then Interruption("awaiting_new_cutoff", faults) else []
      else if faults.preparing && !Retries(s.pending, o) then Interruption("storage_unavailable", faults)
      else Attempted(s, g, faults)
  }

  /** The discovery operations of one attempt to publish g. */
  function Attempted(s: Service, g: Generation, faults: Faults): seq<Event>
    reads s
  {
    var save := Save(s.policy, g.inputs, g.rows, s.discoveryRestarted);
    if !GenerationCommitted(s.generations, s.idOrder, g, faults.generation) || faults.discovery == FailsBefore || !DistinctAssets(g.rows) then
      Interruption("storage_unavailable", faults)
    else if faults.discovery == FailsAfter then [save] + Interruption("storage_unavailable", faults)
    else [save]
  }

  /** The cycle publishes: everything it needed was read and committed. */
  predicate Publishes(s: Service, o: Observation, faults: Faults)
    reads s
  {
    && o.Observed? && !Repeated(s.current, o) && (faults.preparing ==> Retries(s.pending, o))
    && Succeeds(s.generations, s.idOrder, Candidate(s.generations, s.pending, o), faults)
  }

  // ----- restarts in the log -----

  /** Some cutoff was evaluated before n and no process started since. */
  predicate EvaluatedSinceOpen(log: seq<Event>, n: int)
    requires 0 <= n <= |log|
  {
    exists k :: 0 <= k < n && Evaluates(log, k) && forall j :: k < j < n ==> !log[j].Open?
  }

  /** A save not marked restarted follows an evaluation by the same process. */
  predicate FlagsRestarts(log: seq<Event>) {
    forall i :: 0 <= i < |log| && log[i].Save? && !log[i].restarted ==> EvaluatedSinceOpen(log, i)
  }

  class Service {
    const policy: string
    const idOrder: string -> nat
    const store: Store
    var generations: Generations
    var current: Option<Generation>
    var pending: Option<Generation>
    var lastError: Option<string>
    var cycles: nat
    var discoveryRestarted: bool
    ghost var log: seq<Event>

    ghost predicate Valid()
      reads this, store
    {
      && WellFormedTrace(log)
      && store.Snapshot() == Run(log, store.order)
      && FlagsRestarts(log)
      && (!discoveryRestarted ==> EvaluatedSinceOpen(log, |log|))
      && (pending.Some? ==> OwnIdentities(pending.value.rows) && ValidInputs(pending.value.inputs))
      && EvidenceUnique(generations)
    }

    /** A process start over an existing store, whose current generation is its latest. */
    constructor (policy: string, idOrder: string -> nat, store: Store, generations: Generations, current: Option<Generation>, ghost history: seq<Event>)
      requires WellFormedTrace(history) && store.Snapshot() == Run(history, store.order)
      requires FlagsRestarts(history) && EvidenceUnique(generations)
      requires current.Some? ==> IsLatest(generations, idOrder, current.value.inputs.generation) && generations[current.value.inputs.generation] == current.value
      requires current.None? ==> generations == map[]
      ensures Valid() && log == history + [Open]
      ensures this.store == store && this.policy == policy && this.idOrder == idOrder
      ensures this.generations == generations && this.current == current && pending == None && discoveryRestarted
    {
      this.policy, this.idOrder, this.store := policy, idOrder, store;
      this.generations, this.current, pending := generations, current, None;
      lastError := Some(if current.Some? then "awaiting_input_validation" else "generation_pending");
      cycles, discoveryRestarted := 0, true;
      log := history + [Open];
      new;
      FlagsExtended(history, Open);
      RunExtended(history, Open, store.order);
    }

    method ObservationFailed(reason: string, faults: Faults)
      requires Valid()
      modifies this`lastError, this`log, store
      ensures Valid()
      ensures log == old(log) + Interruption(reason, faults)
      ensures lastError == Some(if faults.interruptFails then "storage_unavailable" else reason)
    {
      lastError := Some(reason);
      if faults.interruptFails {
        lastError := Some("storage_unavailable");
      } else {
        Record(Interrupt(reason));
        store.InterruptDiscovery(reason);
      }
      assert faults.interruptFails ==> log == old(log) + [];
    }

    /** The log takes the event the store is about to commit. */
    ghost method Record(e: Event)
      requires WellFormedTrace(log) && WellFormed(e) && FlagsRestarts(log)
      requires e.Save? && !e.restarted ==> EvaluatedSinceOpen(log, |log|)
      modifies this`log
      ensures log == old(log) + [e] && WellFormedTrace(log) && FlagsRestarts(log)
      ensures Run(log, store.order) == Step(Run(old(log), store.order), e, store.order)
      ensures old(EvaluatedSinceOpen(log, |log|)) && !e.Open? ==> EvaluatedSinceOpen(log, |log|)
    {
      FlagsExtended(log, e);
      RunExtended(log, e, store.order);
      log := log + [e];
    }

    /** Insert the immutable generation or confirm it is the one already committed. */
    method SaveGeneration(g: Generation, fault: Fault) returns (saved: bool)
      requires EvidenceUnique(generations)
      modifies this`generations
      ensures EvidenceUnique(generations)
      ensures generations == if fault == FailsBefore || !Storable(old(generations), g) then old(generations)
                             else old(generations)[g.inputs.generation := g]
      ensures saved <==> fault == NoFault && Storable(old(generations), g)
    {
      var id := g.inputs.generation;
      if fault == FailsBefore || (id in generations && generations[id] != g) {
        return false;
      }
      if id !in generations {
        if g.evidence && HasEvidenceCutoff(generations, g.inputs.cutoff) {
          return false;
        }
        generations := generations[id := g];
      }
      saved := fault == NoFault;
    }

    /** One publishing attempt. */
    method GenerateOnce(o: Observation, faults: Faults) returns (ok: bool)
      requires Valid()
      requires o.Observed? ==> OwnIdentities(o.rows) && ValidInputs(o.inputs)
      modifies this, store
      ensures Valid()
      ensures log == old(log) + old(Emitted(this, o, faults))
      ensures ok <==> old(Publishes(this, o, faults))
      ensures ok ==>
        && current == Some(old(Candidate(generations, pending, o))) && pending == None
        && lastError == None && cycles == old(cycles) + 1
        && generations == old(generations)[current.value.inputs.generation := current.value]
      ensures !ok ==> current == old(current) && cycles == old(cycles)
      ensures o.Observed? && old(Repeated(current, o)) ==>
        lastError == if old(discoveryRestarted) && faults.interruptFails then Some("storage_unavailable") else None
      ensures !o.Observed? ==> lastError == Some(
        if faults.interruptFails then "storage_unavailable" else if o.RankingDown? then "ranking_unavailable" else "market_input_unavailable")
      // A failed commit keeps the exact generation for the retry; a failure before it keeps the pending one.
      ensures o.Observed? && !old(Repeated(current, o)) && !ok ==> lastError == Some("storage_unavailable")
      ensures o.Observed? && !old(Repeated(current, o)) && !ok && faults.preparing && !old(Retries(pending, o)) ==>
        pending == old(pending)
      ensures o.Observed? && !old(Repeated(current, o)) && !ok && (faults.preparing ==> old(Retries(pending, o))) ==>
        pending == Some(old(Candidate(generations, pending, o)))
      ensures o.Observed? && faults.preparing && !old(Retries(pending, o)) ==> generations == old(generations)
      ensures !o.Observed? || old(Repeated(current, o)) ==> pending == old(pending) && generations == old(generations)
      // The restart mark is taken back only by an evaluation the caller saw succeed.
      ensures discoveryRestarted <==>
        old(discoveryRestarted) && !(ok && IsNewCutoff(old(store.Snapshot()), current.value.inputs.cutoff))
    {
      hide Run, EvaluatedSinceOpen, FlagsRestarts, DistinctAssets, IsNewCutoff;
      if o.RankingDown? {
        ObservationFailed("ranking_unavailable", faults);
        return false;
      }
      if o.MarketDown? {
        ObservationFailed("market_input_unavailable", faults);
        return false;
      }
      if current.Some? && KeyOf(o.inputs, o.market) == KeyOf(current.value.inputs, current.value.market) {
        if discoveryRestarted {
          ObservationFailed("awaiting_new_cutoff", faults);
          if lastError == Some("storage_unavailable") {
            return false;
          }
        }
        lastError := None;
        return false;
      }
      if faults.preparing && !Retries(pending, o) {
        ObservationFailed("storage_unavailable", faults);
        return false;
      }
      var g := Candidate(generations, pending, o);
      pending := Some(g);
      ok := Publish(g, faults);
    }

    /** Commit the pending generation and let discovery evaluate it. */
    method Publish(g: Generation, faults: Faults) returns (ok: bool)
      requires Valid() && pending == Some(g)
      modifies this, store
      ensures Valid()
      ensures ok <==> Succeeds(old(generations), idOrder, g, faults)
      ensures log == old(log) + old(Attempted(this, g, faults))
      ensures if ok then
          && current == Some(g) && pending == None && lastError == None && cycles == old(cycles) + 1
          && generations == old(generations)[g.inputs.generation := g]
        else
          && current == old(current) && pending == Some(g) && lastError == Some("storage_unavailable") && cycles == old(cycles)
      ensures discoveryRestarted <==>
        old(discoveryRestarted) && !(ok && IsNewCutoff(old(store.Snapshot()), g.inputs.cutoff))
    {
      hide Run, EvaluatedSinceOpen, FlagsRestarts, DistinctAssets, IsNewCutoff, HasEvidenceCutoff, ValidInputs, OwnIdentities, EvidenceUnique, IsLatest;
      var saved := SaveGeneration(g, faults.generation);
      if !saved || !IsLatest(generations, idOrder, g.inputs.generation) || faults.discovery == FailsBefore || !DistinctAssets(g.rows) {
        ObservationFailed("storage_unavailable", faults);
        return false;
      }
      ok := SaveDiscoveryRows(g, faults);
    }

    /** Let discovery evaluate the committed generation, and make it the current one. */
    method SaveDiscoveryRows(g: Generation, faults: Faults) returns (ok: bool)
      requires Valid() && pending == Some(g) && DistinctAssets(g.rows) && faults.discovery != FailsBefore
      modifies this`log, this`lastError, this`current, this`pending, this`cycles, this`discoveryRestarted, store
      ensures Valid()
      ensures ok <==> faults.discovery == NoFault
      ensures var save := Save(policy, g.inputs, g.rows, old(discoveryRestarted));
        log == old(log) + [save] + if ok then [] else Interruption("storage_unavailable", faults)
      ensures if ok then current == Some(g) && pending == None && lastError == None && cycles == old(cycles) + 1
        else current == old(current) && pending == Some(g) && lastError == Some("storage_unavailable") && cycles == old(cycles)
      ensures discoveryRestarted <==>
        old(discoveryRestarted) && !(ok && IsNewCutoff(old(store.Snapshot()), g.inputs.cutoff))
    {
      hide Run, EvaluatedSinceOpen, FlagsRestarts, DistinctAssets, IsNewCutoff, ValidInputs, OwnIdentities, EvidenceUnique, TakesNewCutoff;
      var evaluated := EvaluateDiscovery(g);
      if faults.discovery == FailsAfter {
        ObservationFailed("storage_unavailable", faults);
        return false;
      }
      if evaluated {
        discoveryRestarted := false;
      }
      pending := None;
      current := Some(g);
      lastError := None;
      cycles := cycles + 1;
      return true;
    }

    /** Save the committed generation's rows for discovery. */
    method EvaluateDiscovery(g: Generation) returns (evaluated: bool)
      requires Valid() && OwnIdentities(g.rows) && ValidInputs(g.inputs) && DistinctAssets(g.rows)
      modifies this`log, store
      ensures Valid()
      ensures log == old(log) + [Save(policy, g.inputs, g.rows, discoveryRestarted)]
      ensures evaluated <==> IsNewCutoff(old(store.Snapshot()), g.inputs.cutoff)
      ensures evaluated <==> TakesNewCutoff(log, store.order, |old(log)|)
      ensures evaluated ==>
        forall i :: TakesNewCutoff(log, store.order, i) && i < |old(log)| ==> log[i].inputs.cutoff < g.inputs.cutoff
      ensures evaluated ==> EvaluatedSinceOpen(log, |log|)
    {
      ghost var save := Save(policy, g.inputs, g.rows, discoveryRestarted);
      Record(save);
      var result := store.SaveDiscovery(policy, g.inputs, g.rows, discoveryRestarted);
      evaluated := result == EvaluatedCutoff;
      assert log[..|old(log)|] == old(log);
      if evaluated {
        LastEvaluates(old(log), save, store.order);
        forall i | TakesNewCutoff(log, store.order, i) && i < |old(log)| ensures log[i].inputs.cutoff < g.inputs.cutoff {
          EvaluatedOnceInOrder(log, store.order, i, |old(log)|);
        }
      }
    }
  }

  /** Whatever attempts, restarts and failures led here, each cutoff was evaluated at most once, in order. */
  lemma AttemptsEvaluateInOrder(s: Service, i: int, j: int)
    requires s.Valid() && i < j
    requires TakesNewCutoff(s.log, s.store.order, i) && TakesNewCutoff(s.log, s.store.order, j)
    ensures s.log[i].inputs.cutoff < s.log[j].inputs.cutoff
  {
    EvaluatedOnceInOrder(s.log, s.store.order, i, j);
  }

  /** Evidence is saved once a cutoff, and only at five-minute boundaries. */
  predicate EvidenceUnique(generations: Generations) {
    forall i, j :: i in generations && j in generations && i != j && generations[i].evidence && generations[j].evidence ==>
      generations[i].inputs.cutoff != generations[j].inputs.cutoff
  }

  lemma FlagsExtended(log: seq<Event>, e: Event)
    requires FlagsRestarts(log)
    requires e.Save? && !e.restarted ==> EvaluatedSinceOpen(log, |log|)
    ensures FlagsRestarts(log + [e])
    ensures EvaluatedSinceOpen(log, |log|) && !e.Open? ==> EvaluatedSinceOpen(log + [e], |log| + 1)
  {
    var longer := log + [e];
    forall n | 0 <= n <= |log| && EvaluatedSinceOpen(log, n) ensures EvaluatedSinceOpen(longer, n) {
      var k :| 0 <= k < n && Evaluates(log, k) && forall j :: k < j < n ==> !log[j].Open?;
      Extended(log, e, k);
    }
    forall i | 0 <= i < |longer| && longer[i].Save? && !longer[i].restarted ensures EvaluatedSinceOpen(longer, i) {
      assert i < |log| ==> longer[i] == log[i];
    }
    if EvaluatedSinceOpen(log, |log|) && !e.Open? {
      var k :| 0 <= k < |log| && Evaluates(longer, k) && forall j :: k < j < |log| ==> !longer[j].Open?;
    }
  }

  lemma LastEvaluates(log: seq<Event>, e: Event, order: DigestOrder)
    requires WellFormedTrace(log) && WellFormed(e) && Accepted(e)
    requires IsNewCutoff(Run(log, order), e.inputs.cutoff)
    ensures EvaluatedSinceOpen(log + [e], |log| + 1)
  {
    KindOfLast(log, e, order);
    assert Evaluates(log + [e], |log|);
  }

  // ----- what a log of any number of processes shows -----

  /**
   A row called continuing or new rests on an evaluation one minute before by the same
   process, with no failed observation recorded between: nothing bridges a restart or a gap.
   */
  lemma NothingBridged(log: seq<Event>, order: DigestOrder, n: nat, i: nat)
    requires WellFormedTrace(log) && FlagsRestarts(log)
    requires TakesNewCutoff(log, order, n) && i < |log[n].rows|
    requires Run(log[..n + 1], order).latest.Some? && i < |Run(log[..n + 1], order).latest.value.rows|
    requires var given := Run(log[..n + 1], order).latest.value.rows[i].confirmation;
      given == Some(Continuing) || given == Some(New)
    ensures exists k :: 0 <= k < n && Bridged(log, k, n, log[n].rows[i])
  {
    hide Run, WellFormed, Evaluates, Supports, Bridged, FlagsRestarts, Discovery.IsNewCutoff;
    var trace, e := log[..n], log[n];
    assert trace + [e] == log[..n + 1];
    TakenIffEvaluates(log, order, n);
    PrefixKinds(log, n);
    assert Evaluates(trace + [e], |trace|);
    TakenIsAccepted(log, order, n);
    ConfirmationIsHistory(trace, order, e, i);
    var row := e.rows[i];
    var was := if Supported(trace, e, row, Matched) then Matched else NotMatched;
    assert Supported(trace, e, row, was);
    var k :| Supports(trace, k, e, row, was);
    SupportBridges(log, n, k, row, was);
  }

  lemma TakenIsAccepted(log: seq<Event>, order: DigestOrder, n: int)
    requires WellFormedTrace(log) && TakesNewCutoff(log, order, n)
    ensures Accepted(log[n]) && WellFormed(log[n]) && WellFormedTrace(log[..n])
  {
  }

  lemma SupportBridges(log: seq<Event>, n: nat, k: int, row: Row, was: Condition)
    requires n < |log| && Evaluates(log, n) && FlagsRestarts(log) && !log[n].restarted
    requires Supports(log[..n], k, log[n], row, was)
    ensures 0 <= k < n && Bridged(log, k, n, row)
  {
    PrefixKinds(log, n);
    var trace := log[..n];
    assert EvaluatedSinceOpen(log, n);
    var m :| 0 <= m < n && Evaluates(log, m) && forall j :: m < j < n ==> !log[j].Open?;
    forall j | k < j < n ensures !log[j].Interrupt? && !Evaluates(log, j) {
      assert !Breaks(trace, j, row.identity, log[n].policy);
      assert trace[j] == log[j];
    }
    assert m <= k;
    assert trace[k] == log[k];
  }

  /** Event k evaluated the row one minute before n; no start, failure or evaluation lies between. */
  predicate Bridged(log: seq<Event>, k: int, n: int, row: Row)
    requires 0 <= k < n < |log|
  {
    && Evaluates(log, k) && log[n].Save? && log[k].inputs.cutoff + MINUTE == log[n].inputs.cutoff
    && FindRow(log[k].rows, row.asset).Some? && FindRow(log[k].rows, row.asset).value.identity == row.identity
    && forall j :: k < j < n ==> !log[j].Open? && !log[j].Interrupt? && !Evaluates(log, j)
  }

  lemma PrefixKinds(log: seq<Event>, n: nat)
    requires n < |log|
    ensures forall k :: 0 <= k < n ==> Evaluates(log[..n], k) == Evaluates(log, k)
    ensures Evaluates(log[..n] + [log[n]], n) == Evaluates(log, n)
  {
    assert log[..n] + [log[n]] == log[..n + 1];
  }
}
