/**
 Whole histories of writer operations: what "continuing" means in terms of the recorded
 events alone, and what no later event can change.
 */
module DiscoveryHistory {
  import opened Prelude
  import opened Discovery
  import opened DiscoveryInvariant

  /** A committed writer operation; `Open` is a process start over the same database. */
  datatype Event =
    | Save(policy: string, inputs: Inputs, rows: seq<Row>, restarted: bool)
    | Interrupt(reason: string)
    | Open

  predicate WellFormed(e: Event) {
    e.Save? ==> OwnIdentities(e.rows) && ValidInputs(e.inputs)
  }

  predicate WellFormedTrace(trace: seq<Event>) {
    forall i :: 0 <= i < |trace| ==> WellFormed(trace[i])
  }

  function ContextOf(e: Event): Context
    requires e.Save?
  {
    Context(e.policy, e.inputs, e.restarted)
  }

  ghost function Step(t: Tables, e: Event, order: DigestOrder): Tables
    requires Valid(t) && WellFormed(e)
    ensures Valid(Step(t, e, order))
  {
    match e
    case Save(_, _, rows, _) => SaveValid(t, rows, ContextOf(e), order); SaveTables(t, rows, ContextOf(e), order)
    case Interrupt(reason) => InterruptValid(t, reason); InterruptTables(t, reason)
    case Open => t
  }

  /** The tables after a history of operations on a new database. */
  ghost function Run(trace: seq<Event>, order: DigestOrder): (t: Tables)
    requires WellFormedTrace(trace)
    ensures Valid(t)
  {
    if trace == [] then EmptyValid(); EMPTY
    else Step(Run(trace[..|trace| - 1], order), trace[|trace| - 1], order)
  }

  // ----- reading a history without the tables -----

  predicate Accepted(e: Event) {
    e.Save? && DistinctAssets(e.rows)
  }

  /** Event i evaluates: it saves a cutoff above every cutoff saved before it. */
  predicate Evaluates(trace: seq<Event>, i: int) {
    && 0 <= i < |trace| && Accepted(trace[i])
    && forall j :: 0 <= j < i && Accepted(trace[j]) ==> trace[j].inputs.cutoff < trace[i].inputs.cutoff
  }

  /** Event i refreshes: it saves again the greatest cutoff saved before it. */
  predicate Refreshes(trace: seq<Event>, i: int) {
    && 0 <= i < |trace| && Accepted(trace[i]) && !Evaluates(trace, i)
    && forall j :: 0 <= j < i && Accepted(trace[j]) ==> trace[j].inputs.cutoff <= trace[i].inputs.cutoff
  }

  /** Event j ends the continuity of a row with this identity evaluated under this policy. */
  predicate Breaks(trace: seq<Event>, j: int, identity: IdentityKey, policy: string)
    requires 0 <= j < |trace|
  {
    || trace[j].Interrupt?
    || Evaluates(trace, j)
    || (Refreshes(trace, j) &&
        match FindRow(trace[j].rows, identity.asset)
        case None => true
        case Some(row) => Unavailable(row, trace[j].restarted) || row.identity != identity || trace[j].policy != policy)
  }

  /** Event i evaluated this asset's row. */
  predicate Observed(trace: seq<Event>, i: int, a: string) {
    Evaluates(trace, i) && FindRow(trace[i].rows, a).Some?
  }

  /** Event i is the last one that evaluated this asset's row. */
  predicate LastObserved(trace: seq<Event>, i: int, a: string) {
    Observed(trace, i, a) && forall j :: i < j < |trace| ==> !Observed(trace, j, a)
  }

  predicate Unbroken(trace: seq<Event>, i: int, identity: IdentityKey, policy: string)
    requires 0 <= i < |trace|
  {
    forall j :: i < j < |trace| ==> !Breaks(trace, j, identity, policy)
  }

  /**
   The history supports carrying the condition into `e`: exactly one minute earlier the same
   identity was evaluated with condition `was`, under the same policy, map and metric, and
   nothing recorded since broke it.
   */
  predicate Supports(trace: seq<Event>, i: int, e: Event, row: Row, was: Condition)
    requires e.Save?
  {
    && Observed(trace, i, row.asset)
    && trace[i].inputs.cutoff + MINUTE == e.inputs.cutoff
    && trace[i].policy == e.policy
    && trace[i].inputs.mapVersion == e.inputs.mapVersion
    && trace[i].inputs.metricVersion == e.inputs.metricVersion
    && FindRow(trace[i].rows, row.asset).value.identity == row.identity
    && FindRow(trace[i].rows, row.asset).value.state == was
    && Unbroken(trace, i, row.identity, e.policy)
  }

  /** What the asset's state says about the history. */
  predicate Remembers(trace: seq<Event>, s: AssetState, i: int, a: string)
    requires LastObserved(trace, i, a)
  {
    var row := FindRow(trace[i].rows, a).value;
    && s.identity == row.identity
    && s.policy == trace[i].policy
    && s.cutoff == trace[i].inputs.cutoff
    && s.mapVersion == trace[i].inputs.mapVersion
    && s.metricVersion == trace[i].inputs.metricVersion
    && s.state == if Unbroken(trace, i, row.identity, trace[i].policy) then row.state else Unknown
  }

  // ----- a history extended by one event -----

  lemma Extended(trace: seq<Event>, e: Event, i: int)
    requires 0 <= i < |trace|
    ensures (trace + [e])[i] == trace[i]
    ensures Evaluates(trace + [e], i) == Evaluates(trace, i)
    ensures Refreshes(trace + [e], i) == Refreshes(trace, i)
    ensures forall a :: Observed(trace + [e], i, a) == Observed(trace, i, a)
    ensures forall identity, policy :: Breaks(trace + [e], i, identity, policy) == Breaks(trace, i, identity, policy)
  {
    var longer := trace + [e];
    assert forall j :: 0 <= j < |trace| ==> longer[j] == trace[j];
  }

  lemma UnbrokenExtended(trace: seq<Event>, e: Event, i: int, identity: IdentityKey, policy: string)
    requires 0 <= i < |trace|
    ensures Unbroken(trace + [e], i, identity, policy) <==>
      Unbroken(trace, i, identity, policy) && !Breaks(trace + [e], |trace|, identity, policy)
  {
    forall j | 0 <= j < |trace|
      ensures Breaks(trace + [e], j, identity, policy) == Breaks(trace, j, identity, policy)
    {
      Extended(trace, e, j);
    }
  }

  lemma LastObservedExtended(trace: seq<Event>, e: Event, i: int, a: string)
    requires 0 <= i < |trace|
    ensures LastObserved(trace + [e], i, a) <==> LastObserved(trace, i, a) && !Observed(trace + [e], |trace|, a)
  {
    forall j | 0 <= j < |trace| ensures Observed(trace + [e], j, a) == Observed(trace, j, a) {
      Extended(trace, e, j);
    }
  }

  /** The latest response carries the greatest accepted cutoff. */
  lemma {:induction false} LatestCutoff(trace: seq<Event>, order: DigestOrder)
    requires WellFormedTrace(trace)
    ensures var latest := Run(trace, order).latest;
      && (latest.None? <==> forall j :: 0 <= j < |trace| ==> !Accepted(trace[j]))
      && (latest.Some? ==>
            && (exists j :: 0 <= j < |trace| && Accepted(trace[j]) && trace[j].inputs.cutoff == latest.value.inputs.cutoff)
            && (forall j :: 0 <= j < |trace| && Accepted(trace[j]) ==> trace[j].inputs.cutoff <= latest.value.inputs.cutoff))
  {
    if trace != [] {
      hide Step, Accepted, WellFormed, Valid;
      var rest := trace[..|trace| - 1];
      LatestCutoff(rest, order);
      StepLatest(Run(rest, order), trace[|trace| - 1], order);
      assert trace == rest + [trace[|trace| - 1]];
    }
  }

  function Later(a: int, b: int): int {
    if a < b then b else a
  }

  /** A step moves the latest cutoff only up, to an accepted one. */
  lemma StepLatest(t: Tables, e: Event, order: DigestOrder)
    requires Valid(t) && WellFormed(e)
    ensures var after := Step(t, e, order).latest;
      && (after.None? <==> t.latest.None? && !Accepted(e))
      && (t.latest.None? && Accepted(e) ==> after.Some? && after.value.inputs.cutoff == e.inputs.cutoff)
      && (t.latest.Some? ==> after.Some?)
      && (t.latest.Some? && Accepted(e) ==> after.value.inputs.cutoff == Later(t.latest.value.inputs.cutoff, e.inputs.cutoff))
      && (t.latest.Some? && !Accepted(e) ==> after.value.inputs.cutoff == t.latest.value.inputs.cutoff)
  {
  }

  lemma RunExtended(trace: seq<Event>, e: Event, order: DigestOrder)
    requires WellFormedTrace(trace) && WellFormed(e)
    ensures Run(trace + [e], order) == Step(Run(trace, order), e, order)
  {
  }

  /** The tables tell a new cutoff from a repeated one exactly as the history does. */
  lemma KindOfLast(trace: seq<Event>, e: Event, order: DigestOrder)
    requires WellFormedTrace(trace) && WellFormed(e) && Accepted(e)
    ensures Evaluates(trace + [e], |trace|) <==> IsNewCutoff(Run(trace, order), e.inputs.cutoff)
    ensures Refreshes(trace + [e], |trace|) <==> IsSameCutoff(Run(trace, order), e.inputs.cutoff)
  {
    LatestCutoff(trace, order);
    var longer := trace + [e];
    assert forall j :: 0 <= j < |trace| ==> longer[j] == trace[j];
  }

  /** Event i is a save that the tables it meets take for a new cutoff: the save that evaluates. */
  ghost predicate TakesNewCutoff(trace: seq<Event>, order: DigestOrder, i: int)
    requires WellFormedTrace(trace)
  {
    0 <= i < |trace| && Accepted(trace[i]) && IsNewCutoff(Run(trace[..i], order), trace[i].inputs.cutoff)
  }

  /** What the tables take for a new cutoff is above every cutoff saved before, and the other way round. */
  lemma TakenIffEvaluates(trace: seq<Event>, order: DigestOrder, i: int)
    requires WellFormedTrace(trace)
    ensures TakesNewCutoff(trace, order, i) <==> Evaluates(trace, i)
  {
    if 0 <= i < |trace| && Accepted(trace[i]) {
      var before := trace[..i];
      KindOfLast(before, trace[i], order);
      assert before + [trace[i]] == trace[..i + 1];
      assert Evaluates(trace[..i + 1], i) <==> Evaluates(trace, i);
    }
  }

  /**
   Over every history, the cutoffs that saves evaluate are strictly increasing: none is evaluated
   twice, and none after a later one.
   */
  lemma EvaluatedOnceInOrder(trace: seq<Event>, order: DigestOrder, i: int, j: int)
    requires WellFormedTrace(trace) && i < j
    requires TakesNewCutoff(trace, order, i) && TakesNewCutoff(trace, order, j)
    ensures trace[i].inputs.cutoff < trace[j].inputs.cutoff
  {
    LatestCutoff(trace[..j], order);
    assert trace[..j][i] == trace[i];
  }

  /** The episodes agree in everything but whether they are suspended, and why. */
  predicate CountedAlike(before: Episode, after: Episode) {
    after == before.(status := after.status, interruptionReason := after.interruptionReason)
  }

  /** Only an evaluation starts, confirms, ends or prunes an episode. */
  lemma OnlyEvaluationsCount(t: Tables, e: Event, order: DigestOrder)
    requires Valid(t) && WellFormed(e)
    requires !(Accepted(e) && IsNewCutoff(t, e.inputs.cutoff))
    ensures var after := Step(t, e, order).episodes;
      after.Keys == t.episodes.Keys && forall id :: id in after ==> CountedAlike(t.episodes[id], after[id])
  {
    hide Valid;
  }

  /** One asset's state after one event. */
  function StateAfter(t: Tables, e: Event, a: string): Option<AssetState> {
    var prior := Lookup(t.states, a);
    match e
    case Open => prior
    case Interrupt(_) => if prior.Some? then Some(Forgotten(prior.value)) else None
    case Save(_, inputs, rows, _) =>
      if !DistinctAssets(rows) then prior
      else if IsNewCutoff(t, inputs.cutoff) then
        match FindRow(rows, a)
        case Some(row) => Some(StateOf(prior, row, ContextOf(e)))
        case None => if prior.Some? then Some(Forgotten(prior.value)) else None
      else if IsSameCutoff(t, inputs.cutoff) && prior.Some? && RefreshBreak(prior.value, FindRow(rows, a), ContextOf(e)).Some? then
        Some(Forgotten(prior.value))
      else prior
  }

  lemma StepState(t: Tables, e: Event, order: DigestOrder, a: string)
    requires Valid(t) && WellFormed(e)
    ensures Lookup(Step(t, e, order).states, a) == StateAfter(t, e, a)
  {
    hide Valid, Pruned, EvaluatedEpisodes;
    if e.Save? && DistinctAssets(e.rows) && IsNewCutoff(t, e.inputs.cutoff) {
      assert a in AssetsOf(e.rows) <==> FindRow(e.rows, a).Some?;
    } else if e.Interrupt? && t.latest.None? {
      assert t.states == map[] by { EmptyWithoutLatest(t); }
    }
  }

  lemma EmptyWithoutLatest(t: Tables)
    requires Valid(t) && t.latest.None?
    ensures t.states == map[] && t.episodes == map[]
  {
  }

  ghost predicate MemoryIs(trace: seq<Event>, s: Option<AssetState>, a: string) {
    && (s.Some? <==> exists i :: LastObserved(trace, i, a))
    && (forall i :: LastObserved(trace, i, a) ==> s.Some? && Remembers(trace, s.value, i, a))
  }

  lemma MemoryStep(trace: seq<Event>, e: Event, order: DigestOrder, a: string)
    requires WellFormedTrace(trace) && WellFormed(e)
    requires MemoryIs(trace, Lookup(Run(trace, order).states, a), a)
    ensures MemoryIs(trace + [e], StateAfter(Run(trace, order), e, a), a)
  {
    hide Run;
    var t := Run(trace, order);
    var longer := trace + [e];
    var n := |trace|;
    var prior := Lookup(t.states, a);
    var after := StateAfter(t, e, a);
    if Accepted(e) {
      KindOfLast(trace, e, order);
    }
    if Observed(longer, n, a) {
      assert LastObserved(longer, n, a);
      assert Remembers(longer, after.value, n, a);
      forall i | LastObserved(longer, i, a) ensures i == n {}
    } else {
      forall i | 0 <= i < n ensures LastObserved(longer, i, a) == LastObserved(trace, i, a) {
        LastObservedExtended(trace, e, i, a);
      }
      if prior.Some? {
        var i :| LastObserved(trace, i, a);
        assert LastObserved(longer, i, a);
      }
      forall i | LastObserved(longer, i, a) ensures after.Some? && Remembers(longer, after.value, i, a) {
        assert i < n;
        assert Remembers(trace, prior.value, i, a);
        MemoryKept(trace, e, order, a, i);
      }
    }
  }

  /** An event that does not observe the asset keeps what it remembers, or breaks it. */
  lemma MemoryKept(trace: seq<Event>, e: Event, order: DigestOrder, a: string, i: nat)
    requires WellFormedTrace(trace) && WellFormed(e)
    requires LastObserved(trace, i, a) && LastObserved(trace + [e], i, a) && !Observed(trace + [e], |trace|, a)
    requires Lookup(Run(trace, order).states, a).Some?
    requires Remembers(trace, Lookup(Run(trace, order).states, a).value, i, a)
    ensures StateAfter(Run(trace, order), e, a).Some?
    ensures Remembers(trace + [e], StateAfter(Run(trace, order), e, a).value, i, a)
  {
    var s := Lookup(Run(trace, order).states, a).value;
    assert s.identity.asset == a by { assert WellFormed(trace[i]); }
    BreakIsForgetting(trace, e, order, a, s);
    hide Run, StateAfter, Breaks, LastObserved;
    assert (trace + [e])[i] == trace[i];
    UnbrokenExtended(trace, e, i, s.identity, s.policy);
  }

  /** An event that does not observe the asset makes its state unknown exactly if it breaks it. */
  lemma BreakIsForgetting(trace: seq<Event>, e: Event, order: DigestOrder, a: string, s: AssetState)
    requires WellFormedTrace(trace) && WellFormed(e) && !Observed(trace + [e], |trace|, a)
    requires Lookup(Run(trace, order).states, a) == Some(s) && s.identity.asset == a
    ensures StateAfter(Run(trace, order), e, a) ==
      Some(if Breaks(trace + [e], |trace|, s.identity, s.policy) then Forgotten(s) else s)
  {
    if Accepted(e) {
      KindOfLast(trace, e, order);
    }
    hide Run, Evaluates, Refreshes;
    assert (trace + [e])[|trace|] == e;
  }

  /** The discovery state of every asset is exactly what the history says of it. */
  lemma {:induction false} Memory(trace: seq<Event>, order: DigestOrder, a: string)
    requires WellFormedTrace(trace)
    ensures MemoryIs(trace, Lookup(Run(trace, order).states, a), a)
  {
    if trace != [] {
      var rest := trace[..|trace| - 1];
      var e := trace[|trace| - 1];
      Memory(rest, order, a);
      assert rest + [e] == trace;
      RunExtended(rest, e, order);
      StepState(Run(rest, order), e, order, a);
      MemoryStep(rest, e, order, a);
    }
  }

  // ----- the confirmation a row is given -----

  /** The identity was evaluated before, whatever happened since. */
  ghost predicate Known(trace: seq<Event>, e: Event, row: Row)
    requires e.Save?
  {
    exists i :: LastObserved(trace, i, row.asset)
      && FindRow(trace[i].rows, row.asset).value.identity == row.identity && trace[i].policy == e.policy
  }

  ghost predicate Supported(trace: seq<Event>, e: Event, row: Row, was: Condition)
    requires e.Save?
  {
    !e.restarted && exists i :: Supports(trace, i, e, row, was)
  }

  /** The confirmation a history gives to a row of a new cutoff. */
  ghost function ConfirmationByHistory(trace: seq<Event>, e: Event, row: Row): Option<Confirmation>
    requires e.Save?
  {
    if row.state != Matched then None
    else if Supported(trace, e, row, Matched) then Some(Continuing)
    else if Supported(trace, e, row, NotMatched) then Some(New)
    else if Known(trace, e, row) then Some(Reconfirmation)
    else Some(InitialConfirmation)
  }

  /** Support is continuity of the asset's state with that condition. */
  lemma SupportedIffContiguous(trace: seq<Event>, order: DigestOrder, e: Event, row: Row, was: Condition)
    requires WellFormedTrace(trace) && WellFormed(e) && e.Save? && was != Unknown
    requires row.identity.asset == row.asset
    ensures var prior := Lookup(Run(trace, order).states, row.asset);
      Supported(trace, e, row, was) <==>
      prior.Some? && Contiguous(prior.value, row, ContextOf(e)) && prior.value.state == was
  {
    Memory(trace, order, row.asset);
    if row.asset in Run(trace, order).states {
      StateShape(Run(trace, order), row.asset);
    }
    SupportedIffRemembered(trace, e, row, was, Lookup(Run(trace, order).states, row.asset));
  }

  lemma SupportedIffRemembered(trace: seq<Event>, e: Event, row: Row, was: Condition, prior: Option<AssetState>)
    requires e.Save? && was != Unknown
    requires MemoryIs(trace, prior, row.asset)
    requires prior.Some? ==> (prior.value.interrupted <==> prior.value.state == Unknown)
    ensures Supported(trace, e, row, was) <==>
      prior.Some? && Contiguous(prior.value, row, ContextOf(e)) && prior.value.state == was
  {
    hide Breaks;
    if i :| Supports(trace, i, e, row, was) {
      assert LastObserved(trace, i, row.asset) by { SupportIsLast(trace, i, e, row, was); }
      assert Remembers(trace, prior.value, i, row.asset);
    }
    if prior.Some? && Contiguous(prior.value, row, ContextOf(e)) && prior.value.state == was {
      var i :| LastObserved(trace, i, row.asset);
      assert Remembers(trace, prior.value, i, row.asset);
      assert Supports(trace, i, e, row, was);
    }
  }

  lemma SupportIsLast(trace: seq<Event>, i: int, e: Event, row: Row, was: Condition)
    requires e.Save? && Supports(trace, i, e, row, was)
    ensures LastObserved(trace, i, row.asset)
  {
    forall j | i < j < |trace| ensures !Observed(trace, j, row.asset) {
      assert !Breaks(trace, j, row.identity, e.policy);
    }
  }

  lemma StateShape(t: Tables, a: string)
    requires Valid(t) && a in t.states
    ensures t.states[a].interrupted <==> t.states[a].state == Unknown
    ensures t.states[a].state == Matched ==> t.states[a].episodeId.Some?
    ensures t.states[a].state == NotMatched ==> t.states[a].episodeId.None?
  {
  }

  /** The confirmation the tables give a row is the one its history gives it. */
  lemma ConfirmationAgrees(trace: seq<Event>, order: DigestOrder, e: Event, row: Row)
    requires WellFormedTrace(trace) && WellFormed(e) && e.Save? && row.identity.asset == row.asset
    ensures ConfirmationOf(Lookup(Run(trace, order).states, row.asset), row, ContextOf(e)) == ConfirmationByHistory(trace, e, row)
  {
    var t := Run(trace, order);
    SupportedIffContiguous(trace, order, e, row, Matched);
    SupportedIffContiguous(trace, order, e, row, NotMatched);
    Memory(trace, order, row.asset);
    if row.asset in t.states {
      StateShape(t, row.asset);
      KnownIffSameIdentity(trace, e, row, t.states[row.asset]);
    } else {
      assert !Known(trace, e, row);
    }
    hide Run, Supported, Known, Contiguous;
  }

  /**
   Over every history, a row of a new cutoff is called continuing, new, reconfirmed or
   initially confirmed exactly as the recorded events say, and names the episode its asset has.
   */
  lemma ConfirmationIsHistory(trace: seq<Event>, order: DigestOrder, e: Event, i: nat)
    requires WellFormedTrace(trace) && WellFormed(e) && Accepted(e)
    requires Evaluates(trace + [e], |trace|) && i < |e.rows|
    ensures var t := Run(trace + [e], order);
      && t.latest.Some? && |t.latest.value.rows| == |e.rows|
      && var row := t.latest.value.rows[i];
        && row.asset == e.rows[i].asset && row.asset in t.states
        && row.state == e.rows[i].state
        && row.confirmation == ConfirmationByHistory(trace, e, e.rows[i])
        && row.episodeId == t.states[row.asset].episodeId
  {
    RunExtended(trace, e, order);
    KindOfLast(trace, e, order);
    var t := Run(trace, order);
    var row := e.rows[i];
    assert row in e.rows;
    ConfirmationAgrees(trace, order, e, row);
    StepState(t, e, order, row.asset);
    FindRowUnique(e.rows, i);
    assert Run(trace + [e], order).latest == Some(EvaluatedResponse(t, e.rows, ContextOf(e)));
  }

  lemma KnownIffSameIdentity(trace: seq<Event>, e: Event, row: Row, s: AssetState)
    requires e.Save? && MemoryIs(trace, Some(s), row.asset)
    ensures Known(trace, e, row) <==> SameIdentity(s, row, e.policy)
  {
  }

  // ----- what later events cannot change -----

  /** The episode still reads as `e`, or retention has removed it for good. */
  predicate Settled(t: Tables, id: EpisodeId, e: Episode) {
    && t.latest.Some? && id.cutoff <= t.latest.value.inputs.cutoff
    && (id in t.episodes ==> t.episodes[id] == e)
  }

  lemma StepKeepsSettled(t: Tables, ev: Event, order: DigestOrder, id: EpisodeId, e: Episode)
    requires Valid(t) && WellFormed(ev) && Settled(t, id, e) && !e.Open()
    ensures Settled(Step(t, ev, order), id, e)
  {
    if ev.Save? && DistinctAssets(ev.rows) && IsNewCutoff(t, ev.inputs.cutoff) {
      var c := ContextOf(ev);
      if id in StartedEpisodes(t, ev.rows, c, Touched(t, ev.rows)) {
        StartedOk(t, ev.rows, c, Touched(t, ev.rows), id);
        assert false;
      }
    }
  }

  /** Over every history, an ended episode never changes again and never comes back. */
  lemma {:induction false} EndedForever(trace: seq<Event>, order: DigestOrder, n: nat, id: EpisodeId)
    requires WellFormedTrace(trace) && n <= |trace|
    requires id in Run(trace[..n], order).episodes && !Run(trace[..n], order).episodes[id].Open()
    ensures Settled(Run(trace, order), id, Run(trace[..n], order).episodes[id])
    decreases |trace|
  {
    hide Run, Step, Settled, Valid, WellFormed;
    var t := Run(trace[..n], order);
    if n == |trace| {
      assert trace[..n] == trace;
      EndedNow(t, id);
    } else {
      var rest, last := trace[..|trace| - 1], trace[|trace| - 1];
      assert rest[..n] == trace[..n];
      assert rest + [last] == trace;
      EndedForever(rest, order, n, id);
      RunExtended(rest, last, order);
      StepKeepsSettled(Run(rest, order), last, order, id, t.episodes[id]);
    }
  }

  lemma EndedNow(t: Tables, id: EpisodeId)
    requires Valid(t) && id in t.episodes
    ensures Settled(t, id, t.episodes[id])
  {
  }

  /** A refresh starts, ends and counts nothing: an open episode is at most suspended. */
  lemma RefreshOnlySuspends(t: Tables, rows: seq<Row>, c: Context, id: EpisodeId)
    requires Valid(t) && DistinctAssets(rows) && IsSameCutoff(t, c.inputs.cutoff)
    ensures var after := RefreshTables(t, rows, c);
      && after.episodes.Keys == t.episodes.Keys
      && (id in t.episodes ==>
            || after.episodes[id] == t.episodes[id]
            || (t.episodes[id].Open() && exists reason :: after.episodes[id] == Suspend(t.episodes[id], Some(reason))))
  {
  }

  predicate Repeats(p: Row, row: Row) {
    && p.asset == row.asset && p.identity == row.identity && p.state == row.state
    && p.confirmation == row.confirmation && p.episodeId == row.episodeId
  }

  /** A refresh repeats the evaluated condition of the same identity or falls to unknown. */
  lemma RefreshOnlyFalls(t: Tables, rows: seq<Row>, c: Context, i: nat)
    requires Valid(t) && DistinctAssets(rows) && IsSameCutoff(t, c.inputs.cutoff) && i < |rows|
    ensures var row := RefreshTables(t, rows, c).latest.value.rows[i];
      && row.asset == rows[i].asset
      && (row.state == Unknown ==> row.confirmation == None)
      && (row.state != Unknown ==> exists p :: p in t.latest.value.rows && Repeats(p, row))
  {
  }
}
