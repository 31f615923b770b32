/**
 What a history of operations makes of every stored episode: where it starts, how long it lasts,
 what it has counted and measured, whether it is suspended and why, and how it ended. Everything is
 read off the recorded events.
 */
module EpisodeHistory {
  import opened Prelude
  import opened Discovery
  import opened DiscoveryInvariant
  import opened DiscoveryHistory

  function RowAt(trace: seq<Event>, i: int, a: string): Row
    requires Observed(trace, i, a)
  {
    FindRow(trace[i].rows, a).value
  }

  /** Event i evaluated the asset's row as matched. */
  predicate MatchedAt(trace: seq<Event>, i: int, a: string) {
    Observed(trace, i, a) && RowAt(trace, i, a).state == Matched
  }

  /** Event i evaluated a row that its history makes a continuing one. */
  ghost predicate ContinuingAt(trace: seq<Event>, i: int, a: string) {
    MatchedAt(trace, i, a) && ConfirmationByHistory(trace[..i], trace[i], RowAt(trace, i, a)) == Some(Continuing)
  }

  /** The observation j does not end what the observation s began. */
  predicate Same(trace: seq<Event>, s: int, j: int, a: string)
    requires Observed(trace, s, a) && Observed(trace, j, a)
  {
    && RowAt(trace, j, a).state != NotMatched
    && RowAt(trace, j, a).identity == RowAt(trace, s, a).identity
    && trace[j].policy == trace[s].policy
  }

  /** No observation between s and n ends what s began. */
  predicate Lasts(trace: seq<Event>, s: int, n: int, a: string)
    requires Observed(trace, s, a)
  {
    forall j :: s < j < n && Observed(trace, j, a) ==> Same(trace, s, j, a)
  }

  /** Event s matched the asset, and no earlier match lasted up to and including it. */
  predicate StartsAt(trace: seq<Event>, s: int, a: string) {
    MatchedAt(trace, s, a) && forall i :: 0 <= i < s && MatchedAt(trace, i, a) ==> !Lasts(trace, i, s + 1, a)
  }

  function IdAt(trace: seq<Event>, s: int, a: string): EpisodeId
    requires Observed(trace, s, a)
  {
    EpisodeId(trace[s].policy, RowAt(trace, s, a).identity, trace[s].inputs.cutoff)
  }

  /** How many of the events from `from` up to n are continuing rows of the asset. */
  ghost function Continuings(trace: seq<Event>, from: int, n: int, a: string): nat
    decreases n - from
  {
    if n <= from then 0 else Continuings(trace, from, n - 1, a) + if ContinuingAt(trace, n - 1, a) then 1 else 0
  }

  ghost predicate LastMatch(trace: seq<Event>, m: int, n: int, a: string) {
    0 <= m < n && MatchedAt(trace, m, a) && forall j :: m < j < n ==> !MatchedAt(trace, j, a)
  }

  /** Event r is the last match before n that is not a continuing one. */
  ghost predicate LastRestart(trace: seq<Event>, r: int, n: int, a: string) {
    && 0 <= r < n && MatchedAt(trace, r, a) && !ContinuingAt(trace, r, a)
    && forall j :: r < j < n && MatchedAt(trace, j, a) ==> ContinuingAt(trace, j, a)
  }

  /** What the episode says of its first match. */
  ghost predicate Origin(trace: seq<Event>, e: Episode, s: int, a: string) {
    && StartsAt(trace, s, a) && e.id == IdAt(trace, s, a) && e.asset == a
    && e.identity == RowAt(trace, s, a).identity && e.raw == RowAt(trace, s, a).raw && e.policy == trace[s].policy
    && Some(e.startKind) == ConfirmationByHistory(trace[..s], trace[s], RowAt(trace, s, a))
    && e.firstObservedAt == trace[s].inputs.decisionAt && e.firstCutoff == trace[s].inputs.cutoff
    && e.firstSource == trace[s].inputs.rankingGeneration
  }

  /** What it says of its last match, and what it has counted: m is that match, r the last restart. */
  ghost predicate Progress(trace: seq<Event>, e: Episode, s: int, r: int, m: int, n: int, a: string) {
    && s <= r <= m && LastRestart(trace, r, n, a) && LastMatch(trace, m, n, a)
    && e.lastConfirmedAt == trace[m].inputs.decisionAt && e.lastCutoff == trace[m].inputs.cutoff
    && e.lastSource == trace[m].inputs.rankingGeneration && e.direction == RowAt(trace, m, a).direction
    && e.confirmations == 1 + Continuings(trace, r + 1, n, a)
    && e.observedMs == 60_000 * Continuings(trace, s, n, a)
  }

  /** Why event j breaks the continuity of the identity. */
  function BreakReason(trace: seq<Event>, j: int, identity: IdentityKey): Option<string>
    requires 0 <= j < |trace| && !trace[j].Open?
  {
    match trace[j]
    case Interrupt(reason) => Some(reason)
    case Save(_, _, rows, restarted) =>
      match FindRow(rows, identity.asset)
      case None => Some("row_missing")
      case Some(row) =>
        if Evaluates(trace, j) then row.reason
        else if restarted then Some("awaiting_new_cutoff")
        else if Unavailable(row, false) then
          (if row.reason.Some? && row.reason.value != "" then row.reason else Some("identity_ineligible"))
        else Some("identity_changed")
  }

  predicate BreaksAt(trace: seq<Event>, j: int, identity: IdentityKey, policy: string) {
    0 <= j < |trace| && Breaks(trace, j, identity, policy)
  }

  ghost predicate LastBreak(trace: seq<Event>, b: int, m: int, n: int, identity: IdentityKey, policy: string) {
    m < b < n && BreaksAt(trace, b, identity, policy) && forall j :: b < j < n ==> !BreaksAt(trace, j, identity, policy)
  }

  /** An open episode is active as long as nothing broke continuity since its last match; else the last break says why. */
  ghost predicate Standing(trace: seq<Event>, e: Episode, m: int, n: int) {
    && e.endedAt == None && e.endReason == None
    && (e.status == Active <==> forall j :: m < j < n ==> !BreaksAt(trace, j, e.identity, e.policy))
    && (e.status == Active ==> e.interruptionReason == None)
    && (e.status != Active ==> e.status == Interrupted && SuspendedBy(trace, e, m, n))
  }

  ghost predicate SuspendedBy(trace: seq<Event>, e: Episode, m: int, n: int) {
    exists b :: Because(trace, e, b, m, n)
  }

  ghost predicate Because(trace: seq<Event>, e: Episode, b: int, m: int, n: int) {
    LastBreak(trace, b, m, n, e.identity, e.policy) && e.interruptionReason == BreakReason(trace, b, e.identity)
  }

  /** The open episode that the match s began, as the first n events tell it. */
  ghost predicate OpenAs(trace: seq<Event>, e: Episode, s: int, n: int, a: string) {
    && 0 <= s < n && Origin(trace, e, s, a) && Lasts(trace, s, n, a)
    && exists r, m :: Progress(trace, e, s, r, m, n, a) && Standing(trace, e, m, n)
  }

  /** The asset's state refers to an open episode exactly when a match lasts, and that is its episode. */
  ghost predicate Told(trace: seq<Event>, t: Tables, n: int, a: string) {
    && (forall s :: 0 <= s < n && StartsAt(trace, s, a) && Lasts(trace, s, n, a) ==>
          a in t.states && t.states[a].episodeId == Some(IdAt(trace, s, a)))
    && (a in t.states && t.states[a].episodeId.Some? ==>
          && t.states[a].episodeId.value in t.episodes
          && exists s :: OpenAs(trace, t.episodes[t.states[a].episodeId.value], s, n, a))
  }

  // ----- one event -----

  /** A match that lasts belongs to a start that lasts. */
  lemma {:induction false} LastingStart(trace: seq<Event>, i: nat, n: nat, a: string) returns (s: nat)
    requires i < n && MatchedAt(trace, i, a) && Lasts(trace, i, n, a)
    ensures s <= i && StartsAt(trace, s, a) && Lasts(trace, s, n, a)
    ensures trace[s].policy == trace[i].policy && RowAt(trace, s, a).identity == RowAt(trace, i, a).identity
    decreases i
  {
    hide Evaluates;
    if StartsAt(trace, i, a) {
      s := i;
    } else {
      var h: nat :| h < i && MatchedAt(trace, h, a) && Lasts(trace, h, i + 1, a);
      assert Same(trace, h, i, a);
      s := LastingStart(trace, h, n, a);
    }
  }

  /** What becomes of the episode of an asset when a new cutoff is evaluated. */
  function EvaluatedNow(s: AssetState, e: Episode, rows: seq<Row>, c: Context): Episode {
    match FindRow(rows, e.asset)
    case Some(row) => Carried(s, e, row, c)
    case None => Suspend(e, Some("row_missing"))
  }

  lemma EvaluationStep(t: Tables, ev: Event, order: DigestOrder, a: string)
    requires Valid(t) && WellFormed(ev) && Accepted(ev) && IsNewCutoff(t, ev.inputs.cutoff)
    requires a in t.states && t.states[a].episodeId.Some?
    ensures t.states[a].episodeId.value in t.episodes
    ensures var id, after := t.states[a].episodeId.value, Step(t, ev, order).episodes;
      var now := EvaluatedNow(t.states[a], t.episodes[id], ev.rows, ContextOf(ev));
      t.episodes[id].asset == a && (now.Open() ==> id in after && after[id] == now)
  {
    hide Carried;
    var c, touched, horizon := ContextOf(ev), Touched(t, ev.rows), t.latest.value.inputs.cutoff;
    assert StateOk(t, a, horizon);
    var id := t.states[a].episodeId.value;
    hide Projected, EpisodeOk, Owned;
    StartedFresh(t, ev.rows, c, touched, horizon);
    EvaluatedLookup(t, ev.rows, c, touched);
    var after := EvaluatedEpisodes(t, ev.rows, c, touched);
    assert after[id] == EvaluatedEpisode(t, t.episodes[id], ev.rows, c, touched);
    hide Valid, EvaluatedEpisodes, StartedEpisodes, Carried, Pruned, StateOk;
    if after[id].Open() {
      PrunedKeepsOpen(after, order, c.inputs.decisionAt, id);
    }
  }

  /** The tables tell the kind of event n as the history does. */
  lemma KindAt(trace: seq<Event>, order: DigestOrder, n: nat)
    requires WellFormedTrace(trace) && n < |trace|
    ensures WellFormedTrace(trace[..n]) && WellFormed(trace[n]) && WellFormedTrace(trace[..n + 1])
    ensures Run(trace[..n + 1], order) == Step(Run(trace[..n], order), trace[n], order)
    ensures Accepted(trace[n]) ==> (Evaluates(trace, n) <==> IsNewCutoff(Run(trace[..n], order), trace[n].inputs.cutoff))
    ensures Accepted(trace[n]) ==> (Refreshes(trace, n) <==> IsSameCutoff(Run(trace[..n], order), trace[n].inputs.cutoff))
  {
    var before := trace[..n];
    assert before + [trace[n]] == trace[..n + 1];
    RunExtended(before, trace[n], order);
    if Accepted(trace[n]) {
      KindOfLast(before, trace[n], order);
      hide Run;
      assert Evaluates(trace[..n + 1], n) <==> Evaluates(trace, n);
      assert Refreshes(trace[..n + 1], n) <==> Refreshes(trace, n);
    }
  }

  /** An event that does not evaluate the asset's row leaves its episode, or suspends it if it breaks it. */
  lemma UnobservedStep(trace: seq<Event>, order: DigestOrder, n: nat, a: string)
    requires WellFormedTrace(trace) && n < |trace| && !Observed(trace, n, a)
    requires var t := Run(trace[..n], order); a in t.states && t.states[a].episodeId.Some?
    ensures var t, after := Run(trace[..n], order), Run(trace[..n + 1], order);
      var id := t.states[a].episodeId.value;
      && a in after.states && after.states[a].episodeId == Some(id) && id in t.episodes && id in after.episodes
      && var e := t.episodes[id];
        after.episodes[id] ==
          if BreaksAt(trace, n, e.identity, e.policy) then Suspend(e, BreakReason(trace, n, e.identity)) else e
  {
    KindAt(trace, order, n);
    hide Run;
    var t, ev := Run(trace[..n], order), trace[n];
    StateRefers(t, a);
    hide Valid;
    StepState(t, ev, order, a);
    if Accepted(ev) && IsNewCutoff(t, ev.inputs.cutoff) {
      EvaluationStep(t, ev, order, a);
    } else {
      OtherStep(t, ev, order, t.states[a].episodeId.value);
      hide Step, Evaluates, Refreshes;
      ReasonMeans(trace, t, n, t.states[a], t.episodes[t.states[a].episodeId.value]);
    }
  }

  lemma StateRefers(t: Tables, a: string)
    requires Valid(t) && a in t.states
    ensures t.states[a].episodeId.Some? ==>
      var s, id := t.states[a], t.states[a].episodeId.value;
      && id in t.episodes
      && var e := t.episodes[id];
        e.Open() && e.asset == a == e.identity.asset && e.identity == s.identity == id.identity
        && e.policy == s.policy == id.policy && e.id == id
        && (s.state == Matched ==> e.lastCutoff == s.cutoff)
  {
    assert StateOk(t, a, t.latest.value.inputs.cutoff);
    if t.states[a].episodeId.Some? {
      assert EpisodeOk(t.states[a].episodeId.value, t.episodes[t.states[a].episodeId.value], t.latest.value.inputs.cutoff);
    }
  }

  /** What suspends an episode outside evaluations is what breaks its continuity, for the same reason. */
  function SuspendedFor(t: Tables, s: AssetState, e: Episode, ev: Event): Option<string> {
    match ev
    case Open => None
    case Interrupt(reason) => Some(reason)
    case Save(_, inputs, rows, _) =>
      if DistinctAssets(rows) && IsSameCutoff(t, inputs.cutoff) then RefreshBreak(s, FindRow(rows, e.asset), ContextOf(ev)) else None
  }

  lemma ReasonMeans(trace: seq<Event>, t: Tables, n: nat, s: AssetState, e: Episode)
    requires n < |trace| && s.identity == e.identity && s.policy == e.policy && e.identity.asset == e.asset
    requires !Evaluates(trace, n)
    requires Accepted(trace[n]) ==> (Refreshes(trace, n) <==> IsSameCutoff(t, trace[n].inputs.cutoff))
    ensures SuspendedFor(t, s, e, trace[n]) ==
      if BreaksAt(trace, n, e.identity, e.policy) then BreakReason(trace, n, e.identity) else None
    ensures BreaksAt(trace, n, e.identity, e.policy) ==> SuspendedFor(t, s, e, trace[n]).Some?
  {
    hide Evaluates;
  }

  /** What an operation that evaluates nothing makes of an open episode. */
  lemma OtherStep(t: Tables, ev: Event, order: DigestOrder, id: EpisodeId)
    requires Valid(t) && WellFormed(ev) && !(Accepted(ev) && IsNewCutoff(t, ev.inputs.cutoff))
    requires id in t.episodes && t.episodes[id].Open()
    ensures var e, after := t.episodes[id], Step(t, ev, order).episodes;
      && e.asset in t.states && id in after
      && var reason := SuspendedFor(t, t.states[e.asset], e, ev);
        after[id] == if reason.Some? then Suspend(e, reason) else e
  {
    assert Owned(t, t.episodes[id]);
    assert t.latest.Some?;
  }

  /** An event that is no match leaves every count and the last match and restart. */
  lemma ProgressKept(trace: seq<Event>, e: Episode, now: Episode, s: int, r: int, m: int, n: nat, a: string)
    requires n < |trace| && 0 <= s && Progress(trace, e, s, r, m, n, a) && !MatchedAt(trace, n, a)
    requires now == e.(status := now.status, interruptionReason := now.interruptionReason)
    ensures Progress(trace, now, s, r, m, n + 1, a)
  {
    hide Observed, ConfirmationByHistory;
  }

  lemma StandingKept(trace: seq<Event>, e: Episode, now: Episode, m: int, n: nat)
    requires 0 <= m < n < |trace| && Standing(trace, e, m, n)
    requires now == if BreaksAt(trace, n, e.identity, e.policy) then Suspend(e, BreakReason(trace, n, e.identity)) else e
    ensures Standing(trace, now, m, n + 1)
  {
    hide Breaks, BreakReason;
    if BreaksAt(trace, n, e.identity, e.policy) {
      assert Because(trace, now, n, m, n + 1);
    } else if e.status == Interrupted {
      var b :| Because(trace, e, b, m, n);
      assert Because(trace, now, b, m, n + 1);
    }
  }

  /** An open episode stays as told through an event that neither matches its asset nor ends it. */
  lemma OpenKept(trace: seq<Event>, e: Episode, now: Episode, s: int, n: nat, a: string)
    requires n < |trace| && OpenAs(trace, e, s, n, a) && !MatchedAt(trace, n, a) && Lasts(trace, s, n + 1, a)
    requires now == if BreaksAt(trace, n, e.identity, e.policy) then Suspend(e, BreakReason(trace, n, e.identity)) else e
    ensures OpenAs(trace, now, s, n + 1, a)
  {
    hide Breaks, BreakReason, MatchedAt, Lasts, ConfirmationByHistory, StartsAt;
    var r, m :| Progress(trace, e, s, r, m, n, a) && Standing(trace, e, m, n);
    ProgressKept(trace, e, now, s, r, m, n, a);
    StandingKept(trace, e, now, m, n);
  }

  lemma ToldUnobserved(trace: seq<Event>, order: DigestOrder, n: nat, a: string)
    requires WellFormedTrace(trace) && n < |trace| && !Observed(trace, n, a)
    requires Told(trace, Run(trace[..n], order), n, a)
    ensures Told(trace, Run(trace[..n + 1], order), n + 1, a)
  {
    hide Run, Breaks, BreakReason, OpenAs, Observed;
    var t, after := Run(trace[..n], order), Run(trace[..n + 1], order);
    forall s | 0 <= s <= n && StartsAt(trace, s, a) && Lasts(trace, s, n + 1, a)
      ensures s < n && Lasts(trace, s, n, a)
    {
    }
    UnobservedStarts(trace, order, n, a);
    if a in t.states && t.states[a].episodeId.Some? {
      UnobservedStep(trace, order, n, a);
      var id := t.states[a].episodeId.value;
      var s :| OpenAs(trace, t.episodes[id], s, n, a);
      OpenLasts(trace, t.episodes[id], s, n, a);
      OpenKept(trace, t.episodes[id], after.episodes[id], s, n, a);
    }
  }

  lemma OpenLasts(trace: seq<Event>, e: Episode, s: int, n: nat, a: string)
    requires n < |trace| && OpenAs(trace, e, s, n, a)
    requires !Observed(trace, n, a)
    ensures Lasts(trace, s, n + 1, a)
  {
    hide Evaluates, Same, Progress, Standing, Breaks;
  }

  /** An event that does not evaluate the asset's row gives it no episode. */
  lemma UnobservedStarts(trace: seq<Event>, order: DigestOrder, n: nat, a: string)
    requires WellFormedTrace(trace) && n < |trace| && !Observed(trace, n, a)
    ensures var t, after := Run(trace[..n], order), Run(trace[..n + 1], order);
      a in after.states && after.states[a].episodeId.Some? ==> a in t.states && t.states[a].episodeId.Some?
  {
    hide Run, Step, Evaluates, Refreshes, Valid, EpisodeIdOf, DistinctAssets, RefreshBreak;
    KindAt(trace, order, n);
    StepState(Run(trace[..n], order), trace[n], order, a);
  }

  // ----- an event that evaluates the asset's row -----

  /** What the tables hold of an asset whose row event n evaluates. */
  lemma ObservedStep(trace: seq<Event>, order: DigestOrder, n: nat, a: string)
    requires WellFormedTrace(trace) && n < |trace| && Observed(trace, n, a)
    ensures WellFormedTrace(trace[..n]) && trace[n].Save? && ValidInputs(trace[n].inputs) && WellFormedTrace(trace[..n + 1])
    ensures var row, c, prior := RowAt(trace, n, a), ContextOf(trace[n]), Lookup(Run(trace[..n], order).states, a);
      && row.asset == a == row.identity.asset
      && Lookup(Run(trace[..n + 1], order).states, a) == Some(StateOf(prior, row, c))
      && ConfirmationOf(prior, row, c) == ConfirmationByHistory(trace[..n], trace[n], row)
  {
    KindAt(trace, order, n);
    var ev := trace[n];
    assert RowAt(trace, n, a) in ev.rows;
    ConfirmationAgrees(trace[..n], order, ev, RowAt(trace, n, a));
    hide Run, Valid, ConfirmationByHistory;
    StepState(Run(trace[..n], order), ev, order, a);
  }

  /** A carried-on match confirms the episode as the history counts it. */
  lemma ProgressMatched(trace: seq<Event>, e: Episode, s: int, r: int, m: int, n: nat, a: string, c: Context)
    requires n < |trace| && MatchedAt(trace, n, a) && 0 <= s && Progress(trace, e, s, r, m, n, a)
    requires c == ContextOf(trace[n])
    requires ContinuingAt(trace, n, a) ==> e.lastCutoff + MINUTE == c.inputs.cutoff
    ensures Progress(trace, Confirm(e, ContinuingAt(trace, n, a), RowAt(trace, n, a), c), s,
      if ContinuingAt(trace, n, a) then r else n, n, n + 1, a)
  {
    hide Observed, ConfirmationByHistory;
    assert Continuings(trace, s, n + 1, a) == Continuings(trace, s, n, a) + if ContinuingAt(trace, n, a) then 1 else 0;
    assert Continuings(trace, r + 1, n + 1, a) == Continuings(trace, r + 1, n, a) + if ContinuingAt(trace, n, a) then 1 else 0;
    assert Continuings(trace, n + 1, n + 1, a) == 0;
  }

  lemma MatchKeepsOpen(trace: seq<Event>, e: Episode, s: int, n: nat, a: string, c: Context)
    requires n < |trace| && MatchedAt(trace, n, a) && OpenAs(trace, e, s, n, a) && Same(trace, s, n, a)
    requires c == ContextOf(trace[n])
    requires ContinuingAt(trace, n, a) ==> e.lastCutoff + MINUTE == c.inputs.cutoff
    ensures OpenAs(trace, Confirm(e, ContinuingAt(trace, n, a), RowAt(trace, n, a), c), s, n + 1, a)
  {
    hide Breaks, BreakReason, ConfirmationByHistory, Observed, Same, ContinuingAt, Progress, Standing, Lasts;
    var r, m :| Progress(trace, e, s, r, m, n, a) && Standing(trace, e, m, n);
    ProgressMatched(trace, e, s, r, m, n, a, c);
    LastsOn(trace, s, n, a);
    var now := Confirm(e, ContinuingAt(trace, n, a), RowAt(trace, n, a), c);
    ConfirmStands(trace, e, now, m, n);
  }

  lemma LastsOn(trace: seq<Event>, s: int, n: nat, a: string)
    requires n < |trace| && Observed(trace, s, a) && Lasts(trace, s, n, a)
    requires Observed(trace, n, a) ==> Same(trace, s, n, a)
    ensures Lasts(trace, s, n + 1, a)
  {
    hide Observed, Same;
  }

  lemma ConfirmStands(trace: seq<Event>, e: Episode, now: Episode, m: int, n: nat)
    requires Standing(trace, e, m, n) && now.status == Active && now.interruptionReason == None
    requires now.endedAt == e.endedAt && now.endReason == e.endReason
    ensures Standing(trace, now, n, n + 1)
  {
    hide Breaks, BreakReason;
  }

  /** A match that carries nothing on starts an episode of one confirmation. */
  lemma StartOpens(trace: seq<Event>, prior: Option<AssetState>, n: nat, a: string)
    requires n < |trace| && StartsAt(trace, n, a) && trace[n].Save?
    requires var row, c := RowAt(trace, n, a), ContextOf(trace[n]);
      Starts(prior, row, c) && row.asset == a && ConfirmationOf(prior, row, c) == ConfirmationByHistory(trace[..n], trace[n], row)
    ensures OpenAs(trace, Started(prior, RowAt(trace, n, a), ContextOf(trace[n])), n, n + 1, a)
  {
    var e := Started(prior, RowAt(trace, n, a), ContextOf(trace[n]));
    assert !ContinuingAt(trace, n, a);
    hide Breaks, BreakReason, ConfirmationByHistory, StartsAt, Observed, ContinuingAt;
    assert Continuings(trace, n + 1, n + 1, a) == 0;
    assert Continuings(trace, n, n + 1, a) == Continuings(trace, n, n, a) + 0;
    assert Progress(trace, e, n, n, n, n + 1, a) && Standing(trace, e, n, n + 1);
  }

  /** A lasting match gives the asset's state the identity and policy it was made with. */
  lemma LastingIsCurrent(trace: seq<Event>, t: Tables, n: nat, a: string, s: int)
    requires n <= |trace| && Valid(t) && Told(trace, t, n, a)
    requires 0 <= s < n && StartsAt(trace, s, a) && Lasts(trace, s, n, a)
    ensures a in t.states && t.states[a].episodeId == Some(IdAt(trace, s, a))
    ensures t.states[a].identity == RowAt(trace, s, a).identity && t.states[a].policy == trace[s].policy
  {
    hide Valid, OpenAs;
    StateRefers(t, a);
  }

  /** A match that the tables do not carry on is a start. */
  lemma NothingLasts(trace: seq<Event>, t: Tables, n: nat, a: string)
    requires n < |trace| && Valid(t) && Told(trace, t, n, a) && Observed(trace, n, a)
    requires !CarriesOn(Lookup(t.states, a), RowAt(trace, n, a), ContextOf(trace[n]))
    ensures forall s :: 0 <= s < n && MatchedAt(trace, s, a) ==> !Lasts(trace, s, n + 1, a)
  {
    hide Valid, Told, Evaluates;
    forall i: nat | i < n && MatchedAt(trace, i, a) ensures !Lasts(trace, i, n + 1, a) {
      if Lasts(trace, i, n + 1, a) {
        assert Same(trace, i, n, a);
        var s := LastingStart(trace, i, n, a);
        LastingIsCurrent(trace, t, n, a, s);
        assert false;
      }
    }
  }

  lemma StartedStored(t: Tables, ev: Event, order: DigestOrder, row: Row)
    requires Valid(t) && WellFormed(ev) && Accepted(ev) && IsNewCutoff(t, ev.inputs.cutoff)
    requires row in ev.rows && Starts(Lookup(t.states, row.asset), row, ContextOf(ev))
    ensures var id, after := NewId(row, ContextOf(ev)), Step(t, ev, order).episodes;
      id in after && after[id] == Started(Lookup(t.states, row.asset), row, ContextOf(ev))
  {
    var c, touched := ContextOf(ev), Touched(t, ev.rows);
    StartedByRow(t, ev.rows, c, touched, row);
    EvaluatedLookup(t, ev.rows, c, touched);
    var after := EvaluatedEpisodes(t, ev.rows, c, touched);
    hide Valid, EvaluatedEpisodes, StartedEpisodes, Pruned;
    PrunedKeepsOpen(after, order, c.inputs.decisionAt, NewId(row, c));
  }

  lemma ToldStarted(trace: seq<Event>, order: DigestOrder, n: nat, a: string)
    requires WellFormedTrace(trace) && n < |trace| && Observed(trace, n, a)
    requires Told(trace, Run(trace[..n], order), n, a)
    requires !CarriesOn(Lookup(Run(trace[..n], order).states, a), RowAt(trace, n, a), ContextOf(trace[n]))
    ensures Told(trace, Run(trace[..n + 1], order), n + 1, a)
  {
    hide Valid, Told, Lasts, Observed, ConfirmationByHistory, Run, Step, CarriesOn;
    KindAt(trace, order, n);
    ObservedStep(trace, order, n, a);
    var t, row, after := Run(trace[..n], order), RowAt(trace, n, a), Run(trace[..n + 1], order);
    NothingLasts(trace, t, n, a);
    if row.state == Matched {
      StartingStep(trace, order, n, a);
      OnlyStart(trace, after, n, a);
    } else {
      NoEpisode(trace, t, after, n, a);
    }
  }

  lemma StartingStep(trace: seq<Event>, order: DigestOrder, n: nat, a: string)
    requires WellFormedTrace(trace) && n < |trace| && StartsAt(trace, n, a)
    requires !CarriesOn(Lookup(Run(trace[..n], order).states, a), RowAt(trace, n, a), ContextOf(trace[n]))
    ensures var after := Run(trace[..n + 1], order);
      && a in after.states && after.states[a].episodeId == Some(IdAt(trace, n, a))
      && IdAt(trace, n, a) in after.episodes && OpenAs(trace, after.episodes[IdAt(trace, n, a)], n, n + 1, a)
  {
    KindAt(trace, order, n);
    ObservedStep(trace, order, n, a);
    hide Run, Step, Valid, ConfirmationByHistory, OpenAs, Lasts, ConfirmationOf, CarriesOn;
    StartedStored(Run(trace[..n], order), trace[n], order, RowAt(trace, n, a));
    StartOpens(trace, Lookup(Run(trace[..n], order).states, a), n, a);
  }

  lemma NoEpisode(trace: seq<Event>, t: Tables, after: Tables, n: nat, a: string)
    requires n < |trace| && Observed(trace, n, a) && RowAt(trace, n, a).state != Matched
    requires forall s :: 0 <= s < n && MatchedAt(trace, s, a) ==> !Lasts(trace, s, n + 1, a)
    requires var prior, row, c := Lookup(t.states, a), RowAt(trace, n, a), ContextOf(trace[n]);
      !CarriesOn(prior, row, c) && Lookup(after.states, a) == Some(StateOf(prior, row, c))
    ensures Told(trace, after, n + 1, a)
  {
    hide Evaluates, OpenAs, Lasts;
  }

  lemma OnlyStart(trace: seq<Event>, after: Tables, n: nat, a: string)
    requires n < |trace| && StartsAt(trace, n, a)
    requires a in after.states && after.states[a].episodeId == Some(IdAt(trace, n, a))
    requires IdAt(trace, n, a) in after.episodes && OpenAs(trace, after.episodes[IdAt(trace, n, a)], n, n + 1, a)
    ensures Told(trace, after, n + 1, a)
  {
    hide OpenAs, Evaluates;
  }

  /** What a carried-on row makes of the episode its state refers to. */
  lemma CarriedStep(trace: seq<Event>, order: DigestOrder, n: nat, a: string, s: int)
    requires WellFormedTrace(trace) && n < |trace| && Observed(trace, n, a) && RowAt(trace, n, a).state != NotMatched
    requires var t := Run(trace[..n], order);
      && CarriesOn(Lookup(t.states, a), RowAt(trace, n, a), ContextOf(trace[n])) && t.states[a].episodeId.value in t.episodes
      && OpenAs(trace, t.episodes[t.states[a].episodeId.value], s, n, a)
    ensures var t, after := Run(trace[..n], order), Run(trace[..n + 1], order);
      var id := t.states[a].episodeId.value;
      && a in after.states && after.states[a].episodeId == Some(id) && id in after.episodes
      && OpenAs(trace, after.episodes[id], s, n + 1, a)
  {
    hide Run, Step, Valid, ConfirmationByHistory, OpenAs, Observed, Carried, ConfirmationOf;
    KindAt(trace, order, n);
    ObservedStep(trace, order, n, a);
    var t, row, c := Run(trace[..n], order), RowAt(trace, n, a), ContextOf(trace[n]);
    StateRefers(t, a);
    KindOfObserved(trace, order, n, a);
    EvaluationStep(t, trace[n], order, a);
    CarriedNow(trace, t.states[a], t.episodes[t.states[a].episodeId.value], s, n, a);
  }

  lemma KindOfObserved(trace: seq<Event>, order: DigestOrder, n: nat, a: string)
    requires WellFormedTrace(trace) && n < |trace| && Observed(trace, n, a)
    ensures Accepted(trace[n]) && WellFormed(trace[n]) && IsNewCutoff(Run(trace[..n], order), trace[n].inputs.cutoff)
    ensures FindRow(trace[n].rows, a) == Some(RowAt(trace, n, a))
  {
    KindAt(trace, order, n);
  }

  lemma CarriedNow(trace: seq<Event>, prior: AssetState, e: Episode, s: int, n: nat, a: string)
    requires n < |trace| && Observed(trace, n, a) && RowAt(trace, n, a).state != NotMatched && WellFormed(trace[n]) && trace[n].Save?
    requires e.identity == prior.identity && e.policy == prior.policy && OpenAs(trace, e, s, n, a) && e.asset == a
    requires prior.state == Matched ==> e.lastCutoff == prior.cutoff
    requires var row, c := RowAt(trace, n, a), ContextOf(trace[n]);
      && CarriesOn(Some(prior), row, c)
      && ConfirmationOf(Some(prior), row, c) == ConfirmationByHistory(trace[..n], trace[n], row)
    ensures var now := Carried(prior, e, RowAt(trace, n, a), ContextOf(trace[n])); now.Open() && OpenAs(trace, now, s, n + 1, a)
  {
    hide Observed, ConfirmationByHistory, OpenAs, Breaks;
    var row, c := RowAt(trace, n, a), ContextOf(trace[n]);
    SameAsStart(trace, e, s, n, a);
    if row.state == Matched {
      MatchKeepsOpen(trace, e, s, n, a, c);
    } else {
      LastsOn(trace, s, n, a);
      EvaluatingBreaks(trace, n, a);
      OpenKept(trace, e, Suspend(e, row.reason), s, n, a);
    }
    OpenIsOpen(trace, Carried(prior, e, row, c), s, n + 1, a);
  }

  lemma OpenIsOpen(trace: seq<Event>, e: Episode, s: int, n: int, a: string)
    requires OpenAs(trace, e, s, n, a)
    ensures e.Open() && 0 <= s < n && StartsAt(trace, s, a) && Lasts(trace, s, n, a)
  {
  }

  lemma SameAsStart(trace: seq<Event>, e: Episode, s: int, n: nat, a: string)
    requires n < |trace| && OpenAs(trace, e, s, n, a) && Observed(trace, n, a) && RowAt(trace, n, a).state != NotMatched
    requires RowAt(trace, n, a).identity == e.identity && trace[n].policy == e.policy
    ensures Observed(trace, s, a) && Lasts(trace, s, n, a) && Same(trace, s, n, a)
  {
  }

  lemma EvaluatingBreaks(trace: seq<Event>, n: nat, a: string)
    requires n < |trace| && Observed(trace, n, a) && WellFormed(trace[n])
    ensures var row := RowAt(trace, n, a);
      forall policy :: BreaksAt(trace, n, row.identity, policy) && BreakReason(trace, n, row.identity) == row.reason
  {
    assert RowAt(trace, n, a) in trace[n].rows;
  }

  lemma ToldCarried(trace: seq<Event>, order: DigestOrder, n: nat, a: string)
    requires WellFormedTrace(trace) && n < |trace| && Observed(trace, n, a)
    requires Told(trace, Run(trace[..n], order), n, a)
    requires CarriesOn(Lookup(Run(trace[..n], order).states, a), RowAt(trace, n, a), ContextOf(trace[n]))
    ensures Told(trace, Run(trace[..n + 1], order), n + 1, a)
  {
    hide Run, Step, Valid, Evaluates, OpenAs, ConfirmationByHistory;
    var t, after := Run(trace[..n], order), Run(trace[..n + 1], order);
    var id := t.states[a].episodeId.value;
    var s :| OpenAs(trace, t.episodes[id], s, n, a);
    if RowAt(trace, n, a).state == NotMatched {
      ObservedStep(trace, order, n, a);
      assert forall i :: 0 <= i < n && Observed(trace, i, a) ==> !Same(trace, i, n, a);
    } else {
      CarriedStep(trace, order, n, a, s);
      OpenIsOpen(trace, t.episodes[id], s, n, a);
      OpenIsOpen(trace, after.episodes[id], s, n + 1, a);
      CarriedLasts(trace, n, a, s);
    }
  }

  /** A carried-on observation starts nothing. */
  lemma CarriedLasts(trace: seq<Event>, n: nat, a: string, s: int)
    requires n < |trace| && 0 <= s < n && StartsAt(trace, s, a) && Lasts(trace, s, n + 1, a)
    ensures !StartsAt(trace, n, a)
    ensures forall i :: 0 <= i < n && StartsAt(trace, i, a) && Lasts(trace, i, n + 1, a) ==> Lasts(trace, i, n, a)
  {
    hide Evaluates;
  }

  /** Over every history, each asset's state and open episode are what the events say. */
  lemma {:induction false} AlwaysTold(trace: seq<Event>, order: DigestOrder, n: nat, a: string)
    requires WellFormedTrace(trace) && n <= |trace|
    ensures Told(trace, Run(trace[..n], order), n, a)
  {
    if n > 0 {
      hide Run, Told, Observed, CarriesOn;
      AlwaysTold(trace, order, n - 1, a);
      if !Observed(trace, n - 1, a) {
        ToldUnobserved(trace, order, n - 1, a);
      } else if CarriesOn(Lookup(Run(trace[..n - 1], order).states, a), RowAt(trace, n - 1, a), ContextOf(trace[n - 1])) {
        ToldCarried(trace, order, n - 1, a);
      } else {
        ToldStarted(trace, order, n - 1, a);
      }
    }
  }

  // ----- episodes that ended -----

  /** Event x ended the episode that s began: it saw the asset unmatched, or as another identity or policy. */
  ghost predicate EndedAs(trace: seq<Event>, e: Episode, s: int, x: int, n: int, a: string) {
    && 0 <= s < x < n && Origin(trace, e, s, a) && Lasts(trace, s, x, a)
    && Observed(trace, x, a) && !Same(trace, s, x, a)
    && (exists r, m :: Progress(trace, e, s, r, m, x, a))
    && e.status == Ended && e.endedAt == Some(trace[x].inputs.decisionAt) && e.interruptionReason == None
    && e.endReason == Some(
         if trace[x].policy != trace[s].policy then "policy_changed"
         else if RowAt(trace, x, a).identity != RowAt(trace, s, a).identity then "identity_changed"
         else "condition_not_matched")
  }

  /** An episode ends only in an evaluation of its asset's row. */
  lemma EndedStep(t: Tables, ev: Event, order: DigestOrder, id: EpisodeId)
    requires Valid(t) && WellFormed(ev) && id in Step(t, ev, order).episodes && !Step(t, ev, order).episodes[id].Open()
    ensures id in t.episodes
    ensures var e, now := t.episodes[id], Step(t, ev, order).episodes[id];
      || now == e
      || (&& e.Open() && Accepted(ev) && IsNewCutoff(t, ev.inputs.cutoff) && e.asset in t.states
          && t.states[e.asset].episodeId == Some(id)
          && now == EvaluatedNow(t.states[e.asset], e, ev.rows, ContextOf(ev)) && FindRow(ev.rows, e.asset).Some?)
  {
    hide Valid;
    if Accepted(ev) && IsNewCutoff(t, ev.inputs.cutoff) {
      assert id in EvaluatedEpisodes(t, ev.rows, ContextOf(ev), Touched(t, ev.rows)) by { hide StartedEpisodes, EvaluatedEpisodes; }
      hide Step, Pruned;
      ClosedInEvaluation(t, ev.rows, ContextOf(ev), id);
    } else {
      OnlyEvaluationsCount(t, ev, order);
      hide Step;
    }
  }

  lemma ClosedInEvaluation(t: Tables, rows: seq<Row>, c: Context, id: EpisodeId)
    requires Valid(t) && DistinctAssets(rows) && OwnIdentities(rows) && ValidInputs(c.inputs)
    requires IsNewCutoff(t, c.inputs.cutoff)
    requires var after := EvaluatedEpisodes(t, rows, c, Touched(t, rows)); id in after && !after[id].Open()
    ensures id in t.episodes
    ensures var e, now := t.episodes[id], EvaluatedEpisodes(t, rows, c, Touched(t, rows))[id];
      || now == e
      || (&& e.Open() && e.asset in t.states && t.states[e.asset].episodeId == Some(id)
          && now == EvaluatedNow(t.states[e.asset], e, rows, c) && FindRow(rows, e.asset).Some?)
  {

    EvaluatedLookup(t, rows, c, Touched(t, rows));
    hide EvaluatedEpisodes, StartedEpisodes;
    if t.episodes[id].Open() {
      assert Owned(t, t.episodes[id]) && EpisodeOk(id, t.episodes[id], t.latest.value.inputs.cutoff);
    }
  }

  lemma ClosedEnds(trace: seq<Event>, prior: AssetState, e: Episode, s: int, n: nat, a: string)
    requires n < |trace| && Observed(trace, n, a) && trace[n].Save? && e.asset == a && OpenAs(trace, e, s, n, a)
    requires e.identity == prior.identity && e.policy == prior.policy
    requires !Carried(prior, e, RowAt(trace, n, a), ContextOf(trace[n])).Open()
    ensures EndedAs(trace, Carried(prior, e, RowAt(trace, n, a), ContextOf(trace[n])), s, n, n + 1, a)
  {
    hide Observed, ConfirmationByHistory, Breaks, StartsAt, Lasts, Continuings, LastMatch, LastRestart;
    var r, m :| Progress(trace, e, s, r, m, n, a) && Standing(trace, e, m, n);
    OpenIsOpen(trace, e, s, n, a);
    var now := Carried(prior, e, RowAt(trace, n, a), ContextOf(trace[n]));
    assert Progress(trace, now, s, r, m, n, a);
  }

  /** What the first n events say of one stored episode. */
  ghost predicate EpisodeTold(trace: seq<Event>, e: Episode, n: int) {
    if e.Open() then exists s :: OpenAs(trace, e, s, n, e.asset)
    else exists s, x :: EndedAs(trace, e, s, x, n, e.asset)
  }

  lemma OpenTold(trace: seq<Event>, t: Tables, n: nat, id: EpisodeId)
    requires Valid(t) && id in t.episodes && t.episodes[id].Open() && Told(trace, t, n, t.episodes[id].asset)
    ensures EpisodeTold(trace, t.episodes[id], n)
    ensures t.episodes[id].asset in t.states && t.states[t.episodes[id].asset].episodeId == Some(id)
  {
    assert Owned(t, t.episodes[id]);
    assert t.episodes[id].id == id;
  }

  lemma EndedTold(trace: seq<Event>, order: DigestOrder, n: nat, id: EpisodeId)
    requires WellFormedTrace(trace) && n < |trace|
    requires id in Run(trace[..n + 1], order).episodes && !Run(trace[..n + 1], order).episodes[id].Open()
    requires id in Run(trace[..n], order).episodes ==> EpisodeTold(trace, Run(trace[..n], order).episodes[id], n)
    ensures EpisodeTold(trace, Run(trace[..n + 1], order).episodes[id], n + 1)
  {
    KindAt(trace, order, n);
    hide Run, Step, Valid, OpenAs, Evaluates, Origin, Progress, Same, Lasts;
    var t, after := Run(trace[..n], order), Run(trace[..n + 1], order);
    EndedStep(t, trace[n], order, id);
    var e := t.episodes[id];
    if after.episodes[id] == e {
      var s, x :| EndedAs(trace, e, s, x, n, e.asset);
      assert EndedAs(trace, e, s, x, n + 1, e.asset);
    } else {
      var s :| OpenAs(trace, e, s, n, e.asset);
      StateRefers(t, e.asset);
      assert Observed(trace, n, e.asset);
      ClosedEnds(trace, t.states[e.asset], e, s, n, e.asset);
      assert EndedAs(trace, after.episodes[id], s, n, n + 1, e.asset);
    }
  }

  /**
   Over every history, each stored episode is what the events make it: begun by a match that carried
   no earlier one on; counting one confirmation and those since its last restart; claiming one minute
   for each continuing row and none for any other; confirmed last by its last match; active, or
   suspended by the last break since; and ended, if it is, by the first observation to the contrary.
   */
  lemma {:induction false} EpisodesAreHistory(trace: seq<Event>, order: DigestOrder, n: nat, id: EpisodeId)
    requires WellFormedTrace(trace) && n <= |trace| && id in Run(trace[..n], order).episodes
    ensures EpisodeTold(trace, Run(trace[..n], order).episodes[id], n)
  {
    if n > 0 {
      var e := Run(trace[..n], order).episodes[id];
      if e.Open() {
        AlwaysTold(trace, order, n, e.asset);
        hide Run, Valid, Told, EpisodeTold;
        OpenTold(trace, Run(trace[..n], order), n, id);
      } else {
        if id in Run(trace[..n - 1], order).episodes {
          EpisodesAreHistory(trace, order, n - 1, id);
        }
        EndedTold(trace, order, n - 1, id);
      }
    }
  }

  /** A match that nothing has ended since has its open episode in the tables, whatever else happened. */
  lemma LastingIsStored(trace: seq<Event>, order: DigestOrder, s: int, a: string)
    requires WellFormedTrace(trace) && StartsAt(trace, s, a) && Lasts(trace, s, |trace|, a)
    ensures var t := Run(trace, order);
      IdAt(trace, s, a) in t.episodes && OpenAs(trace, t.episodes[IdAt(trace, s, a)], s, |trace|, a)
  {
    assert trace[..|trace|] == trace;
    AlwaysTold(trace, order, |trace|, a);
    hide Run, Valid, Evaluates, Progress, Standing, Lasts;
    var t := Run(trace, order);
    var i :| OpenAs(trace, t.episodes[IdAt(trace, s, a)], i, |trace|, a);
    OneStart(trace, i, s, a);
  }

  /** One cutoff is evaluated once. */
  lemma OneStart(trace: seq<Event>, i: int, s: int, a: string)
    requires Observed(trace, i, a) && Observed(trace, s, a) && IdAt(trace, i, a) == IdAt(trace, s, a)
    ensures i == s
  {
  }
}
