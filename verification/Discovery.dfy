/**
 The discovery tables and what one writer operation does to them, asset by asset.

 A row's identity key is the digest of its asset id and evidence, and an episode id is the
 digest of (policy, identity, cutoff): both digests are modelled as the tuple they are taken
 over. Where the store orders episode ids it orders fixed-length hex text, that is, the
 digest read as a number; `DigestOrder` is that number.
 */
module Discovery {
  import opened Prelude

  const HISTORY_RETENTION_MS := 7 * 24 * 60 * MINUTE
  const MAX_ENDED_EPISODES := 10_000

  datatype Condition = Matched | NotMatched | Unknown
  datatype Confirmation = New | InitialConfirmation | Reconfirmation | Continuing
  datatype EpisodeStatus = Active | Interrupted | Ended
  datatype IdentityStatus = IdentityReady | IdentityPartial | IdentityInvalid | IdentityExcluded
  datatype ResponseStatus = Ready | Partial | Stale

  datatype IdentityKey = IdentityKey(asset: string, evidence: string)
  datatype EpisodeId = EpisodeId(policy: string, identity: IdentityKey, cutoff: int)
  type DigestOrder = EpisodeId -> nat

  /** The input reference of one generation: clocks in UTC milliseconds. */
  datatype Inputs = Inputs(
    generation: string, decisionAt: int, cutoff: int,
    rankingGeneration: string, mapVersion: string, metricVersion: string)

  /** One observed market row; `raw` stands for the evidence tree copied unchanged. */
  datatype Row = Row(
    asset: string, identity: IdentityKey, state: Condition, reason: Option<string>,
    direction: string, confirmation: Option<Confirmation>, episodeId: Option<EpisodeId>,
    identityStatus: IdentityStatus, originalsCurrent: bool, raw: string)

  /** Condition memory of one asset (table discovery_states). */
  datatype AssetState = AssetState(
    identity: IdentityKey, policy: string, state: Condition, cutoff: int,
    mapVersion: string, metricVersion: string, interrupted: bool, episodeId: Option<EpisodeId>)

  /** One observed episode (table discovery_episodes). */
  datatype Episode = Episode(
    id: EpisodeId, policy: string, identity: IdentityKey, asset: string, raw: string,
    status: EpisodeStatus, startKind: Confirmation, firstObservedAt: int, lastConfirmedAt: int,
    confirmations: int, observedMs: int, endedAt: Option<int>, endReason: Option<string>,
    interruptionReason: Option<string>, direction: string,
    firstSource: string, lastSource: string, firstCutoff: int, lastCutoff: int)
  {
    predicate Open() { endedAt.None? }
  }

  datatype Response = Response(inputs: Inputs, status: ResponseStatus, reason: Option<string>, rows: seq<Row>)

  datatype SummaryRow = SummaryRow(
    asset: string, identity: IdentityKey, state: Condition, reason: Option<string>,
    direction: string, confirmation: Option<Confirmation>, episodeId: Option<EpisodeId>)

  datatype Summary = Summary(
    inputs: Inputs, status: ResponseStatus, reason: Option<string>,
    historyFrom: Option<int>, rows: seq<SummaryRow>)

  /** The six discovery tables as one value. */
  datatype Tables = Tables(
    states: map<string, AssetState>, episodes: map<EpisodeId, Episode>, latest: Option<Response>,
    metadata: Option<Response>, details: map<string, (nat, Row)>, summary: Option<Summary>)

  const EMPTY := Tables(map[], map[], None, None, map[], None)

  /** What an evaluation is made under: the writer's policy constant, inputs and restart flag. */
  datatype Context = Context(policy: string, inputs: Inputs, restarted: bool)

  // ----- rows of one call -----

  predicate DistinctAssets(rows: seq<Row>) {
    forall i, j :: 0 <= i < j < |rows| ==> rows[i].asset != rows[j].asset
  }

  /** The row builder digests the asset id into the identity key. */
  predicate OwnIdentities(rows: seq<Row>) {
    forall r :: r in rows ==> r.identity.asset == r.asset
  }

  function FindRow(rows: seq<Row>, asset: string): (found: Option<Row>)
    ensures found.Some? ==> found.value in rows && found.value.asset == asset
    ensures found.None? <==> forall r :: r in rows ==> r.asset != asset
  {
    if rows == [] then None
    else if rows[0].asset == asset then Some(rows[0])
    else FindRow(rows[1..], asset)
  }

  lemma FindRowUnique(rows: seq<Row>, i: nat)
    requires DistinctAssets(rows) && i < |rows|
    ensures FindRow(rows, rows[i].asset) == Some(rows[i])
  {
    var found := FindRow(rows, rows[i].asset);
    assert found.Some? by { assert rows[i] in rows; }
    var j :| 0 <= j < |rows| && rows[j] == found.value;
  }

  function AssetsOf(rows: seq<Row>): set<string> {
    set r | r in rows :: r.asset
  }

  // ----- evaluation of a new cutoff -----

  predicate SameIdentity(prior: AssetState, row: Row, policy: string) {
    prior.identity == row.identity && prior.policy == policy
  }

  /** The previous evaluation is exactly one minute prior and nothing broke continuity. */
  predicate Contiguous(prior: AssetState, row: Row, c: Context) {
    && SameIdentity(prior, row, c.policy)
    && !prior.interrupted
    && !c.restarted
    && prior.cutoff + MINUTE == c.inputs.cutoff
    && prior.mapVersion == c.inputs.mapVersion
    && prior.metricVersion == c.inputs.metricVersion
    && prior.state != Unknown
  }

  /** The open episode the row can carry on: same identity, still open. */
  predicate CarriesOn(prior: Option<AssetState>, row: Row, c: Context) {
    prior.Some? && SameIdentity(prior.value, row, c.policy) && prior.value.episodeId.Some?
  }

  function ConfirmationOf(prior: Option<AssetState>, row: Row, c: Context): Option<Confirmation> {
    if row.state != Matched then None
    else if CarriesOn(prior, row, c) then
      Some(if Contiguous(prior.value, row, c) && prior.value.state == Matched then Continuing else Reconfirmation)
    else if prior.Some? && Contiguous(prior.value, row, c) && prior.value.state == NotMatched then Some(New)
    else if prior.Some? && SameIdentity(prior.value, row, c.policy) then Some(Reconfirmation)
    else Some(InitialConfirmation)
  }

  function NewId(row: Row, c: Context): EpisodeId {
    EpisodeId(c.policy, row.identity, c.inputs.cutoff)
  }

  predicate Starts(prior: Option<AssetState>, row: Row, c: Context) {
    row.state == Matched && !CarriesOn(prior, row, c)
  }

  function EpisodeIdOf(prior: Option<AssetState>, row: Row, c: Context): Option<EpisodeId> {
    match row.state
    case NotMatched => None
    case Unknown => if CarriesOn(prior, row, c) then prior.value.episodeId else None
    case Matched => if CarriesOn(prior, row, c) then prior.value.episodeId else Some(NewId(row, c))
  }

  function StateOf(prior: Option<AssetState>, row: Row, c: Context): AssetState {
    AssetState(row.identity, c.policy, row.state, c.inputs.cutoff, c.inputs.mapVersion,
               c.inputs.metricVersion, row.state == Unknown, EpisodeIdOf(prior, row, c))
  }

  function Started(prior: Option<AssetState>, row: Row, c: Context): Episode
    requires Starts(prior, row, c)
  {
    Episode(NewId(row, c), c.policy, row.identity, row.asset, row.raw, Active,
            ConfirmationOf(prior, row, c).value, c.inputs.decisionAt, c.inputs.decisionAt, 1, 0,
            None, None, None, row.direction, c.inputs.rankingGeneration, c.inputs.rankingGeneration,
            c.inputs.cutoff, c.inputs.cutoff)
  }

  function Close(e: Episode, at: int, reason: string): Episode {
    e.(status := Ended, endedAt := Some(at), endReason := Some(reason), interruptionReason := None)
  }

  function Suspend(e: Episode, reason: Option<string>): Episode {
    e.(status := Interrupted, interruptionReason := reason)
  }

  function Confirm(e: Episode, continuing: bool, row: Row, c: Context): Episode {
    e.(status := Active,
       lastConfirmedAt := c.inputs.decisionAt,
       confirmations := if continuing then e.confirmations + 1 else 1,
       observedMs := e.observedMs + (if continuing then c.inputs.cutoff - e.lastCutoff else 0),
       lastSource := c.inputs.rankingGeneration,
       lastCutoff := c.inputs.cutoff,
       direction := row.direction,
       interruptionReason := None)
  }

  /** What becomes of the asset's open episode when its row is evaluated. */
  function Carried(prior: AssetState, e: Episode, row: Row, c: Context): Episode {
    if !SameIdentity(prior, row, c.policy) then
      Close(e, c.inputs.decisionAt, if prior.policy == c.policy then "identity_changed" else "policy_changed")
    else match row.state
      case Matched => Confirm(e, Contiguous(prior, row, c) && prior.state == Matched, row, c)
      case NotMatched => Close(e, c.inputs.decisionAt, "condition_not_matched")
      case Unknown => Suspend(e, row.reason)
  }

  function Lookup(states: map<string, AssetState>, asset: string): Option<AssetState> {
    if asset in states then Some(states[asset]) else None
  }

  function Forgotten(s: AssetState): AssetState {
    s.(state := Unknown, interrupted := true)
  }

  /** The states after the touched assets are evaluated (or found missing). */
  function EvaluatedStates(t: Tables, rows: seq<Row>, c: Context, touched: set<string>): map<string, AssetState> {
    map a | a in t.states.Keys + (touched * AssetsOf(rows)) ::
      if a !in touched then t.states[a]
      else match FindRow(rows, a)
        case Some(row) => StateOf(Lookup(t.states, a), row, c)
        case None => Forgotten(t.states[a])
  }

  function EvaluatedEpisode(t: Tables, e: Episode, rows: seq<Row>, c: Context, touched: set<string>): Episode {
    if !e.Open() || e.asset !in touched || e.asset !in t.states then e
    else match FindRow(rows, e.asset)
      case Some(row) => Carried(t.states[e.asset], e, row, c)
      case None => Suspend(e, Some("row_missing"))
  }

  function StartedEpisodes(t: Tables, rows: seq<Row>, c: Context, touched: set<string>): map<EpisodeId, Episode>
    requires DistinctAssets(rows) && OwnIdentities(rows)
  {
    FreshIdsDistinct(rows, c);
    map r | r in rows && r.asset in touched && Starts(Lookup(t.states, r.asset), r, c)
      :: NewId(r, c) := Started(Lookup(t.states, r.asset), r, c)
  }

  lemma FreshIdsDistinct(rows: seq<Row>, c: Context)
    requires DistinctAssets(rows) && OwnIdentities(rows)
    ensures forall r, s :: r in rows && s in rows && NewId(r, c) == NewId(s, c) ==> r == s
  {
    forall r, s | r in rows && s in rows && NewId(r, c) == NewId(s, c) ensures r == s {
      var i :| 0 <= i < |rows| && rows[i] == r;
      var j :| 0 <= j < |rows| && rows[j] == s;
      FindRowUnique(rows, i);
      FindRowUnique(rows, j);
    }
  }

  function EvaluatedEpisodes(t: Tables, rows: seq<Row>, c: Context, touched: set<string>): map<EpisodeId, Episode>
    requires DistinctAssets(rows) && OwnIdentities(rows)
  {
    (map id | id in t.episodes :: EvaluatedEpisode(t, t.episodes[id], rows, c, touched))
    + StartedEpisodes(t, rows, c, touched)
  }

  function Touched(t: Tables, rows: seq<Row>): set<string> {
    t.states.Keys + AssetsOf(rows)
  }

  /** The tables once the touched assets are evaluated, before retention and projection. */
  function Evaluated(t: Tables, rows: seq<Row>, c: Context, touched: set<string>): Tables
    requires DistinctAssets(rows) && OwnIdentities(rows)
  {
    t.(states := EvaluatedStates(t, rows, c, touched), episodes := EvaluatedEpisodes(t, rows, c, touched))
  }

  function EvaluatedRow(t: Tables, row: Row, c: Context): Row {
    var prior := Lookup(t.states, row.asset);
    row.(confirmation := ConfirmationOf(prior, row, c), episodeId := EpisodeIdOf(prior, row, c))
  }

  function EvaluatedRows(t: Tables, rows: seq<Row>, c: Context): (projected: seq<Row>)
    ensures |projected| == |rows|
    ensures forall i :: 0 <= i < |rows| ==> projected[i] == EvaluatedRow(t, rows[i], c)
  {
    seq(|rows|, i requires 0 <= i < |rows| => EvaluatedRow(t, rows[i], c))
  }

  /** An asset with an open episode that this cutoff did not observe. */
  predicate MissingActive(t: Tables, rows: seq<Row>) {
    exists a :: a in t.states && FindRow(rows, a).None? && t.states[a].episodeId.Some?
  }

  // ----- retention -----

  /** `j` is listed before `id` when ended episodes are ordered newest first. */
  predicate NewerEnded(episodes: map<EpisodeId, Episode>, order: DigestOrder, j: EpisodeId, id: EpisodeId)
    requires j in episodes && id in episodes
  {
    && episodes[j].endedAt.Some? && episodes[id].endedAt.Some?
    && (episodes[j].endedAt.value > episodes[id].endedAt.value
        || (episodes[j].endedAt.value == episodes[id].endedAt.value && order(j) > order(id)))
  }

  function Unexpired(episodes: map<EpisodeId, Episode>, now: int): map<EpisodeId, Episode> {
    map id | id in episodes && !(episodes[id].endedAt.Some? && episodes[id].endedAt.value < now - HISTORY_RETENTION_MS)
      :: episodes[id]
  }

  function NewerThan(episodes: map<EpisodeId, Episode>, order: DigestOrder, id: EpisodeId): set<EpisodeId>
    requires id in episodes
  {
    set j | j in episodes && NewerEnded(episodes, order, j, id)
  }

  /** Drop every ended episode that has `limit` newer ended ones before it. */
  function WithinLimit(episodes: map<EpisodeId, Episode>, order: DigestOrder, limit: nat): map<EpisodeId, Episode> {
    map id | id in episodes && (episodes[id].Open() || |NewerThan(episodes, order, id)| < limit) :: episodes[id]
  }

  function Pruned(episodes: map<EpisodeId, Episode>, order: DigestOrder, now: int): map<EpisodeId, Episode> {
    WithinLimit(Unexpired(episodes, now), order, MAX_ENDED_EPISODES)
  }

  // ----- the projection -----

  ghost predicate IsHistoryMinimum(episodes: map<EpisodeId, Episode>, first: Option<int>) {
    match first
    case None => episodes == map[]
    case Some(m) =>
      && (exists id :: id in episodes && episodes[id].firstObservedAt == m)
      && (forall id :: id in episodes ==> m <= episodes[id].firstObservedAt)
  }

  function Shortened(row: Row): SummaryRow {
    SummaryRow(row.asset, row.identity, row.state, row.reason, row.direction, row.confirmation, row.episodeId)
  }

  function DetailsOf(rows: seq<Row>): map<string, (nat, Row)>
    requires DistinctAssets(rows)
  {
    map i | 0 <= i < |rows| :: rows[i].asset := (i, rows[i])
  }

  function SummaryOf(response: Response, first: Option<int>): Summary {
    Summary(response.inputs, response.status, response.reason, first,
            seq(|response.rows|, i requires 0 <= i < |response.rows| => Shortened(response.rows[i])))
  }

  /** Details, metadata and summary are exactly the projections of the latest response. */
  ghost predicate Projected(t: Tables) {
    match t.latest
    case None => t.metadata.None? && t.details == map[] && t.summary.None?
    case Some(response) =>
      && DistinctAssets(response.rows)
      && t.metadata == Some(response.(rows := []))
      && t.details == DetailsOf(response.rows)
      && t.summary.Some?
      && IsHistoryMinimum(t.episodes, t.summary.value.historyFrom)
      && t.summary.value == SummaryOf(response, t.summary.value.historyFrom)
  }

  lemma HistoryMinimumExists(episodes: map<EpisodeId, Episode>) returns (first: Option<int>)
    ensures IsHistoryMinimum(episodes, first)
    decreases |episodes|
  {
    if episodes == map[] {
      first := None;
    } else {
      var id :| id in episodes;
      var others := episodes - {id};
      assert forall j :: j in episodes ==> j == id || j in others;
      var rest := HistoryMinimumExists(others);
      first := if rest.None? || episodes[id].firstObservedAt <= rest.value
               then Some(episodes[id].firstObservedAt) else rest;
    }
  }

  lemma HistoryMinimumUnique(episodes: map<EpisodeId, Episode>, a: Option<int>, b: Option<int>)
    requires IsHistoryMinimum(episodes, a) && IsHistoryMinimum(episodes, b)
    ensures a == b
  {
  }

  /** The earliest first observation on record. */
  ghost function HistoryMinimum(episodes: map<EpisodeId, Episode>): (first: Option<int>)
    ensures IsHistoryMinimum(episodes, first)
  {
    assert exists m :: IsHistoryMinimum(episodes, m) by {
      var m := HistoryMinimumExists(episodes);
    }
    var m :| IsHistoryMinimum(episodes, m);
    m
  }

  ghost function Reprojected(t: Tables, response: Response): Tables
    requires DistinctAssets(response.rows)
  {
    t.(latest := Some(response),
       metadata := Some(response.(rows := [])),
       details := DetailsOf(response.rows),
       summary := Some(SummaryOf(response, HistoryMinimum(t.episodes))))
  }

  // ----- failed observations and same-cutoff refreshes -----

  /** Break continuity of the named assets; their open episodes are suspended, never ended. */
  function Broken(t: Tables, reasons: map<string, string>): Tables {
    t.(states := BrokenStates(t.states, reasons), episodes := BrokenEpisodes(t.episodes, reasons))
  }

  function BrokenStates(states: map<string, AssetState>, reasons: map<string, string>): map<string, AssetState> {
    map a | a in states :: if a in reasons then Forgotten(states[a]) else states[a]
  }

  function BrokenEpisodes(episodes: map<EpisodeId, Episode>, reasons: map<string, string>): map<EpisodeId, Episode> {
    map id | id in episodes ::
      var e := episodes[id];
      if e.Open() && e.asset in reasons then Suspend(e, Some(reasons[e.asset])) else e
  }

  function Blanked(rows: seq<Row>, reason: string): (blank: seq<Row>)
    ensures |blank| == |rows|
    ensures forall i :: 0 <= i < |rows| ==>
      blank[i] == rows[i].(state := Unknown, reason := Some(reason), confirmation := None)
  {
    seq(|rows|, i requires 0 <= i < |rows| =>
      rows[i].(state := Unknown, reason := Some(reason), confirmation := None))
  }

  predicate Unavailable(row: Row, restarted: bool) {
    || restarted
    || row.state == Unknown
    || row.identityStatus == IdentityInvalid || row.identityStatus == IdentityExcluded
    || !row.originalsCurrent
  }

  function UnavailableReason(row: Row, restarted: bool): string {
    if restarted then "awaiting_new_cutoff"
    else if row.reason.Some? && row.reason.value != "" then row.reason.value
    else "identity_ineligible"
  }

  /** Why a refresh at the evaluated cutoff breaks the asset's continuity, if it does. */
  function RefreshBreak(prior: AssetState, found: Option<Row>, c: Context): Option<string> {
    match found
    case None => Some("row_missing")
    case Some(row) =>
      if Unavailable(row, c.restarted) then Some(UnavailableReason(row, c.restarted))
      else if !SameIdentity(prior, row, c.policy) then Some("identity_changed")
      else None
  }

  function RefreshBreaks(states: map<string, AssetState>, rows: seq<Row>, c: Context): map<string, string> {
    map a | a in states && RefreshBreak(states[a], FindRow(rows, a), c).Some?
      :: RefreshBreak(states[a], FindRow(rows, a), c).value
  }

  function RefreshedRow(prior: Option<AssetState>, previous: Option<Row>, row: Row, c: Context): Row {
    var same := previous.Some? && previous.value.identity == row.identity;
    var state := if Unavailable(row, c.restarted) || !same then Unknown else previous.value.state;
    row.(state := state,
         reason := if Unavailable(row, c.restarted) then Some(UnavailableReason(row, c.restarted))
                   else if same then previous.value.reason
                   else Some("awaiting_new_cutoff"),
         confirmation := if state != Unknown && same then previous.value.confirmation else None,
         episodeId := if same then previous.value.episodeId
                      else if prior.Some? && SameIdentity(prior.value, row, c.policy) then prior.value.episodeId
                      else None)
  }

  function RefreshedRows(t: Tables, rows: seq<Row>, c: Context): (refreshed: seq<Row>)
    requires t.latest.Some?
    ensures |refreshed| == |rows|
    ensures forall i :: 0 <= i < |rows| ==>
      refreshed[i] == RefreshedRow(Lookup(t.states, rows[i].asset), FindRow(t.latest.value.rows, rows[i].asset), rows[i], c)
  {
    seq(|rows|, i requires 0 <= i < |rows| =>
      RefreshedRow(Lookup(t.states, rows[i].asset), FindRow(t.latest.value.rows, rows[i].asset), rows[i], c))
  }

  const INCOMPLETE := "incomplete_discovery_coverage"

  predicate AnyUnknown(rows: seq<Row>) {
    exists r :: r in rows && r.state == Unknown
  }

  function RefreshedResponse(t: Tables, rows: seq<Row>, c: Context): Response
    requires t.latest.Some?
  {
    var refreshed := RefreshedRows(t, rows, c);
    var incomplete := RefreshBreaks(t.states, rows, c) != map[] || AnyUnknown(refreshed);
    if t.latest.value.status == Stale then Response(c.inputs, Stale, t.latest.value.reason, refreshed)
    else Response(c.inputs, if incomplete then Partial else Ready, if incomplete then Some(INCOMPLETE) else None, refreshed)
  }

  function EvaluatedResponse(t: Tables, rows: seq<Row>, c: Context): Response {
    var incomplete := MissingActive(t, rows) || AnyUnknown(rows);
    Response(c.inputs, if incomplete then Partial else Ready, if incomplete then Some(INCOMPLETE) else None,
             EvaluatedRows(t, rows, c))
  }

  // ----- one writer operation on the tables -----

  ghost function InterruptTables(t: Tables, reason: string): Tables
    requires t.latest.Some? ==> DistinctAssets(t.latest.value.rows)
  {
    match t.latest
    case None => t
    case Some(r) =>
      Reprojected(Broken(t, map a | a in t.states :: reason),
                  r.(status := Stale, reason := Some(reason), rows := Blanked(r.rows, reason)))
  }

  ghost function RefreshTables(t: Tables, rows: seq<Row>, c: Context): Tables
    requires t.latest.Some? && DistinctAssets(rows)
  {
    Reprojected(Broken(t, RefreshBreaks(t.states, rows, c)), RefreshedResponse(t, rows, c))
  }

  ghost function EvaluateTables(t: Tables, rows: seq<Row>, c: Context, order: DigestOrder): Tables
    requires DistinctAssets(rows) && OwnIdentities(rows)
  {
    var after := Evaluated(t, rows, c, Touched(t, rows));
    Reprojected(after.(episodes := Pruned(after.episodes, order, c.inputs.decisionAt)), EvaluatedResponse(t, rows, c))
  }

  predicate IsNewCutoff(t: Tables, cutoff: int) {
    t.latest.None? || t.latest.value.inputs.cutoff < cutoff
  }

  predicate IsSameCutoff(t: Tables, cutoff: int) {
    t.latest.Some? && t.latest.value.inputs.cutoff == cutoff
  }

  ghost function SaveTables(t: Tables, rows: seq<Row>, c: Context, order: DigestOrder): Tables
    requires OwnIdentities(rows)
  {
    if !DistinctAssets(rows) then t
    else if IsNewCutoff(t, c.inputs.cutoff) then EvaluateTables(t, rows, c, order)
    else if IsSameCutoff(t, c.inputs.cutoff) then RefreshTables(t, rows, c)
    else t
  }
}
