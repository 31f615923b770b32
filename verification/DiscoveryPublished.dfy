/**
 What a history of operations publishes: the condition every published row shows, and whether the
 response is ready, partial or stale.
 */
module DiscoveryPublished {
  import opened Prelude
  import opened Discovery
  import opened DiscoveryInvariant
  import opened DiscoveryHistory
  import opened EpisodeHistory

  /** Event v is the last of the first n that evaluated a cutoff. */
  predicate LastEvaluation(trace: seq<Event>, v: int, n: int) {
    0 <= v < n <= |trace| && Evaluates(trace, v) && forall j :: v < j < n ==> !Evaluates(trace, j)
  }

  /** Event j takes a condition back: a failed observation, or a refresh without the identity fit to be shown. */
  predicate Hides(trace: seq<Event>, j: int, identity: IdentityKey)
    requires 0 <= j < |trace|
  {
    || trace[j].Interrupt?
    || (Refreshes(trace, j) && match FindRow(trace[j].rows, identity.asset)
        case None => true
        case Some(row) =>
          || row.identity != identity || trace[j].restarted || row.state == Unknown || !row.originalsCurrent
          || (row.identityStatus != IdentityReady && row.identityStatus != IdentityPartial))
  }

  /** The identity was evaluated at v and nothing before n took its condition back. */
  predicate Shown(trace: seq<Event>, v: int, n: int, identity: IdentityKey) {
    && Observed(trace, v, identity.asset) && n <= |trace| && RowAt(trace, v, identity.asset).identity == identity
    && forall j :: v < j < n ==> !Hides(trace, j, identity)
  }

  /** A published row shows what was evaluated as long as nothing took it back, and unknown otherwise. */
  ghost predicate RowTold(trace: seq<Event>, p: Row, v: int, n: int) {
    && p.identity.asset == p.asset
    && if Shown(trace, v, n, p.identity) then
         var row := RowAt(trace, v, p.asset);
         p.state == row.state && p.reason == row.reason
         && p.confirmation == ConfirmationByHistory(trace[..v], trace[v], row)
       else p.state == Unknown && p.confirmation == None && p.reason.Some?
  }

  /** The response is stale from a failed observation until the next evaluation, and says why. */
  ghost predicate StatusTold(trace: seq<Event>, r: Response, v: int, n: int) {
    && n <= |trace|
    && (r.status == Stale <==> exists j :: LastFailure(trace, j, v, n))
    && (r.status == Stale ==> exists j :: LastFailure(trace, j, v, n) && r.reason == Some(trace[j].reason))
  }

  predicate LastFailure(trace: seq<Event>, j: int, v: int, n: int) {
    0 <= v < j < n <= |trace| && trace[j].Interrupt? && forall i :: j < i < n ==> !trace[i].Interrupt?
  }

  ghost predicate ResponseTold(trace: seq<Event>, r: Response, v: int, n: int) {
    && LastEvaluation(trace, v, n) && r.inputs.cutoff == trace[v].inputs.cutoff
    && (forall i :: 0 <= i < |r.rows| ==> RowTold(trace, r.rows[i], v, n))
    && (forall identity :: Shown(trace, v, n, identity) ==> Published(r.rows, identity))
    && StatusTold(trace, r, v, n)
  }

  predicate Published(rows: seq<Row>, identity: IdentityKey) {
    exists i :: 0 <= i < |rows| && rows[i].identity == identity
  }

  ghost predicate PublishedTold(trace: seq<Event>, t: Tables, n: int) {
    if t.latest.None? then forall j :: 0 <= j < n <= |trace| ==> !Evaluates(trace, j)
    else exists v :: ResponseTold(trace, t.latest.value, v, n)
  }

  // ----- one event -----

  lemma EvaluationTold(trace: seq<Event>, order: DigestOrder, n: nat)
    requires WellFormedTrace(trace) && n < |trace| && Evaluates(trace, n)
    ensures var latest := Run(trace[..n + 1], order).latest; latest.Some? && ResponseTold(trace, latest.value, n, n + 1)
  {
    KindAt(trace, order, n);
    assert Accepted(trace[n]);
    hide *;
    LatestEvaluated(Run(trace[..n], order), trace[n], order);
    EvaluatedTold(trace, order, n);
  }

  lemma EvaluatedTold(trace: seq<Event>, order: DigestOrder, n: nat)
    requires n < |trace| && WellFormedTrace(trace) && WellFormedTrace(trace[..n]) && Evaluates(trace, n) && trace[n].Save?
    ensures ResponseTold(trace, EvaluatedResponse(Run(trace[..n], order), trace[n].rows, ContextOf(trace[n])), n, n + 1)
  {
    var ev, t := trace[n], Run(trace[..n], order);
    var r := EvaluatedResponse(t, ev.rows, ContextOf(ev));
    EvaluatedMeans(t, ev);
    hide Run, ConfirmationByHistory, Evaluates, EvaluatedResponse, RowTold, ConfirmationOf;
    forall i | 0 <= i < |r.rows| ensures RowTold(trace, r.rows[i], n, n + 1) {
      EvaluatedRowTold(trace, order, n, i, r.rows[i]);
    }
    forall identity | Shown(trace, n, n + 1, identity) ensures Published(r.rows, identity) {
      var i :| 0 <= i < |ev.rows| && ev.rows[i] == RowAt(trace, n, identity.asset);
      assert r.rows[i].identity == identity;
    }
  }

  lemma EvaluatedRowTold(trace: seq<Event>, order: DigestOrder, n: nat, i: nat, p: Row)
    requires n < |trace| && WellFormedTrace(trace) && WellFormedTrace(trace[..n]) && Evaluates(trace, n)
    requires i < |trace[n].rows| && EvaluatedLike(Run(trace[..n], order), trace[n].rows[i], p, ContextOf(trace[n]))
    ensures RowTold(trace, p, n, n + 1)
  {
    var rows := trace[n].rows;
    assert Accepted(trace[n]) && WellFormed(trace[n]) && rows[i] in rows;
    FindRowUnique(rows, i);
    hide Run, ConfirmationByHistory, ConfirmationOf, Evaluates;
    ConfirmationAgrees(trace[..n], order, trace[n], rows[i]);
  }

  lemma LatestEvaluated(t: Tables, ev: Event, order: DigestOrder)
    requires Valid(t) && WellFormed(ev) && Accepted(ev) && IsNewCutoff(t, ev.inputs.cutoff)
    ensures Step(t, ev, order).latest == Some(EvaluatedResponse(t, ev.rows, ContextOf(ev)))
  {
  }

  lemma EvaluatedMeans(t: Tables, ev: Event)
    requires ev.Save?
    ensures var r := EvaluatedResponse(t, ev.rows, ContextOf(ev));
      && r.inputs == ev.inputs && r.status != Stale && |r.rows| == |ev.rows|
      && forall i :: 0 <= i < |ev.rows| ==> EvaluatedLike(t, ev.rows[i], r.rows[i], ContextOf(ev))
  {
    hide ConfirmationOf;
  }

  predicate EvaluatedLike(t: Tables, row: Row, p: Row, c: Context) {
    p == row.(confirmation := ConfirmationOf(Lookup(t.states, row.asset), row, c), episodeId := p.episodeId)
  }

  lemma ShownNext(trace: seq<Event>, v: int, n: nat, identity: IdentityKey)
    requires 0 <= v < n < |trace|
    ensures Shown(trace, v, n + 1, identity) <==> Shown(trace, v, n, identity) && !Hides(trace, n, identity)
  {
    hide Hides, Observed;
  }

  /** What a refresh publishes of a row, from the row published before for the same identity; and why it shows nothing. */
  lemma RefreshedMeans(prior: Option<AssetState>, previous: Option<Row>, row: Row, c: Context)
    ensures var p := RefreshedRow(prior, previous, row, c);
      var fit := !c.restarted && row.state != Unknown && row.originalsCurrent
        && (row.identityStatus == IdentityReady || row.identityStatus == IdentityPartial);
      var same := previous.Some? && previous.value.identity == row.identity;
      && p == row.(state := p.state, reason := p.reason, confirmation := p.confirmation, episodeId := p.episodeId)
      && if fit && same then
           p.state == previous.value.state && p.reason == previous.value.reason
           && p.confirmation == if p.state == Unknown then None else previous.value.confirmation
         else
           p.state == Unknown && p.confirmation == None
           && p.reason == if fit || c.restarted then Some("awaiting_new_cutoff")
             else if row.reason.Some? && row.reason.value != "" then row.reason else Some("identity_ineligible")
  {
  }

  /** A refresh shows a row of the evaluation exactly if nothing takes it back. */
  lemma RefreshTold(trace: seq<Event>, t: Tables, v: int, n: nat, i: nat)
    requires n < |trace| && Refreshes(trace, n) && WellFormed(trace[n]) && t.latest.Some? && DistinctAssets(t.latest.value.rows)
    requires ResponseTold(trace, t.latest.value, v, n) && i < |trace[n].rows|
    ensures RowTold(trace, RefreshedRows(t, trace[n].rows, ContextOf(trace[n]))[i], v, n + 1)
  {
    hide ConfirmationByHistory, Evaluates, Shown, RefreshedRow, StatusTold;
    var row := trace[n].rows[i];
    assert row in trace[n].rows;
    FindRowUnique(trace[n].rows, i);
    ShownNext(trace, v, n, row.identity);
    var rows := t.latest.value.rows;
    var previous := FindRow(rows, row.asset);
    RefreshedMeans(Lookup(t.states, row.asset), previous, row, ContextOf(trace[n]));
    if previous.Some? {
      var k :| 0 <= k < |rows| && rows[k] == previous.value;
      assert RowTold(trace, rows[k], v, n);
    }
    if Shown(trace, v, n, row.identity) {
      ShownIsFound(rows, row.identity, row.asset);
    }
    UnmatchedUnconfirmed(trace, v, row.asset);
    hide Hides, FindRow, Observed;
  }

  lemma ShownIsFound(rows: seq<Row>, identity: IdentityKey, a: string)
    requires DistinctAssets(rows) && Published(rows, identity) && identity.asset == a
    requires forall i :: 0 <= i < |rows| ==> rows[i].identity.asset == rows[i].asset
    ensures FindRow(rows, a).Some? && FindRow(rows, a).value.identity == identity
  {
    var i :| 0 <= i < |rows| && rows[i].identity == identity;
    FindRowUnique(rows, i);
  }

  /** Only a matched row has a confirmation. */
  lemma UnmatchedUnconfirmed(trace: seq<Event>, v: int, a: string)
    ensures Observed(trace, v, a) && RowAt(trace, v, a).state != Matched ==>
      ConfirmationByHistory(trace[..v], trace[v], RowAt(trace, v, a)) == None
    ensures forall n, identity :: Shown(trace, v, n, identity) ==> Observed(trace, v, identity.asset)
  {
  }

  lemma RefreshResponse(trace: seq<Event>, t: Tables, v: int, n: nat)
    requires n < |trace| && Refreshes(trace, n) && WellFormed(trace[n]) && t.latest.Some? && DistinctAssets(t.latest.value.rows)
    requires IsSameCutoff(t, trace[n].inputs.cutoff) && ResponseTold(trace, t.latest.value, v, n)
    ensures ResponseTold(trace, RefreshedResponse(t, trace[n].rows, ContextOf(trace[n])), v, n + 1)
  {
    var rows, c := trace[n].rows, ContextOf(trace[n]);
    var r := RefreshedResponse(t, rows, c);
    assert !Evaluates(trace, n);
    RefreshedStatus(t, rows, c);
    hide RefreshedResponse, Evaluates, RowTold, Shown;
    forall i | 0 <= i < |rows| ensures RowTold(trace, r.rows[i], v, n + 1) {
      RefreshTold(trace, t, v, n, i);
    }
    forall identity | Shown(trace, v, n + 1, identity) ensures Published(r.rows, identity) {
      ShownNext(trace, v, n, identity);
      var i :| 0 <= i < |rows| && rows[i] == FindRow(rows, identity.asset).value;
      RefreshedMeans(Lookup(t.states, rows[i].asset), FindRow(t.latest.value.rows, rows[i].asset), rows[i], c);
      assert r.rows[i].identity == identity;
    }
    hide Hides;
    StatusNext(trace, t.latest.value, r, v, n);
  }

  lemma RefreshedStatus(t: Tables, rows: seq<Row>, c: Context)
    requires t.latest.Some?
    ensures var r := RefreshedResponse(t, rows, c);
      && r.inputs == c.inputs && r.rows == RefreshedRows(t, rows, c)
      && (r.status == Stale <==> t.latest.value.status == Stale)
      && (r.status == Stale ==> r.reason == t.latest.value.reason)
  {
  }

  /** Only a failed observation or an evaluation changes whether the response is stale. */
  lemma StatusNext(trace: seq<Event>, r: Response, now: Response, v: int, n: nat)
    requires 0 <= v < n < |trace| && StatusTold(trace, r, v, n) && !trace[n].Interrupt?
    requires (now.status == Stale <==> r.status == Stale) && (now.status == Stale ==> now.reason == r.reason)
    ensures StatusTold(trace, now, v, n + 1)
  {
    var m := n + 1;
    forall j ensures LastFailure(trace, j, v, m) <==> LastFailure(trace, j, v, n) {}
    if now.status == Stale {
      var j :| LastFailure(trace, j, v, n) && r.reason == Some(trace[j].reason);
      assert LastFailure(trace, j, v, m);
    }
  }

  lemma InterruptResponse(trace: seq<Event>, r: Response, v: int, n: nat)
    requires n < |trace| && trace[n].Interrupt? && ResponseTold(trace, r, v, n)
    ensures var reason := trace[n].reason;
      ResponseTold(trace, r.(status := Stale, reason := Some(reason), rows := Blanked(r.rows, reason)), v, n + 1)
  {
    var reason := trace[n].reason;
    var now := r.(status := Stale, reason := Some(reason), rows := Blanked(r.rows, reason));
    assert !Evaluates(trace, n);
    hide Evaluates;
    assert LastFailure(trace, n, v, n + 1);
    var m := n + 1;
    forall identity ensures !Shown(trace, v, m, identity) {
      ShownNext(trace, v, n, identity);
    }
    forall i | 0 <= i < |now.rows| ensures RowTold(trace, now.rows[i], v, n + 1) {
      assert RowTold(trace, r.rows[i], v, n);
    }
  }

  /** An event that neither evaluates, refreshes nor fails leaves what is published. */
  lemma OtherResponse(trace: seq<Event>, r: Response, v: int, n: nat)
    requires n < |trace| && !trace[n].Interrupt? && !Evaluates(trace, n) && !Refreshes(trace, n)
    requires ResponseTold(trace, r, v, n)
    ensures ResponseTold(trace, r, v, n + 1)
  {
    hide Evaluates, Refreshes, RowTold, Shown, StatusTold;
    forall identity ensures Shown(trace, v, n + 1, identity) == Shown(trace, v, n, identity) {
      ShownNext(trace, v, n, identity);
    }
    forall i | 0 <= i < |r.rows| ensures RowTold(trace, r.rows[i], v, n + 1) {
      RowSame(trace, r.rows[i], v, n);
    }
    StatusNext(trace, r, r, v, n);
  }

  lemma RowSame(trace: seq<Event>, p: Row, v: int, n: nat)
    requires RowTold(trace, p, v, n) && (Shown(trace, v, n + 1, p.identity) <==> Shown(trace, v, n, p.identity))
    ensures RowTold(trace, p, v, n + 1)
  {
    hide Shown, ConfirmationByHistory;
  }

  /** The latest response after event n, by the kind of event. */
  lemma LatestAfter(trace: seq<Event>, order: DigestOrder, n: nat)
    requires WellFormedTrace(trace) && n < |trace| && !Evaluates(trace, n)
    ensures var t, after := Run(trace[..n], order), Run(trace[..n + 1], order).latest;
      if t.latest.None? then after.None?
      else if trace[n].Interrupt? then
        after == Some(t.latest.value.(status := Stale, reason := Some(trace[n].reason), rows := Blanked(t.latest.value.rows, trace[n].reason)))
      else if Refreshes(trace, n) then
        IsSameCutoff(t, trace[n].inputs.cutoff) && after == Some(RefreshedResponse(t, trace[n].rows, ContextOf(trace[n])))
      else after == t.latest
  {
    KindAt(trace, order, n);
    hide Run, Evaluates, Refreshes, Valid, RefreshedResponse, Broken;
  }

  /**
   Over every history, each published row shows the condition, reason and confirmation its identity was
   given by the last evaluation for as long as nothing took it back, and unknown from then on; and the
   response is stale exactly from a failed observation to the next evaluation.
   */
  lemma {:induction false} PublishedIsHistory(trace: seq<Event>, order: DigestOrder, n: nat)
    requires WellFormedTrace(trace) && n <= |trace|
    ensures PublishedTold(trace, Run(trace[..n], order), n)
  {
    if n > 0 {
      PublishedIsHistory(trace, order, n - 1);
      if Evaluates(trace, n - 1) {
        EvaluationTold(trace, order, n - 1);
      } else {
        PublishedNext(trace, order, n - 1);
      }
    }
  }

  lemma PublishedNext(trace: seq<Event>, order: DigestOrder, n: nat)
    requires WellFormedTrace(trace) && n < |trace| && !Evaluates(trace, n)
    requires PublishedTold(trace, Run(trace[..n], order), n)
    ensures PublishedTold(trace, Run(trace[..n + 1], order), n + 1)
  {
    hide Run, Evaluates, Refreshes, ResponseTold, RefreshedResponse;
    LatestAfter(trace, order, n);
    var t := Run(trace[..n], order);
    if t.latest.Some? {
      RowsDistinct(t);
      var r := t.latest.value;
      var v :| ResponseTold(trace, r, v, n);
      if trace[n].Interrupt? {
        InterruptResponse(trace, r, v, n);
      } else if Refreshes(trace, n) {
        RefreshResponse(trace, t, v, n);
      } else {
        OtherResponse(trace, r, v, n);
      }
    }
  }

  lemma RowsDistinct(t: Tables)
    requires Valid(t) && t.latest.Some?
    ensures DistinctAssets(t.latest.value.rows)
  {
  }

  // ----- ready or partial -----

  /** An evaluation is ready exactly if every row is known and no open episode's asset is missing. */
  lemma EvaluationReady(t: Tables, rows: seq<Row>, c: Context)
    requires Valid(t) && DistinctAssets(rows)
    ensures var r := EvaluatedResponse(t, rows, c);
      && (r.status == Ready <==>
            && (forall i :: 0 <= i < |rows| ==> rows[i].state != Unknown)
            && (forall id :: id in t.episodes && t.episodes[id].Open() ==> FindRow(rows, t.episodes[id].asset).Some?))
      && r.status != Stale && r.reason == if r.status == Ready then None else Some("incomplete_discovery_coverage")
  {
    OpenAreNamed(t);
    SomeUnknown(rows);
    hide Valid, Episode.Open, AnyUnknown, EvaluatedRows, DistinctAssets;
    assert MissingActive(t, rows) <==>
      exists id :: id in t.episodes && t.episodes[id].Open() && FindRow(rows, t.episodes[id].asset).None?;
  }

  /** The open episodes are those the states name, each by its asset's. */
  lemma OpenAreNamed(t: Tables)
    requires Valid(t)
    ensures forall a :: a in t.states && t.states[a].episodeId.Some? ==>
      var id := t.states[a].episodeId.value; id in t.episodes && t.episodes[id].Open() && t.episodes[id].asset == a
    ensures forall id :: id in t.episodes && t.episodes[id].Open() ==>
      t.episodes[id].asset in t.states && t.states[t.episodes[id].asset].episodeId.Some?
  {
    forall a | a in t.states && t.states[a].episodeId.Some?
      ensures var id := t.states[a].episodeId.value; id in t.episodes && t.episodes[id].Open() && t.episodes[id].asset == a
    {
      StateRefers(t, a);
    }
    forall id | id in t.episodes && t.episodes[id].Open()
      ensures t.episodes[id].asset in t.states && t.states[t.episodes[id].asset].episodeId.Some?
    {
      assert Owned(t, t.episodes[id]);
    }
  }

  /**
   A refresh of a response that is not stale is ready exactly if it shows every row and repeats every
   asset evaluated so far under the same identity and policy.
   */
  lemma RefreshReady(t: Tables, rows: seq<Row>, c: Context)
    requires Valid(t) && DistinctAssets(rows) && t.latest.Some? && t.latest.value.status != Stale
    ensures var r := RefreshedResponse(t, rows, c);
      && (r.status == Ready <==>
            && (forall i :: 0 <= i < |r.rows| ==> r.rows[i].state != Unknown)
            && (forall a :: a in t.states ==> Repeated(t.states[a], FindRow(rows, a), c.policy)))
      && r.status != Stale && r.reason == if r.status == Ready then None else Some("incomplete_discovery_coverage")
  {
    var r := RefreshedResponse(t, rows, c);
    NothingBreaks(t, rows, c);
    UnavailableUnknown(t, rows, c);
    SomeUnknown(r.rows);
    hide Valid, RefreshBreaks, RefreshedRows, Unavailable, DistinctAssets, AnyUnknown;
  }

  lemma SomeUnknown(rows: seq<Row>)
    ensures AnyUnknown(rows) <==> exists i :: 0 <= i < |rows| && rows[i].state == Unknown
  {
  }

  lemma NothingBreaks(t: Tables, rows: seq<Row>, c: Context)
    ensures RefreshBreaks(t.states, rows, c) == map[] <==>
      forall a :: a in t.states ==>
        Repeated(t.states[a], FindRow(rows, a), c.policy) && !Unavailable(FindRow(rows, a).value, c.restarted)
  {
    var breaks := RefreshBreaks(t.states, rows, c);
    assert breaks == map[] <==> forall a :: a !in breaks;
    assert forall a :: a in t.states ==> (a in breaks <==>
      !(Repeated(t.states[a], FindRow(rows, a), c.policy) && !Unavailable(FindRow(rows, a).value, c.restarted)));
    assert forall a :: a in breaks ==> a in t.states;
    hide RefreshBreaks, Repeated, Unavailable;
  }

  lemma UnavailableUnknown(t: Tables, rows: seq<Row>, c: Context)
    requires t.latest.Some?
    ensures forall a :: FindRow(rows, a).Some? && Unavailable(FindRow(rows, a).value, c.restarted) ==>
      exists i :: 0 <= i < |rows| && RefreshedRows(t, rows, c)[i].state == Unknown
  {
    forall a | FindRow(rows, a).Some? && Unavailable(FindRow(rows, a).value, c.restarted)
      ensures exists i :: 0 <= i < |rows| && RefreshedRows(t, rows, c)[i].state == Unknown
    {
      var i :| 0 <= i < |rows| && rows[i] == FindRow(rows, a).value;
      assert RefreshedRows(t, rows, c)[i].state == Unknown;
    }
  }

  predicate Repeated(s: AssetState, found: Option<Row>, policy: string) {
    found.Some? && found.value.identity == s.identity && s.policy == policy
  }

  // ----- which episode a row names -----

  /** The episode a published row names is its asset's own; a shown row names it whenever there is one. */
  ghost predicate NamesOwn(trace: seq<Event>, t: Tables, p: Row, v: int, n: int) {
    && (p.episodeId.Some? ==>
          p.asset in t.states && t.states[p.asset].episodeId == p.episodeId && t.states[p.asset].identity == p.identity)
    && (Shown(trace, v, n, p.identity) ==> p.asset in t.states && t.states[p.asset].episodeId == p.episodeId)
  }

  ghost predicate AllNameOwn(trace: seq<Event>, t: Tables, rows: seq<Row>, v: int, n: int) {
    forall i :: 0 <= i < |rows| ==> NamesOwn(trace, t, rows[i], v, n)
  }

  /** Over every history, each published row names no episode but its asset's open one. */
  lemma {:induction false} RowsNameEpisodes(trace: seq<Event>, order: DigestOrder, n: nat, v: int)
    requires WellFormedTrace(trace) && n <= |trace| && LastEvaluation(trace, v, n)
    ensures var t := Run(trace[..n], order); t.latest.Some? && AllNameOwn(trace, t, t.latest.value.rows, v, n)
  {
    hide Run, Evaluates, RowTold, StatusTold, Shown, AllNameOwn;
    if Evaluates(trace, n - 1) {
      EvaluatedNames(trace, order, n - 1);
    } else {
      RowsNameEpisodes(trace, order, n - 1, v);
      PublishedIsHistory(trace, order, n - 1);
      KeptNames(trace, order, n - 1, v);
    }
  }

  lemma EvaluatedNames(trace: seq<Event>, order: DigestOrder, n: nat)
    requires WellFormedTrace(trace) && n < |trace| && Evaluates(trace, n)
    ensures var t := Run(trace[..n + 1], order); t.latest.Some? && AllNameOwn(trace, t, t.latest.value.rows, n, n + 1)
  {
    KindAt(trace, order, n);
    assert Accepted(trace[n]);
    hide Run, Step, Evaluates, Valid, EvaluatedResponse, Shown;
    var ev, before := trace[n], Run(trace[..n], order);
    LatestEvaluated(before, ev, order);
    forall i | 0 <= i < |ev.rows| ensures NamesOwn(trace, Step(before, ev, order), EvaluatedRow(before, ev.rows[i], ContextOf(ev)), n, n + 1) {
      RowNamesOwn(trace, before, ev, order, n, i);
    }
    EvaluatedAre(before, ev);
  }

  lemma EvaluatedAre(t: Tables, ev: Event)
    requires ev.Save?
    ensures EvaluatedResponse(t, ev.rows, ContextOf(ev)).rows == EvaluatedRows(t, ev.rows, ContextOf(ev))
  {
  }

  lemma RowNamesOwn(trace: seq<Event>, t: Tables, ev: Event, order: DigestOrder, n: nat, i: nat)
    requires Valid(t) && WellFormed(ev) && Accepted(ev) && IsNewCutoff(t, ev.inputs.cutoff) && i < |ev.rows|
    ensures NamesOwn(trace, Step(t, ev, order), EvaluatedRow(t, ev.rows[i], ContextOf(ev)), n, n + 1)
  {
    hide Step, Valid, Shown, EpisodeIdOf, ConfirmationOf;
    FindRowUnique(ev.rows, i);
    StepState(t, ev, order, ev.rows[i].asset);
  }

  lemma KeptNames(trace: seq<Event>, order: DigestOrder, n: nat, v: int)
    requires WellFormedTrace(trace) && n < |trace| && !Evaluates(trace, n) && LastEvaluation(trace, v, n)
    requires var t := Run(trace[..n], order);
      t.latest.Some? && ResponseTold(trace, t.latest.value, v, n) && AllNameOwn(trace, t, t.latest.value.rows, v, n)
    ensures var t := Run(trace[..n + 1], order); t.latest.Some? && AllNameOwn(trace, t, t.latest.value.rows, v, n + 1)
  {
    hide Run, Evaluates, Refreshes, RefreshedResponse, RowTold, StatusTold, Shown;
    LatestAfter(trace, order, n);
    StatesKept(trace, order, n);
    var t, after := Run(trace[..n], order), Run(trace[..n + 1], order);
    RowsDistinct(t);
    if Refreshes(trace, n) {
      IsRefresh(trace, n);
      RefreshedStatus(t, trace[n].rows, ContextOf(trace[n]));
    }
    forall identity ensures Shown(trace, v, n + 1, identity) <==> Shown(trace, v, n, identity) && !Hides(trace, n, identity) {
      ShownNext(trace, v, n, identity);
    }
    forall i | 0 <= i < |after.latest.value.rows| ensures NamesOwn(trace, after, after.latest.value.rows[i], v, n + 1) {
      if trace[n].Interrupt? {
        assert NamesOwn(trace, t, t.latest.value.rows[i], v, n);
      } else if Refreshes(trace, n) {
        RefreshedNames(trace, t, after, v, n, i);
      } else {
        assert NamesOwn(trace, t, t.latest.value.rows[i], v, n);
      }
    }
  }

  lemma IsRefresh(trace: seq<Event>, n: nat)
    requires n < |trace| && Refreshes(trace, n)
    ensures trace[n].Save?
  {
  }

  lemma StatesKept(trace: seq<Event>, order: DigestOrder, n: nat)
    requires WellFormedTrace(trace) && n < |trace| && !Evaluates(trace, n)
    ensures var t, after := Run(trace[..n], order).states, Run(trace[..n + 1], order).states;
      forall a :: a in t ==> a in after && after[a].episodeId == t[a].episodeId && after[a].identity == t[a].identity
  {
    KindAt(trace, order, n);
    hide Run, Step, Evaluates, Refreshes, Valid, RefreshBreak;
    var t := Run(trace[..n], order);
    forall a | a in t.states
      ensures var after := Run(trace[..n + 1], order).states;
        a in after && after[a].episodeId == t.states[a].episodeId && after[a].identity == t.states[a].identity
    {
      StepState(t, trace[n], order, a);
    }
  }

  lemma RefreshedNames(trace: seq<Event>, t: Tables, after: Tables, v: int, n: nat, i: nat)
    requires n < |trace| && Refreshes(trace, n) && WellFormed(trace[n]) && t.latest.Some? && DistinctAssets(t.latest.value.rows)
    requires ResponseTold(trace, t.latest.value, v, n) && AllNameOwn(trace, t, t.latest.value.rows, v, n)
    requires i < |trace[n].rows|
    requires forall a :: a in t.states ==>
      a in after.states && after.states[a].episodeId == t.states[a].episodeId && after.states[a].identity == t.states[a].identity
    ensures NamesOwn(trace, after, RefreshedRows(t, trace[n].rows, ContextOf(trace[n]))[i], v, n + 1)
  {
    IsRefresh(trace, n);
    hide Evaluates, Refreshes, Shown, StatusTold;
    var row, rows := trace[n].rows[i], t.latest.value.rows;
    assert row in trace[n].rows;
    ShownNext(trace, v, n, row.identity);
    var previous := FindRow(rows, row.asset);
    if previous.Some? {
      var k :| 0 <= k < |rows| && rows[k] == previous.value;
      assert NamesOwn(trace, t, rows[k], v, n) && RowTold(trace, rows[k], v, n);
    }
    hide RowTold, Hides;
    assert forall k :: 0 <= k < |rows| ==> rows[k].identity.asset == rows[k].asset by { RowsOwn(trace, t.latest.value, v, n); }
    if Shown(trace, v, n, row.identity) {
      ShownIsFound(rows, row.identity, row.asset);
    }
  }

  lemma RowsOwn(trace: seq<Event>, r: Response, v: int, n: int)
    requires ResponseTold(trace, r, v, n)
    ensures forall k :: 0 <= k < |r.rows| ==> r.rows[k].identity.asset == r.rows[k].asset
  {
    hide Shown;
  }

  // ----- the summary -----

  predicate Summarises(p: SummaryRow, row: Row) {
    && p.asset == row.asset && p.identity == row.identity && p.state == row.state && p.reason == row.reason
    && p.direction == row.direction && p.confirmation == row.confirmation && p.episodeId == row.episodeId
  }

  /** The summary shows the latest response row by row, and since when there is any history. */
  lemma SummaryShowsLatest(t: Tables)
    requires Valid(t) && t.latest.Some?
    ensures t.summary.Some?
    ensures var r, s := t.latest.value, t.summary.value;
      && s.inputs == r.inputs && s.status == r.status && s.reason == r.reason && |s.rows| == |r.rows|
      && (forall i :: 0 <= i < |r.rows| ==> Summarises(s.rows[i], r.rows[i]))
      && (s.historyFrom == None <==> t.episodes == map[])
      && (forall id :: id in t.episodes ==> s.historyFrom.value <= t.episodes[id].firstObservedAt)
      && (s.historyFrom.Some? ==> exists id :: id in t.episodes && t.episodes[id].firstObservedAt == s.historyFrom.value)
  {
    hide Coherent;
  }
}
