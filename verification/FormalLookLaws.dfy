/**
 What a formal look may rest on and when it may be taken, row by row: which generations are evidence,
 when a reservation is possible, and that an undisturbed look returns.
 */
module FormalLookLaws {
  import opened Prelude
  import opened FormalLook

  // ----- evidence, row by row -----

  /** Every asset of the protocol has one feature, of its reference and this decision, and no other asset has any. */
  predicate FeaturesFit(g: Generation, p: Protocol) {
    && DistinctFeatures(g.features)
    && (forall a :: a in p.referenceKeys ==> HasFeature(g.features, a, p.referenceKeys[a]))
    && (forall i :: 0 <= i < |g.features| ==>
          g.features[i].asset in p.referenceKeys && g.features[i].decisionAt == g.decisionAt)
  }

  predicate HasFeature(features: seq<Feature>, a: nat, referenceKey: Option<nat>) {
    exists i :: 0 <= i < |features| && features[i].asset == a && features[i].referenceKey == referenceKey
  }

  /** The outcome is of this decision and protocol, starts at the first minute at or after it, and was settled in time. */
  predicate OutcomeFits(o: Outcome, g: Generation, p: Protocol, availability: int) {
    && o.generation == g.id && o.asset in p.referenceKeys && o.referenceKey == p.referenceKeys[o.asset] && o.horizon in p.horizons
    && o.cutoff % 60_000 == 0 && g.decisionAt <= o.cutoff < g.decisionAt + 60_000 && o.settledAt <= availability
  }

  predicate Fits(g: Generation, p: Protocol, availability: int) {
    && g.mapVersion == p.mapVersion && g.rankingCutoff <= g.decisionAt && g.responseId == g.id && FeaturesFit(g, p)
    && forall i :: 0 <= i < |g.outcomes| && g.outcomes[i].reference ==> OutcomeFits(g.outcomes[i], g, p, availability)
  }

  lemma {:induction false} AssetsNamed(features: seq<Feature>)
    ensures forall a :: a in Assets(features) <==> Named(features, a)
  {
    if features != [] {
      var n := |features| - 1;
      AssetsNamed(features[..n]);
      forall a ensures Named(features, a) <==> Named(features[..n], a) || a == features[n].asset {
        if Named(features[..n], a) {
          var i :| 0 <= i < n && features[..n][i].asset == a;
          assert features[i].asset == a;
        }
      }
      hide Named;
    }
  }

  predicate Named(features: seq<Feature>, a: nat) {
    exists i :: 0 <= i < |features| && features[i].asset == a
  }

  predicate DistinctFeatures(features: seq<Feature>) {
    forall i, j :: 0 <= i < j < |features| ==> features[i].asset != features[j].asset
  }

  lemma {:induction false} AssetsAre(features: seq<Feature>)
    ensures |Assets(features)| <= |features|
    ensures |Assets(features)| == |features| <==> DistinctFeatures(features)
    ensures DistinctFeatures(features) ==> forall i :: 0 <= i < |features| ==>
      features[i].asset in Assets(features) && Assets(features)[features[i].asset] == features[i].referenceKey
  {
    if features != [] {
      var n := |features| - 1;
      var f := features[n];
      AssetsAre(features[..n]);
      AssetsNamed(features[..n]);
      OneMoreKey(Assets(features[..n]), f.asset, f.referenceKey);
      OneMoreFeature(features);
      assert Assets(features) == Assets(features[..n])[f.asset := f.referenceKey];
      hide Assets, DistinctFeatures, Named;
      forall i | DistinctFeatures(features) && 0 <= i < n ensures features[..n][i] == features[i] && features[i].asset != f.asset {
        DifferentAssets(features, i, n);
      }
    }
  }

  lemma DifferentAssets(features: seq<Feature>, i: nat, j: nat)
    requires DistinctFeatures(features) && i < j < |features|
    ensures features[i].asset != features[j].asset
  {
  }

  lemma OneMoreFeature(features: seq<Feature>)
    requires features != []
    ensures var n := |features| - 1;
      DistinctFeatures(features) <==> DistinctFeatures(features[..n]) && !Named(features[..n], features[n].asset)
  {
    var n := |features| - 1;
    assert forall i :: 0 <= i < n ==> features[..n][i] == features[i];
  }

  lemma OneMoreKey(m: map<nat, Option<nat>>, a: nat, r: Option<nat>)
    ensures |m[a := r]| == |m| + if a in m then 0 else 1
  {
    assert m[a := r].Keys == m.Keys + {a};
  }

  lemma FeaturesMean(g: Generation, p: Protocol)
    ensures FeaturesFit(g, p) <==>
      && |Assets(g.features)| == |g.features| && Assets(g.features) == p.referenceKeys
      && forall f :: f in g.features ==> f.decisionAt == g.decisionAt
  {
    AssetsAre(g.features);
    AssetsNamed(g.features);
    hide Assets, DistinctFeatures;
    var assets := Assets(g.features);
    assert forall i :: 0 <= i < |g.features| ==> g.features[i] in g.features;
    if DistinctFeatures(g.features) {
      forall a | a in p.referenceKeys
        ensures HasFeature(g.features, a, p.referenceKeys[a]) <==> a in assets && assets[a] == p.referenceKeys[a]
      {
      }
      assert assets == p.referenceKeys <==> assets.Keys == p.referenceKeys.Keys && forall a :: a in p.referenceKeys ==> assets[a] == p.referenceKeys[a];
      assert forall i :: 0 <= i < |g.features| ==> g.features[i].asset in assets;
      assert forall a :: a in assets ==> Named(g.features, a);
    }
  }

  lemma {:induction false} ReferenceRowsAre(outcomes: seq<Outcome>)
    ensures forall o :: o in ReferenceRows(outcomes) <==> o in outcomes && o.reference
  {
    if outcomes != [] {
      var n := |outcomes| - 1;
      ReferenceRowsAre(outcomes[..n]);
      assert outcomes == outcomes[..n] + [outcomes[n]];
    }
  }

  lemma CutoffMeans(o: Outcome, g: Generation, p: Protocol, availability: int)
    ensures BoundOutcome(o, g, p, availability) <==> OutcomeFits(o, g, p, availability)
  {
    var c := OutcomeCutoff(g.decisionAt);
    assert c / 60_000 * 60_000 == c;
    if o.cutoff % 60_000 == 0 && g.decisionAt <= o.cutoff < g.decisionAt + 60_000 {
      assert o.cutoff / 60_000 * 60_000 == o.cutoff;
      assert o.cutoff == c;
    }
  }

  /** A generation is admissible exactly if its features and its reference outcomes fit the protocol. */
  lemma AdmissibleIffFits(g: Generation, p: Protocol, availability: int)
    ensures Admissible(g, p, availability) <==> Fits(g, p, availability)
  {
    FeaturesMean(g, p);
    ReferenceRowsAre(g.outcomes);
    forall o ensures BoundOutcome(o, g, p, availability) <==> OutcomeFits(o, g, p, availability) {
      CutoffMeans(o, g, p, availability);
    }
    hide FeaturesFit, Assets, ReferenceRows, BoundOutcome, OutcomeFits;
    assert forall i :: 0 <= i < |g.outcomes| ==> g.outcomes[i] in g.outcomes;
  }

  /** e is g with its reference outcomes only. */
  ghost predicate Strips(g: Generation, e: Generation) {
    e == g.(outcomes := e.outcomes) && (forall o :: o in e.outcomes <==> o in g.outcomes && o.reference)
  }

  /** g is a generation of the store decided in the window. */
  predicate Decided(store: Evidence, p: Protocol, g: Generation) {
    g in store && p.start <= g.decisionAt < p.end
  }

  lemma {:induction false} PayloadsAre(store: Evidence, p: Protocol)
    ensures forall e :: e in Streamed(store, p) <==> exists g :: Decided(store, p, g) && e == Payload(g)
  {
    if store != [] {
      var n := |store| - 1;
      PayloadsAre(store[..n], p);
      hide Payload;
      assert forall g :: Decided(store, p, g) <==> Decided(store[..n], p, g) || (g == store[n] && InWindow(g, p)) by {
        assert store == store[..n] + [store[n]];
      }
      hide Decided;
    }
  }

  lemma PayloadStrips(g: Generation)
    ensures Strips(g, Payload(g))
  {
    ReferenceRowsAre(g.outcomes);
  }

  /** The evidence is every generation decided in the window, each with its reference outcomes only. */
  lemma StreamedIsEvidence(store: Evidence, p: Protocol)
    ensures forall e :: e in Streamed(store, p) ==> exists g :: Decided(store, p, g) && Strips(g, e)
    ensures forall g :: Decided(store, p, g) ==> exists e :: e in Streamed(store, p) && Strips(g, e)
  {
    PayloadsAre(store, p);
    hide Streamed, Strips, Payload, Decided;
    forall e | e in Streamed(store, p) ensures exists g :: Decided(store, p, g) && Strips(g, e) {
      var g :| Decided(store, p, g) && e == Payload(g);
      PayloadStrips(g);
    }
    forall g | Decided(store, p, g) ensures exists e :: e in Streamed(store, p) && Strips(g, e) {
      PayloadStrips(g);
      assert Payload(g) in Streamed(store, p);
    }
  }

  // ----- when a look is reserved and what it rests on -----

  /** What a reserved look rests on. */
  ghost predicate WellReserved(look: Option<Look>) {
    look.Some? ==>
      && look.value.availability >= look.value.protocol.end + 3_600_000
      && forall e :: e in look.value.input ==>
        look.value.protocol.start <= e.decisionAt < look.value.protocol.end
        && Fits(e, look.value.protocol, look.value.availability)
  }

  lemma StrippedFits(g: Generation, e: Generation, p: Protocol, availability: int)
    requires Fits(g, p, availability) && Strips(g, e)
    ensures Fits(e, p, availability)
  {
    hide OutcomeFits;
    forall i | 0 <= i < |e.outcomes| && e.outcomes[i].reference ensures OutcomeFits(e.outcomes[i], e, p, availability) {
      assert e.outcomes[i] in e.outcomes;
      var j :| 0 <= j < |g.outcomes| && g.outcomes[j] == e.outcomes[i];
      SameDecision(g.outcomes[j], g, e, p, availability);
    }
  }

  lemma DecidedFits(store: Evidence, p: Protocol, availability: int, g: Generation)
    requires AllAdmissible(store, p, availability) && Decided(store, p, g)
    ensures p.start <= g.decisionAt < p.end && Fits(g, p, availability)
  {
    hide Admissible, Fits;
    AdmissibleIffFits(g, p, availability);
  }

  lemma StrippedDecision(g: Generation, e: Generation)
    requires Strips(g, e)
    ensures e.decisionAt == g.decisionAt
  {
  }

  lemma SameDecision(o: Outcome, g: Generation, e: Generation, p: Protocol, availability: int)
    requires OutcomeFits(o, g, p, availability) && e == g.(outcomes := e.outcomes)
    ensures OutcomeFits(o, e, p, availability)
  {
  }

  lemma EvidenceFits(store: Evidence, p: Protocol, availability: int)
    requires AllAdmissible(store, p, availability)
    ensures forall e :: e in Streamed(store, p) ==> p.start <= e.decisionAt < p.end && Fits(e, p, availability)
  {
    StreamedIsEvidence(store, p);
    hide Streamed, Fits, AllAdmissible, Strips, Decided;
    forall e | e in Streamed(store, p) ensures p.start <= e.decisionAt < p.end && Fits(e, p, availability) {
      var g :| Decided(store, p, g) && Strips(g, e);
      DecidedFits(store, p, availability, g);
      StrippedFits(g, e, p, availability);
      StrippedDecision(g, e);
    }
  }

  /**
   Over any number of invocations, a look is never reserved before an hour after the protocol's end, and
   rests on generations of its window that fit the protocol and were settled by its reservation.
   */
  lemma {:induction false} NeverReservedEarly(e: Evaluation, attempts: seq<Attempt>)
    ensures WellReserved(After(e, attempts))
  {
    if attempts != [] {
      var a := attempts[|attempts| - 1];
      var look := After(e, attempts[..|attempts| - 1]);
      NeverReservedEarly(e, attempts[..|attempts| - 1]);
      if AllAdmissible(a.before, a.protocol, a.now) {
        EvidenceFits(a.before, a.protocol, a.now);
      }
      hide AllAdmissible, Streamed, Fits, Evaluable, After;
      InvokeReserves(look, e, a);
    }
  }

  /** A first invocation can only reserve what it streamed, at its own time; later ones keep that. */
  lemma InvokeReserves(look: Option<Look>, e: Evaluation, a: Attempt)
    ensures var after := Invoke(look, e, a).0;
      if look.Some? then
        after.Some? && after.value.protocol == look.value.protocol && after.value.input == look.value.input
        && after.value.availability == look.value.availability
      else after.Some? ==>
        && a.registered && a.now >= a.protocol.end + 3_600_000 && AllAdmissible(a.before, a.protocol, a.now)
        && after.value.protocol == a.protocol && after.value.input == Streamed(a.before, a.protocol) && after.value.availability == a.now
  {
    hide AllAdmissible, Streamed, Evaluable;
  }

  /** Every in-window generation of the store fits the protocol. */
  predicate AllFit(store: Evidence, p: Protocol, availability: int) {
    forall g :: g in store && p.start <= g.decisionAt < p.end ==> Fits(g, p, availability)
  }

  lemma AllFitMeans(store: Evidence, p: Protocol, availability: int)
    ensures AllFit(store, p, availability) <==> AllAdmissible(store, p, availability)
  {
    hide Fits, Admissible;
    forall g ensures Admissible(g, p, availability) <==> Fits(g, p, availability) {
      AdmissibleIffFits(g, p, availability);
    }
  }

  /**
   A first look at a registered protocol, an hour or more after its end, over an unchanging store that
   fits it, returns the evaluation of the store's evidence; any earlier it is refused and reserves nothing.
   */
  lemma UndisturbedLookReturns(e: Evaluation, a: Attempt, store: Evidence, report: Report)
    requires a.registered && a.stable && a.fate == Runs && a.before == store && a.during == store && a.after == store
    requires AllFit(store, a.protocol, a.now)
    requires e(a.protocol, Streamed(store, a.protocol), a.now) == Some(report)
    ensures a.now >= a.protocol.end + 3_600_000 ==>
      Invoke(None, e, a) == (Some(Complete(a.protocol, Streamed(store, a.protocol), a.now, report)), Returned(report))
    ensures a.now < a.protocol.end + 3_600_000 ==> Invoke(None, e, a) == (None, Refused)
  {
    AllFitMeans(store, a.protocol, a.now);
    hide AllAdmissible, AllFit, Streamed;
  }

  /** A cut-off look is finished by the next undisturbed invocation, with the input and availability first reserved. */
  lemma ResumedLookReturns(e: Evaluation, a: Attempt, store: Evidence, availability: int, report: Report)
    requires a.registered && a.stable && a.fate == Runs && a.before == store && a.during == store && a.after == store
    requires AllFit(store, a.protocol, availability) && a.now >= a.protocol.end + 3_600_000
    requires e(a.protocol, Streamed(store, a.protocol), availability) == Some(report)
    ensures Invoke(Some(Started(a.protocol, Streamed(store, a.protocol), availability)), e, a) ==
      (Some(Complete(a.protocol, Streamed(store, a.protocol), availability, report)), Returned(report))
  {
    AllFitMeans(store, a.protocol, availability);
    hide AllAdmissible, AllFit, Streamed;
  }

  /** The store fits the protocol and its evidence is this input. */
  ghost predicate Holds(store: Evidence, p: Protocol, availability: int, input: Evidence) {
    AllFit(store, p, availability) && Streamed(store, p) == input
  }

  /**
   A look that is not complete returns nothing and is not completed if any of its three readings differs
   from the reserved input or does not fit, or if protocol, scope, sources or policies did not stay the same.
   */
  lemma ChangedInputIsRefused(look: Option<Look>, e: Evaluation, a: Attempt)
    requires look.Some? ==> look.value.Started?
    requires var availability := if look.Some? then look.value.availability else a.now;
      var input := if look.Some? then look.value.input else Streamed(a.before, a.protocol);
      || !Holds(a.before, a.protocol, availability, input) || !Holds(a.during, a.protocol, availability, input)
      || !Holds(a.after, a.protocol, availability, input) || !a.stable
    ensures !Invoke(look, e, a).1.Returned?
    ensures Invoke(look, e, a).0.Some? ==> Invoke(look, e, a).0.value.Started?
  {
    var availability := if look.Some? then look.value.availability else a.now;
    AllFitMeans(a.before, a.protocol, availability);
    AllFitMeans(a.during, a.protocol, availability);
    AllFitMeans(a.after, a.protocol, availability);
    hide AllAdmissible, AllFit, Streamed;
  }

  /** Whatever was reserved, another protocol or another input is refused and changes nothing. */
  lemma OtherInputIsRefused(look: Look, e: Evaluation, a: Attempt)
    requires a.protocol != look.protocol || !Holds(a.before, a.protocol, look.availability, look.input)
    ensures Invoke(Some(look), e, a) == (Some(look), Refused)
  {
    AllFitMeans(a.before, a.protocol, look.availability);
    hide AllAdmissible, AllFit, Streamed, Evaluable;
  }
}
