/**
 One formal look: a ledger reserves the inputs before the evaluation is computed, and every later
 invocation may only finish or repeat that same look. The store may change at any time, and an
 invocation may crash between any two steps. A digest is the content itself.
 */
module FormalLook {
  import opened Prelude

  datatype Feature = Feature(asset: nat, referenceKey: Option<nat>, decisionAt: int, body: nat)

  datatype Outcome = Outcome(reference: bool, generation: nat, asset: nat, referenceKey: Option<nat>, horizon: nat,
    cutoff: int, settledAt: int, body: nat)

  /** A saved generation with the latest editions of its outcomes. */
  datatype Generation = Generation(id: nat, responseId: nat, mapVersion: nat, decisionAt: int, rankingCutoff: int,
    features: seq<Feature>, outcomes: seq<Outcome>)

  /** The registered protocol together with its scope. */
  datatype Protocol = Protocol(start: int, end: int, mapVersion: nat, horizons: set<nat>,
    referenceKeys: map<nat, Option<nat>>, body: nat)

  type Evidence = seq<Generation>

  datatype Report = Report(family: nat, body: nat)

  datatype Look = Started(protocol: Protocol, input: Evidence, availability: int)
                | Complete(protocol: Protocol, input: Evidence, availability: int, report: Report)

  // ----- evidence -----

  predicate InWindow(g: Generation, p: Protocol) {
    p.start <= g.decisionAt < p.end
  }

  function Assets(features: seq<Feature>): map<nat, Option<nat>> {
    if features == [] then map[]
    else Assets(features[..|features| - 1])[features[|features| - 1].asset := features[|features| - 1].referenceKey]
  }

  function ReferenceRows(outcomes: seq<Outcome>): seq<Outcome> {
    if outcomes == [] then []
    else ReferenceRows(outcomes[..|outcomes| - 1]) + Own(outcomes[|outcomes| - 1])
  }

  function Own(o: Outcome): seq<Outcome> {
    if o.reference then [o] else []
  }

  predicate BoundOutcome(o: Outcome, g: Generation, p: Protocol, availability: int) {
    && o.generation == g.id && o.asset in p.referenceKeys && o.referenceKey == p.referenceKeys[o.asset]
    && o.horizon in p.horizons && o.cutoff == OutcomeCutoff(g.decisionAt) && o.settledAt <= availability
  }

  /** A generation that formal evidence may use. */
  predicate Admissible(g: Generation, p: Protocol, availability: int) {
    && g.rankingCutoff <= g.decisionAt && g.mapVersion == p.mapVersion && g.responseId == g.id
    && |Assets(g.features)| == |g.features| && Assets(g.features) == p.referenceKeys
    && (forall f :: f in g.features ==> f.decisionAt == g.decisionAt)
    && (forall o :: o in ReferenceRows(g.outcomes) ==> BoundOutcome(o, g, p, availability))
  }

  function Payload(g: Generation): Generation {
    g.(outcomes := ReferenceRows(g.outcomes))
  }

  predicate AllAdmissible(store: Evidence, p: Protocol, availability: int) {
    forall g :: g in store && InWindow(g, p) ==> Admissible(g, p, availability)
  }

  /** The evidence of the window: its payloads in store order. */
  function Streamed(store: Evidence, p: Protocol): Evidence {
    if store == [] then []
    else Streamed(store[..|store| - 1], p) + One(store[|store| - 1], p)
  }

  function One(g: Generation, p: Protocol): Evidence {
    if InWindow(g, p) then [Payload(g)] else []
  }

  /** Streaming the evidence fails on the first generation that does not fit the protocol. */
  method StreamEvidence(store: Evidence, p: Protocol, availability: int) returns (evidence: Option<Evidence>)
    ensures evidence == if AllAdmissible(store, p, availability) then Some(Streamed(store, p)) else None
  {
    hide Admissible, Payload;
    var rows: Evidence := [];
    for i := 0 to |store|
      invariant rows == Streamed(store[..i], p) && AllAdmissible(store[..i], p, availability)
    {
      var g := store[i];
      assert store[..i + 1] == store[..i] + [g];
      if !InWindow(g, p) {
        continue;
      }
      if !Admissible(g, p, availability) {
        return None;
      }
      rows := rows + [Payload(g)];
    }
    assert store[..|store|] == store;
    evidence := Some(rows);
  }

  // ----- one invocation -----

  /** How far an invocation gets before it is cut off. */
  datatype Fate = Runs | CrashesBeforeReserving | CrashesAfterReserving | CrashesBeforeCompleting | CrashesBeforeReturning

  /**
   One invocation: the protocol it reads, whether protocol, scope, sources and policies agree before
   and after, the clock, and what the store holds at each of its three readings.
   */
  datatype Attempt = Attempt(protocol: Protocol, registered: bool, now: int, before: Evidence, during: Evidence,
    after: Evidence, stable: bool, fate: Fate)

  datatype Result = Refused | Crashed | Returned(report: Report)

  /** The evaluation of fixed evidence: a value or a failure, always the same. */
  type Evaluation = (Protocol, Evidence, int) -> Option<Report>

  function Evaluable(e: Evaluation, a: Attempt, availability: int, input: Evidence): Option<Report> {
    if a.stable && AllAdmissible(a.during, a.protocol, availability) && Streamed(a.during, a.protocol) == input
      && AllAdmissible(a.after, a.protocol, availability) && Streamed(a.after, a.protocol) == input
    then e(a.protocol, input, availability) else None
  }

  class Ledger {
    var look: Option<Look>

    constructor ()
      ensures look == None
    {
      look := None;
    }

    method Evaluate(e: Evaluation, a: Attempt) returns (result: Result)
      modifies this
      ensures (look, result) == Invoke(old(look), e, a)
    {
      hide AllAdmissible, Streamed, InWindow;
      if !a.registered || a.now < a.protocol.end + 60 * MINUTE {
        return Refused;
      }
      var availability := if look.Some? then look.value.availability else a.now;
      var input := StreamEvidence(a.before, a.protocol, availability);
      if input == None {
        return Refused;
      }
      if look.Some? {
        if look.value.protocol != a.protocol || look.value.input != input.value {
          return Refused;
        }
        if look.value.Complete? {
          return Returned(look.value.report);
        }
      } else {
        if a.fate == CrashesBeforeReserving {
          return Crashed;
        }
        look := Some(Started(a.protocol, input.value, availability));
      }
      if a.fate == CrashesAfterReserving {
        return Crashed;
      }
      var streamed := StreamEvidence(a.during, a.protocol, availability);
      if streamed == None {
        return Refused;
      }
      var report := e(a.protocol, streamed.value, availability);
      if report == None {
        return Refused;
      }
      var again := StreamEvidence(a.after, a.protocol, availability);
      if streamed != input || again != input || !a.stable {
        return Refused;
      }
      if a.fate == CrashesBeforeCompleting {
        return Crashed;
      }
      look := Some(Complete(a.protocol, input.value, availability, report.value));
      result := if a.fate == CrashesBeforeReturning then Crashed else Returned(report.value);
    }
  }

  /** What one invocation makes of the ledger. */
  function Invoke(look: Option<Look>, e: Evaluation, a: Attempt): (Option<Look>, Result) {
    var availability := if look.Some? then look.value.availability else a.now;
    var input := Streamed(a.before, a.protocol);
    if !a.registered || a.now < a.protocol.end + 60 * MINUTE || !AllAdmissible(a.before, a.protocol, availability)
      || (look.Some? && (look.value.protocol != a.protocol || look.value.input != input)) then (look, Refused)
    else if look.Some? && look.value.Complete? then (look, Returned(look.value.report))
    else if look == None && a.fate == CrashesBeforeReserving then (None, Crashed)
    else
      var reserved := Some(Started(a.protocol, input, availability));
      var report := Evaluable(e, a, availability, input);
      if a.fate == CrashesAfterReserving then (reserved, Crashed)
      else if report == None then (reserved, Refused)
      else if a.fate == CrashesBeforeCompleting then (reserved, Crashed)
      else
        var done := Some(Complete(a.protocol, input, availability, report.value));
        if a.fate == CrashesBeforeReturning then (done, Crashed) else (done, Returned(report.value))
  }

  // ----- any number of invocations -----

  /** The ledger after the attempts, on an initially absent one. */
  function After(e: Evaluation, attempts: seq<Attempt>): Option<Look> {
    if attempts == [] then None
    else Invoke(After(e, attempts[..|attempts| - 1]), e, attempts[|attempts| - 1]).0
  }

  /** What attempt i returns. */
  function ResultOf(e: Evaluation, attempts: seq<Attempt>, i: nat): Result
    requires i < |attempts|
  {
    Invoke(After(e, attempts[..i]), e, attempts[i]).1
  }

  /** Once reserved, the look keeps its protocol, input and availability, and a report never changes. */
  ghost predicate Keeps(before: Option<Look>, after: Option<Look>) {
    before.Some? ==>
      && after.Some? && after.value.protocol == before.value.protocol && after.value.input == before.value.input
      && after.value.availability == before.value.availability
      && (before.value.Complete? ==> after == before)
  }

  lemma {:induction false} LedgerFixed(e: Evaluation, attempts: seq<Attempt>, i: nat, j: nat)
    requires i <= j <= |attempts|
    ensures Keeps(After(e, attempts[..i]), After(e, attempts[..j]))
  {
    if i < j {
      LedgerFixed(e, attempts, i, j - 1);
      assert attempts[..j][..j - 1] == attempts[..j - 1];
      hide AllAdmissible, Streamed, Evaluable;
    }
  }

  /** A report is returned only from a completed look, and is that look's report. */
  lemma ReturnedIsRecorded(e: Evaluation, attempts: seq<Attempt>, i: nat)
    requires i < |attempts| && ResultOf(e, attempts, i).Returned?
    ensures var look := After(e, attempts[..i + 1]);
      look.Some? && look.value.Complete? && look.value.report == ResultOf(e, attempts, i).report
  {
    hide AllAdmissible, Streamed, Evaluable;
    assert attempts[..i + 1][..i] == attempts[..i];
  }

  /** Every invocation that succeeds returns the same report. */
  lemma OneReport(e: Evaluation, attempts: seq<Attempt>, i: nat, j: nat)
    requires i < j < |attempts| && ResultOf(e, attempts, i).Returned? && ResultOf(e, attempts, j).Returned?
    ensures ResultOf(e, attempts, i) == ResultOf(e, attempts, j)
  {
    hide Invoke;
    ReturnedIsRecorded(e, attempts, i);
    ReturnedIsRecorded(e, attempts, j);
    LedgerFixed(e, attempts, i + 1, j + 1);
  }

  /** The recorded evidence is admissible at the availability it was reserved with. */
  ghost predicate Sound(e: Evaluation, look: Option<Look>) {
    look.Some? ==>
      && (forall g :: g in look.value.input ==> InWindow(g, look.value.protocol))
      && (forall g, o :: g in look.value.input && o in g.outcomes ==> o.settledAt <= look.value.availability)
      && (look.value.Complete? ==>
        e(look.value.protocol, look.value.input, look.value.availability) == Some(look.value.report))
  }

  lemma {:induction false} StreamedIsAvailable(store: Evidence, p: Protocol, availability: int)
    requires AllAdmissible(store, p, availability)
    ensures forall g :: g in Streamed(store, p) ==> InWindow(g, p)
    ensures forall g, o :: g in Streamed(store, p) && o in g.outcomes ==> o.settledAt <= availability
  {
    if store != [] {
      var n := |store| - 1;
      assert store == store[..n] + [store[n]];
      StreamedIsAvailable(store[..n], p, availability);
      if InWindow(store[n], p) {
        assert Admissible(store[n], p, availability);
      }
    }
  }

  /** The report is the evaluation of the reserved evidence, none of it settled after the reservation. */
  lemma {:induction false} ReportIsOfReservedEvidence(e: Evaluation, attempts: seq<Attempt>)
    ensures Sound(e, After(e, attempts))
  {
    if attempts != [] {
      var a := attempts[|attempts| - 1];
      var look := After(e, attempts[..|attempts| - 1]);
      ReportIsOfReservedEvidence(e, attempts[..|attempts| - 1]);
      var availability := if look.Some? then look.value.availability else a.now;
      if AllAdmissible(a.before, a.protocol, availability) {
        StreamedIsAvailable(a.before, a.protocol, availability);
      }
      hide AllAdmissible, Streamed, InWindow;
    }
  }

  /** A corollary for completed looks: an invocation over the same protocol repeats the report or is refused. */
  lemma Repeats(e: Evaluation, look: Look, a: Attempt)
    requires look.Complete? && a.registered && a.now >= a.protocol.end + 60 * MINUTE && a.protocol == look.protocol
    requires AllAdmissible(a.before, a.protocol, look.availability)
    ensures Invoke(Some(look), e, a) ==
      (Some(look), if Streamed(a.before, a.protocol) == look.input then Returned(look.report) else Refused)
  {
  }
}
