/**
 Outcome editions, evaluation runs and the published evaluation file. Database transactions and
 file replacements are single steps; an operation may crash before any of them.
 */
module Storage {
  import opened Prelude

  datatype Key = Key(generation: nat, asset: nat, horizon: nat, reference: bool)

  /** An outcome: its content, and the two fields a repeated observation may not change. */
  datatype Outcome = Outcome(key: Key, edition: nat, settledAt: int, content: nat)

  datatype Report = Report(runId: nat, familyId: nat, body: nat, stale: bool)

  /** A row of candidate_runs; its fingerprint is the report. */
  datatype Run = Run(report: Report, stale: bool)

  datatype Put = Stored(outcome: Outcome) | PutCrashed

  datatype Saved = SaveDone | ImmutableConflict | StaleRun | SaveCrashed

  function SameContent(a: Outcome, b: Outcome): bool {
    a.key == b.key && a.content == b.content
  }

  /** The table outcome_rows, by key and edition. */
  type Editions = map<(Key, nat), Outcome>

  /** The editions of a key are 1..m. */
  ghost predicate Numbered(rows: Editions, key: Key, m: nat) {
    forall n: nat :: (key, n) in rows <==> 1 <= n <= m
  }

  ghost predicate HasNumbering(rows: Editions, key: Key) {
    exists m: nat :: Numbered(rows, key, m)
  }

  /** Every stored row is filed under its own key and edition, and consecutive editions differ. */
  ghost predicate WellNumbered(rows: Editions) {
    && (forall p :: p in rows ==> rows[p].key == p.0 && rows[p].edition == p.1)
    && (forall key: Key :: HasNumbering(rows, key))
    && (forall key: Key, n: nat :: (key, n) in rows && (key, n + 1) in rows ==>
      rows[(key, n)].content != rows[(key, n + 1)].content)
  }

  /** The row of the key's greatest edition, if it has any. */
  method LatestEdition(rows: Editions, key: Key) returns (latest: Option<Outcome>)
    requires WellNumbered(rows)
    ensures latest == None <==> Numbered(rows, key, 0)
    ensures latest.Some? ==> latest.value.key == key && latest.value.edition >= 1
    ensures latest.Some? ==> (key, latest.value.edition) in rows && rows[(key, latest.value.edition)] == latest.value
    ensures latest.Some? ==> Numbered(rows, key, latest.value.edition)
  {
    assert HasNumbering(rows, key);
    ghost var m: nat :| Numbered(rows, key, m);
    latest := None;
    var n := 0;
    while (key, n + 1) in rows
      invariant n <= m && (latest == None <==> n == 0)
      invariant n > 0 ==> (key, n) in rows && latest == Some(rows[(key, n)])
      decreases m - n
    {
      n := n + 1;
      latest := Some(rows[(key, n)]);
    }
  }

  lemma AppendEdition(rows: Editions, key: Key, m: nat, o: Outcome)
    requires WellNumbered(rows) && Numbered(rows, key, m) && o.key == key && o.edition == m + 1
    requires m >= 1 ==> rows[(key, m)].content != o.content
    ensures WellNumbered(rows[(key, m + 1) := o]) && Numbered(rows[(key, m + 1) := o], key, m + 1)
  {
    var grown := rows[(key, m + 1) := o];
    forall other: Key ensures HasNumbering(grown, other) {
      if other == key {
        assert Numbered(grown, key, m + 1);
      } else {
        assert HasNumbering(rows, other);
        var k: nat :| Numbered(rows, other, k);
        assert Numbered(grown, other, k);
      }
    }
  }

  lemma NumberedOnce(rows: Editions, key: Key, m: nat)
    requires Numbered(rows, key, m)
    ensures Numbered(rows, key, 0) <==> m == 0
  {
    assert m > 0 ==> (key, m) in rows;
  }

  lemma NewEdition(rows: Editions, key: Key, m: nat)
    requires Numbered(rows, key, m)
    ensures (key, m + 1) !in rows
  {
  }

  /** Every run marked stale. */
  function AllStale(runs: seq<Run>): (marked: seq<Run>)
    ensures |marked| == |runs| && forall i :: 0 <= i < |runs| ==> marked[i] == Run(runs[i].report, true)
  {
    seq(|runs|, i requires 0 <= i < |runs| => runs[i].(stale := true))
  }

  /** What is read back of each key: the row of its greatest edition. */
  function Delivered(rows: Editions): set<Outcome> {
    set p | p in rows.Keys && (p.0, p.1 + 1) !in rows :: rows[p]
  }

  /** One row a key is read back, the one with the number of its editions. */
  lemma OneDelivered(rows: Editions, o: Outcome, q: Outcome)
    requires WellNumbered(rows) && o in Delivered(rows)
    ensures Numbered(rows, o.key, o.edition)
    ensures q in Delivered(rows) && q.key == o.key ==> q == o
  {
    assert HasNumbering(rows, o.key);
    var m: nat :| Numbered(rows, o.key, m);
    var p :| p in rows.Keys && (p.0, p.1 + 1) !in rows && rows[p] == o;
    if q in Delivered(rows) && q.key == o.key {
      var r :| r in rows.Keys && (r.0, r.1 + 1) !in rows && rows[r] == q;
    }
  }

  class AttentionStore {
    var outcomes: Editions
    var runs: seq<Run>
    var published: Option<Report>
    // How many corrections have been committed, and how many had been when each run was stored.
    ghost var corrections: nat
    ghost var storedAt: map<nat, nat>

    ghost predicate Valid() reads this {
      && WellNumbered(outcomes)
      && (forall i, j :: 0 <= i < j < |runs| ==> runs[i].report.runId != runs[j].report.runId)
      && (forall i :: 0 <= i < |runs| ==> runs[i].report.runId in storedAt && storedAt[runs[i].report.runId] <= corrections)
      && (forall i :: 0 <= i < |runs| ==> (runs[i].stale <==> storedAt[runs[i].report.runId] < corrections))
      && CrashSafe()
    }

    /** A published file that does not say it is stale names a stored run that is not stale. */
    ghost predicate CrashSafe() reads this {
      published.Some? && !published.value.stale ==> Run(published.value, false) in runs
    }

    constructor ()
      ensures Valid() && outcomes == map[] && runs == [] && published == None && corrections == 0
    {
      outcomes, runs, published, corrections, storedAt := map[], [], None, 0, map[];
      new;
      forall key ensures HasNumbering(outcomes, key) {
        assert Numbered(outcomes, key, 0);
      }
    }

    /**
     A first edition, a correction, or nothing when the content was seen before. A correction first
     marks the published file stale and then, in one transaction, stores the edition and marks every
     run stale. `steps` is how many of these happen before a crash.
     */
    method PutOutcome(outcome: Outcome, steps: nat) returns (put: Put)
      requires Valid()
      modifies this
      ensures Valid()
      ensures forall p :: p in old(outcomes) ==> p in outcomes && outcomes[p] == old(outcomes)[p]
      ensures put.Stored? ==> SameContent(put.outcome, outcome) && put.outcome.edition >= 1
      ensures put.Stored? ==> Numbered(outcomes, outcome.key, put.outcome.edition)
      ensures put.Stored? ==> outcomes[(outcome.key, put.outcome.edition)] == put.outcome
      ensures put.Stored? && Repeated(old(outcomes), outcome) ==> unchanged(this)
      ensures put.Stored? && !Repeated(old(outcomes), outcome) ==>
        outcomes == old(outcomes)[(outcome.key, put.outcome.edition) := outcome.(edition := put.outcome.edition)]
      ensures put.Stored? && !Repeated(old(outcomes), outcome) ==>
        corrections == old(corrections) + (if put.outcome.edition > 1 then 1 else 0)
      ensures put.Stored? && !Repeated(old(outcomes), outcome) ==> Numbered(old(outcomes), outcome.key, put.outcome.edition - 1)
      ensures corrections > old(corrections) ==> forall i :: 0 <= i < |runs| ==> runs[i].stale
      // A correction publishes the newest run's report as stale; a first edition touches neither runs nor file.
      ensures corrections > old(corrections) && old(runs) != [] ==>
        published == Some(old(runs)[|old(runs)| - 1].report.(stale := true))
      ensures put.Stored? && (corrections == old(corrections) || runs == []) ==> published == old(published) && runs == old(runs)
      ensures put == PutCrashed && published != old(published) ==>
        |runs| > 0 && published == Some(runs[|runs| - 1].report.(stale := true)) && !Numbered(outcomes, outcome.key, 0)
      ensures put == PutCrashed ==> unchanged(`outcomes, `runs, `corrections, `storedAt)
      ensures |runs| == |old(runs)| && forall i :: 0 <= i < |runs| ==> runs[i].report == old(runs)[i].report
      ensures put == PutCrashed ==> published == old(published) || (published.Some? && published.value.stale)
      ensures steps >= 2 ==> put.Stored?
    {
      hide WellNumbered, Numbered, Repeated;
      var key := outcome.key;
      var previous := LatestEdition(outcomes, key);
      ghost var editions := if previous.Some? then previous.value.edition else 0;
      RepeatedMeans(outcomes, outcome, editions);
      NumberedOnce(outcomes, key, editions);
      var edition := 1;
      var left := steps;
      if previous.Some? {
        if SameContent(previous.value, outcome) {
          return Stored(previous.value);
        }
        edition := previous.value.edition + 1;
        if runs != [] {
          if left == 0 {
            return PutCrashed;
          }
          MarkPublished();
          left := left - 1;
        }
      }
      if left == 0 {
        return PutCrashed;
      }
      var row := outcome.(edition := edition);
      NewEdition(outcomes, key, editions);
      Commit(previous, row);
      put := Stored(row);
    }

    /** The published file becomes the newest run's report, marked stale. */
    method MarkPublished()
      requires Valid() && runs != []
      modifies this`published
      ensures Valid() && published == Some(runs[|runs| - 1].report.(stale := true))
    {
      published := Some(runs[|runs| - 1].report.(stale := true));
    }

    /** The transaction of a new edition. */
    method Commit(ghost previous: Option<Outcome>, row: Outcome)
      requires Valid() && row.edition >= 1 && Numbered(outcomes, row.key, row.edition - 1)
      requires previous.Some? <==> row.edition > 1
      requires row.edition > 1 ==> outcomes[(row.key, row.edition - 1)].content != row.content
      requires row.edition > 1 && runs != [] ==> published.Some? && published.value.stale
      modifies this`outcomes, this`runs, this`corrections
      ensures Valid() && outcomes == old(outcomes)[(row.key, row.edition) := row]
      ensures Numbered(outcomes, row.key, row.edition)
      ensures corrections == old(corrections) + (if row.edition > 1 then 1 else 0)
      ensures row.edition == 1 ==> runs == old(runs)
      ensures row.edition > 1 ==> forall i :: 0 <= i < |runs| ==> runs[i].stale
      ensures |runs| == |old(runs)| && forall i :: 0 <= i < |runs| ==> runs[i].report == old(runs)[i].report
    {
      AppendEdition(outcomes, row.key, row.edition - 1, row);
      outcomes := outcomes[(row.key, row.edition) := row];
      if row.edition > 1 {
        corrections := corrections + 1;
        runs := AllStale(runs);
      }
    }

    /** A run is stored once, before it is published; a stale run is never published again. */
    method SaveEvaluation(report: Report, steps: nat) returns (saved: Saved)
      requires Valid()
      modifies this
      ensures Valid() && outcomes == old(outcomes) && corrections == old(corrections)
      ensures saved == ImmutableConflict <==> exists run :: run in old(runs) && run.report.runId == report.runId && run.report != report
      ensures saved == StaleRun <==> Run(report, true) in old(runs)
      ensures saved == ImmutableConflict || saved == StaleRun ==> unchanged(this)
      ensures saved == SaveDone ==> published == Some(report) && Run(report, false) in runs
      ensures saved == SaveDone || saved == SaveCrashed ==> runs == old(runs) || runs == old(runs) + [Run(report, false)]
      ensures saved == SaveCrashed ==> published == old(published)
      ensures steps >= 2 ==> saved != SaveCrashed
    {
      var known := false;
      for i := 0 to |runs|
        invariant unchanged(this)
        invariant forall j :: 0 <= j < i && runs[j].report.runId == report.runId ==> runs[j] == Run(report, false)
        invariant known <==> exists j :: 0 <= j < i && runs[j].report.runId == report.runId
      {
        if runs[i].report.runId == report.runId {
          if runs[i].report != report {
            return ImmutableConflict;
          }
          if runs[i].stale {
            return StaleRun;
          }
          known := true;
        }
      }
      if steps == 0 {
        return SaveCrashed;
      }
      if !known {
        runs := runs + [Run(report, false)];
        storedAt := storedAt[report.runId := corrections];
      }
      if steps == 1 {
        return SaveCrashed;
      }
      published := Some(report);
      saved := SaveDone;
    }
  }

  /**
   A corollary of the invariant: no correction was committed since the run of a published file that
   does not say it is stale was stored. It rests on all of them if its evidence was read by the same
   writer, which no other can overtake.
   */
  lemma PublishedIsCurrent(store: AttentionStore)
    requires store.Valid() && store.published.Some? && !store.published.value.stale
    ensures store.published.value.runId in store.storedAt
    ensures store.storedAt[store.published.value.runId] == store.corrections
  {
  }

  /** The latest edition of the key already has this content. */
  ghost predicate Repeated(rows: Editions, outcome: Outcome) {
    exists m: nat :: m >= 1 && Numbered(rows, outcome.key, m) && (outcome.key, m) in rows
      && SameContent(rows[(outcome.key, m)], outcome)
  }

  /**
   What an outcome becomes: the first edition of a key no row has; nothing new if the key's last edition
   says the same; and otherwise the edition after it, even if an older one said the same.
   */
  lemma RepeatedMeans(rows: Editions, outcome: Outcome, m: nat)
    requires WellNumbered(rows) && Numbered(rows, outcome.key, m)
    ensures Repeated(rows, outcome) <==> m > 0 && rows[(outcome.key, m)].content == outcome.content
  {
    if n: nat :| n >= 1 && Numbered(rows, outcome.key, n) && (outcome.key, n) in rows && SameContent(rows[(outcome.key, n)], outcome) {
      assert (outcome.key, m) in rows <==> 1 <= m <= n;
      assert (outcome.key, n) in rows <==> 1 <= n <= m;
    }
    if m > 0 {
      assert (outcome.key, m) in rows;
    }
  }
}
