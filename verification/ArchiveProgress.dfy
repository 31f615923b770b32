/**
 What the archive steps achieve: a generation above the current one is confirmed, an undisturbed
 call returns with its generation current, and a refused or failed call cleans up after itself.
 Nothing here refers to how the transactions decide.
 */
module ArchiveProgress {
  import opened Prelude
  import opened Ranking
  import opened Archive

  /** Some confirmed row of the partition has a greater generation. */
  predicate Outdated(rows: Rows, m: Manifest) {
    exists j :: j in rows && rows[j].partition == m.partition && rows[j].status == Confirmed && rows[j].generation > m.generation
  }

  predicate NewerThan(rows: Rows, i: nat, j: nat)
    requires j in rows
  {
    i in rows && rows[i].partition == rows[j].partition && rows[i].status == Superseded && rows[i].generation > rows[j].generation
  }

  /** Row j is superseded and has at least three newer superseded rows in its partition. */
  ghost predicate FourthOrOlder(rows: Rows, j: nat) {
    j in rows && rows[j].status == Superseded && exists a, b, c ::
      a != b && a != c && b != c && NewerThan(rows, a, j) && NewerThan(rows, b, j) && NewerThan(rows, c, j)
  }

  /** The path of a fourth or older superseded row of the partition. */
  ghost predicate Disposable(rows: Rows, p: Partition, path: FilePath) {
    exists j :: FourthOrOlder(rows, j) && rows[j].partition == p && path == FilePath(p, rows[j].generation)
  }

  /** Row id has become the current one: the confirmed row before it is superseded and nothing else moved. */
  predicate Promoted(before: Rows, after: Rows, id: nat) {
    && id in before && after.Keys == before.Keys
    && after[id] == before[id].(status := Confirmed)
    && forall j :: j in before && j != id ==>
      after[j] == if before[j].partition == before[id].partition && before[j].status == Confirmed
        then before[j].(status := Superseded) else before[j]
  }

  lemma ThreeMembers(s: set<nat>) returns (a: nat, b: nat, c: nat)
    requires |s| >= 3
    ensures a in s && b in s && c in s && a != b && a != c && b != c
  {
    a :| a in s;
    assert |s - {a}| >= 2;
    b :| b in s - {a};
    assert |s - {a} - {b}| >= 1;
    c :| c in s - {a} - {b};
  }

  /** Counting newer superseded rows and naming three of them come to the same. */
  lemma CountMeans(rows: Rows, j: nat)
    requires j in rows && rows[j].status == Superseded
    ensures |NewerSuperseded(rows, j)| >= 3 <==> FourthOrOlder(rows, j)
  {
    var s := NewerSuperseded(rows, j);
    assert forall i :: i in s <==> NewerThan(rows, i, j);
    if |s| >= 3 {
      var a, b, c := ThreeMembers(s);
    }
    if FourthOrOlder(rows, j) {
      var a: nat, b: nat, c: nat :| a != b && a != c && b != c && NewerThan(rows, a, j) && NewerThan(rows, b, j) && NewerThan(rows, c, j);
      SmallerSubset({a, b, c}, s);
    }
  }

  lemma PrunableMeans(rows: Rows, p: Partition)
    ensures forall path :: path in Prunable(rows, p) <==> Disposable(rows, p, path)
  {
    hide FourthOrOlder, NewerSuperseded;
    forall j | j in rows && rows[j].status == Superseded ensures |NewerSuperseded(rows, j)| >= 3 <==> FourthOrOlder(rows, j) {
      CountMeans(rows, j);
    }
    SupersededOnly(rows);
  }

  lemma SupersededOnly(rows: Rows)
    ensures forall j :: FourthOrOlder(rows, j) ==> j in rows && rows[j].status == Superseded
  {
  }

  /** The commit made row id current and named exactly the files it made disposable. */
  ghost predicate Confirms(s: System, t: System, w: nat, id: nat) {
    && Promoted(s.rows, t.rows, id) && w in t.workers && t.workers[w].phase.Pruning? && t.workers[w].phase.id == id
    && forall path :: path in t.workers[w].phase.paths <==> Disposable(t.rows, s.rows[id].partition, path)
  }

  /** The transaction refused: nothing changed and the worker goes on to mark its row failed. */
  ghost predicate Refuses(s: System, t: System, w: nat, id: nat) {
    t.rows == s.rows && w in t.workers && t.workers[w].phase == Failing(id)
  }

  /**
   Over every run: a worker whose file is in place makes its generation the current one, unless a greater
   generation is confirmed already; and is told to remove exactly the fourth and older superseded files.
   */
  lemma ConfirmsUnlessOutdated(trace: seq<Action>, w: nat)
    requires w in Run(trace).workers && Run(trace).workers[w].phase.FileMoved?
    ensures var s := Run(trace);
      var id := s.workers[w].phase.id;
      && id in s.rows && Enabled(s, Confirm(w, Acknowledged))
      && var t := Next(s, Confirm(w, Acknowledged));
        t.files == s.files && if Outdated(s.rows, s.rows[id]) then Refuses(s, t, w, id) else Confirms(s, t, w, id)
  {
    hide Run, Confirms, Refuses, Next;
    ConfirmStep(Run(trace), w);
  }

  lemma ConfirmStep(s: System, w: nat)
    requires Inv(s) && w in s.workers && s.workers[w].phase.FileMoved?
    ensures var id := s.workers[w].phase.id;
      && id in s.rows && s.rows[id].status == Staged && Present(s.files, s.rows[id])
      && var t := Next(s, Confirm(w, Acknowledged));
        t.files == s.files && if Outdated(s.rows, s.rows[id]) then Refuses(s, t, w, id) else Confirms(s, t, w, id)
  {
    assert WorkerOk(s.rows, s.files, s.workers[w]);
    hide FilesOk, Prunable, Disposable, WorkerOk, Exclusive, HasCurrent;
    PrunableMeans(Next(s, Confirm(w, Acknowledged)).rows, s.rows[s.workers[w].phase.id].partition);
  }

  // ----- an undisturbed call -----

  ghost predicate AllEnabled(s: System, actions: seq<Action>)
    decreases |actions|
  {
    actions == [] || (Enabled(s, actions[0]) && AllEnabled(Next(s, actions[0]), actions[1..]))
  }

  ghost function Continue(s: System, actions: seq<Action>): System
    requires AllEnabled(s, actions)
    decreases |actions|
  {
    if actions == [] then s else Continue(Next(s, actions[0]), actions[1..])
  }

  lemma {:induction false} ContinueConcat(s: System, a: seq<Action>, b: seq<Action>)
    requires AllEnabled(s, a) && AllEnabled(Continue(s, a), b)
    ensures AllEnabled(s, a + b) && Continue(s, a + b) == Continue(Continue(s, a), b)
    decreases |a|
  {
    hide Next, Enabled;
    if a == [] {
      assert a + b == b;
    } else {
      ContinueConcat(Next(s, a[0]), a[1..], b);
      assert (a + b)[1..] == a[1..] + b && (a + b)[0] == a[0];
    }
  }

  /** A pruning worker left alone removes the files it was told to remove, and no other, and returns. */
  lemma {:induction false} PrunesAll(s: System, w: nat) returns (actions: seq<Action>)
    requires w in s.workers && s.workers[w].phase.Pruning?
    ensures AllEnabled(s, actions)
    ensures Continue(s, actions) == System(s.rows, s.files - s.workers[w].phase.paths,
      s.workers[w := s.workers[w].(phase := Returned(s.workers[w].phase.id))])
    decreases |s.workers[w].phase.paths|
  {
    var phase := s.workers[w].phase;
    if phase.paths == {} {
      actions := [PruneEnds(w)];
      assert s.files - phase.paths == s.files;
      assert Continue(Next(s, PruneEnds(w)), []) == Next(s, PruneEnds(w));
    } else {
      var path :| path in phase.paths;
      var t := Next(s, PruneOne(w, path));
      var rest := PrunesAll(t, w);
      actions := [PruneOne(w, path)] + rest;
      assert actions[1..] == rest;
      assert s.files - {path} - (phase.paths - {path}) == s.files - phase.paths;
      assert t.workers[w := t.workers[w].(phase := Returned(phase.id))] == s.workers[w := s.workers[w].(phase := Returned(phase.id))];
    }
  }

  /** Row id is current with the content of its file, above every other row of its partition. */
  predicate IsCurrent(s: System, id: nat, p: Partition, digest: string) {
    && id in s.rows && s.rows[id].status == Confirmed && s.rows[id].partition == p && s.rows[id].digest == digest
    && Present(s.files, s.rows[id])
    && forall j :: j in s.rows && j != id && s.rows[j].partition == p ==>
      s.rows[j].generation < s.rows[id].generation && s.rows[j].status != Confirmed
  }

  /** From staging to the confirming commit. */
  lemma StageMoveConfirm(s: System, w: nat, id: nat, max: nat)
    requires Inv(s) && w in s.workers && s.workers[w].phase.Verified? && id !in s.rows
    requires IsMaxGeneration(s.rows, s.workers[w].partition, max)
    ensures var p, digest := s.workers[w].partition, s.workers[w].phase.digest;
      && AllEnabled(s, [Stage(w, id, max + 1, Acknowledged), Move(w), Confirm(w, Acknowledged)])
      && var t := Continue(s, [Stage(w, id, max + 1, Acknowledged), Move(w), Confirm(w, Acknowledged)]);
        && Inv(t) && IsCurrent(t, id, p, digest) && w in t.workers
        && t.workers[w].phase.Pruning? && t.workers[w].phase.id == id
        && (forall path :: path in t.workers[w].phase.paths <==> Disposable(t.rows, p, path))
        && t.files == s.files[FilePath(p, max + 1) := digest]
  {
    hide Inv, Disposable, Outdated, Prunable, Next, Enabled, IsMaxGeneration, Continue, AllEnabled;
    var stage, move, confirm := Stage(w, id, max + 1, Acknowledged), Move(w), Confirm(w, Acknowledged);
    StageThenMove(s, w, id, max);
    StepKeeps(s, stage);
    var a := Next(s, stage);
    StepKeeps(a, move);
    var b := Next(a, move);
    ConfirmStep(b, w);
    ConfirmEnabled(b, w);
    StepKeeps(b, confirm);
    ThreeSteps(s, stage, move, confirm);
  }

  lemma ConfirmEnabled(s: System, w: nat)
    requires w in s.workers && s.workers[w].phase.FileMoved?
    ensures Enabled(s, Confirm(w, Acknowledged))
  {
  }

  /** A staged and moved generation is above every other of its partition. */
  lemma StageThenMove(s: System, w: nat, id: nat, max: nat)
    requires w in s.workers && s.workers[w].phase.Verified? && id !in s.rows
    requires IsMaxGeneration(s.rows, s.workers[w].partition, max)
    ensures var p, digest := s.workers[w].partition, s.workers[w].phase.digest;
      && Enabled(s, Stage(w, id, max + 1, Acknowledged)) && Enabled(Next(s, Stage(w, id, max + 1, Acknowledged)), Move(w))
      && var b := Next(Next(s, Stage(w, id, max + 1, Acknowledged)), Move(w));
        && id in b.rows && b.rows[id] == Manifest(p, max + 1, Staged, digest) && !Outdated(b.rows, b.rows[id])
        && (forall j :: j in b.rows && j != id && b.rows[j].partition == p ==> b.rows[j].generation < b.rows[id].generation)
        && b.files == s.files[FilePath(p, max + 1) := digest]
        && w in b.workers && b.workers[w] == Worker(p, FileMoved(id))
  {
  }

  lemma ThreeSteps(s: System, x: Action, y: Action, z: Action)
    requires Enabled(s, x) && Enabled(Next(s, x), y) && Enabled(Next(Next(s, x), y), z)
    ensures AllEnabled(s, [x, y, z]) && Continue(s, [x, y, z]) == Next(Next(Next(s, x), y), z)
  {
    hide Enabled, Next;
    assert [x, y, z][1..] == [y, z] && [y, z][1..] == [z] && [z][1..] == [];
    var t := Next(Next(s, x), y);
    assert AllEnabled(Next(t, z), []);
    assert AllEnabled(t, [z]) && Continue(t, [z]) == Next(t, z);
    assert AllEnabled(Next(s, x), [y, z]) && Continue(Next(s, x), [y, z]) == Next(t, z);
  }

  /**
   From every reachable state, a call with a verified file that nothing disturbs returns; its generation
   is then the current one, its file is in place, and the fourth and older superseded files are gone.
   */
  lemma UndisturbedCallReturns(trace: seq<Action>, w: nat, id: nat, max: nat) returns (actions: seq<Action>)
    requires var s := Run(trace); w in s.workers && s.workers[w].phase.Verified? && id !in s.rows
    requires IsMaxGeneration(Run(trace).rows, Run(trace).workers[w].partition, max)
    ensures AllEnabled(Run(trace), actions)
    ensures var s, t := Run(trace), Continue(Run(trace), actions);
      && IsCurrent(t, id, s.workers[w].partition, s.workers[w].phase.digest)
      && w in t.workers && t.workers[w].phase == Returned(id)
      && forall path :: Disposable(t.rows, s.workers[w].partition, path) ==> path !in t.files
  {
    var s := Run(trace);
    hide Run, Next, Enabled, Disposable, Inv;
    var first := [Stage(w, id, max + 1, Acknowledged), Move(w), Confirm(w, Acknowledged)];
    StageMoveConfirm(s, w, id, max);
    var t := Continue(s, first);
    var rest := PrunesAll(t, w);
    ContinueConcat(s, first, rest);
    actions := first + rest;
    CurrentIsKept(t, id, s.workers[w].partition);
  }

  lemma CurrentIsKept(t: System, id: nat, p: Partition)
    requires Inv(t) && id in t.rows && t.rows[id].status == Confirmed && t.rows[id].partition == p
    ensures !Disposable(t.rows, p, t.rows[id].Path())
  {
  }

  // ----- a call that fails -----

  /**
   A worker whose row is still staged when it gives up marks the row failed and removes its file, and
   touches nothing else; one whose commit succeeded after all leaves rows and files alone.
   */
  lemma FailedCallCleansUp(trace: seq<Action>, w: nat)
    requires w in Run(trace).workers && Run(trace).workers[w].phase.Failing?
    ensures var s := Run(trace);
      var id := s.workers[w].phase.id;
      && id in s.rows && Enabled(s, MarkFailed(w, Acknowledged))
      && var t := Next(s, MarkFailed(w, Acknowledged));
        if s.rows[id].status == Staged then
          && Enabled(t, Remove(w))
          && var u := Next(t, Remove(w));
            && u.rows == s.rows[id := s.rows[id].(status := Failed)]
            && u.files == s.files - {FilePath(s.rows[id].partition, s.rows[id].generation)}
            && u.workers == s.workers[w := Worker(s.workers[w].partition, Raised)]
        else
          && EverConfirmed(s.rows[id]) && t.rows == s.rows && t.files == s.files
          && t.workers == s.workers[w := Worker(s.workers[w].partition, Raised)]
  {
    hide Run;
    var s := Run(trace);
    assert WorkerOk(s.rows, s.files, s.workers[w]);
    hide Inv, WorkerOk;
  }
}
