/**
 Archive generations of one partition: the manifest rows, their transactions, and the
 interleaved steps of concurrent archive workers that may crash or lose a commit reply.

 Transactions of one partition are serialised by its advisory lock, so each is one step.
 A file path is the partition and its generation; file contents are their digests.
 */
module Archive {
  import opened Prelude
  import opened Ranking

  datatype Status = Staged | Confirmed | Superseded | Failed
  datatype Partition = Partition(dataset: string, venue: string, day: int)
  datatype FilePath = FilePath(partition: Partition, generation: nat)
  datatype Manifest = Manifest(partition: Partition, generation: nat, status: Status, digest: string)
  {
    function Path(): FilePath { FilePath(partition, generation) }
  }
  type Rows = map<nat, Manifest>

  // ----- the three transactions -----

  ghost predicate IsMaxGeneration(rows: Rows, p: Partition, max: nat) {
    && (forall id :: id in rows && rows[id].partition == p ==> rows[id].generation <= max)
    && (max == 0 || exists id :: id in rows && rows[id].partition == p && rows[id].generation == max)
  }

  predicate NewerConfirmed(rows: Rows, p: Partition, generation: nat) {
    exists id :: id in rows && rows[id].partition == p && rows[id].status == Confirmed && rows[id].generation > generation
  }

  predicate Confirmable(rows: Rows, id: nat) {
    id in rows && rows[id].status == Staged && !NewerConfirmed(rows, rows[id].partition, rows[id].generation)
  }

  /** Rows after confirming `id`: it becomes current and every older current row is superseded. */
  function AfterConfirm(rows: Rows, id: nat): Rows
    requires id in rows
  {
    map j | j in rows ::
      if j == id then rows[j].(status := Confirmed)
      else if rows[j].partition == rows[id].partition && rows[j].status == Confirmed && rows[j].generation < rows[id].generation
      then rows[j].(status := Superseded)
      else rows[j]
  }

  function NewerSuperseded(rows: Rows, id: nat): set<nat>
    requires id in rows
  {
    set j | j in rows && rows[j].partition == rows[id].partition && rows[j].status == Superseded
      && rows[j].generation > rows[id].generation
  }

  /** Superseded files with at least three newer superseded ones. */
  function Prunable(rows: Rows, p: Partition): set<FilePath> {
    set id | id in rows && rows[id].partition == p && rows[id].status == Superseded && |NewerSuperseded(rows, id)| >= 3
      :: rows[id].Path()
  }

  function AfterFail(rows: Rows, id: nat): Rows {
    if id in rows && rows[id].status == Staged then rows[id := rows[id].(status := Failed)] else rows
  }

  /** The manifest table; each method is one transaction. */
  class ManifestTable {
    var rows: Rows

    constructor ()
      ensures rows == map[]
    {
      rows := map[];
    }

    method MaxGeneration(p: Partition) returns (max: nat)
      ensures IsMaxGeneration(rows, p, max)
    {
      max := 0;
      var todo := rows.Keys;
      while todo != {}
        invariant todo <= rows.Keys
        invariant forall id :: id in rows && id !in todo && rows[id].partition == p ==> rows[id].generation <= max
        invariant max == 0 || exists id :: id in rows && rows[id].partition == p && rows[id].generation == max
        decreases todo
      {
        var id :| id in todo;
        if rows[id].partition == p && rows[id].generation > max {
          max := rows[id].generation;
        }
        todo := todo - {id};
      }
    }

    /** Allocate the next generation and insert its staged row. */
    method StageManifest(id: nat, p: Partition, digest: string) returns (generation: nat)
      requires id !in rows
      modifies this
      ensures generation > 0 && IsMaxGeneration(old(rows), p, generation - 1)
      ensures rows == old(rows)[id := Manifest(p, generation, Staged, digest)]
    {
      var max := MaxGeneration(p);
      generation := max + 1;
      rows := rows[id := Manifest(p, generation, Staged, digest)];
    }

    /** Switch the current generation; the result is what may now be pruned. */
    method ConfirmManifest(id: nat) returns (prunable: Option<set<FilePath>>)
      modifies this
      ensures prunable.Some? <==> Confirmable(old(rows), id)
      ensures prunable.None? ==> rows == old(rows)
      ensures prunable.Some? ==>
        rows == AfterConfirm(old(rows), id) && prunable.value == Prunable(rows, rows[id].partition)
    {
      if id !in rows || rows[id].status != Staged {
        return None;
      }
      var p, generation := rows[id].partition, rows[id].generation;
      if NewerConfirmed(rows, p, generation) {
        return None;
      }
      rows := map j | j in rows ::
        if rows[j].partition == p && rows[j].status == Confirmed && rows[j].generation < generation
        then rows[j].(status := Superseded) else rows[j];
      rows := rows[id := rows[id].(status := Confirmed)];
      prunable := Some(Prunable(rows, p));
    }

    method MarkManifestFailed(id: nat) returns (changed: bool)
      modifies this
      ensures rows == AfterFail(old(rows), id)
      ensures changed <==> id in old(rows) && old(rows)[id].status == Staged
    {
      changed := id in rows && rows[id].status == Staged;
      if changed {
        rows := rows[id := rows[id].(status := Failed)];
      }
    }
  }

  // ----- concurrent workers -----

  /** Where one archive_partition call stands; `id` is the manifest it knows about. */
  datatype Phase =
    | Preparing
    | Verified(digest: string)
    | StagedRow(id: nat)
    | FileMoved(id: nat)
    | Failing(id: nat)
    | Removing(id: nat)
    | Pruning(id: nat, paths: set<FilePath>)
    | Returned(id: nat)
    | Raised

  datatype Worker = Worker(partition: Partition, phase: Phase)

  /** What the client learns of a commit: it succeeded, it did but the reply is lost, it did not. */
  datatype Reply = Acknowledged | ReplyLost | NotCommitted

  datatype System = System(rows: Rows, files: map<FilePath, string>, workers: map<nat, Worker>)

  const INITIAL := System(map[], map[], map[])

  datatype Action =
    | Spawn(w: nat, p: Partition)
    | Verify(w: nat, digest: string)
    | GiveUp(w: nat)
    | Stage(w: nat, id: nat, generation: nat, reply: Reply)
    | Move(w: nat)
    | MoveFails(w: nat)
    | Confirm(w: nat, reply: Reply)
    | MarkFailed(w: nat, reply: Reply)
    | Remove(w: nat)
    | PruneOne(w: nat, path: FilePath)
    | PruneEnds(w: nat)
    | CleanupFails(w: nat)
    | Crash(w: nat)

  ghost predicate Enabled(s: System, a: Action) {
    (a.Spawn? <==> a.w !in s.workers) &&
    (a.w in s.workers ==>
      var phase := s.workers[a.w].phase;
      match a
      case Spawn(_, _) => false
      case Verify(_, _) => phase.Preparing?
      case GiveUp(_) => phase.Preparing? || phase.Verified?
      case Stage(w, id, generation, _) =>
        phase.Verified? && id !in s.rows && generation > 0 && IsMaxGeneration(s.rows, s.workers[w].partition, generation - 1)
      case Move(_) => phase.StagedRow?
      case MoveFails(_) => phase.StagedRow?
      case Confirm(_, _) => phase.FileMoved?
      case MarkFailed(_, _) => phase.Failing?
      case Remove(_) => phase.Removing?
      case PruneOne(_, path) => phase.Pruning? && path in phase.paths
      case PruneEnds(_) => phase.Pruning? && phase.paths == {}
      case CleanupFails(_) => phase.Removing? || phase.Pruning?
      case Crash(_) => true)
  }

  function Enter(s: System, w: nat, phase: Phase): System
    requires w in s.workers
  {
    s.(workers := s.workers[w := s.workers[w].(phase := phase)])
  }

  function Known(rows: Rows, id: nat): Manifest {
    if id in rows then rows[id] else Manifest(Partition("", "", 0), 0, Failed, "")
  }

  /** One atomic step of one worker. */
  ghost function Next(s: System, a: Action): System
    requires Enabled(s, a)
  {
    match a
    case Spawn(w, p) => s.(workers := s.workers[w := Worker(p, Preparing)])
    case Verify(w, digest) => Enter(s, w, Verified(digest))
    case GiveUp(w) => Enter(s, w, Raised)
    case Stage(w, id, generation, reply) =>
      var row := Manifest(s.workers[w].partition, generation, Staged, s.workers[w].phase.digest);
      var t := if reply.NotCommitted? then s else s.(rows := s.rows[id := row]);
      // Without a reply the caller never learns its manifest id and cleans nothing up.
      Enter(t, w, if reply.Acknowledged? then StagedRow(id) else Raised)
    case Move(w) =>
      var m := Known(s.rows, s.workers[w].phase.id);
      Enter(s.(files := s.files[m.Path() := m.digest]), w, FileMoved(s.workers[w].phase.id))
    case MoveFails(w) => Enter(s, w, Failing(s.workers[w].phase.id))
    case Confirm(w, reply) =>
      var id := s.workers[w].phase.id;
      if !Confirmable(s.rows, id) || reply.NotCommitted? then Enter(s, w, Failing(id))
      else
        var t := s.(rows := AfterConfirm(s.rows, id));
        Enter(t, w, if reply.Acknowledged? then Pruning(id, Prunable(t.rows, s.rows[id].partition)) else Failing(id))
    case MarkFailed(w, reply) =>
      var id := s.workers[w].phase.id;
      var t := if reply.NotCommitted? then s else s.(rows := AfterFail(s.rows, id));
      Enter(t, w, if reply.Acknowledged? && Known(s.rows, id).status == Staged then Removing(id) else Raised)
    case Remove(w) => Enter(s.(files := s.files - {Known(s.rows, s.workers[w].phase.id).Path()}), w, Raised)
    case PruneOne(w, path) =>
      var phase := s.workers[w].phase;
      Enter(s.(files := s.files - {path}), w, Pruning(phase.id, phase.paths - {path}))
    case PruneEnds(w) => Enter(s, w, Returned(s.workers[w].phase.id))
    case CleanupFails(w) => Enter(s, w, Raised)
    case Crash(w) => s.(workers := s.workers - {w})
  }

  // ----- what every step keeps -----

  predicate Present(files: map<FilePath, string>, m: Manifest) {
    m.Path() in files && files[m.Path()] == m.digest
  }

  predicate RowsOk(rows: Rows) {
    && (forall i, j :: i in rows && j in rows && i != j && rows[i].partition == rows[j].partition ==>
          rows[i].generation != rows[j].generation)
    && (forall i, j :: i in rows && j in rows && i != j && rows[i].partition == rows[j].partition && rows[i].status == Confirmed ==>
          rows[j].status != Confirmed && (rows[j].status == Superseded ==> rows[j].generation < rows[i].generation))
    && (forall j :: j in rows && rows[j].status == Superseded ==> HasCurrent(rows, rows[j].partition))
  }

  predicate HasCurrent(rows: Rows, p: Partition) {
    exists i :: i in rows && rows[i].partition == p && rows[i].status == Confirmed
  }

  /** Current files and the three newest superseded ones exist with their verified content. */
  predicate FilesOk(rows: Rows, files: map<FilePath, string>) {
    forall id :: id in rows ==>
      (rows[id].status == Confirmed || (rows[id].status == Superseded && |NewerSuperseded(rows, id)| < 3)
       ==> Present(files, rows[id]))
  }

  predicate WorkerOk(rows: Rows, files: map<FilePath, string>, w: Worker) {
    match w.phase
    case StagedRow(id) => id in rows && rows[id].status == Staged
    case FileMoved(id) => id in rows && rows[id].status == Staged && Present(files, rows[id])
    case Failing(id) => id in rows && rows[id].status != Failed
    case Removing(id) => id in rows && rows[id].status == Failed
    case Pruning(id, paths) =>
      && id in rows && (rows[id].status == Confirmed || rows[id].status == Superseded)
      && forall path :: path in paths ==> path in Prunable(rows, path.partition)
    case Returned(id) => id in rows && (rows[id].status == Confirmed || rows[id].status == Superseded)
    case _ => true
  }

  /** The manifest a worker is still free to confirm or fail is its own. */
  predicate Owns(w: Worker) {
    w.phase.StagedRow? || w.phase.FileMoved? || w.phase.Failing?
  }

  predicate Exclusive(s: System) {
    forall v, w :: v in s.workers && w in s.workers && v != w && Owns(s.workers[v]) ==>
      !Owns(s.workers[w]) || s.workers[v].phase.id != s.workers[w].phase.id
  }

  predicate Inv(s: System) {
    && RowsOk(s.rows)
    && FilesOk(s.rows, s.files)
    && (forall w :: w in s.workers ==> WorkerOk(s.rows, s.files, s.workers[w]))
    && Exclusive(s)
  }

  lemma InitialInv()
    ensures Inv(INITIAL)
  {
  }

  /** Rows with the same path are the same row. */
  lemma PathsDistinct(rows: Rows, i: nat, j: nat)
    requires RowsOk(rows) && i in rows && j in rows && rows[i].Path() == rows[j].Path()
    ensures i == j
  {
  }

  /** How other steps may change the rows a worker relies on; only `mine` may leave staged. */
  predicate Evolves(before: Rows, after: Rows, mine: nat) {
    && before.Keys <= after.Keys
    && (forall id :: id in before ==>
          && after[id] == before[id].(status := after[id].status)
          && (before[id].status == Staged && id != mine ==> after[id].status == Staged)
          && (before[id].status == Confirmed || before[id].status == Superseded ==>
                after[id].status == Superseded || (after[id].status == before[id].status))
          && (before[id].status == Failed ==> after[id].status == Failed))
  }

  ghost predicate PrunableKept(before: Rows, after: Rows) {
    forall p :: Prunable(before, p) <= Prunable(after, p)
  }

  lemma OtherWorkersKept(before: Rows, after: Rows, files: map<FilePath, string>, w: Worker, mine: nat)
    requires WorkerOk(before, files, w)
    requires Evolves(before, after, mine) && PrunableKept(before, after)
    requires Owns(w) ==> w.phase.id != mine
    requires mine in before ==> before[mine].status == Staged || after[mine] == before[mine]
    ensures WorkerOk(after, files, w)
  {
  }

  /** Rows and files grow only, except that a row with three newer superseded ones may lose its file. */
  lemma PrunableIfEvolved(before: Rows, after: Rows, mine: nat)
    requires Evolves(before, after, mine)
    ensures PrunableKept(before, after)
    ensures forall id :: id in before ==> |NewerSuperseded(before, id)| <= |NewerSuperseded(after, id)|
  {
    forall id | id in before ensures |NewerSuperseded(before, id)| <= |NewerSuperseded(after, id)| {
      SmallerSubset(NewerSuperseded(before, id), NewerSuperseded(after, id));
    }
    forall p, path | path in Prunable(before, p) ensures path in Prunable(after, p) {
      var j :| j in before && before[j].partition == p && before[j].status == Superseded
        && |NewerSuperseded(before, j)| >= 3 && before[j].Path() == path;
      assert after[j].Path() == path;
    }
  }

  /** Rows enter staged; only `mine` may become current, and only with its file in place. */
  predicate Advances(s: System, after: Rows, mine: nat) {
    && Evolves(s.rows, after, mine)
    && (forall id :: id in after && id !in s.rows ==> after[id].status == Staged)
    && (forall id :: id in s.rows && after[id].status == Confirmed && s.rows[id].status != Confirmed ==> Present(s.files, s.rows[id]))
    && (forall id :: id in s.rows && after[id].status == Superseded ==>
          s.rows[id].status == Confirmed || s.rows[id].status == Superseded)
  }

  lemma FilesKept(s: System, after: Rows, mine: nat)
    requires FilesOk(s.rows, s.files) && Advances(s, after, mine)
    ensures FilesOk(after, s.files)
  {
    PrunableIfEvolved(s.rows, after, mine);
    hide NewerSuperseded, Prunable;
    forall id | id in after && (after[id].status == Confirmed || (after[id].status == Superseded && |NewerSuperseded(after, id)| < 3))
      ensures Present(s.files, after[id])
    {
      assert after[id].Path() == s.rows[id].Path();
      if s.rows[id].status == Superseded {
        assert |NewerSuperseded(s.rows, id)| <= |NewerSuperseded(after, id)|;
      }
    }
  }

  lemma WorkersKept(s: System, after: Rows, mine: nat, w: nat)
    requires Evolves(s.rows, after, mine)
    requires mine in s.rows ==> s.rows[mine].status == Staged || after[mine] == s.rows[mine]
    requires forall v :: v in s.workers ==> WorkerOk(s.rows, s.files, s.workers[v])
    requires forall v :: v in s.workers && v != w && Owns(s.workers[v]) ==> s.workers[v].phase.id != mine
    ensures forall v :: v in s.workers && v != w ==> WorkerOk(after, s.files, s.workers[v])
  {
    PrunableIfEvolved(s.rows, after, mine);
    forall v | v in s.workers && v != w ensures WorkerOk(after, s.files, s.workers[v]) {
      OtherWorkersKept(s.rows, after, s.files, s.workers[v], mine);
    }
  }

  /** A transaction of worker w that moves only the row `mine` keeps the invariant. */
  lemma TransactionKeeps(s: System, t: System, w: nat, mine: nat)
    requires Inv(s) && w in s.workers && w in t.workers
    requires t.files == s.files && t.workers == s.workers[w := t.workers[w]]
    requires RowsOk(t.rows) && Advances(s, t.rows, mine)
    requires mine in s.rows ==> s.rows[mine].status == Staged || t.rows[mine] == s.rows[mine]
    requires WorkerOk(t.rows, t.files, t.workers[w])
    requires forall v :: v in s.workers && v != w && Owns(s.workers[v]) ==> s.workers[v].phase.id != mine
    requires Owns(t.workers[w]) ==> t.workers[w].phase.id == mine
    ensures Inv(t)
  {
    WorkersKept(s, t.rows, mine, w);
    FilesKept(s, t.rows, mine);
    hide RowsOk, FilesOk, WorkerOk, Advances;
  }

  /** Staging takes a generation no row of the partition has, above all of them. */
  lemma StageKeeps(s: System, a: Action)
    requires Inv(s) && Enabled(s, a) && a.Stage?
    ensures Inv(Next(s, a))
  {
    hide Prunable, NewerSuperseded, FilesOk, Advances;
    if !a.reply.NotCommitted? {
      var row := Manifest(s.workers[a.w].partition, a.generation, Staged, s.workers[a.w].phase.digest);
      StageRowsOk(s.rows, a.id, row);
      StageAdvances(s, a.id, row);
      hide RowsOk;
      TransactionKeeps(s, Next(s, a), a.w, a.id);
    }
  }

  lemma StageAdvances(s: System, id: nat, row: Manifest)
    requires id !in s.rows && row.status == Staged
    ensures Advances(s, s.rows[id := row], id)
  {
  }

  lemma StageRowsOk(rows: Rows, id: nat, row: Manifest)
    requires RowsOk(rows) && id !in rows && row.status == Staged
    requires row.generation > 0 && IsMaxGeneration(rows, row.partition, row.generation - 1)
    ensures RowsOk(rows[id := row])
  {
    var after := rows[id := row];
    forall j | j in rows && rows[j].status == Superseded ensures HasCurrent(after, rows[j].partition) {
      assert HasCurrent(rows, rows[j].partition);
      var i :| i in rows && rows[i].partition == rows[j].partition && rows[i].status == Confirmed;
      assert after[i] == rows[i];
    }
  }

  /** A file step of worker w keeps the invariant if no staged or required file is lost. */
  lemma FilesChange(s: System, files: map<FilePath, string>, w: nat, worker: Worker)
    requires Inv(s) && w in s.workers && FilesOk(s.rows, files) && WorkerOk(s.rows, files, worker)
    requires forall id :: id in s.rows && s.rows[id].status == Staged && Present(s.files, s.rows[id]) ==> Present(files, s.rows[id])
    requires Owns(worker) ==> Owns(s.workers[w]) && worker.phase.id == s.workers[w].phase.id
    ensures Inv(System(s.rows, files, s.workers[w := worker]))
  {
    hide RowsOk, FilesOk, Prunable, Present;
    var t := System(s.rows, files, s.workers[w := worker]);
    forall v | v in t.workers ensures WorkerOk(t.rows, t.files, t.workers[v]) {
      assert WorkerOk(s.rows, s.files, s.workers[v]);
    }
  }

  /** Writing or removing the file of one row leaves the files of the others. */
  lemma OtherFilesKept(rows: Rows, files: map<FilePath, string>, mine: nat)
    requires RowsOk(rows) && mine in rows
    ensures forall id :: id in rows && id != mine && Present(files, rows[id]) ==>
      Present(files[rows[mine].Path() := rows[mine].digest], rows[id]) && Present(files - {rows[mine].Path()}, rows[id])
    ensures Present(files[rows[mine].Path() := rows[mine].digest], rows[mine])
  {
    forall id | id in rows && id != mine ensures rows[id].Path() != rows[mine].Path() {
      if rows[id].Path() == rows[mine].Path() {
        PathsDistinct(rows, id, mine);
        assert false;
      }
    }
  }

  lemma FileStepKeeps(s: System, a: Action)
    requires Inv(s) && Enabled(s, a) && (a.Move? || a.Remove? || a.PruneOne?)
    ensures Inv(Next(s, a))
  {
    assert WorkerOk(s.rows, s.files, s.workers[a.w]);
    var phase, files := s.workers[a.w].phase, Next(s, a).files;
    var mine := if a.PruneOne? then PrunedRow(s.rows, a.path) else phase.id;
    OtherFilesKept(s.rows, s.files, mine);
    assert a.Move? ==> files == s.files[s.rows[mine].Path() := s.rows[mine].digest];
    assert !a.Move? ==> files == s.files - {s.rows[mine].Path()};
    hide NewerSuperseded, Present, RowsOk;
    FilesChange(s, files, a.w, Next(s, a).workers[a.w]);
  }

  /** The superseded row, with three newer ones, that a prunable file belongs to. */
  ghost function PrunedRow(rows: Rows, path: FilePath): (id: nat)
    requires path in Prunable(rows, path.partition)
    ensures id in rows && rows[id].status == Superseded && |NewerSuperseded(rows, id)| >= 3 && rows[id].Path() == path
  {
    var id :| id in rows && rows[id].status == Superseded && |NewerSuperseded(rows, id)| >= 3 && rows[id].Path() == path;
    id
  }

  lemma ConfirmRowsOk(rows: Rows, id: nat)
    requires RowsOk(rows) && Confirmable(rows, id)
    ensures RowsOk(AfterConfirm(rows, id))
  {
    var after := AfterConfirm(rows, id);
    var p := rows[id].partition;
    assert HasCurrent(after, p) by { assert after[id].status == Confirmed; }
    ConfirmKeepsOthers(rows, id);
    forall j | j in rows && j != id && rows[j].partition == p
      ensures after[j].status != Confirmed && (after[j].status == Superseded ==> after[j].generation < rows[id].generation)
    {
      if rows[j].status == Superseded {
        assert HasCurrent(rows, p);
        var i :| i in rows && rows[i].partition == p && rows[i].status == Confirmed;
        assert rows[j].generation < rows[i].generation < rows[id].generation;
      }
    }
    hide Confirmable;
  }

  lemma ConfirmKeepsOthers(rows: Rows, id: nat)
    requires RowsOk(rows) && Confirmable(rows, id)
    ensures var after := AfterConfirm(rows, id);
      forall j :: j in rows && rows[j].partition != rows[id].partition && after[j].status == Superseded ==>
        HasCurrent(after, rows[j].partition)
  {
    var after := AfterConfirm(rows, id);
    forall j | j in rows && rows[j].partition != rows[id].partition && after[j].status == Superseded
      ensures HasCurrent(after, rows[j].partition)
    {
      assert HasCurrent(rows, rows[j].partition);
      var i :| i in rows && rows[i].partition == rows[j].partition && rows[i].status == Confirmed;
      assert after[i] == rows[i];
    }
  }

  lemma ConfirmAdvances(s: System, id: nat)
    requires Confirmable(s.rows, id) && Present(s.files, s.rows[id])
    ensures Advances(s, AfterConfirm(s.rows, id), id)
  {
  }

  /** The worker that confirmed keeps its manifest and starts from what may be pruned now. */
  lemma ConfirmKeeps(s: System, a: Action)
    requires Inv(s) && Enabled(s, a) && a.Confirm?
    ensures Inv(Next(s, a))
  {
    var id := s.workers[a.w].phase.id;
    assert WorkerOk(s.rows, s.files, s.workers[a.w]);
    if Confirmable(s.rows, id) && !a.reply.NotCommitted? {
      var after := AfterConfirm(s.rows, id);
      ConfirmRowsOk(s.rows, id);
      ConfirmAdvances(s, id);
      hide RowsOk, FilesOk, Advances, NewerSuperseded;
      TransactionKeeps(s, Next(s, a), a.w, id);
    }
  }

  lemma FailRowsOk(rows: Rows, id: nat)
    requires RowsOk(rows)
    ensures RowsOk(AfterFail(rows, id))
  {
    var after := AfterFail(rows, id);
    forall j | j in rows && rows[j].status == Superseded ensures HasCurrent(after, rows[j].partition) {
      assert HasCurrent(rows, rows[j].partition);
      var i :| i in rows && rows[i].partition == rows[j].partition && rows[i].status == Confirmed;
      assert after[i] == rows[i];
    }
  }

  lemma FailAdvances(s: System, id: nat)
    ensures Advances(s, AfterFail(s.rows, id), id)
  {
  }

  lemma MarkFailedKeeps(s: System, a: Action)
    requires Inv(s) && Enabled(s, a) && a.MarkFailed?
    ensures Inv(Next(s, a))
  {
    hide Prunable, NewerSuperseded, FilesOk, Advances;
    var id := s.workers[a.w].phase.id;
    assert WorkerOk(s.rows, s.files, s.workers[a.w]);
    if !a.reply.NotCommitted? && s.rows[id].status == Staged {
      FailRowsOk(s.rows, id);
      FailAdvances(s, id);
      hide RowsOk;
      TransactionKeeps(s, Next(s, a), a.w, id);
    }
  }

  /** The steps that touch neither rows nor files. */
  lemma OtherStepKeeps(s: System, a: Action)
    requires Inv(s) && Enabled(s, a)
    requires !(a.Stage? || a.Move? || a.Remove? || a.PruneOne? || a.Confirm? || a.MarkFailed?)
    ensures Inv(Next(s, a))
  {
    hide RowsOk, FilesOk, Prunable;
    var t := Next(s, a);
    forall w | w in t.workers ensures WorkerOk(t.rows, t.files, t.workers[w]) {
      assert w in s.workers ==> WorkerOk(s.rows, s.files, s.workers[w]);
    }
  }

  /** Every step of every worker keeps the invariant. */
  lemma StepKeeps(s: System, a: Action)
    requires Inv(s) && Enabled(s, a)
    ensures Inv(Next(s, a))
  {
    hide Inv, Next, Enabled;
    if a.Stage? {
      StageKeeps(s, a);
    } else if a.Move? || a.Remove? || a.PruneOne? {
      FileStepKeeps(s, a);
    } else if a.Confirm? {
      ConfirmKeeps(s, a);
    } else if a.MarkFailed? {
      MarkFailedKeeps(s, a);
    } else {
      OtherStepKeeps(s, a);
    }
  }

  // ----- whole runs -----

  /** Actions in any order by any workers; one that is not enabled does not happen. */
  ghost function Run(trace: seq<Action>): (s: System)
    ensures Inv(s)
  {
    if trace == [] then InitialInv(); INITIAL
    else
      var s := Run(trace[..|trace| - 1]);
      var a := trace[|trace| - 1];
      if Enabled(s, a) then StepKeeps(s, a); Next(s, a) else s
  }

  predicate EverConfirmed(m: Manifest) {
    m.status == Confirmed || m.status == Superseded
  }

  /**
   In every reachable state: one current manifest a partition at most, greatest among all that
   were ever confirmed; its file and those of the three newest superseded ones exist with the
   verified content; and a call that returned has its manifest confirmed.
   */
  lemma ArchiveSafety(trace: seq<Action>, i: nat, j: nat, w: nat)
    requires i in Run(trace).rows && j in Run(trace).rows
    ensures var s := Run(trace);
      && (s.rows[i].status == Confirmed && s.rows[j].partition == s.rows[i].partition && EverConfirmed(s.rows[j]) ==>
            i == j || (s.rows[j].status == Superseded && s.rows[j].generation < s.rows[i].generation))
      && (s.rows[i].status == Confirmed ==> Present(s.files, s.rows[i]))
      && (s.rows[i].status == Superseded && |NewerSuperseded(s.rows, i)| < 3 ==> Present(s.files, s.rows[i]))
      && (EverConfirmed(s.rows[i]) ==> HasCurrent(s.rows, s.rows[i].partition))
      && (w in s.workers && s.workers[w].phase == Returned(i) ==> EverConfirmed(s.rows[i]))
  {
    hide Run;
    var s := Run(trace);
    if w in s.workers {
      assert WorkerOk(s.rows, s.files, s.workers[w]);
    }
  }

  predicate Spent(rows: Rows, id: nat)
    requires id in rows
  {
    rows[id].status == Failed || (rows[id].status == Superseded && |NewerSuperseded(rows, id)| >= 3)
  }

  /** Each file a step deletes belongs to a failed row or has three newer superseded ones. */
  lemma DeletesOnlySpent(s: System, a: Action, path: FilePath)
    requires Inv(s) && Enabled(s, a) && path in s.files && path !in Next(s, a).files
    ensures exists id :: id in s.rows && s.rows[id].Path() == path && Spent(s.rows, id)
  {
    assert WorkerOk(s.rows, s.files, s.workers[a.w]);
    if a.Remove? {
      assert s.rows[s.workers[a.w].phase.id].Path() == path;
    }
  }

  /** No row ever confirmed stops being so, and the current generation never goes back. */
  ghost predicate Later(before: Rows, after: Rows) {
    && before.Keys <= after.Keys
    && (forall id :: id in before ==> after[id].partition == before[id].partition && after[id].generation == before[id].generation)
    && (forall id :: id in before && EverConfirmed(before[id]) ==> EverConfirmed(after[id]))
  }

  lemma StepIsLater(s: System, a: Action)
    requires Enabled(s, a)
    ensures Later(s.rows, Next(s, a).rows)
  {
    hide Prunable, RowsOk, IsMaxGeneration;
    if a.Confirm? && Confirmable(s.rows, s.workers[a.w].phase.id) {
      ConfirmIsLater(s.rows, s.workers[a.w].phase.id);
    } else if a.MarkFailed? {
      FailIsLater(s.rows, s.workers[a.w].phase.id);
    }
  }

  lemma ConfirmIsLater(rows: Rows, id: nat)
    requires id in rows
    ensures Later(rows, AfterConfirm(rows, id))
  {
  }

  lemma FailIsLater(rows: Rows, id: nat)
    ensures Later(rows, AfterFail(rows, id))
  {
  }

  lemma {:induction false} RunIsLater(trace: seq<Action>, n: nat)
    requires n <= |trace|
    ensures Later(Run(trace[..n]).rows, Run(trace).rows)
    decreases |trace|
  {
    if n == |trace| {
      assert trace[..n] == trace;
    } else {
      var rest := trace[..|trace| - 1];
      assert rest[..n] == trace[..n];
      RunIsLater(rest, n);
      if Enabled(Run(rest), trace[|trace| - 1]) {
        StepIsLater(Run(rest), trace[|trace| - 1]);
      }
    }
  }

  lemma CurrentNeverGoesBack(trace: seq<Action>, n: nat, i: nat)
    requires n <= |trace| && i in Run(trace[..n]).rows && Run(trace[..n]).rows[i].status == Confirmed
    ensures var p := Run(trace[..n]).rows[i].partition; var now := Run(trace).rows;
      && HasCurrent(now, p)
      && forall j :: j in now && now[j].partition == p && now[j].status == Confirmed ==>
           Run(trace[..n]).rows[i].generation <= now[j].generation
  {
    RunIsLater(trace, n);
    hide Run;
    var now := Run(trace).rows;
    assert EverConfirmed(now[i]);
  }
}
