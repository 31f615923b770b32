/** What an export promises its readers. */
module OutcomeRoundTrip {
  import opened Prelude
  import opened Ranking
  import opened Bundles
  import opened OutcomeExport
  import opened OutcomeReader
  import opened Joining

  /**
   In no day does an asset have native points under references of different groups. Everything this
   mentions is known before the export runs.
   */
  predicate NoSplitAsset(rows: seq<Row>, after: int, through: int) {
    var placed := Place(rows, after, through);
    forall p, q :: p in placed && q in placed ==> Together(ReferenceKeys(rows), p, q)
  }

  predicate Together(keys: set<nat>, p: Placed, q: Placed) {
    p.point.key == q.point.key && DayOf(p.point.at) == DayOf(q.point.at) ==>
      GroupOf(keys, p.reference) == GroupOf(keys, q.reference)
  }

  /** Points are placed inside the window, on minutes, under a listed reference or none. */
  lemma {:induction false} PlacedWell(rows: seq<Row>, after: int, through: int)
    ensures forall p :: p in Place(rows, after, through) ==>
      after < p.point.at <= through && p.point.at % MINUTE == 0 && (p.reference == 0 || p.reference in ReferenceKeys(rows))
  {
    if rows != [] {
      var n := |rows| - 1;
      PlacedWell(rows[..n], after, through);
      assert rows == rows[..n] + [rows[n]];
    }
  }

  lemma DayHolds(day: int, at: int)
    requires day % DAY == 0
    ensures day < at <= day + DAY <==> DayOf(at) == day
  {
  }

  /** A fragment with the content of its day and group exists wherever there is any. */
  lemma FragmentOf(files: seq<Entry>, src: Source, day: int, g: nat) returns (e: Entry)
    requires Complete(files, src) && HasContent(src, day, g)
    ensures e in files && Fragment(e, src) && e.name == Name(day, g)
    ensures ToSet(e.sha.bars) == GroupBars(src, day, g) && ToSet(e.sha.native) == GroupPoints(src, day, g)
  {
    assert Listed(files, Name(day, g));
    e :| e in files && e.name == Name(day, g);
  }

  /** Nothing of the source is lost and nothing is added. */
  lemma ExportIsComplete(files: seq<Entry>, src: Source, keys: set<nat>)
    requires Complete(files, src) && 0 !in keys && Groups(keys, src.groups)
    ensures BarsOf(files) == TableBars(src.table, keys, src.after, src.through)
  {
    forall b | b in BarsOf(files) ensures b in TableBars(src.table, keys, src.after, src.through) {
      var e :| e in files && b in e.sha.bars;
      assert b in ToSet(e.sha.bars) && Fragment(e, src);
      assert b in GroupBars(src, e.name.day, e.name.group);
      GroupKeys(keys, src.groups, e.name.group, b.key);
    }
    forall b | b in TableBars(src.table, keys, src.after, src.through) ensures b in BarsOf(files) {
      var day, g := DayOf(b.at), GroupOf(keys, b.key);
      OneGroup(keys, src.groups, b.key);
      assert (b.key, b.at) in src.table.Keys;
      assert b in GroupBars(src, day, g);
      var e := FragmentOf(files, src, day, g);
      assert b in ToSet(e.sha.bars);
    }
  }

  lemma GroupKeys(keys: set<nat>, groups: seq<seq<nat>>, g: nat, key: nat)
    requires Groups(keys, groups) && g < |groups| && key in groups[g] && key != 0
    ensures key in keys
  {
    assert key in ToSet(groups[g]);
  }

  // ----- when a reader accepts an export -----

  lemma FragmentIsSound(bundle: Bundle, rows: seq<Row>, table: Table, groups: seq<seq<nat>>, e: Entry)
    requires IsCut(bundle, rows, table, groups) && bundle.after < bundle.through && e in bundle.files
    ensures Sound(bundle, e)
  {
    var src := SourceOf(bundle, rows, table, groups);
    assert Fragment(e, src);
    PlacedWell(rows, bundle.after, bundle.through);
    ListingDistinct(Keys(e.sha.bars), Less(), e.referenceKeys);
    ListingDistinct(Keys(e.sha.native), Less(), e.assetIds);
    forall x | x in e.sha.bars ensures e.after < x.at <= e.through {
      assert x in ToSet(e.sha.bars);
    }
    forall x | x in e.sha.native ensures e.after < x.at <= e.through && x.at % MINUTE == 0 {
      assert x in ToSet(e.sha.native);
    }
  }

  /** Fragments overlap only within their day. */
  lemma OverlapIsSameDay(src: Source, e: Entry, f: Entry)
    requires Fragment(e, src) && Fragment(f, src) && src.after < src.through
    ensures Overlap(e, f) <==> e.name.day == f.name.day
  {
  }

  lemma DifferentGroupsSeparate(rows: seq<Row>, src: Source, e: Entry, f: Entry)
    requires Groups(ReferenceKeys(rows), src.groups) && src.placed == Place(rows, src.after, src.through)
    requires Fragment(e, src) && Fragment(f, src) && e.name != f.name && src.after < src.through
    requires NoSplitAsset(rows, src.after, src.through)
    ensures Separate(e, f)
  {
    OverlapIsSameDay(src, e, f);
    if Overlap(e, f) {
      forall key | key in e.referenceKeys && key in f.referenceKeys ensures false {
        BarUnder(e, src, key);
        BarUnder(f, src, key);
        NoEmptyKey(rows);
        PlacedWell(rows, src.after, src.through);
        GroupKeys(ReferenceKeys(rows), src.groups, e.name.group, key);
        OneGroup(ReferenceKeys(rows), src.groups, key);
      }
      forall asset | asset in e.assetIds && asset in f.assetIds ensures false {
        var p := PlacedUnder(e, src, asset);
        var q := PlacedUnder(f, src, asset);
        DayHolds(e.name.day, p.point.at);
        DayHolds(e.name.day, q.point.at);
        SameGroupMeansSameIndex(rows, src, p, q, e.name.group, f.name.group);
      }
    }
  }

  lemma BarUnder(e: Entry, src: Source, key: nat)
    requires Fragment(e, src) && key in e.referenceKeys
    ensures key in src.groups[e.name.group] && key != 0
  {
    assert key in ToSet(e.referenceKeys);
    var b :| b in e.sha.bars && b.key == key;
    assert b in ToSet(e.sha.bars);
  }

  lemma PlacedUnder(e: Entry, src: Source, asset: nat) returns (p: Placed)
    requires Fragment(e, src) && asset in e.assetIds
    ensures p in src.placed && p.point.key == asset && p.reference in src.groups[e.name.group]
    ensures e.name.day < p.point.at <= e.name.day + DAY && p.point in e.sha.native
  {
    assert asset in ToSet(e.assetIds);
    var x :| x in e.sha.native && x.key == asset;
    assert x in ToSet(e.sha.native);
    p :| p in src.placed && p.reference in ToSet(src.groups[e.name.group]) && p.point == x;
  }

  lemma SameGroupMeansSameIndex(rows: seq<Row>, src: Source, p: Placed, q: Placed, g: nat, h: nat)
    requires Groups(ReferenceKeys(rows), src.groups) && src.placed == Place(rows, src.after, src.through)
    requires p in src.placed && q in src.placed && g < |src.groups| && h < |src.groups|
    requires p.reference in src.groups[g] && q.reference in src.groups[h]
    ensures g == h <==> GroupOf(ReferenceKeys(rows), p.reference) == GroupOf(ReferenceKeys(rows), q.reference)
  {
    NoEmptyKey(rows);
    PlacedWell(rows, src.after, src.through);
    OneGroup(ReferenceKeys(rows), src.groups, p.reference);
    OneGroup(ReferenceKeys(rows), src.groups, q.reference);
  }

  /** A reader accepts an export exactly when no asset was split between groups within a day. */
  lemma AcceptedIffNoSplit(bundle: Bundle, rows: seq<Row>, table: Table)
    requires IsExport(bundle, rows, table)
    ensures Consistent(bundle) <==> NoSplitAsset(rows, bundle.after, bundle.through)
  {
    var groups :| IsCut(bundle, rows, table, groups);
    var src := SourceOf(bundle, rows, table, groups);
    forall e | e in bundle.files ensures Sound(bundle, e) {
      FragmentIsSound(bundle, rows, table, groups, e);
    }
    if NoSplitAsset(rows, bundle.after, bundle.through) {
      forall i, j | 0 <= i < j < |bundle.files| ensures Separate(bundle.files[i], bundle.files[j]) {
        assert bundle.files[i] in bundle.files && bundle.files[j] in bundle.files;
        DifferentGroupsSeparate(rows, src, bundle.files[i], bundle.files[j]);
      }
    } else {
      var p, q :| p in src.placed && q in src.placed && !Together(ReferenceKeys(rows), p, q);
      SplitIsRefused(bundle, rows, src, p, q);
    }
  }

  lemma SplitIsRefused(bundle: Bundle, rows: seq<Row>, src: Source, p: Placed, q: Placed)
    requires IsCut(bundle, rows, src.table, src.groups) && src == SourceOf(bundle, rows, src.table, src.groups)
    requires Groups(ReferenceKeys(rows), src.groups) && bundle.after < bundle.through
    requires p in src.placed && q in src.placed && !Together(ReferenceKeys(rows), p, q)
    ensures !Consistent(bundle)
  {
    hide Fragment, IsCut, Groups, Complete, Consistent, Overlap;
    var e := FragmentHolding(bundle, rows, src, p);
    var f := FragmentHolding(bundle, rows, src, q);
    SameGroupMeansSameIndex(rows, src, p, q, e.name.group, f.name.group);
    OverlapIsSameDay(src, e, f);
    SharedAssetIsRefused(bundle, e, f, p.point.key);
  }

  lemma SharedAssetIsRefused(bundle: Bundle, e: Entry, f: Entry, asset: nat)
    requires e in bundle.files && f in bundle.files && e.name != f.name && Overlap(e, f)
    requires asset in e.assetIds && asset in f.assetIds
    ensures !Consistent(bundle)
  {
    var i :| 0 <= i < |bundle.files| && bundle.files[i] == e;
    var j :| 0 <= j < |bundle.files| && bundle.files[j] == f;
    assert asset in ToSet(e.assetIds) && asset in ToSet(f.assetIds);
    assert !Separate(e, f) && !Separate(f, e);
    assert i < j || j < i;
  }

  lemma FragmentHolding(bundle: Bundle, rows: seq<Row>, src: Source, p: Placed) returns (e: Entry)
    requires IsCut(bundle, rows, src.table, src.groups) && src == SourceOf(bundle, rows, src.table, src.groups)
    requires p in src.placed
    ensures e in bundle.files && Fragment(e, src) && e.name.day == DayOf(p.point.at)
    ensures p.reference in src.groups[e.name.group] && p.point.key in e.assetIds
  {
    NoEmptyKey(rows);
    PlacedWell(rows, src.after, src.through);
    OneGroup(ReferenceKeys(rows), src.groups, p.reference);
    var g := if p.reference == 0 then |src.groups| - 1 else GroupOf(ReferenceKeys(rows), p.reference);
    var day := DayOf(p.point.at);
    assert p.reference in ToSet(src.groups[g]);
    assert p.point in GroupPoints(src, day, g);
    e := FragmentOf(bundle.files, src, day, g);
    assert p.point in ToSet(e.sha.native);
    assert p.point.key in Keys(e.sha.native);
    assert p.point.key in ToSet(e.assetIds);
  }

  // ----- what a reader returns -----

  /** All the bars of the table, whatever their reference or time. */
  function AllBars(table: Table): set<Bar> {
    set p | p in table.Keys && p.0 != 0 :: Item(p.0, p.1, table[p])
  }

  lemma BundleBars(bundle: Bundle, rows: seq<Row>, table: Table)
    requires IsExport(bundle, rows, table)
    ensures BarsOf(bundle.files) == TableBars(table, ReferenceKeys(rows), bundle.after, bundle.through)
  {
    var groups :| IsCut(bundle, rows, table, groups);
    NoEmptyKey(rows);
    ExportIsComplete(bundle.files, SourceOf(bundle, rows, table, groups), ReferenceKeys(rows));
  }

  /** Round trip: inside its window an exported bundle answers as the source table does. */
  lemma RoundTrip(bundle: Bundle, rows: seq<Row>, table: Table, key: nat, after: int, through: int, answer: seq<Bar>)
    requires IsExport(bundle, rows, table) && key in ReferenceKeys(rows)
    requires bundle.after <= after && through <= bundle.through
    ensures Answers(BarsOf(bundle.files), key, after, through, answer) <==>
      Answers(AllBars(table), key, after, through, answer)
  {
    BundleBars(bundle, rows, table);
    forall b | b in Selected(AllBars(table), key, after, through)
      ensures b in TableBars(table, ReferenceKeys(rows), bundle.after, bundle.through)
    {
      assert (b.key, b.at) in table.Keys;
    }
    assert Selected(AllBars(table), key, after, through) == Selected(BarsOf(bundle.files), key, after, through);
  }

  /** Bundles whose windows cover a query hold together what the source table holds of it. */
  lemma SameSelection(readers: seq<PartitionedReader>, rows: seq<seq<Row>>, table: Table, key: nat, after: int, through: int)
    requires |rows| == |readers|
    requires forall i :: 0 <= i < |readers| ==> IsExport(readers[i].bundle, rows[i], table) && key in ReferenceKeys(rows[i])
    requires forall at :: after < at <= through ==> Covered(readers, at)
    ensures Selected(UnionBars(readers), key, after, through) == Selected(AllBars(table), key, after, through)
    ensures UnionBars(readers) <= AllBars(table)
  {
    var union := UnionBars(readers);
    forall b | b in union ensures b in AllBars(table) {
      var r :| r in readers && b in BarsOf(r.bundle.files);
      var i :| 0 <= i < |readers| && readers[i] == r;
      BundleBars(r.bundle, rows[i], table);
      assert (b.key, b.at) in table.Keys;
    }
    forall b | b in Selected(AllBars(table), key, after, through) ensures b in union {
      assert Covered(readers, b.at) && (b.key, b.at) in table.Keys;
      var i :| 0 <= i < |readers| && readers[i].bundle.after < b.at <= readers[i].bundle.through;
      BundleBars(readers[i].bundle, rows[i], table);
      assert b in BarsOf(readers[i].bundle.files) && readers[i] in readers;
    }
  }

  /** Bundles whose windows cover a query answer it together as the source table does, without conflict. */
  lemma JoinedRoundTrip(readers: seq<PartitionedReader>, rows: seq<seq<Row>>, table: Table, key: nat, after: int, through: int)
    requires |rows| == |readers|
    requires forall i :: 0 <= i < |readers| ==> IsExport(readers[i].bundle, rows[i], table) && key in ReferenceKeys(rows[i])
    requires forall at :: after < at <= through ==> Covered(readers, at)
    ensures !Conflicting(UnionBars(readers), key, after, through)
    ensures forall answer :: Answers(UnionBars(readers), key, after, through, answer) <==>
      Answers(AllBars(table), key, after, through, answer)
  {
    SameSelection(readers, rows, table, key, after, through);
  }

  ghost predicate Covered(readers: seq<PartitionedReader>, at: int) {
    exists i :: 0 <= i < |readers| && readers[i].bundle.after < at <= readers[i].bundle.through
  }

  // ----- why every export is accepted -----

  /** A row of a compiled ranking map: an asset and its reference, 0 for none. */
  datatype MappingRow = MappingRow(id: nat, reference: nat)

  datatype RankingMap = RankingMap(version: nat, rows: seq<MappingRow>)

  /** Different map contents have different digests. */
  ghost predicate Injective(digest: seq<MappingRow> -> nat) {
    forall a, b :: digest(a) == digest(b) ==> a == b
  }

  /** A compiled map: its version is the digest of its rows, and no row identity repeats. */
  ghost predicate Compiled(m: RankingMap, digest: seq<MappingRow> -> nat) {
    m.version == digest(m.rows) && forall i, j :: 0 <= i < j < |m.rows| ==> m.rows[i].id != m.rows[j].id
  }

  /** Feature rows carry the reference their map gives the asset. */
  predicate FromMap(g: Saved, m: RankingMap) {
    g.mapVersion == m.version && forall r :: r in g.rows ==> MappingRow(r.asset, r.referenceKey) in m.rows
  }

  ghost predicate FromSomeMap(g: Saved, digest: seq<MappingRow> -> nat) {
    exists m :: Compiled(m, digest) && FromMap(g, m)
  }

  /** Every saved generation was built on a compiled map. */
  ghost predicate BuiltOnMaps(saved: seq<Saved>, digest: seq<MappingRow> -> nat) {
    Injective(digest) && forall g :: g in saved ==> FromSomeMap(g, digest)
  }

  /** An asset has one reference, or none, throughout. */
  predicate OneReference(rows: seq<Row>) {
    forall r, q :: r in rows && q in rows && r.asset == q.asset ==> r.referenceKey == q.referenceKey
  }

  lemma {:induction false} RowsFrom(saved: seq<Saved>, mapVersion: nat, after: int, through: int)
    ensures forall r :: r in Rows(saved, mapVersion, after, through) ==>
      exists g :: g in saved && g.mapVersion == mapVersion && r in g.rows
  {
    if saved != [] {
      RowsFrom(saved[1..], mapVersion, after, through);
      forall r | r in Rows(saved, mapVersion, after, through)
        ensures exists g :: g in saved && g.mapVersion == mapVersion && r in g.rows
      {
        if r in ScopedRows(saved[0], mapVersion, after, through) {
          assert saved[0] in saved;
        } else {
          assert r in Rows(saved[1..], mapVersion, after, through);
          var g :| g in saved[1..] && g.mapVersion == mapVersion && r in g.rows;
          assert g in saved;
        }
      }
    }
  }

  /** One map version fixes the reference of every asset of an export. */
  lemma VersionFixesReferences(saved: seq<Saved>, digest: seq<MappingRow> -> nat, mapVersion: nat, after: int, through: int)
    requires BuiltOnMaps(saved, digest)
    ensures OneReference(Rows(saved, mapVersion, after, through))
  {
    var rows := Rows(saved, mapVersion, after, through);
    RowsFrom(saved, mapVersion, after, through);
    forall r, q | r in rows && q in rows && r.asset == q.asset ensures r.referenceKey == q.referenceKey {
      var g :| g in saved && g.mapVersion == mapVersion && r in g.rows;
      var h :| h in saved && h.mapVersion == mapVersion && q in h.rows;
      SameMapSameReference(g, h, digest, r, q);
    }
  }

  lemma SameMapSameReference(g: Saved, h: Saved, digest: seq<MappingRow> -> nat, r: Row, q: Row)
    requires Injective(digest) && FromSomeMap(g, digest) && FromSomeMap(h, digest) && g.mapVersion == h.mapVersion
    requires r in g.rows && q in h.rows && r.asset == q.asset
    ensures r.referenceKey == q.referenceKey
  {
    var m :| Compiled(m, digest) && FromMap(g, m);
    var n :| Compiled(n, digest) && FromMap(h, n);
    assert m.rows == n.rows;
    var i :| 0 <= i < |m.rows| && m.rows[i] == MappingRow(r.asset, r.referenceKey);
    var j :| 0 <= j < |m.rows| && m.rows[j] == MappingRow(q.asset, q.referenceKey);
    assert i == j;
  }

  lemma {:induction false} PlacedFrom(rows: seq<Row>, after: int, through: int)
    ensures forall p :: p in Place(rows, after, through) ==>
      exists r :: r in rows && r.asset == p.point.key && r.referenceKey == p.reference
  {
    if rows != [] {
      var n := |rows| - 1;
      PlacedFrom(rows[..n], after, through);
      assert rows == rows[..n] + [rows[n]];
      forall p | p in Place(rows, after, through) && p !in Place(rows[..n], after, through)
        ensures exists r :: r in rows && r.asset == p.point.key && r.referenceKey == p.reference
      {
        assert p in PlaceRow(rows[n], after, through) && rows[n] in rows;
      }
    }
  }

  lemma OneReferenceNeverSplits(rows: seq<Row>, after: int, through: int)
    requires OneReference(rows)
    ensures NoSplitAsset(rows, after, through)
  {
    PlacedFrom(rows, after, through);
  }

  /** What an export leaves in its directory. */
  function Published(bundle: Bundle, directory: nat): map<Path, Data>
    requires forall i, j :: 0 <= i < j < |bundle.files| ==> bundle.files[i].name != bundle.files[j].name
  {
    map i | 0 <= i < |bundle.files| :: Path(directory, bundle.files[i].name) := bundle.files[i].sha
  }

  lemma PublishedIsIntact(bundle: Bundle, directory: nat)
    requires forall i, j :: 0 <= i < j < |bundle.files| ==> bundle.files[i].name != bundle.files[j].name
    ensures Intact(Published(bundle, directory), directory, bundle)
  {
    forall e | e in bundle.files
      ensures Path(directory, e.name) in Published(bundle, directory)
        && Published(bundle, directory)[Path(directory, e.name)] == e.sha
    {
      var i :| 0 <= i < |bundle.files| && bundle.files[i] == e;
      assert Published(bundle, directory)[Path(directory, bundle.files[i].name)] == bundle.files[i].sha;
    }
  }

  /**
   Over generations built on compiled maps, a reader accepts every export: the day and group cut
   always passes its window and overlap checks.
   */
  lemma ExportAlwaysAccepted(bundle: Bundle, saved: seq<Saved>, table: Table, digest: seq<MappingRow> -> nat, directory: nat)
    requires BuiltOnMaps(saved, digest)
    requires IsExport(bundle, Rows(saved, bundle.mapVersion, bundle.after, bundle.through), table)
    ensures forall i, j :: 0 <= i < j < |bundle.files| ==> bundle.files[i].name != bundle.files[j].name
    ensures Accepted(bundle, directory, Published(bundle, directory))
  {
    var rows := Rows(saved, bundle.mapVersion, bundle.after, bundle.through);
    VersionFixesReferences(saved, digest, bundle.mapVersion, bundle.after, bundle.through);
    OneReferenceNeverSplits(rows, bundle.after, bundle.through);
    AcceptedIffNoSplit(bundle, rows, table);
    var groups :| IsCut(bundle, rows, table, groups);
    PublishedIsIntact(bundle, directory);
  }

  // ----- what happens without that -----

  /** A window within one day is cut into at most one fragment a group. */
  lemma OneDayFragments(files: seq<Entry>, src: Source, day: int)
    requires Complete(files, src) && forall e :: e in files ==> e.name.day == day
    ensures |files| <= |src.groups|
  {
    var indices := seq(|files|, i requires 0 <= i < |files| => files[i].name.group);
    forall i, j | 0 <= i < j < |files| ensures indices[i] != indices[j] {
      assert files[i] in files && files[j] in files;
    }
    forall i | 0 <= i < |files| ensures indices[i] < |src.groups| {
      assert files[i] in files && Fragment(files[i], src);
    }
    CountDistinct(indices);
    CountBelow(ToSet(indices), |src.groups|);
  }

  lemma {:induction false} CountBelow(s: set<nat>, n: nat)
    requires forall x :: x in s ==> x < n
    ensures |s| <= n
  {
    if n == 0 {
      assert s == {};
    } else {
      CountBelow(s - {n - 1}, n - 1);
      assert s <= (s - {n - 1}) + {n - 1};
      SmallerSubset(s, (s - {n - 1}) + {n - 1});
    }
  }

  /** Two minutes of one day, with and without a reference, under one map version. */
  function SplitRows(observation: Observation): seq<Row> {
    [Row(1, 5, 2 * MINUTE, observation), Row(1, 0, 3 * MINUTE, observation)]
  }

  /** The generations the two rows come from. */
  function SplitSaved(observation: Observation): seq<Saved> {
    [Saved(7, 2 * MINUTE, SplitRows(observation)[..1]), Saved(7, 3 * MINUTE, SplitRows(observation)[1..])]
  }

  lemma SplitSelected(observation: Observation)
    ensures Rows(SplitSaved(observation), 7, MINUTE, DAY) == SplitRows(observation)
  {
    var saved := SplitSaved(observation);
    assert saved[1..] == [saved[1]] && saved[1..][1..] == [];
    assert Rows(saved[1..], 7, MINUTE, DAY) == saved[1].rows;
  }

  lemma SplitPlaced(observation: Observation)
    ensures Place(SplitRows(observation), MINUTE, DAY) ==
      [Placed(5, Item(1, 2 * MINUTE, observation)), Placed(0, Item(1, 3 * MINUTE, observation))]
    ensures OncePerMinute(Place(SplitRows(observation), MINUTE, DAY))
    ensures !NoSplitAsset(SplitRows(observation), MINUTE, DAY)
  {
    var rows := SplitRows(observation);
    var p, q := Placed(5, Item(1, 2 * MINUTE, observation)), Placed(0, Item(1, 3 * MINUTE, observation));
    assert PlaceRow(rows[0], MINUTE, DAY) == [p] && PlaceRow(rows[1], MINUTE, DAY) == [q];
    assert rows[..1] == [rows[0]] && rows[..1][..0] == [];
    assert Place(rows[..1], MINUTE, DAY) == [p];
    assert Place(rows, MINUTE, DAY) == [p] + [q];
    assert p in Place(rows, MINUTE, DAY) && q in Place(rows, MINUTE, DAY);
    assert !Together(ReferenceKeys(rows), p, q);
  }

  /** Those rows are never outside what a manifest may list. */
  lemma SplitFits(observation: Observation)
    ensures !OutsideManifest(SplitRows(observation), map[], 7, MINUTE, DAY)
  {
    var rows := SplitRows(observation);
    if files: seq<Entry>, groups :| !(1 <= |files| <= 2048) && IsCut(Bundle(7, MINUTE, DAY, files), rows, map[], groups) {
      var bundle := Bundle(7, MINUTE, DAY, files);
      var src := SourceOf(bundle, rows, map[], groups);
      SplitPlaced(observation);
      SplitGroups(observation, groups);
      forall e | e in files ensures e.name.day == 0 {
        assert Fragment(e, src);
        OnlyFirstDay(e.name.day);
      }
      OneDayFragments(files, src, 0);
      var e := FragmentHolding(bundle, rows, src, src.placed[0]);
      assert false;
    }
  }

  lemma OnlyFirstDay(day: int)
    requires day % DAY == 0 && MINUTE - DAY < day < DAY
    ensures day == 0
  {
  }

  lemma SplitGroups(observation: Observation, groups: seq<seq<nat>>)
    requires Groups(ReferenceKeys(SplitRows(observation)), groups)
    ensures |groups| == 2
  {
    var rows := SplitRows(observation);
    assert rows[0] in rows;
    assert ReferenceKeys(rows) == {5};
  }

  lemma SomeProblem(result: Result)
    ensures result.Exported? || result == Failed(InvalidWindow) || result == Failed(NoSavedMap)
      || result == Failed(ConflictingNative) || result == Failed(FragmentCount)
  {
    match result
    case Exported(_) =>
    case Failed(problem) => assert problem.InvalidWindow? || problem.NoSavedMap? || problem.ConflictingNative? || problem.FragmentCount?;
  }

  /**
   If one map version did give an asset two references, the export would succeed and its own
   reader would refuse it, with every fragment on disk as published.
   */
  method SplitExample(observation: Observation) returns (result: Result, accepted: bool)
    ensures result.Exported? && IsExport(result.bundle, SplitRows(observation), map[]) && !Consistent(result.bundle)
    ensures !accepted
  {
    var saved := SplitSaved(observation);
    result := Export(saved, map[], 7, MINUTE, DAY);
    assert saved[0] in saved && InScope(saved[0], 7, MINUTE, DAY);
    SplitSelected(observation);
    SplitPlaced(observation);
    SplitFits(observation);
    assert ValidWindow(MINUTE, DAY);
    assert result != Failed(InvalidWindow) && result != Failed(NoSavedMap);
    assert result != Failed(ConflictingNative) && result != Failed(FragmentCount);
    assert result.Exported? by { SomeProblem(result); }
    AcceptedIffNoSplit(result.bundle, SplitRows(observation), map[]);
    ghost var groups :| IsCut(result.bundle, SplitRows(observation), map[], groups);
    var disk := new Disk();
    disk.files := Published(result.bundle, 0);
    PublishedIsIntact(result.bundle, 0);
    var reader := new PartitionedReader(result.bundle, 0, disk);
    accepted := reader.Open();
  }
}
