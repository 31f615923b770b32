/**
 What an export holds and what its readers answer, read off the saved generations and the table of
 minute bars: no minute of a decision's horizon is left without its reference, no native point is
 lost, fragments stay small, and an answer is the table's own rows.
 */
module ExportLaws {
  import opened Prelude
  import opened Ranking
  import opened Bundles
  import opened OutcomeExport
  import opened OutcomeReader
  import opened OutcomeRoundTrip
  import Joining

  // ----- which references are exported -----

  /** Some minute that the settlement of the decision reads, from its cutoff to an hour later, is in the window. */
  predicate Needs(decisionAt: int, after: int, through: int) {
    exists m :: 0 <= m <= 60 && ReadAt(decisionAt, m, after, through)
  }

  predicate ReadAt(decisionAt: int, m: int, after: int, through: int) {
    after < OutcomeCutoff(decisionAt) + 60_000 * m <= through
  }

  /** Every reference of a saved generation of the map that the window matters to is exported. */
  lemma NeededReferencesExported(saved: seq<Saved>, mapVersion: nat, after: int, through: int, g: Saved, row: Row)
    requires ValidWindow(after, through) && g in saved && g.mapVersion == mapVersion && row in g.rows && row.referenceKey != 0
    requires Needs(g.decisionAt, after, through)
    ensures row.referenceKey in ReferenceKeys(Rows(saved, mapVersion, after, through))
  {
    var m :| 0 <= m <= 60 && ReadAt(g.decisionAt, m, after, through);
    NeededIsScoped(g, mapVersion, after, through, m);
    RowSelected(saved, mapVersion, after, through, g, row);
  }

  lemma NeededIsScoped(g: Saved, mapVersion: nat, after: int, through: int, m: int)
    requires ValidWindow(after, through) && g.mapVersion == mapVersion && 0 <= m <= 60 && ReadAt(g.decisionAt, m, after, through)
    ensures InScope(g, mapVersion, after, through)
  {
    var c := OutcomeCutoff(g.decisionAt);
    assert c > after - 60 * MINUTE;
    assert c / MINUTE * MINUTE == c && after / MINUTE * MINUTE == after;
    assert c >= after - 60 * MINUTE + MINUTE;
  }

  lemma {:induction false} RowSelected(saved: seq<Saved>, mapVersion: nat, after: int, through: int, g: Saved, row: Row)
    requires g in saved && InScope(g, mapVersion, after, through) && row in g.rows
    ensures row in Rows(saved, mapVersion, after, through)
  {
    if saved[0] != g {
      assert g in saved[1..];
      RowSelected(saved[1..], mapVersion, after, through, g, row);
    }
  }

  /** No other reference is: each is of a generation of the map decided within the window or the hour before it. */
  lemma {:induction false} OnlyScopedExported(saved: seq<Saved>, mapVersion: nat, after: int, through: int, key: nat)
    requires key in ReferenceKeys(Rows(saved, mapVersion, after, through))
    ensures exists g :: g in saved && Supplies(g, mapVersion, after, through, key)
  {
    var rows := Rows(saved, mapVersion, after, through);
    var r :| r in rows && r.referenceKey == key && key != 0;
    if r in ScopedRows(saved[0], mapVersion, after, through) {
      assert Supplies(saved[0], mapVersion, after, through, key);
    } else {
      assert r in Rows(saved[1..], mapVersion, after, through);
      OnlyScopedExported(saved[1..], mapVersion, after, through, key);
    }
  }

  predicate Supplies(g: Saved, mapVersion: nat, after: int, through: int, key: nat) {
    && g.mapVersion == mapVersion && after - 3_600_000 < g.decisionAt <= through
    && key != 0 && exists r :: r in g.rows && r.referenceKey == key
  }

  // ----- native points -----

  /** The row observed its asset in the first minute at or after its decision, within the window. */
  predicate Observes(row: Row, after: int, through: int, p: Point) {
    && p.key == row.asset && p.value == row.observation
    && p.at % 60_000 == 0 && row.decisionAt <= p.at < row.decisionAt + 60_000 && after < p.at <= through
  }

  lemma PlacesObserved(row: Row, after: int, through: int, p: Point)
    ensures Placed(row.referenceKey, p) in PlaceRow(row, after, through) <==> Observes(row, after, through, p)
    ensures forall q :: q in PlaceRow(row, after, through) ==> q.reference == row.referenceKey
  {
    var c := OutcomeCutoff(row.decisionAt);
    assert c / 60_000 * 60_000 == c;
    if p.at % 60_000 == 0 && row.decisionAt <= p.at < row.decisionAt + 60_000 {
      assert p.at / 60_000 * 60_000 == p.at;
      assert p.at == c;
    }
  }

  lemma {:induction false} PlacedAre(rows: seq<Row>, after: int, through: int, reference: nat, p: Point)
    ensures Placed(reference, p) in Place(rows, after, through) <==>
      exists i :: 0 <= i < |rows| && rows[i].referenceKey == reference && Observes(rows[i], after, through, p)
  {
    hide Observes;
    if rows != [] {
      var n := |rows| - 1;
      PlacedAre(rows[..n], after, through, reference, p);
      PlacesObserved(rows[n], after, through, p);
    }
  }

  /** The native points of all fragments together. */
  function NativeOf(files: seq<Entry>): set<Point> {
    set e, p | e in files && p in e.sha.native :: p
  }

  /** The fragments hold exactly the observations of the selected rows in the window. */
  lemma NativeIsComplete(bundle: Bundle, rows: seq<Row>, table: Table, p: Point)
    requires IsExport(bundle, rows, table)
    ensures p in NativeOf(bundle.files) <==> exists i :: 0 <= i < |rows| && Observes(rows[i], bundle.after, bundle.through, p)
  {
    hide Observes;
    var groups :| IsCut(bundle, rows, table, groups);
    var src := SourceOf(bundle, rows, table, groups);
    if p in NativeOf(bundle.files) {
      var q := NativeIsPlaced(bundle, rows, src, p);
      PlacedAre(rows, bundle.after, bundle.through, q.reference, p);
    }
    if i :| 0 <= i < |rows| && Observes(rows[i], bundle.after, bundle.through, p) {
      PlacedAre(rows, bundle.after, bundle.through, rows[i].referenceKey, p);
      PlacedIsNative(bundle, rows, src, Placed(rows[i].referenceKey, p));
    }
  }

  lemma NativeIsPlaced(bundle: Bundle, rows: seq<Row>, src: Source, p: Point) returns (q: Placed)
    requires IsCut(bundle, rows, src.table, src.groups) && src == SourceOf(bundle, rows, src.table, src.groups)
    requires p in NativeOf(bundle.files)
    ensures q in src.placed && q.point == p
  {
    var e :| e in bundle.files && p in e.sha.native;
    assert Fragment(e, src);
    assert p in ToSet(e.sha.native);
    q :| q in src.placed && q.reference in ToSet(src.groups[e.name.group]) && q.point == p;
  }

  lemma PlacedIsNative(bundle: Bundle, rows: seq<Row>, src: Source, q: Placed)
    requires IsCut(bundle, rows, src.table, src.groups) && src == SourceOf(bundle, rows, src.table, src.groups)
    requires q in src.placed
    ensures q.point in NativeOf(bundle.files)
  {
    NoEmptyKey(rows);
    PlacedWell(rows, src.after, src.through);
    OneGroup(ReferenceKeys(rows), src.groups, q.reference);
    var g := if q.reference == 0 then |src.groups| - 1 else GroupOf(ReferenceKeys(rows), q.reference);
    var day := DayOf(q.point.at);
    assert q.reference in ToSet(src.groups[g]);
    assert q.point in GroupPoints(src, day, g);
    var e := FragmentOf(bundle.files, src, day, g);
    assert q.point in ToSet(e.sha.native);
  }

  /** The export is refused as conflicting exactly when two of its rows observe one asset in one minute of the window. */
  lemma ConflictMeans(rows: seq<Row>, after: int, through: int)
    ensures !OncePerMinute(Place(rows, after, through)) <==> exists i, j :: 0 <= i < j < |rows| && Collide(rows[i], rows[j], after, through)
  {
    if !OncePerMinute(Place(rows, after, through)) {
      SomeCollide(rows, after, through);
    }
    if i, j :| 0 <= i < j < |rows| && Collide(rows[i], rows[j], after, through) {
      CollideConflicts(rows, after, through, i, j);
    }
  }

  predicate Collide(r: Row, q: Row, after: int, through: int) {
    r.asset == q.asset && OutcomeCutoff(r.decisionAt) == OutcomeCutoff(q.decisionAt) && after < OutcomeCutoff(r.decisionAt) <= through
  }

  /** The first two rows to collide. */
  lemma {:induction false} SomeCollide(rows: seq<Row>, after: int, through: int)
    requires !OncePerMinute(Place(rows, after, through))
    ensures exists i, j :: 0 <= i < j < |rows| && Collide(rows[i], rows[j], after, through)
  {
    var n := |rows| - 1;
    var before := Place(rows[..n], after, through);
    if !OncePerMinute(before) {
      SomeCollide(rows[..n], after, through);
      var i, j :| 0 <= i < j < n && Collide(rows[..n][i], rows[..n][j], after, through);
      assert Collide(rows[i], rows[j], after, through);
    } else {
      var last := Placed(rows[n].referenceKey, PointOf(rows[n]));
      assert Place(rows, after, through) == before + [last];
      MinuteSeen(before, last);
      var p :| p in before && p.point.key == last.point.key && p.point.at == last.point.at;
      PlacedFromRow(rows[..n], after, through, p);
      var i :| 0 <= i < n && p in PlaceRow(rows[..n][i], after, through);
      assert Collide(rows[i], rows[n], after, through);
    }
  }

  lemma {:induction false} PlacedFromRow(rows: seq<Row>, after: int, through: int, p: Placed)
    requires p in Place(rows, after, through)
    ensures exists i :: 0 <= i < |rows| && p in PlaceRow(rows[i], after, through)
  {
    var n := |rows| - 1;
    if p in Place(rows[..n], after, through) {
      PlacedFromRow(rows[..n], after, through, p);
      var i :| 0 <= i < n && p in PlaceRow(rows[..n][i], after, through);
      assert p in PlaceRow(rows[i], after, through);
    }
  }

  lemma CollideConflicts(rows: seq<Row>, after: int, through: int, i: nat, j: nat)
    requires i < j < |rows| && Collide(rows[i], rows[j], after, through)
    ensures !OncePerMinute(Place(rows, after, through))
  {
    var before := Place(rows[..j], after, through);
    var last := Placed(rows[j].referenceKey, PointOf(rows[j]));
    PlaceOneMore(rows, j, after, through);
    RowPlaced(rows[..j], after, through, i);
    var p := Placed(rows[i].referenceKey, PointOf(rows[i]));
    assert rows[..j][i] == rows[i] && p in before;
    if OncePerMinute(before) {
      MinuteSeen(before, last);
      assert (p.point.key, p.point.at) in Minutes(before);
      ConflictStays(rows, j + 1, after, through);
    } else {
      ConflictStays(rows, j, after, through);
    }
  }

  lemma {:induction false} RowPlaced(rows: seq<Row>, after: int, through: int, i: nat)
    requires i < |rows| && after < OutcomeCutoff(rows[i].decisionAt) <= through
    ensures Placed(rows[i].referenceKey, PointOf(rows[i])) in Place(rows, after, through)
  {
    var n := |rows| - 1;
    if i < n {
      RowPlaced(rows[..n], after, through, i);
    }
  }

  // ----- how large an export is -----

  /** A fragment lies within one UTC day and names at most 64 references. */
  lemma FragmentsAreSmall(bundle: Bundle, rows: seq<Row>, table: Table, e: Entry)
    requires IsExport(bundle, rows, table) && e in bundle.files
    ensures e.name.day % 86_400_000 == 0 && e.name.day <= e.after < e.through <= e.name.day + 86_400_000
    ensures |e.referenceKeys| <= 64
    ensures forall key :: key in e.referenceKeys ==> key in ReferenceKeys(rows)
  {
    var groups :| IsCut(bundle, rows, table, groups);
    var src := SourceOf(bundle, rows, table, groups);
    assert Fragment(e, src);
    ListingDistinct(Keys(e.sha.bars), Less(), e.referenceKeys);
    NamedInGroup(e, src);
    NoEmptyKey(rows);
    FewReferences(rows, src, e);
  }

  lemma NamedInGroup(e: Entry, src: Source)
    requires Fragment(e, src)
    ensures forall key :: key in e.referenceKeys ==> key != 0 && key in src.groups[e.name.group]
  {
    forall key | key in e.referenceKeys ensures key != 0 && key in src.groups[e.name.group] {
      BarUnder(e, src, key);
    }
  }

  lemma FewReferences(rows: seq<Row>, src: Source, e: Entry)
    requires Groups(ReferenceKeys(rows), src.groups) && e.name.group < |src.groups| && Distinct(e.referenceKeys)
    requires forall key :: key in e.referenceKeys ==> key != 0 && key in src.groups[e.name.group]
    ensures |e.referenceKeys| <= 64 && forall key :: key in e.referenceKeys ==> key in ReferenceKeys(rows)
  {
    var group := src.groups[e.name.group];
    forall key | key in e.referenceKeys ensures key in ReferenceKeys(rows) {
      GroupKeys(ReferenceKeys(rows), src.groups, e.name.group, key);
    }
    CountDistinct(e.referenceKeys);
    SetNoLonger(group);
    SmallerSubset(ToSet(e.referenceKeys), ToSet(group));
    if e.name.group == |src.groups| - 1 {
      NoneInLast(e.referenceKeys, group);
    }
  }

  lemma NoneInLast(keys: seq<nat>, group: seq<nat>)
    requires group == [0] && forall key :: key in keys ==> key != 0 && key in group
    ensures keys == []
  {
    var some := if keys == [] then 0 else keys[0];
    assert some in keys ==> some != 0;
  }

  /** A window of at most a day touches two UTC days, so up to 65 472 references never exceed what a manifest may list. */
  lemma FitsManifest(files: seq<Entry>, rows: seq<Row>, table: Table, mapVersion: nat, after: int, through: int, groups: seq<seq<nat>>)
    requires ValidWindow(after, through) && IsCut(Bundle(mapVersion, after, through, files), rows, table, groups)
    requires |ReferenceKeys(rows)| <= 65_472
    ensures |files| <= 2048
  {
    var src := SourceOf(Bundle(mapVersion, after, through, files), rows, table, groups);
    assert |groups| <= 1024;
    var first := after / DAY * DAY;
    var indices := seq(|files|, i requires 0 <= i < |files| => NameIndex(files[i].name, first, |groups|));
    forall i | 0 <= i < |files| ensures indices[i] < 2 * |groups| && InDays(files[i].name, first, |groups|) {
      assert files[i] in files && Fragment(files[i], src);
      TwoDays(files[i].name.day, after, through);
    }
    forall i, j | 0 <= i < j < |files| ensures indices[i] != indices[j] {
      IndexTells(files[i].name, files[j].name, first, |groups|);
    }
    CountDistinct(indices);
    CountBelow(ToSet(indices), 2 * |groups|);
  }

  predicate InDays(name: Name, first: int, groups: nat) {
    (name.day == first || name.day == first + DAY) && name.group < groups
  }

  function NameIndex(name: Name, first: int, groups: nat): nat {
    name.group + if name.day == first then 0 else groups
  }

  lemma IndexTells(a: Name, b: Name, first: int, groups: nat)
    requires InDays(a, first, groups) && InDays(b, first, groups) && a != b
    ensures NameIndex(a, first, groups) != NameIndex(b, first, groups)
  {
  }

  lemma TwoDays(day: int, after: int, through: int)
    requires day % DAY == 0 && after - DAY < day < through <= after + DAY
    ensures day == after / DAY * DAY || day == after / DAY * DAY + DAY
  {
    assert day / DAY * DAY == day;
  }

  // ----- what a query answers -----

  /** The rows of the table for a key in a window, in time order, and nothing else. */
  ghost predicate TableAnswer(table: Table, key: nat, after: int, through: int, answer: seq<Bar>) {
    && (forall i, j :: 0 <= i < j < |answer| ==> answer[i].at < answer[j].at)
    && (forall i :: 0 <= i < |answer| ==>
          && answer[i].key == key && after < answer[i].at <= through
          && (key, answer[i].at) in table && table[(key, answer[i].at)] == answer[i].value)
    && (forall at :: after < at <= through && (key, at) in table ==> AnswersAt(answer, at))
  }

  predicate AnswersAt(answer: seq<Bar>, at: int) {
    exists i :: 0 <= i < |answer| && answer[i].at == at
  }

  /** What readers of exported bundles answer to a query their windows cover are the rows of the table. */
  lemma AnswersAreTheTable(readers: seq<PartitionedReader>, rows: seq<seq<Row>>, table: Table, key: nat, after: int, through: int, answer: seq<Bar>)
    requires |rows| == |readers| && key != 0
    requires forall i :: 0 <= i < |readers| ==> IsExport(readers[i].bundle, rows[i], table) && key in ReferenceKeys(rows[i])
    requires forall at :: after < at <= through ==> Covered(readers, at)
    requires Answers(Joining.UnionBars(readers), key, after, through, answer)
    ensures TableAnswer(table, key, after, through, answer)
  {
    SameSelection(readers, rows, table, key, after, through);
    hide IsExport, Covered, Joining.UnionBars;
    TableAnswers(table, key, after, through, answer);
  }

  lemma TableAnswers(table: Table, key: nat, after: int, through: int, answer: seq<Bar>)
    requires key != 0 && Answers(AllBars(table), key, after, through, answer)
    ensures TableAnswer(table, key, after, through, answer)
  {
    forall i | 0 <= i < |answer|
      ensures answer[i].key == key && after < answer[i].at <= through
        && (key, answer[i].at) in table && table[(key, answer[i].at)] == answer[i].value
    {
      assert answer[i] in ToSet(answer);
    }
    forall at | after < at <= through && (key, at) in table ensures AnswersAt(answer, at) {
      assert (key, at) in table.Keys;
      assert Item(key, at, table[(key, at)]) in ToSet(answer);
      var i :| 0 <= i < |answer| && answer[i] == Item(key, at, table[(key, at)]);
      assert answer[i].at == at;
    }
  }

  // ----- the cache -----

  /** The fetched fragment is the newest of at most two, and the one used before it stays. */
  lemma KeepsLastTwo(entries: seq<Cached>, fetched: Cached)
    ensures var kept := Newest(Without(entries, fetched.path) + [fetched]);
      && 1 <= |kept| <= 2 && kept[|kept| - 1] == fetched
      && (UsedBefore(entries, fetched) ==> |kept| == 2 && kept[0] == entries[|entries| - 1])
  {
    hide Without, Newest;
    if UsedBefore(entries, fetched) {
      WithoutKeepsLast(entries, fetched.path);
    }
    NewestTwo(Without(entries, fetched.path), fetched);
  }

  predicate UsedBefore(entries: seq<Cached>, fetched: Cached) {
    entries != [] && entries[|entries| - 1].path != fetched.path
  }

  lemma NewestTwo(rest: seq<Cached>, c: Cached)
    ensures var kept := Newest(rest + [c]);
      1 <= |kept| <= 2 && kept[|kept| - 1] == c && (rest != [] ==> |kept| == 2 && kept[0] == rest[|rest| - 1])
  {
  }

  lemma {:induction false} WithoutKeepsLast(entries: seq<Cached>, path: Path)
    requires entries != [] && entries[|entries| - 1].path != path
    ensures var rest := Without(entries, path); |rest| > 0 && rest[|rest| - 1] == entries[|entries| - 1]
  {
    if |entries| > 1 {
      WithoutKeepsLast(entries[1..], path);
    }
  }
}
