/**
 Export of one window into bounded fragments: a file for each UTC day and each group of 64
 reference keys, and one more for assets without a reference (the empty key 0).
 */
module OutcomeExport {
  import opened Prelude
  import opened Ranking
  import opened Bundles

  /** A saved feature row; key 0 is no reference. */
  datatype Row = Row(asset: nat, referenceKey: nat, decisionAt: int, observation: Observation)

  datatype Saved = Saved(mapVersion: nat, decisionAt: int, rows: seq<Row>)

  /** The minute_bars table. */
  type Table = map<(nat, int), Prices>

  /** A native point under the reference its row had. */
  datatype Placed = Placed(reference: nat, point: Point)

  predicate ValidWindow(after: int, through: int) {
    0 < after < through && after % MINUTE == 0 && through % MINUTE == 0 && through - after <= DAY
  }

  predicate InScope(g: Saved, mapVersion: nat, after: int, through: int) {
    g.mapVersion == mapVersion && after - 60 * MINUTE < g.decisionAt <= through
  }

  function ScopedRows(g: Saved, mapVersion: nat, after: int, through: int): seq<Row> {
    if InScope(g, mapVersion, after, through) then g.rows else []
  }

  /** The rows the export selects. */
  function Rows(saved: seq<Saved>, mapVersion: nat, after: int, through: int): seq<Row> {
    if saved == [] then []
    else ScopedRows(saved[0], mapVersion, after, through) + Rows(saved[1..], mapVersion, after, through)
  }

  function ReferenceKeys(rows: seq<Row>): set<nat> {
    set r | r in rows && r.referenceKey != 0 :: r.referenceKey
  }

  function PointOf(row: Row): Point {
    Item(row.asset, OutcomeCutoff(row.decisionAt), row.observation)
  }

  function PlaceRow(row: Row, after: int, through: int): seq<Placed> {
    if after < PointOf(row).at <= through then [Placed(row.referenceKey, PointOf(row))] else []
  }

  /** The native points of the window. */
  function Place(rows: seq<Row>, after: int, through: int): seq<Placed> {
    if rows == [] then []
    else Place(rows[..|rows| - 1], after, through) + PlaceRow(rows[|rows| - 1], after, through)
  }

  /** No asset is observed twice in one minute. */
  predicate OncePerMinute(placed: seq<Placed>) {
    forall i, j :: 0 <= i < j < |placed| ==> !SameMinute(placed[i], placed[j])
  }

  predicate SameMinute(p: Placed, q: Placed) {
    p.point.key == q.point.key && p.point.at == q.point.at
  }

  // ----- what a fragment holds -----

  function TableBars(table: Table, keys: set<nat>, after: int, through: int): set<Bar> {
    set p | p in table.Keys && p.0 in keys && p.0 != 0 && after < p.1 <= through :: Item(p.0, p.1, table[p])
  }

  predicate InTable(table: Table, b: Bar) {
    (b.key, b.at) in table && table[(b.key, b.at)] == b.value
  }

  function PlacedPoints(placed: seq<Placed>, keys: set<nat>, after: int, through: int): set<Point> {
    set p | p in placed && p.reference in keys && after < p.point.at <= through :: p.point
  }

  function Lower(day: int, after: int): int {
    if after > day then after else day
  }

  function Upper(day: int, through: int): int {
    if through < day + DAY then through else day + DAY
  }

  /** The day whose half-open window (day, day + DAY] holds a time. */
  function DayOf(at: int): (day: int)
    ensures day < at <= day + DAY && day % DAY == 0
  {
    (at - 1) / DAY * DAY
  }

  /** Keys 1..64 in text order are group 0, the next 64 group 1, and so on. */
  function GroupOf(keys: set<nat>, reference: nat): int {
    if reference == 0 then -1 else |Below(keys, reference)| / 64
  }

  function Below(keys: set<nat>, reference: nat): set<nat> {
    set k | k in keys && k < reference
  }

  /** Everything a fragment is cut from. */
  datatype Source = Source(table: Table, placed: seq<Placed>, groups: seq<seq<nat>>, mapVersion: nat, after: int, through: int)

  function Less(): (nat, nat) -> bool {
    (a: nat, b: nat) => a < b
  }

  function GroupBars(src: Source, day: int, g: nat): set<Bar>
    requires g < |src.groups|
  {
    TableBars(src.table, ToSet(src.groups[g]), Lower(day, src.after), Upper(day, src.through))
  }

  function GroupPoints(src: Source, day: int, g: nat): set<Point>
    requires g < |src.groups|
  {
    PlacedPoints(src.placed, ToSet(src.groups[g]), Lower(day, src.after), Upper(day, src.through))
  }

  ghost predicate HoldsGroup(data: Data, src: Source, day: int, g: nat)
    requires g < |src.groups|
  {
    && data.mapVersion == src.mapVersion
    && ToSet(data.bars) == GroupBars(src, day, g) && OnePerMinute(data.bars)
    && ToSet(data.native) == GroupPoints(src, day, g) && OnePerMinute(data.native)
  }

  /** The entry of one day and group. */
  ghost predicate Fragment(e: Entry, src: Source) {
    var day, g := e.name.day, e.name.group;
    && g < |src.groups| && day % DAY == 0 && src.after - DAY < day < src.through
    && e.after == Lower(day, src.after) && e.through == Upper(day, src.through)
    && HoldsGroup(e.sha, src, day, g) && (e.sha.bars != [] || e.sha.native != [])
    && Listing(Keys(e.sha.bars), Less(), e.referenceKeys) && Listing(Keys(e.sha.native), Less(), e.assetIds)
  }

  predicate Earlier(name: Name, day: int, g: nat) {
    name.day < day || (name.day == day && name.group < g)
  }

  predicate Listed(files: seq<Entry>, name: Name) {
    exists e :: e in files && e.name == name
  }

  /** A fragment for every day and group with content, up to a day and group. */
  ghost predicate Written(files: seq<Entry>, src: Source, day: int, g: nat) {
    && (forall e :: e in files ==> Fragment(e, src) && Earlier(e.name, day, g))
    && (forall i, j :: 0 <= i < j < |files| ==> files[i].name != files[j].name)
    && (forall d: int, h: nat :: HasContent(src, d, h) && Earlier(Name(d, h), day, g) ==> Listed(files, Name(d, h)))
  }

  ghost predicate HasContent(src: Source, day: int, g: nat) {
    && day % DAY == 0 && src.after - DAY < day < src.through && g < |src.groups|
    && (GroupBars(src, day, g) != {} || GroupPoints(src, day, g) != {})
  }

  // ----- the export -----

  function OfReference(placed: seq<Placed>, reference: nat): seq<Point> {
    if placed == [] then []
    else OfReference(placed[..|placed| - 1], reference) + OwnPoint(placed[|placed| - 1], reference)
  }

  function OwnPoint(p: Placed, reference: nat): seq<Point> {
    if p.reference == reference then [p.point] else []
  }

  type ByReference = map<nat, seq<Point>>

  function PointsOf(native: ByReference, reference: nat): seq<Point> {
    if reference in native then native[reference] else []
  }

  ghost predicate IsByReference(native: ByReference, placed: seq<Placed>) {
    forall r :: PointsOf(native, r) == OfReference(placed, r)
  }

  lemma {:induction false} OfReferenceMembers(placed: seq<Placed>, r: nat)
    requires OncePerMinute(placed)
    ensures OnePerMinute(OfReference(placed, r))
    ensures forall x :: x in OfReference(placed, r) <==> Placed(r, x) in placed
  {
    if placed != [] {
      var n := |placed| - 1;
      OfReferenceMembers(placed[..n], r);
      assert placed == placed[..n] + [placed[n]];
      forall x | x in OfReference(placed[..n], r)
        ensures placed[n].reference == r ==> !SameMinute(Placed(r, x), placed[n])
      {
        var i :| 0 <= i < n && placed[..n][i] == Placed(r, x);
        assert placed[i] == Placed(r, x);
      }
      OneMorePoint(OfReference(placed[..n], r), OwnPoint(placed[n], r));
    }
  }

  lemma OneMorePoint(points: seq<Point>, more: seq<Point>)
    requires OnePerMinute(points) && |more| <= 1
    requires forall x, y :: x in points && y in more ==> x.key != y.key || x.at != y.at
    ensures OnePerMinute(points + more)
  {
  }

  method FilterWindow(points: seq<Point>, lower: int, upper: int) returns (kept: seq<Point>)
    requires OnePerMinute(points)
    ensures OnePerMinute(kept)
    ensures forall x :: x in kept <==> x in points && lower < x.at <= upper
  {
    kept := [];
    for i := 0 to |points|
      invariant OnePerMinute(kept)
      invariant forall x :: x in kept <==> x in points[..i] && lower < x.at <= upper
    {
      var x := points[i];
      assert points[..i + 1] == points[..i] + [x];
      if lower < x.at <= upper {
        forall y | y in kept ensures y.key != x.key || y.at != x.at {
          var j :| 0 <= j < i && points[..i][j] == y;
          assert points[j] == y;
        }
        kept := kept + [x];
      }
    }
    assert points[..|points|] == points;
  }

  /** The native points of a group of references in a day window. */
  method GatherNative(native: ByReference, ghost placed: seq<Placed>, group: seq<nat>, lower: int, upper: int)
    returns (points: seq<Point>)
    requires IsByReference(native, placed) && OncePerMinute(placed) && Distinct(group)
    ensures ToSet(points) == PlacedPoints(placed, ToSet(group), lower, upper) && OnePerMinute(points)
  {
    points := [];
    for i := 0 to |group|
      invariant ToSet(points) == PlacedPoints(placed, ToSet(group[..i]), lower, upper) && OnePerMinute(points)
    {
      var reference := group[i];
      OfReferenceMembers(placed, reference);
      var more := FilterWindow(PointsOf(native, reference), lower, upper);
      MorePoints(placed, group, i, lower, upper, points, more);
      points := points + more;
    }
    assert group[..|group|] == group;
  }

  lemma MorePoints(placed: seq<Placed>, group: seq<nat>, i: nat, lower: int, upper: int, points: seq<Point>, more: seq<Point>)
    requires i < |group| && Distinct(group) && OncePerMinute(placed)
    requires ToSet(points) == PlacedPoints(placed, ToSet(group[..i]), lower, upper) && OnePerMinute(points)
    requires OnePerMinute(more)
    requires forall x :: x in more <==> Placed(group[i], x) in placed && lower < x.at <= upper
    ensures ToSet(points + more) == PlacedPoints(placed, ToSet(group[..i + 1]), lower, upper)
    ensures OnePerMinute(points + more)
  {
    assert group[..i + 1] == group[..i] + [group[i]];
    assert ToSet(points + more) == ToSet(points) + ToSet(more);
    assert ToSet(group[..i + 1]) == ToSet(group[..i]) + {group[i]};
    forall m, n | 0 <= m < |points| && 0 <= n < |more| ensures points[m].key != more[n].key || points[m].at != more[n].at {
      assert points[m] in ToSet(points) && more[n] in more;
      var p :| p in placed && p.reference in ToSet(group[..i]) && p.point == points[m];
      var j :| 0 <= j < i && group[..i][j] == p.reference;
      assert group[j] != group[i];
      DifferentPlaces(placed, p, Placed(group[i], more[n]));
    }
  }

  lemma DifferentPlaces(placed: seq<Placed>, p: Placed, q: Placed)
    requires OncePerMinute(placed) && p in placed && q in placed && p != q
    ensures !SameMinute(p, q)
  {
  }

  /** The ordered select of a reference's bars in a window. */
  method QueryBars(table: Table, reference: nat, lower: int, upper: int) returns (bars: seq<Bar>)
    ensures Ascending(bars)
    ensures forall b :: b in bars <==> b.key == reference && lower < b.at <= upper && InTable(table, b)
  {
    var ends := set p | p in table.Keys && p.0 == reference && lower < p.1 <= upper :: p.1;
    var times := Sort(ends, (x: int, y: int) => x < y);
    assert forall i :: 0 <= i < |times| ==> times[i] in ToSet(times);
    bars := seq(|times|, i requires 0 <= i < |times| => Item(reference, times[i], table[(reference, times[i])]));
    forall b: Bar | b.key == reference && lower < b.at <= upper && InTable(table, b) ensures b in bars {
      assert (reference, b.at) in table.Keys;
      assert b.at in ToSet(times);
      var i :| 0 <= i < |times| && times[i] == b.at;
      assert bars[i] == b;
    }
  }

  method GatherBars(table: Table, group: seq<nat>, lower: int, upper: int) returns (bars: seq<Bar>)
    requires Distinct(group)
    ensures ToSet(bars) == TableBars(table, ToSet(group), lower, upper) && OnePerMinute(bars)
  {
    bars := [];
    for i := 0 to |group|
      invariant ToSet(bars) == TableBars(table, ToSet(group[..i]), lower, upper) && OnePerMinute(bars)
    {
      var reference := group[i];
      if reference == 0 {
        SkipEmptyKey(table, group, i, lower, upper);
        continue;
      }
      var more := QueryBars(table, reference, lower, upper);
      MoreTableBars(table, group, i, lower, upper, bars, more);
      bars := bars + more;
    }
    assert group[..|group|] == group;
  }

  lemma SkipEmptyKey(table: Table, group: seq<nat>, i: nat, lower: int, upper: int)
    requires i < |group| && group[i] == 0
    ensures TableBars(table, ToSet(group[..i + 1]), lower, upper) == TableBars(table, ToSet(group[..i]), lower, upper)
  {
  }

  lemma MoreTableBars(table: Table, group: seq<nat>, i: nat, lower: int, upper: int, bars: seq<Bar>, more: seq<Bar>)
    requires i < |group| && Distinct(group) && group[i] != 0
    requires ToSet(bars) == TableBars(table, ToSet(group[..i]), lower, upper) && OnePerMinute(bars)
    requires Ascending(more)
    requires forall b :: b in more <==> b.key == group[i] && lower < b.at <= upper && InTable(table, b)
    ensures ToSet(bars + more) == TableBars(table, ToSet(group[..i + 1]), lower, upper)
    ensures OnePerMinute(bars + more)
  {
    assert group[..i + 1] == group[..i] + [group[i]];
    assert ToSet(bars + more) == ToSet(bars) + ToSet(more);
    assert ToSet(group[..i + 1]) == ToSet(group[..i]) + {group[i]};
    forall m, n | 0 <= m < |bars| && 0 <= n < |more| ensures bars[m].key != more[n].key {
      assert bars[m] in ToSet(bars) && more[n] in more;
      var j :| 0 <= j < i && group[..i][j] == bars[m].key;
      assert group[j] != group[i];
    }
  }

  // ----- grouping -----

  /** The sorted keys in runs of 64, then the empty key. */
  ghost predicate Groups(keys: set<nat>, groups: seq<seq<nat>>) {
    var last := |groups| - 1;
    && last == (|keys| + 63) / 64 && groups[last] == [0]
    && (forall g :: 0 <= g < last ==> Distinct(groups[g]) && 0 < |groups[g]| <= 64)
    && (forall g :: 0 <= g < last ==> ToSet(groups[g]) == set k | k in keys && GroupOf(keys, k) == g)
  }

  method MakeGroups(keys: set<nat>) returns (groups: seq<seq<nat>>)
    requires 0 !in keys
    ensures Groups(keys, groups)
  {
    var listed := Sort(keys, Less());
    ListingDistinct(keys, Less(), listed);
    groups := [];
    var index := 0;
    while index < |listed|
      invariant index == 64 * |groups| && 64 * |groups| < |listed| + 64
      invariant forall g :: 0 <= g < |groups| ==> Distinct(groups[g]) && 0 < |groups[g]| <= 64
      invariant forall g :: 0 <= g < |groups| ==> ToSet(groups[g]) == set k | k in keys && GroupOf(keys, k) == g
    {
      var end := if index + 64 < |listed| then index + 64 else |listed|;
      RunIsGroup(keys, listed, |groups|, end);
      groups := groups + [listed[index..end]];
      index := index + 64;
    }
    groups := groups + [[0]];
  }

  lemma RunIsGroup(keys: set<nat>, listed: seq<nat>, g: nat, end: nat)
    requires 0 !in keys && Listing(keys, Less(), listed) && 64 * g < |listed|
    requires end == if 64 * g + 64 < |listed| then 64 * g + 64 else |listed|
    ensures Distinct(listed[64 * g..end])
    ensures ToSet(listed[64 * g..end]) == set k | k in keys && GroupOf(keys, k) == g
  {
    var run := listed[64 * g..end];
    ListingDistinct(keys, Less(), listed);
    forall k | k in run ensures k in keys && GroupOf(keys, k) == g {
      var i :| 0 <= i < |run| && run[i] == k;
      assert listed[64 * g + i] == k;
      RankOfListed(keys, listed, 64 * g + i);
    }
    forall k | k in keys && GroupOf(keys, k) == g ensures k in run {
      assert k in ToSet(listed);
      var i :| 0 <= i < |listed| && listed[i] == k;
      RankOfListed(keys, listed, i);
      assert run[i - 64 * g] == k;
    }
  }

  lemma RankOfListed(keys: set<nat>, listed: seq<nat>, i: nat)
    requires 0 !in keys && Listing(keys, Less(), listed) && i < |listed|
    ensures listed[i] in keys && GroupOf(keys, listed[i]) == i / 64
  {
    IndexIsRank(keys, Less(), listed, i);
    assert Before(keys, Less(), listed[i]) == Below(keys, listed[i]);
  }

  /** Every reference is in exactly one group. */
  lemma OneGroup(keys: set<nat>, groups: seq<seq<nat>>, r: nat)
    requires 0 !in keys && Groups(keys, groups) && (r == 0 || r in keys)
    ensures var g := if r == 0 then |groups| - 1 else GroupOf(keys, r);
      0 <= g < |groups| && forall h :: 0 <= h < |groups| ==> (r in groups[h] <==> h == g)
  {
    var g := if r == 0 then |groups| - 1 else GroupOf(keys, r);
    var below := Below(keys, r);
    if r != 0 {
      assert below <= keys - {r};
      SmallerSubset(below, keys - {r});
      assert |below| < |keys|;
    }
    forall h | 0 <= h < |groups| ensures r in groups[h] <==> h == g {
      if h < |groups| - 1 {
        assert r in groups[h] <==> r in ToSet(groups[h]);
      }
    }
  }

  // ----- the whole export -----

  method GatherRows(rows: seq<Row>, after: int, through: int) returns (gathered: bool, native: ByReference, keys: set<nat>)
    ensures gathered <==> OncePerMinute(Place(rows, after, through))
    ensures gathered ==> IsByReference(native, Place(rows, after, through)) && keys == ReferenceKeys(rows)
  {
    hide OncePerMinute, IsByReference, ReferenceKeys, Place;
    native, keys := map[], {};
    var seen: set<(nat, int)> := {};
    NothingPlaced(after, through);
    for i := 0 to |rows|
      invariant OncePerMinute(Place(rows[..i], after, through)) && seen == Minutes(Place(rows[..i], after, through))
      invariant IsByReference(native, Place(rows[..i], after, through)) && keys == ReferenceKeys(rows[..i])
    {
      var row := rows[i];
      ghost var placed := Place(rows[..i], after, through);
      PlaceOneMore(rows, i, after, through);
      if row.referenceKey != 0 {
        keys := keys + {row.referenceKey};
      }
      var point := PointOf(row);
      if after < point.at <= through {
        MinuteSeen(placed, Placed(row.referenceKey, point));
        if (point.key, point.at) in seen {
          ConflictStays(rows, i + 1, after, through);
          return false, native, keys;
        }
        seen := seen + {(point.key, point.at)};
        GroupOneMore(native, placed, Placed(row.referenceKey, point));
        native := native[row.referenceKey := PointsOf(native, row.referenceKey) + [point]];
      }
    }
    assert rows[..|rows|] == rows;
    gathered := true;
  }

  function Minutes(placed: seq<Placed>): set<(nat, int)> {
    set p | p in placed :: (p.point.key, p.point.at)
  }

  lemma NothingPlaced(after: int, through: int)
    ensures var placed := Place([], after, through);
      OncePerMinute(placed) && Minutes(placed) == {} && IsByReference(map[], placed) && ReferenceKeys([]) == {}
  {
  }

  lemma PlaceOneMore(rows: seq<Row>, i: nat, after: int, through: int)
    requires i < |rows|
    ensures Place(rows[..i + 1], after, through) == Place(rows[..i], after, through) + PlaceRow(rows[i], after, through)
    ensures Place(rows[..i + 1], after, through) == if after < PointOf(rows[i]).at <= through
      then Place(rows[..i], after, through) + [Placed(rows[i].referenceKey, PointOf(rows[i]))]
      else Place(rows[..i], after, through)
    ensures ReferenceKeys(rows[..i + 1]) ==
      if rows[i].referenceKey != 0 then ReferenceKeys(rows[..i]) + {rows[i].referenceKey} else ReferenceKeys(rows[..i])
  {
    assert rows[..i + 1] == rows[..i] + [rows[i]];
    assert rows[..i + 1][..i] == rows[..i];
  }

  lemma MinuteSeen(placed: seq<Placed>, p: Placed)
    requires OncePerMinute(placed)
    ensures (p.point.key, p.point.at) in Minutes(placed) <==> !OncePerMinute(placed + [p])
    ensures Minutes(placed + [p]) == Minutes(placed) + {(p.point.key, p.point.at)}
  {
    var more := placed + [p];
    if (p.point.key, p.point.at) in Minutes(placed) {
      var q :| q in placed && q.point.key == p.point.key && q.point.at == p.point.at;
      var i :| 0 <= i < |placed| && placed[i] == q;
      assert SameMinute(more[i], more[|placed|]);
    } else {
      forall i | 0 <= i < |placed| ensures !SameMinute(more[i], p) {
        assert placed[i] in placed;
      }
    }
  }

  lemma GroupOneMore(native: ByReference, placed: seq<Placed>, p: Placed)
    requires IsByReference(native, placed)
    ensures IsByReference(native[p.reference := PointsOf(native, p.reference) + [p.point]], placed + [p])
  {
    var grown := native[p.reference := PointsOf(native, p.reference) + [p.point]];
    assert (placed + [p])[..|placed|] == placed;
    forall r ensures PointsOf(grown, r) == OfReference(placed + [p], r) {
      assert OfReference(placed + [p], r) == OfReference(placed, r) + OwnPoint(p, r);
    }
  }

  /** A repeated minute stays one, whatever rows follow. */
  lemma {:induction false} ConflictStays(rows: seq<Row>, i: nat, after: int, through: int)
    requires i <= |rows| && !OncePerMinute(Place(rows[..i], after, through))
    ensures !OncePerMinute(Place(rows, after, through))
    decreases |rows| - i
  {
    if i == |rows| {
      assert rows[..i] == rows;
    } else {
      hide OncePerMinute, Place, PlaceRow;
      PlaceOneMore(rows, i, after, through);
      ConflictExtends(Place(rows[..i], after, through), PlaceRow(rows[i], after, through));
      ConflictStays(rows, i + 1, after, through);
    }
  }

  lemma ConflictExtends(placed: seq<Placed>, more: seq<Placed>)
    requires !OncePerMinute(placed)
    ensures !OncePerMinute(placed + more)
  {
    var m, n :| 0 <= m < n < |placed| && SameMinute(placed[m], placed[n]);
    assert SameMinute((placed + more)[m], (placed + more)[n]);
  }

  /** A fragment for every day and group with content, and no other. */
  ghost predicate Complete(files: seq<Entry>, src: Source) {
    && (forall e :: e in files ==> Fragment(e, src))
    && (forall i, j :: 0 <= i < j < |files| ==> files[i].name != files[j].name)
    && (forall d: int, h: nat :: HasContent(src, d, h) <==> Listed(files, Name(d, h)))
  }

  /** The day and group loops; an empty group leaves no file. */
  method WriteFragments(src: Source, native: ByReference) returns (files: seq<Entry>)
    requires IsByReference(native, src.placed) && OncePerMinute(src.placed)
    requires forall g :: 0 <= g < |src.groups| ==> Distinct(src.groups[g])
    requires src.after < src.through
    ensures Complete(files, src)
  {
    hide Written, IsByReference, OncePerMinute, Complete, HoldsGroup, HasContent, Listing, Fragment;
    files := [];
    var day := src.after / DAY * DAY;
    NothingWritten(src, day);
    while day < src.through
      invariant day % DAY == 0 && src.after - DAY < day && Written(files, src, day, 0)
    {
      for g := 0 to |src.groups|
        invariant Written(files, src, day, g)
      {
        var data := WriteGroup(src, native, day, g);
        ghost var before := files;
        if data.bars != [] || data.native != [] {
          var entry := MakeEntry(data, src, day, g);
          files := files + [entry];
        }
        WrittenOneMore(before, src, day, g, data, files);
      }
      NextDay(files, src, day);
      day := day + DAY;
    }
    WrittenAll(files, src, day);
  }

  method WriteGroup(src: Source, native: ByReference, day: int, g: nat) returns (data: Data)
    requires IsByReference(native, src.placed) && OncePerMinute(src.placed)
    requires g < |src.groups| && Distinct(src.groups[g])
    ensures HoldsGroup(data, src, day, g)
  {
    var lower, upper := Lower(day, src.after), Upper(day, src.through);
    var points := GatherNative(native, src.placed, src.groups[g], lower, upper);
    var bars := GatherBars(src.table, src.groups[g], lower, upper);
    data := Data(src.mapVersion, bars, points);
  }

  method MakeEntry(data: Data, src: Source, day: int, g: nat) returns (e: Entry)
    requires g < |src.groups| && HoldsGroup(data, src, day, g) && (data.bars != [] || data.native != [])
    requires day % DAY == 0 && src.after - DAY < day < src.through
    ensures Fragment(e, src) && e.name == Name(day, g) && e.sha == data
  {
    hide HoldsGroup, Listing;
    var keys := SortKeys(Keys(data.bars));
    var assets := SortKeys(Keys(data.native));
    e := Entry(Name(day, g), data, keys, assets, Lower(day, src.after), Upper(day, src.through));
  }

  method SortKeys(keys: set<nat>) returns (sorted: seq<nat>)
    ensures Listing(keys, Less(), sorted)
  {
    sorted := Sort(keys, Less());
  }

  lemma NothingWritten(src: Source, day: int)
    requires day == src.after / DAY * DAY
    ensures Written([], src, day, 0)
  {
  }

  lemma WrittenOneMore(files: seq<Entry>, src: Source, day: int, g: nat, data: Data, grown: seq<Entry>)
    requires Written(files, src, day, g) && g < |src.groups| && HoldsGroup(data, src, day, g)
    requires if data.bars != [] || data.native != [] then
      |grown| == |files| + 1 && grown[..|files|] == files && Fragment(grown[|files|], src) && grown[|files|].name == Name(day, g)
      else grown == files
    ensures Written(grown, src, day, g + 1)
  {
    hide Fragment, HasContent;
    SomeMember(data.bars);
    SomeMember(data.native);
    if data.bars != [] || data.native != [] {
      assert grown == files + [grown[|files|]];
      assert grown[|files|] in grown;
      forall name | Listed(files, name) ensures Listed(grown, name) {
        var e :| e in files && e.name == name;
        assert e in grown;
      }
      assert Listed(grown, Name(day, g));
    } else {
      NoContent(src, day, g, data);
    }
  }

  lemma NoContent(src: Source, day: int, g: nat, data: Data)
    requires g < |src.groups| && HoldsGroup(data, src, day, g) && data.bars == [] && data.native == []
    ensures !HasContent(src, day, g)
  {
  }

  lemma NextDay(files: seq<Entry>, src: Source, day: int)
    requires day % DAY == 0 && Written(files, src, day, |src.groups|)
    ensures Written(files, src, day + DAY, 0)
  {
  }

  lemma WrittenAll(files: seq<Entry>, src: Source, day: int)
    requires Written(files, src, day, 0) && day >= src.through
    ensures Complete(files, src)
  {
    forall e | e in files ensures HasContent(src, e.name.day, e.name.group) {
      SomeMember(e.sha.bars);
      SomeMember(e.sha.native);
    }
  }

  datatype Problem = InvalidWindow | NoSavedMap | ConflictingNative | FragmentCount

  datatype Result = Failed(problem: Problem) | Exported(bundle: Bundle)

  ghost predicate IsExport(bundle: Bundle, rows: seq<Row>, table: Table) {
    && ValidWindow(bundle.after, bundle.through) && 1 <= |bundle.files| <= 2048
    && OncePerMinute(Place(rows, bundle.after, bundle.through))
    && exists groups :: IsCut(bundle, rows, table, groups)
  }

  /** The bundle's fragments are exactly those of the rows and the table. */
  ghost predicate IsCut(bundle: Bundle, rows: seq<Row>, table: Table, groups: seq<seq<nat>>) {
    Groups(ReferenceKeys(rows), groups) && Complete(bundle.files, SourceOf(bundle, rows, table, groups))
  }

  /** The cut has no fragment, or more than a manifest may list. */
  ghost predicate OutsideManifest(rows: seq<Row>, table: Table, mapVersion: nat, after: int, through: int) {
    exists files, groups :: !(1 <= |files| <= 2048) && IsCut(Bundle(mapVersion, after, through, files), rows, table, groups)
  }

  function SourceOf(bundle: Bundle, rows: seq<Row>, table: Table, groups: seq<seq<nat>>): Source {
    Source(table, Place(rows, bundle.after, bundle.through), groups, bundle.mapVersion, bundle.after, bundle.through)
  }

  method Export(saved: seq<Saved>, table: Table, mapVersion: nat, after: int, through: int) returns (result: Result)
    ensures result == Failed(InvalidWindow) <==> !ValidWindow(after, through)
    ensures result == Failed(NoSavedMap) <==>
      ValidWindow(after, through) && forall g :: g in saved ==> !InScope(g, mapVersion, after, through)
    ensures result == Failed(ConflictingNative) ==> !OncePerMinute(Place(Rows(saved, mapVersion, after, through), after, through))
    ensures result == Failed(FragmentCount) ==>
      OutsideManifest(Rows(saved, mapVersion, after, through), table, mapVersion, after, through)
    ensures result.Exported? ==> var b := result.bundle;
      && b.mapVersion == mapVersion && b.after == after && b.through == through
      && IsExport(b, Rows(saved, mapVersion, after, through), table)
  {
    hide OncePerMinute, Place, Rows, ReferenceKeys, Groups, Complete, IsByReference;
    if !ValidWindow(after, through) {
      return Failed(InvalidWindow);
    }
    if forall g :: g in saved ==> !InScope(g, mapVersion, after, through) {
      return Failed(NoSavedMap);
    }
    var rows := Rows(saved, mapVersion, after, through);
    var gathered, native, keys := GatherRows(rows, after, through);
    if !gathered {
      return Failed(ConflictingNative);
    }
    NoEmptyKey(rows);
    var groups := MakeGroups(keys);
    var src := Source(table, Place(rows, after, through), groups, mapVersion, after, through);
    GroupsDistinct(keys, groups);
    var files := WriteFragments(src, native);
    var bundle := Bundle(mapVersion, after, through, files);
    assert src == SourceOf(bundle, rows, table, groups) && IsCut(bundle, rows, table, groups);
    if !(1 <= |files| <= 2048) {
      return Failed(FragmentCount);
    }
    result := Exported(bundle);
  }

  lemma NoEmptyKey(rows: seq<Row>)
    ensures 0 !in ReferenceKeys(rows)
  {
  }

  lemma GroupsDistinct(keys: set<nat>, groups: seq<seq<nat>>)
    requires Groups(keys, groups)
    ensures forall g :: 0 <= g < |groups| ==> Distinct(groups[g])
  {
  }
}
