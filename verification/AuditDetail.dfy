/** One page of an audit's findings, and the chart markers that point into them. */
module AuditDetail {
  import opened Prelude
  import opened Ranking

  /** A finding of some kind, at a bucket or at none. Kinds, fields and sides are numbered in text order, absent first. */
  datatype Finding = Finding(bucket: Option<int>, kind: nat, field: nat, side: nat, row: nat)

  datatype Marker = Marker(bucket: int, count: nat, kinds: set<nat>, first: nat)

  datatype Page = Page(findings: seq<Finding>, hasMore: bool, markers: seq<Marker>) | InvalidPage

  /** Findings are listed by bucket, those without one last. */
  predicate ByBucket(findings: seq<Finding>) {
    forall i, j :: 0 <= i < j < |findings| ==> NotLater(findings[i], findings[j])
  }

  predicate NotLater(a: Finding, b: Finding) {
    b.bucket == None || (a.bucket.Some? && a.bucket.value <= b.bucket.value)
  }

  // ----- the order of a report's findings -----

  const FINDING_LIMIT := 65_000

  /** Whether findings are in report order: by bucket, those without one last, then kind, field, side and row. */
  predicate InOrder(a: Finding, b: Finding) {
    if a.bucket != b.bucket then NotLater(a, b)
    else if a.kind != b.kind then a.kind < b.kind
    else if a.field != b.field then a.field < b.field
    else if a.side != b.side then a.side < b.side
    else a.row <= b.row
  }

  predicate Ordered(findings: seq<Finding>) {
    forall i, j :: 0 <= i < j < |findings| ==> InOrder(findings[i], findings[j])
  }

  lemma InOrderTotal(a: Finding, b: Finding, c: Finding)
    ensures InOrder(a, b) || InOrder(b, a)
    ensures InOrder(a, b) && InOrder(b, c) ==> InOrder(a, c)
    ensures InOrder(a, b) ==> NotLater(a, b)
  {
  }

  /** The report's findings: the collected ones in report order, unless there are too many. */
  method SortFindings(collected: seq<Finding>) returns (findings: Option<seq<Finding>>)
    ensures findings == None <==> |collected| > FINDING_LIMIT
    ensures findings.Some? ==> Ordered(findings.value) && ByBucket(findings.value)
    ensures findings.Some? ==> multiset(findings.value) == multiset(collected)
  {
    hide InOrder, NotLater;
    var sorted: seq<Finding> := [];
    for i := 0 to |collected|
      invariant Ordered(sorted) && |sorted| == i && multiset(sorted) == multiset(collected[..i])
    {
      assert collected[..i + 1] == collected[..i] + [collected[i]];
      sorted := Insert(sorted, collected[i]);
    }
    assert collected[..|collected|] == collected;
    if |sorted| > FINDING_LIMIT {
      return None;
    }
    OrderedByBucket(sorted);
    findings := Some(sorted);
  }

  /** Stable insertion. */
  method Insert(sorted: seq<Finding>, f: Finding) returns (grown: seq<Finding>)
    requires Ordered(sorted)
    ensures Ordered(grown) && |grown| == |sorted| + 1 && multiset(grown) == multiset(sorted) + multiset{f}
  {
    hide InOrder;
    var at := 0;
    while at < |sorted| && InOrder(sorted[at], f)
      invariant at <= |sorted| && forall j :: 0 <= j < at ==> InOrder(sorted[j], f)
    {
      at := at + 1;
    }
    InsertOrdered(sorted, f, at);
    hide Ordered;
    assert sorted == sorted[..at] + sorted[at..];
    grown := sorted[..at] + [f] + sorted[at..];
  }

  lemma InsertOrdered(sorted: seq<Finding>, f: Finding, at: nat)
    requires Ordered(sorted) && at <= |sorted| && forall j :: 0 <= j < at ==> InOrder(sorted[j], f)
    requires at < |sorted| ==> !InOrder(sorted[at], f)
    ensures Ordered(sorted[..at] + [f] + sorted[at..])
  {
    hide InOrder;
    forall j | at <= j < |sorted| ensures InOrder(f, sorted[j]) {
      InOrderTotal(f, sorted[at], sorted[j]);
    }
  }

  lemma OrderedByBucket(findings: seq<Finding>)
    requires Ordered(findings)
    ensures ByBucket(findings)
  {
    hide InOrder, NotLater;
    forall i, j | 0 <= i < j < |findings| ensures NotLater(findings[i], findings[j]) {
      InOrderTotal(findings[i], findings[j], findings[j]);
    }
  }

  predicate Marked(f: Finding, start: int, end: int) {
    f.bucket.Some? && start <= f.bucket.value < end && f.bucket.value % 60 == 0
  }

  type Positions = map<int, seq<nat>>

  /** The positions of the findings of a bucket, in order. */
  function PositionsOf(findings: seq<Finding>, b: int): (ps: seq<nat>)
    ensures forall i :: 0 <= i < |ps| ==> ps[i] < |findings|
  {
    if findings == [] then []
    else
      var n := |findings| - 1;
      PositionsOf(findings[..n], b) + if findings[n].bucket == Some(b) then [n] else []
  }

  /** The window's minutes that have findings. */
  function Buckets(findings: seq<Finding>, start: int, end: int): set<int> {
    set f | f in findings && Marked(f, start, end) :: f.bucket.value
  }

  ghost predicate Groups(grouped: Positions, findings: seq<Finding>, start: int, end: int) {
    && grouped.Keys == Buckets(findings, start, end)
    && (forall b :: b in grouped ==> grouped[b] == PositionsOf(findings, b))
  }

  method GroupFindings(findings: seq<Finding>, start: int, end: int) returns (grouped: Positions)
    ensures Groups(grouped, findings, start, end)
  {
    hide Groups, Marked;
    grouped := map[];
    NothingGrouped(start, end);
    for i := 0 to |findings|
      invariant Groups(grouped, findings[..i], start, end)
    {
      var f := findings[i];
      assert findings[..i + 1] == findings[..i] + [f];
      GroupOne(grouped, findings[..i], f, start, end);
      if Marked(f, start, end) {
        MarkedHasBucket(f, start, end);
        grouped := grouped[f.bucket.value := (if f.bucket.value in grouped then grouped[f.bucket.value] else []) + [i]];
      }
    }
    assert findings[..|findings|] == findings;
  }

  lemma NothingGrouped(start: int, end: int)
    ensures Groups(map[], [], start, end)
  {
  }

  lemma MarkedHasBucket(f: Finding, start: int, end: int)
    requires Marked(f, start, end)
    ensures f.bucket.Some?
  {
  }

  lemma GroupOne(grouped: Positions, findings: seq<Finding>, f: Finding, start: int, end: int)
    requires Groups(grouped, findings, start, end)
    ensures Marked(f, start, end) ==>
      Groups(grouped[f.bucket.value := (if f.bucket.value in grouped then grouped[f.bucket.value] else []) + [|findings|]],
        findings + [f], start, end)
    ensures !Marked(f, start, end) ==> Groups(grouped, findings + [f], start, end)
  {
    BucketsMore(findings, f, start, end);
    forall b | b in Buckets(findings + [f], start, end) ensures PositionsOf(findings + [f], b) ==
      (if b in grouped then grouped[b] else []) + (if f.bucket == Some(b) then [|findings|] else [])
    {
      PositionsMore(findings, f, b);
      if b !in grouped {
        NoPositions(findings, b, start, end);
      }
    }
    hide PositionsOf, Buckets;
  }

  lemma BucketsMore(findings: seq<Finding>, f: Finding, start: int, end: int)
    ensures Buckets(findings + [f], start, end) ==
      Buckets(findings, start, end) + (if Marked(f, start, end) then {f.bucket.value} else {})
    ensures forall b :: b in Buckets(findings + [f], start, end) ==> start <= b < end && b % 60 == 0
  {
  }

  lemma PositionsMore(findings: seq<Finding>, f: Finding, b: int)
    ensures PositionsOf(findings + [f], b) ==
      if f.bucket == Some(b) then PositionsOf(findings, b) + [|findings|] else PositionsOf(findings, b)
  {
    assert (findings + [f])[..|findings|] == findings;
  }

  lemma {:induction false} NoPositions(findings: seq<Finding>, b: int, start: int, end: int)
    requires forall f :: f in findings && f.bucket == Some(b) ==> !Marked(f, start, end)
    requires start <= b < end && b % 60 == 0
    ensures PositionsOf(findings, b) == []
  {
    if findings != [] {
      NoPositions(findings[..|findings| - 1], b, start, end);
    }
  }

  /** The kinds found at some positions. */
  function Kinds(findings: seq<Finding>, positions: seq<nat>): set<nat>
    requires forall i :: 0 <= i < |positions| ==> positions[i] < |findings|
  {
    set i | 0 <= i < |positions| :: findings[positions[i]].kind
  }

  /** The findings of the bucket are the `count` from `first` on. */
  ghost predicate Run(findings: seq<Finding>, b: int, first: nat, count: nat) {
    && first + count <= |findings|
    && forall i :: 0 <= i < |findings| ==> (findings[i].bucket == Some(b) <==> first <= i < first + count)
  }

  /** The positions are those of a run. */
  ghost predicate Consecutive(findings: seq<Finding>, b: int, ps: seq<nat>) {
    if ps == [] then forall i :: 0 <= i < |findings| ==> findings[i].bucket != Some(b)
    else Run(findings, b, ps[0], |ps|) && forall i :: 0 <= i < |ps| ==> ps[i] == ps[0] + i
  }

  /** A run followed by another finding of its bucket ends right before it. */
  lemma RunReachesEnd(findings: seq<Finding>, b: int, first: nat, count: nat)
    requires findings != [] && ByBucket(findings) && findings[|findings| - 1].bucket == Some(b)
    requires count > 0 && Run(findings[..|findings| - 1], b, first, count)
    ensures first + count == |findings| - 1
  {
    var n := |findings| - 1;
    assert findings[..n][first].bucket == Some(b);
    forall i | first <= i < n ensures findings[..n][i].bucket == Some(b) {
      assert NotLater(findings[first], findings[i]) && NotLater(findings[i], findings[n]);
    }
    var last := findings[..n][n - 1];
    assert last.bucket == Some(b);
  }

  /** In bucket order the findings of a bucket are consecutive. */
  lemma {:induction false} PositionsConsecutive(findings: seq<Finding>, b: int)
    requires ByBucket(findings)
    ensures Consecutive(findings, b, PositionsOf(findings, b))
  {
    if findings != [] {
      var n := |findings| - 1;
      PositionsConsecutive(findings[..n], b);
      var ps := PositionsOf(findings[..n], b);
      if findings[n].bucket == Some(b) && ps != [] {
        RunReachesEnd(findings, b, ps[0], |ps|);
      }
      hide ByBucket, Consecutive;
      OneMorePosition(findings, b, ps);
    }
  }

  lemma OneMorePosition(findings: seq<Finding>, b: int, ps: seq<nat>)
    requires findings != [] && Consecutive(findings[..|findings| - 1], b, ps)
    requires var n := |findings| - 1; findings[n].bucket == Some(b) && ps != [] ==> ps[0] + |ps| == n
    ensures var n := |findings| - 1; Consecutive(findings, b, ps + if findings[n].bucket == Some(b) then [n] else [])
  {
  }

  /** Where the findings of a bucket are. */
  function Places(findings: seq<Finding>, b: int): set<nat> {
    set i: nat | i < |findings| && findings[i].bucket == Some(b)
  }

  lemma {:induction false} PositionsAre(findings: seq<Finding>, b: int)
    ensures ToSet(PositionsOf(findings, b)) == Places(findings, b)
    ensures Distinct(PositionsOf(findings, b)) && |PositionsOf(findings, b)| == |Places(findings, b)|
  {
    if findings != [] {
      var n := |findings| - 1;
      PositionsAre(findings[..n], b);
      OneMorePlace(findings, b);
      hide Places, PositionsOf;
    }
  }

  lemma OneMorePlace(findings: seq<Finding>, b: int)
    requires findings != []
    requires var ps := PositionsOf(findings[..|findings| - 1], b);
      ToSet(ps) == Places(findings[..|findings| - 1], b) && Distinct(ps) && |ps| == |Places(findings[..|findings| - 1], b)|
    ensures ToSet(PositionsOf(findings, b)) == Places(findings, b) && Distinct(PositionsOf(findings, b))
    ensures |PositionsOf(findings, b)| == |Places(findings, b)|
  {
    var n := |findings| - 1;
    PlacesGrow(findings, b);
    hide Places;
    if findings[n].bucket == Some(b) {
      AppendNew(PositionsOf(findings[..n], b), n);
    }
  }

  lemma PlacesGrow(findings: seq<Finding>, b: int)
    requires findings != []
    ensures var n := |findings| - 1;
      Places(findings, b) == Places(findings[..n], b) + (if findings[n].bucket == Some(b) then {n} else {})
  {
    var n := |findings| - 1;
    assert forall i :: 0 <= i < n ==> findings[..n][i] == findings[i];
  }

  lemma AppendNew(ps: seq<nat>, n: nat)
    requires Distinct(ps) && forall i :: 0 <= i < |ps| ==> ps[i] < n
    ensures Distinct(ps + [n]) && ToSet(ps + [n]) == ToSet(ps) + {n} && n !in ToSet(ps)
  {
  }

  /** A marker tells how many findings its bucket has, of which kinds, and where the first one is. */
  ghost predicate PointsAt(m: Marker, findings: seq<Finding>) {
    && m.count == |Places(findings, m.bucket)|
    && m.first in Places(findings, m.bucket) && (forall i :: i in Places(findings, m.bucket) ==> m.first <= i)
    && (forall k :: k in m.kinds <==> exists i :: i in Places(findings, m.bucket) && findings[i].kind == k)
  }

  /** In bucket order the findings of a marker are the `count` from its first one on. */
  lemma MarkerIsRun(findings: seq<Finding>, m: Marker)
    requires ByBucket(findings) && PointsAt(m, findings)
    ensures Run(findings, m.bucket, m.first, m.count)
  {
    var ps := PositionsOf(findings, m.bucket);
    PositionsConsecutive(findings, m.bucket);
    PositionsAre(findings, m.bucket);
    assert m.first in ToSet(ps);
    assert ps[0] in ToSet(ps);
  }

  ghost predicate AreMarkers(markers: seq<Marker>, findings: seq<Finding>, start: int, end: int) {
    && (forall i, j :: 0 <= i < j < |markers| ==> markers[i].bucket < markers[j].bucket)
    && (forall i :: 0 <= i < |markers| ==> PointsAt(markers[i], findings))
    && (forall f :: f in findings && Marked(f, start, end) ==> exists m :: m in markers && f.bucket == Some(m.bucket))
    && (forall m :: m in markers ==> start <= m.bucket < end && m.bucket % 60 == 0)
  }

  method Least(positions: seq<nat>) returns (least: nat)
    requires positions != []
    ensures least in positions && forall i :: 0 <= i < |positions| ==> least <= positions[i]
  {
    least := positions[0];
    for i := 1 to |positions|
      invariant least in positions && forall j :: 0 <= j < i ==> least <= positions[j]
    {
      if positions[i] < least {
        least := positions[i];
      }
    }
  }

  method MakeMarker(findings: seq<Finding>, b: int, positions: seq<nat>) returns (m: Marker)
    requires positions != [] && positions == PositionsOf(findings, b)
    ensures PointsAt(m, findings) && m.bucket == b
  {
    PositionsAre(findings, b);
    hide PositionsOf;
    var first := Least(positions);
    m := Marker(b, |positions|, Kinds(findings, positions), first);
    forall i ensures i in Places(findings, b) <==> i in positions {
      assert i in positions <==> i in ToSet(positions);
    }
    forall i | i in Places(findings, b) ensures findings[i].kind in m.kinds {
      var j :| 0 <= j < |positions| && positions[j] == i;
    }
    forall k | k in m.kinds ensures exists i :: i in Places(findings, b) && findings[i].kind == k {
      var j :| 0 <= j < |positions| && findings[positions[j]].kind == k;
      assert positions[j] in positions;
    }
  }

  method MakeMarkers(findings: seq<Finding>, start: int, end: int) returns (markers: seq<Marker>)
    ensures AreMarkers(markers, findings, start, end)
  {
    hide PointsAt, Listing, Groups;
    var grouped := GroupFindings(findings, start, end);
    var buckets := SortBuckets(grouped.Keys);
    markers := [];
    for i := 0 to |buckets|
      invariant |markers| == i
      invariant forall j :: 0 <= j < i ==> markers[j].bucket == buckets[j] && PointsAt(markers[j], findings)
    {
      GroupedBucket(grouped, findings, start, end, buckets, i);
      var m := MakeMarker(findings, buckets[i], grouped[buckets[i]]);
      markers := markers + [m];
    }
    MarkersComplete(grouped, findings, start, end, buckets, markers);
  }

  method SortBuckets(buckets: set<int>) returns (sorted: seq<int>)
    ensures Listing(buckets, Earlier(), sorted)
  {
    sorted := Sort(buckets, Earlier());
  }

  function Earlier(): (int, int) -> bool {
    (a: int, b: int) => a < b
  }

  lemma GroupedBucket(grouped: Positions, findings: seq<Finding>, start: int, end: int, buckets: seq<int>, i: nat)
    requires Groups(grouped, findings, start, end) && Listing(grouped.Keys, Earlier(), buckets) && i < |buckets|
    ensures buckets[i] in grouped && grouped[buckets[i]] == PositionsOf(findings, buckets[i]) != []
    ensures start <= buckets[i] < end && buckets[i] % 60 == 0
  {
    assert buckets[i] in ToSet(buckets);
    var f :| f in findings && f.bucket == Some(buckets[i]) && Marked(f, start, end);
    HasPosition(findings, f, buckets[i]);
  }

  lemma {:induction false} HasPosition(findings: seq<Finding>, f: Finding, b: int)
    requires f in findings && f.bucket == Some(b)
    ensures PositionsOf(findings, b) != []
  {
    var n := |findings| - 1;
    if findings[n] != f {
      assert f in findings[..n];
      HasPosition(findings[..n], f, b);
    }
  }

  lemma MarkersComplete(grouped: Positions, findings: seq<Finding>, start: int, end: int, buckets: seq<int>, markers: seq<Marker>)
    requires Groups(grouped, findings, start, end) && Listing(grouped.Keys, Earlier(), buckets) && |markers| == |buckets|
    requires forall j :: 0 <= j < |markers| ==> markers[j].bucket == buckets[j] && PointsAt(markers[j], findings)
    ensures AreMarkers(markers, findings, start, end)
  {
    hide PointsAt;
    forall i: nat | i < |buckets| ensures start <= buckets[i] < end && buckets[i] % 60 == 0 {
      GroupedBucket(grouped, findings, start, end, buckets, i);
    }
    forall f | f in findings && Marked(f, start, end) ensures exists m :: m in markers && f.bucket == Some(m.bucket) {
      assert f.bucket.value in ToSet(buckets);
      var i :| 0 <= i < |buckets| && buckets[i] == f.bucket.value;
      assert markers[i] in markers;
    }
  }

  method DetailPage(findings: seq<Finding>, start: int, end: int, offset: int, limit: int) returns (page: Page)
    ensures page == InvalidPage <==> offset < 0 || limit < 1 || limit > 200
    ensures page.Page? ==> AreMarkers(page.markers, findings, start, end)
    ensures page.Page? ==> page.findings == PageOf(findings, offset, limit)
    ensures page.Page? ==> (page.hasMore <==> offset + limit < |findings|)
  {
    if offset < 0 || limit < 1 || limit > 200 {
      return InvalidPage;
    }
    var markers := MakeMarkers(findings, start, end);
    page := Page(PageOf(findings, offset, limit), offset + limit < |findings|, markers);
  }

  /** The slice of at most `limit` findings from `offset` on. */
  function PageOf(findings: seq<Finding>, offset: nat, limit: nat): seq<Finding> {
    var to := if offset + limit < |findings| then offset + limit else |findings|;
    if offset < to then findings[offset..to] else []
  }

  /** Page by page from an offset on, until there is no more. */
  function FollowPages(findings: seq<Finding>, offset: nat, limit: nat): seq<Finding>
    requires limit >= 1
    decreases |findings| - offset
  {
    PageOf(findings, offset, limit) + if offset + limit < |findings| then FollowPages(findings, offset + limit, limit) else []
  }

  /** Following the pages lists every finding once, in order. */
  lemma {:induction false} PagesListAll(findings: seq<Finding>, offset: nat, limit: nat)
    requires limit >= 1 && offset <= |findings|
    ensures FollowPages(findings, offset, limit) == findings[offset..]
    decreases |findings| - offset
  {
    if offset + limit < |findings| {
      PagesListAll(findings, offset + limit, limit);
      assert findings[offset..] == findings[offset..offset + limit] + findings[offset + limit..];
    } else {
      assert PageOf(findings, offset, limit) == findings[offset..];
    }
  }
}
