/**
 One read of the discovery response: the latest rows of a selection of assets through the indexed
 details, the start of their history, and a page of their episodes.
 */
module DiscoveryRead {
  import opened Prelude
  import opened Ranking
  import opened Discovery
  import opened DiscoveryRetention
  import opened DiscoveryPages

  datatype Read =
    | InvalidRead
    | GenerationChanged
    | BadCursor
    | Read(latest: Option<Response>, historyFrom: Option<int>, page: Page)

  predicate Chosen(scope: set<string>, asset: string) {
    scope == {} || asset in scope
  }

  /** The rows of the selected assets, in published order; no selection means all of them. */
  function RowsOf(rows: seq<Row>, scope: set<string>): seq<Row> {
    if rows == [] then []
    else RowsOf(rows[..|rows| - 1], scope) + If(Chosen(scope, rows[|rows| - 1].asset), rows[|rows| - 1])
  }

  function If<T>(c: bool, x: T): seq<T> {
    if c then [x] else []
  }

  type Details = map<string, (nat, Row)>

  function ByOrdinal(details: Details): (string, string) -> bool {
    (a: string, b: string) => a in details && b in details && details[a].0 < details[b].0
  }

  /** The assets of the rows of a selection, in published order. */
  function AssetsIn(rows: seq<Row>, scope: set<string>): (assets: seq<string>)
    ensures |assets| == |RowsOf(rows, scope)| && forall i :: 0 <= i < |assets| ==> assets[i] == RowsOf(rows, scope)[i].asset
  {
    var kept := RowsOf(rows, scope);
    seq(|kept|, i requires 0 <= i < |kept| => kept[i].asset)
  }

  lemma {:induction false} RowsOfMembers(rows: seq<Row>, scope: set<string>)
    ensures forall r :: r in RowsOf(rows, scope) <==> r in rows && Chosen(scope, r.asset)
  {
    if rows != [] {
      hide Chosen;
      var n := |rows| - 1;
      RowsOfMembers(rows[..n], scope);
      assert rows == rows[..n] + [rows[n]];
    }
  }

  /** The rows are listed by ordinal. */
  ghost predicate InOrder(kept: seq<Row>, details: Details) {
    && (forall r :: r in kept ==> r.asset in details)
    && (forall i, j :: 0 <= i < j < |kept| ==> details[kept[i].asset].0 < details[kept[j].asset].0)
  }

  /** Kept rows keep the order of the rows. */
  lemma {:induction false} RowsOfInOrder(rows: seq<Row>, scope: set<string>)
    requires DistinctAssets(rows)
    ensures InOrder(RowsOf(rows, scope), DetailsOf(rows))
  {
    hide DetailsOf, Chosen, If, DistinctAssets, InOrder;
    if rows == [] {
      NothingInOrder(DetailsOf(rows));
    } else {
      var n := |rows| - 1;
      DetailsKeep(rows);
      RowsOfInOrder(rows[..n], scope);
      RowsOfMembers(rows[..n], scope);
      OneMoreInOrder(RowsOf(rows[..n], scope), Chosen(scope, rows[n].asset), rows[n], DetailsOf(rows[..n]), DetailsOf(rows));
    }
  }

  lemma NothingInOrder(details: Details)
    ensures InOrder([], details)
  {
  }

  lemma OneMoreInOrder(kept: seq<Row>, chosen: bool, r: Row, before: Details, after: Details)
    requires InOrder(kept, before) && r.asset in after
    requires forall k :: k in kept ==>
      k.asset in after && k.asset in before && after[k.asset] == before[k.asset] && after[k.asset].0 < after[r.asset].0
    ensures InOrder(kept + If(chosen, r), after)
  {
    assert forall i :: 0 <= i < |kept| ==> kept[i] in kept;
  }

  lemma DetailsKeep(rows: seq<Row>)
    requires rows != [] && DistinctAssets(rows)
    ensures var n := |rows| - 1;
      && DistinctAssets(rows[..n]) && rows[n].asset in DetailsOf(rows) && DetailsOf(rows)[rows[n].asset] == (n, rows[n])
      && forall r :: r in rows[..n] ==>
        r.asset in DetailsOf(rows[..n]) && r.asset in DetailsOf(rows)
        && DetailsOf(rows)[r.asset] == DetailsOf(rows[..n])[r.asset] && DetailsOf(rows)[r.asset].0 < n
  {
  }

  lemma {:induction false} AllRows(rows: seq<Row>)
    ensures RowsOf(rows, {}) == rows
  {
    if rows != [] {
      AllRows(rows[..|rows| - 1]);
    }
  }

  /** Details hold each row at its ordinal. */
  lemma DetailsHold(rows: seq<Row>)
    requires DistinctAssets(rows)
    ensures forall a :: a in DetailsOf(rows) ==>
      DetailsOf(rows)[a].0 < |rows| && rows[DetailsOf(rows)[a].0] == DetailsOf(rows)[a].1 && DetailsOf(rows)[a].1.asset == a
    ensures forall r :: r in rows ==> r.asset in DetailsOf(rows) && DetailsOf(rows)[r.asset].1 == r
  {
  }

  lemma DetailsOrdered(rows: seq<Row>, wanted: set<string>)
    requires DistinctAssets(rows) && wanted <= DetailsOf(rows).Keys
    ensures StrictOrder(wanted, ByOrdinal(DetailsOf(rows)))
  {
    hide DetailsOf;
    DetailsHold(rows);
  }

  /** The selected details by ordinal are the selected rows in published order. */
  lemma ListedOnce(rows: seq<Row>, scope: set<string>, wanted: set<string>, assets: seq<string>)
    requires DistinctAssets(rows) && scope != {}
    requires wanted == set a | a in DetailsOf(rows).Keys && a in scope
    requires Listing(wanted, ByOrdinal(DetailsOf(rows)), assets)
    ensures |assets| == |RowsOf(rows, scope)|
    ensures forall i :: 0 <= i < |assets| ==>
      assets[i] in DetailsOf(rows) && DetailsOf(rows)[assets[i]].1 == RowsOf(rows, scope)[i]
  {
    hide DetailsOf, RowsOf;
    var kept, listed := RowsOf(rows, scope), AssetsIn(rows, scope);
    DetailsHold(rows);
    DetailsOrdered(rows, wanted);
    RowsOfInOrder(rows, scope);
    RowsOfMembers(rows, scope);
    assert forall i :: 0 <= i < |kept| ==> kept[i] in kept;
    forall a | a in wanted ensures a in listed {
      var r := DetailsOf(rows)[a].1;
      assert r in rows && r in kept;
      var i :| 0 <= i < |kept| && kept[i] == r;
      assert listed[i] == a;
    }
    assert ToSet(listed) == wanted;
    SortedOnce(wanted, ByOrdinal(DetailsOf(rows)), assets, listed);
  }

  /** The latest response with the rows of a selection, read through the indexed details. */
  method ReadLatest(t: Tables, scope: set<string>) returns (response: Option<Response>)
    requires Projected(t)
    ensures response == match t.latest
      case None => None
      case Some(r) => Some(r.(rows := RowsOf(r.rows, scope)))
  {
    if scope == {} {
      response := t.latest;
      if t.latest.Some? {
        AllRows(t.latest.value.rows);
      }
      return;
    }
    if t.metadata.None? {
      return None;
    }
    ghost var rows := t.latest.value.rows;
    var wanted := set a | a in t.details.Keys && a in scope;
    DetailsOrdered(rows, wanted);
    var assets := Sort(wanted, ByOrdinal(t.details));
    ListedOnce(rows, scope, wanted, assets);
    var read := seq(|assets|, i requires 0 <= i < |assets| => Known(t.details, assets[i]));
    assert read == RowsOf(rows, scope);
    response := Some(t.metadata.value.(rows := read));
  }

  function Known(details: Details, a: string): Row
    requires a in details
  {
    details[a].1
  }

  /** The least first observation of the selected episodes. */
  method FirstObserved(episodes: map<EpisodeId, Episode>, scope: set<string>) returns (first: Option<int>)
    ensures IsHistoryMinimum(map id | id in InScope(episodes, scope) :: episodes[id], first)
  {
    var selected := map id | id in InScope(episodes, scope) :: episodes[id];
    first := None;
    var todo := selected.Keys;
    while todo != {}
      invariant todo <= selected.Keys
      invariant first == None <==> todo == selected.Keys
      invariant first.Some? ==> exists id :: id in selected && selected[id].firstObservedAt == first.value
      invariant first.Some? ==> forall id :: id in selected && id !in todo ==> first.value <= selected[id].firstObservedAt
      decreases todo
    {
      var id :| id in todo;
      var at := selected[id].firstObservedAt;
      if first == None || at < first.value {
        first := Some(at);
      }
      todo := todo - {id};
    }
  }

  /** What a read of a valid query on an unchanged generation and cursor returns. */
  ghost predicate Answers(t: Tables, order: DigestOrder, scope: set<string>, limit: int, cursor: Option<Cursor>, read: Read)
    requires read.Read? && read.page.Page?
  {
    && read.latest == (match t.latest case None => None case Some(r) => Some(r.(rows := RowsOf(r.rows, scope))))
    && IsHistoryMinimum(map id | id in InScope(t.episodes, scope) :: t.episodes[id], read.historyFrom)
    && IsPage(t.episodes, order, scope, limit, cursor, read.page)
  }

  predicate InvalidQuery(assetCount: nat, scope: set<string>, limit: int) {
    assetCount > 4 || |scope| != assetCount || !(1 <= limit <= 50)
  }

  predicate Changed(t: Tables, generation: Option<string>) {
    generation.Some? && (t.latest.None? || t.latest.value.inputs.generation != generation.value)
  }

  /** One read: the query is checked first, then the expected generation, then the cursor. */
  method ReadDiscovery(t: Tables, order: DigestOrder, scope: set<string>, assetCount: nat, limit: int, cursor: Option<Cursor>,
      generation: Option<string>) returns (read: Read)
    requires Projected(t) && DigestsDistinct(t.episodes, order)
    ensures read.InvalidRead? <==> InvalidQuery(assetCount, scope, limit)
    ensures read.GenerationChanged? <==> !InvalidQuery(assetCount, scope, limit) && Changed(t, generation)
    ensures read.BadCursor? <==>
      !InvalidQuery(assetCount, scope, limit) && !Changed(t, generation) && cursor.Some? && !ValidCursor(cursor.value, scope)
    ensures read.Read? ==> read.page.Page? && Answers(t, order, scope, limit, cursor, read)
  {
    hide Projected, RowsOf, IsPage, ValidCursor, IsHistoryMinimum;
    if InvalidQuery(assetCount, scope, limit) {
      return InvalidRead;
    }
    var latest := ReadLatest(t, scope);
    if generation.Some? && (latest.None? || latest.value.inputs.generation != generation.value) {
      return GenerationChanged;
    }
    var first := FirstObserved(t.episodes, scope);
    var page := HistoryPage(t.episodes, order, scope, assetCount, limit, cursor);
    if !page.Page? {
      return BadCursor;
    }
    read := Read(latest, first, page);
  }
}
