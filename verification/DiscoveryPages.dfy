/**
 Keyset pages over the episode history, newest first observation first. The cursor names the
 last episode of a page and the asset selection it was made for.
 */
module DiscoveryPages {
  import opened Prelude
  import opened Discovery
  import opened DiscoveryInvariant
  import opened DiscoveryRetention

  const MAX_INT64 := 0x7FFF_FFFF_FFFF_FFFF

  datatype Cursor = Cursor(first: int, id: EpisodeId, scope: set<string>)
  datatype Page = InvalidQuery | InvalidCursor | Page(ids: seq<EpisodeId>, next: Option<Cursor>)

  /** Episode j is listed before (first, id). */
  predicate ListedBefore(episodes: map<EpisodeId, Episode>, order: DigestOrder, j: EpisodeId, first: int, id: EpisodeId)
    requires j in episodes
  {
    || episodes[j].firstObservedAt > first
    || (episodes[j].firstObservedAt == first && order(j) > order(id))
  }

  predicate ListedAfter(episodes: map<EpisodeId, Episode>, order: DigestOrder, j: EpisodeId, first: int, id: EpisodeId)
    requires j in episodes
  {
    || episodes[j].firstObservedAt < first
    || (episodes[j].firstObservedAt == first && order(j) < order(id))
  }

  /** The episodes of the selected assets; no selection means all of them. */
  function InScope(episodes: map<EpisodeId, Episode>, scope: set<string>): set<EpisodeId> {
    set id | id in episodes && (scope == {} || episodes[id].asset in scope)
  }

  function Selected(episodes: map<EpisodeId, Episode>, order: DigestOrder, scope: set<string>, cursor: Option<Cursor>): set<EpisodeId> {
    match cursor
    case None => InScope(episodes, scope)
    case Some(c) => set id | id in InScope(episodes, scope) && ListedAfter(episodes, order, id, c.first, c.id)
  }

  /** A listing in page order: strictly descending by (first observation, digest). */
  predicate Descending(episodes: map<EpisodeId, Episode>, order: DigestOrder, ids: seq<EpisodeId>) {
    && (forall i :: 0 <= i < |ids| ==> ids[i] in episodes)
    && (forall i, j :: 0 <= i < j < |ids| ==>
          ListedBefore(episodes, order, ids[i], episodes[ids[j]].firstObservedAt, ids[j]))
  }

  ghost predicate Lists(episodes: map<EpisodeId, Episode>, order: DigestOrder, s: set<EpisodeId>, ids: seq<EpisodeId>) {
    Descending(episodes, order, ids) && ToSet(ids) == s
  }

  /** The first of a set of episodes in page order. */
  method Newest(episodes: map<EpisodeId, Episode>, order: DigestOrder, s: set<EpisodeId>) returns (best: EpisodeId)
    requires s != {} && s <= episodes.Keys && DigestsDistinct(episodes, order)
    ensures best in s
    ensures forall j :: j in s && j != best ==> ListedBefore(episodes, order, best, episodes[j].firstObservedAt, j)
  {
    best :| best in s;
    var todo := s - {best};
    while todo != {}
      invariant todo <= s && best in s && best !in todo
      invariant forall j :: j in s && j !in todo && j != best ==> ListedBefore(episodes, order, best, episodes[j].firstObservedAt, j)
      decreases todo
    {
      var j :| j in todo;
      if ListedBefore(episodes, order, j, episodes[best].firstObservedAt, best) {
        best := j;
      }
      todo := todo - {j};
    }
  }

  /** The ordered, limited select: the first `count` episodes of the set in page order. */
  method SelectOrdered(episodes: map<EpisodeId, Episode>, order: DigestOrder, s: set<EpisodeId>, count: nat) returns (ids: seq<EpisodeId>)
    requires s <= episodes.Keys && DigestsDistinct(episodes, order)
    ensures |ids| <= count && Descending(episodes, order, ids) && ToSet(ids) <= s
    ensures |ids| < count ==> ToSet(ids) == s
    ensures forall i, j :: 0 <= i < |ids| && j in s && j !in ids ==>
      ListedBefore(episodes, order, ids[i], episodes[j].firstObservedAt, j)
  {
    ids := [];
    var rest := s;
    while |ids| < count && rest != {}
      invariant |ids| <= count && Descending(episodes, order, ids)
      invariant rest <= s && ToSet(ids) == s - rest
      invariant forall i, j :: 0 <= i < |ids| && j in rest ==>
        ListedBefore(episodes, order, ids[i], episodes[j].firstObservedAt, j)
      decreases rest
    {
      var best := Newest(episodes, order, rest);
      var grown := ids + [best];
      assert ToSet(grown) == ToSet(ids) + {best};
      ids, rest := grown, rest - {best};
    }
    forall j | j in s && j !in ids ensures j in rest {
      assert j !in ToSet(ids);
    }
  }

  predicate ValidCursor(c: Cursor, scope: set<string>) {
    0 < c.first <= MAX_INT64 && c.scope == scope
  }

  /** One read of the history. `assetCount` counts the requested ids before duplicates. */
  method HistoryPage(episodes: map<EpisodeId, Episode>, order: DigestOrder, scope: set<string>, assetCount: nat, limit: int, cursor: Option<Cursor>)
    returns (page: Page)
    requires DigestsDistinct(episodes, order)
    ensures page.InvalidQuery? <==> assetCount > 4 || |scope| != assetCount || !(1 <= limit <= 50)
    ensures page.InvalidCursor? <==> !page.InvalidQuery? && cursor.Some? && !ValidCursor(cursor.value, scope)
    ensures page.Page? ==> IsPage(episodes, order, scope, limit, cursor, page)
  {
    if assetCount > 4 || |scope| != assetCount || !(1 <= limit <= 50) {
      return InvalidQuery;
    }
    if cursor.Some? && !ValidCursor(cursor.value, scope) {
      return InvalidCursor;
    }
    hide Descending, ListedBefore, ListedAfter, InScope, IsPage, DigestsDistinct;
    var records := SelectOrdered(episodes, order, Selected(episodes, order, scope, cursor), limit + 1);
    if |records| > limit {
      var tail := records[limit - 1];
      Stored(episodes, order, records);
      page := Page(records[..limit], Some(Cursor(episodes[tail].firstObservedAt, tail, scope)));
      FullPage(episodes, order, scope, limit, cursor, records);
    } else {
      page := Page(records, None);
      LastPage(episodes, order, scope, limit, cursor, records);
    }
  }

  lemma Stored(episodes: map<EpisodeId, Episode>, order: DigestOrder, records: seq<EpisodeId>)
    requires Descending(episodes, order, records)
    ensures forall i :: 0 <= i < |records| ==> records[i] in episodes
  {
  }

  /** With one record more than asked for, the page is full and names the next cursor. */
  lemma FullPage(episodes: map<EpisodeId, Episode>, order: DigestOrder, scope: set<string>, limit: nat, cursor: Option<Cursor>, records: seq<EpisodeId>)
    requires 1 <= limit && |records| == limit + 1 && Descending(episodes, order, records)
    requires ToSet(records) <= Selected(episodes, order, scope, cursor)
    requires forall i, j :: 0 <= i < |records| && j in Selected(episodes, order, scope, cursor) && j !in records ==>
      j in episodes && ListedBefore(episodes, order, records[i], episodes[j].firstObservedAt, j)
    ensures var tail := records[limit - 1];
      IsPage(episodes, order, scope, limit, cursor, Page(records[..limit], Some(Cursor(episodes[tail].firstObservedAt, tail, scope))))
  {
    hide Selected;
    var ids := records[..limit];
    assert forall i :: 0 <= i < limit ==> ids[i] == records[i];
    forall id | id in ToSet(ids) ensures id in ToSet(records) {}
    LastIsNew(episodes, order, records);
    assert records[limit] in ToSet(records) && records[limit] !in ToSet(ids);
  }

  lemma LastIsNew(episodes: map<EpisodeId, Episode>, order: DigestOrder, records: seq<EpisodeId>)
    requires records != [] && Descending(episodes, order, records)
    ensures records[|records| - 1] !in records[..|records| - 1]
  {
  }

  lemma LastPage(episodes: map<EpisodeId, Episode>, order: DigestOrder, scope: set<string>, limit: nat, cursor: Option<Cursor>, records: seq<EpisodeId>)
    requires |records| <= limit && Descending(episodes, order, records) && ToSet(records) == Selected(episodes, order, scope, cursor)
    ensures IsPage(episodes, order, scope, limit, cursor, Page(records, None))
  {
  }

  /** What a page contains: the first episodes after the cursor, with a next cursor if any are left. */
  ghost predicate IsPage(episodes: map<EpisodeId, Episode>, order: DigestOrder, scope: set<string>, limit: int, cursor: Option<Cursor>, page: Page)
    requires page.Page?
  {
    var chosen := Selected(episodes, order, scope, cursor);
    && |page.ids| <= limit && Descending(episodes, order, page.ids) && ToSet(page.ids) <= chosen
    && (page.next.None? ==> ToSet(page.ids) == chosen)
    && (page.next.Some? ==>
          && 1 <= limit == |page.ids|
          && ToSet(page.ids) < chosen
          && (forall i, j :: 0 <= i < |page.ids| && j in chosen && j !in page.ids ==>
                ListedBefore(episodes, order, page.ids[i], episodes[j].firstObservedAt, j))
          && page.next == Some(Cursor(episodes[page.ids[limit - 1]].firstObservedAt, page.ids[limit - 1], scope)))
  }

  /** Pages read one after the other on an unchanged store, each with the cursor of the one before. */
  ghost predicate Followed(episodes: map<EpisodeId, Episode>, order: DigestOrder, scope: set<string>, limit: int, cursor: Option<Cursor>, pages: seq<Page>)
    decreases |pages|
  {
    && pages != []
    && pages[0].Page? && IsPage(episodes, order, scope, limit, cursor, pages[0])
    && if pages[0].next.None? then |pages| == 1
       else Followed(episodes, order, scope, limit, pages[0].next, pages[1..])
  }

  function Listed(pages: seq<Page>): seq<EpisodeId> {
    if pages == [] then [] else (if pages[0].Page? then pages[0].ids else []) + Listed(pages[1..])
  }

  /** First observation times are positive 64-bit integers, as stored. */
  predicate StoredTimes(episodes: map<EpisodeId, Episode>) {
    forall id :: id in episodes ==> 0 < episodes[id].firstObservedAt <= MAX_INT64
  }

  /** The next page selects what this page left out. */
  lemma NextSelects(episodes: map<EpisodeId, Episode>, order: DigestOrder, scope: set<string>, limit: int, cursor: Option<Cursor>, page: Page)
    requires DigestsDistinct(episodes, order) && 1 <= limit
    requires page.Page? && IsPage(episodes, order, scope, limit, cursor, page) && page.next.Some?
    ensures Selected(episodes, order, scope, page.next) == Selected(episodes, order, scope, cursor) - ToSet(page.ids)
  {
    var chosen := Selected(episodes, order, scope, cursor);
    var tail := page.ids[limit - 1];
    assert tail in ToSet(page.ids);
    forall id | id in InScope(episodes, scope)
      ensures ListedAfter(episodes, order, id, episodes[tail].firstObservedAt, tail) <==> id in chosen && id !in page.ids
    {
      if id in page.ids {
        var i :| 0 <= i < |page.ids| && page.ids[i] == id;
        if i < limit - 1 {
          assert ListedBefore(episodes, order, page.ids[i], episodes[page.ids[limit - 1]].firstObservedAt, page.ids[limit - 1]);
        }
      } else if id in chosen {
        assert ListedBefore(episodes, order, page.ids[limit - 1], episodes[id].firstObservedAt, id);
      }
    }
  }

  lemma ListsConcat(episodes: map<EpisodeId, Episode>, order: DigestOrder, ids: seq<EpisodeId>, rest: seq<EpisodeId>, chosen: set<EpisodeId>)
    requires Descending(episodes, order, ids) && ToSet(ids) <= chosen <= episodes.Keys
    requires Lists(episodes, order, chosen - ToSet(ids), rest)
    requires forall i, j :: 0 <= i < |ids| && j in chosen && j !in ids ==>
      ListedBefore(episodes, order, ids[i], episodes[j].firstObservedAt, j)
    ensures Lists(episodes, order, chosen, ids + rest)
  {
    var all := ids + rest;
    assert ToSet(all) == ToSet(ids) + ToSet(rest);
    forall i, j | 0 <= i < j < |all|
      ensures all[j] in episodes && ListedBefore(episodes, order, all[i], episodes[all[j]].firstObservedAt, all[j])
    {
      if i < |ids| <= j {
        assert all[j] == rest[j - |ids|] && all[j] in ToSet(rest);
      }
    }
  }

  /**
   Following the next cursor lists every selected episode exactly once, in page order, and no
   cursor handed out along the way is refused.
   */
  lemma {:induction false} FollowedListsAll(episodes: map<EpisodeId, Episode>, order: DigestOrder, scope: set<string>, limit: int, cursor: Option<Cursor>, pages: seq<Page>)
    requires DigestsDistinct(episodes, order) && StoredTimes(episodes) && 1 <= limit <= 50
    requires Followed(episodes, order, scope, limit, cursor, pages)
    ensures Lists(episodes, order, Selected(episodes, order, scope, cursor), Listed(pages))
    ensures forall k :: 0 <= k < |pages| && pages[k].Page? && pages[k].next.Some? ==> ValidCursor(pages[k].next.value, scope)
    decreases |pages|
  {
    var page := pages[0];
    hide ListedBefore, ListedAfter;
    if page.next.None? {
      assert Listed(pages[1..]) == [];
      assert Listed(pages) == page.ids;
    } else {
      var rest := Listed(pages[1..]);
      FollowedListsAll(episodes, order, scope, limit, page.next, pages[1..]);
      NextSelects(episodes, order, scope, limit, cursor, page);
      ListsConcat(episodes, order, page.ids, rest, Selected(episodes, order, scope, cursor));
      forall k | 0 <= k < |pages| && pages[k].Page? && pages[k].next.Some?
        ensures ValidCursor(pages[k].next.value, scope)
      {
        if k > 0 {
          assert pages[k] == pages[1..][k - 1];
        } else {
          assert page.ids[limit - 1] in ToSet(page.ids);
        }
      }
    }
  }

  /** A listing in page order goes from the newest first observation to the oldest, ties by the greater digest. */
  lemma NewestFirst(episodes: map<EpisodeId, Episode>, order: DigestOrder, s: set<EpisodeId>, ids: seq<EpisodeId>, i: nat, j: nat)
    requires Lists(episodes, order, s, ids) && i < j < |ids|
    ensures ids[i] in episodes && ids[j] in episodes && ids[i] != ids[j]
    ensures episodes[ids[i]].firstObservedAt >= episodes[ids[j]].firstObservedAt
    ensures episodes[ids[i]].firstObservedAt == episodes[ids[j]].firstObservedAt ==> order(ids[i]) > order(ids[j])
  {
  }

  /** Following the cursor ends: every page but the last shrinks what is left. */
  method FollowAll(t: Tables, order: DigestOrder, scope: set<string>, limit: int) returns (pages: seq<Page>)
    requires Valid(t) && DigestsDistinct(t.episodes, order) && Clocked(t.episodes)
    requires 1 <= limit <= 50 && |scope| <= 4
    ensures Followed(t.episodes, order, scope, limit, None, pages)
    ensures Lists(t.episodes, order, InScope(t.episodes, scope), Listed(pages))
    ensures forall id :: id in Listed(pages) <==> id in t.episodes && (scope == {} || t.episodes[id].asset in scope)
  {
    PositiveTimes(t);
    pages := FollowFrom(t.episodes, order, scope, limit, None);
    FollowedListsAll(t.episodes, order, scope, limit, None, pages);
    assert forall id :: id in Listed(pages) <==> id in ToSet(Listed(pages));
  }

  /** Clocks are 64-bit integers. */
  predicate Clocked(episodes: map<EpisodeId, Episode>) {
    forall id :: id in episodes ==> episodes[id].firstObservedAt <= MAX_INT64
  }

  /** In every state the operations reach, first observations are positive, as the cursor check needs. */
  lemma PositiveTimes(t: Tables)
    requires Valid(t) && Clocked(t.episodes)
    ensures StoredTimes(t.episodes)
  {
    forall id | id in t.episodes ensures 0 < t.episodes[id].firstObservedAt {
      assert EpisodeOk(id, t.episodes[id], t.latest.value.inputs.cutoff);
    }
  }

  method FollowFrom(episodes: map<EpisodeId, Episode>, order: DigestOrder, scope: set<string>, limit: int, cursor: Option<Cursor>) returns (pages: seq<Page>)
    requires DigestsDistinct(episodes, order) && StoredTimes(episodes)
    requires 1 <= limit <= 50 && |scope| <= 4
    requires cursor.Some? ==> ValidCursor(cursor.value, scope)
    ensures Followed(episodes, order, scope, limit, cursor, pages)
    decreases Selected(episodes, order, scope, cursor)
  {
    var page := HistoryPage(episodes, order, scope, |scope|, limit, cursor);
    pages := [page];
    if page.next.Some? {
      NextSelects(episodes, order, scope, limit, cursor, page);
      assert page.ids[limit - 1] in ToSet(page.ids);
      var rest := FollowFrom(episodes, order, scope, limit, page.next);
      pages := pages + rest;
      assert pages[1..] == rest;
    }
  }
}
