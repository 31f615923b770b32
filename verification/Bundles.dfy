/**
 Offline outcome input: reference bars and native points, stored in bounded fragments that one
 bundle manifest names. Reference keys and asset ids are named by their position in text order;
 key 0 is the empty text. A digest is the content itself.
 */
module Bundles {
  import opened Prelude
  import opened Ranking

  const DAY := 1440 * MINUTE

  /** What one identity was at one minute: a bar of a reference key, or a native point of an asset. */
  datatype Item<V(==)> = Item(key: nat, at: int, value: V)

  datatype Prices = Prices(open: real, high: real, low: real, close: real, turnover: real)

  datatype Observation = Observation(originals: nat, dispersion: Option<real>, oiChange: Option<real>, ready: bool)

  type Bar = Item<Prices>

  type Point = Item<Observation>

  datatype Data = Data(mapVersion: nat, bars: seq<Bar>, native: seq<Point>)

  /** A fragment is named after its day and group. */
  datatype Name = Name(day: int, group: nat)

  datatype Entry = Entry(name: Name, sha: Data, referenceKeys: seq<nat>, assetIds: seq<nat>, after: int, through: int)

  datatype Bundle = Bundle(mapVersion: nat, after: int, through: int, files: seq<Entry>)

  predicate OnePerMinute<V(==)>(items: seq<Item<V>>) {
    forall i, j :: 0 <= i < j < |items| ==> items[i].key != items[j].key || items[i].at != items[j].at
  }

  /** The validation of an offline input. */
  predicate WellFormed(data: Data) {
    OnePerMinute(data.bars) && OnePerMinute(data.native) && forall p :: p in data.native ==> p.at % MINUTE == 0
  }

  function Keys<V(==)>(items: seq<Item<V>>): set<nat> {
    set x | x in items :: x.key
  }

  predicate Inside<V(==)>(items: seq<Item<V>>, after: int, through: int) {
    forall x :: x in items ==> after < x.at <= through
  }

  predicate Overlap(e: Entry, f: Entry) {
    e.after < f.through && f.after < e.through
  }

  /** An entry whose content, identities and window all agree. */
  predicate Sound(bundle: Bundle, e: Entry) {
    && WellFormed(e.sha) && e.sha.mapVersion == bundle.mapVersion
    && Keys(e.sha.bars) == ToSet(e.referenceKeys) && Keys(e.sha.native) == ToSet(e.assetIds)
    && bundle.after <= e.after < e.through <= bundle.through
    && Inside(e.sha.bars, e.after, e.through) && Inside(e.sha.native, e.after, e.through)
    && Distinct(e.referenceKeys) && Distinct(e.assetIds)
  }

  /** No identity appears in two entries whose windows overlap. */
  predicate Separate(e: Entry, f: Entry) {
    && e.name != f.name
    && (Overlap(e, f) ==> ToSet(e.referenceKeys) !! ToSet(f.referenceKeys))
    && (Overlap(e, f) ==> ToSet(e.assetIds) !! ToSet(f.assetIds))
  }

  /** What a reader must see in a bundle to accept it. */
  predicate Consistent(bundle: Bundle) {
    && (forall e :: e in bundle.files ==> Sound(bundle, e))
    && (forall i, j :: 0 <= i < j < |bundle.files| ==> Separate(bundle.files[i], bundle.files[j]))
  }

  /** The bars of all fragments together. */
  function BarsOf(files: seq<Entry>): set<Bar> {
    set e, b | e in files && b in e.sha.bars :: b
  }

  function Selected<V(==)>(items: set<Item<V>>, key: nat, after: int, through: int): set<Item<V>> {
    set x | x in items && x.key == key && after < x.at <= through
  }

  predicate Ascending<V(==)>(items: seq<Item<V>>) {
    forall i, j :: 0 <= i < j < |items| ==> items[i].at < items[j].at
  }

  /** `answer` is exactly what `items` hold of the key in (after, through], strictly ascending. */
  predicate Answers<V(==)>(items: set<Item<V>>, key: nat, after: int, through: int, answer: seq<Item<V>>) {
    Ascending(answer) && ToSet(answer) == Selected(items, key, after, through)
  }

  /** There is one answer to a query. */
  lemma {:induction false} OneAnswer<V>(items: set<Item<V>>, key: nat, after: int, through: int, a: seq<Item<V>>, b: seq<Item<V>>)
    requires Answers(items, key, after, through, a) && Answers(items, key, after, through, b)
    ensures a == b
    decreases |a|
  {
    SomeMember(a);
    SomeMember(b);
    if a != [] && b != [] {
      var x, y := a[|a| - 1], b[|b| - 1];
      assert x in ToSet(b) && y in ToSet(a);
      assert x.at <= y.at && y.at <= x.at;
      LastAnswer(items, key, after, through, a);
      LastAnswer(items, key, after, through, b);
      assert x == y by {
        var i :| 0 <= i < |a| && a[i] == y;
      }
      OneAnswer(items - {x}, key, after, through, a[..|a| - 1], b[..|b| - 1]);
      assert a == a[..|a| - 1] + [x] && b == b[..|b| - 1] + [y];
    }
  }

  lemma SomeMember<T>(s: seq<T>)
    ensures s != [] ==> ToSet(s) != {}
  {
    assert s != [] ==> s[0] in ToSet(s);
  }

  lemma LastAnswer<V>(items: set<Item<V>>, key: nat, after: int, through: int, a: seq<Item<V>>)
    requires Answers(items, key, after, through, a) && a != []
    ensures Answers(items - {a[|a| - 1]}, key, after, through, a[..|a| - 1])
  {
    var x := a[|a| - 1];
    assert ToSet(a[..|a| - 1]) == ToSet(a) - {x} by {
      forall y | y in ToSet(a) && y != x ensures y in a[..|a| - 1] {
        var i :| 0 <= i < |a| && a[i] == y;
        assert a[..|a| - 1][i] == y;
      }
    }
  }

  function ByTime<V(==)>(): (Item<V>, Item<V>) -> bool {
    (x: Item<V>, y: Item<V>) => x.at < y.at
  }

  /** Sorting items with distinct times by time. */
  method SortByTime<V(==)>(items: seq<Item<V>>) returns (sorted: seq<Item<V>>)
    requires forall i, j :: 0 <= i < j < |items| ==> items[i].at != items[j].at
    ensures Ascending(sorted) && ToSet(sorted) == ToSet(items) && |sorted| == |items|
  {
    forall x, y | x in ToSet(items) && y in ToSet(items) && x != y ensures x.at < y.at || y.at < x.at {
      var i :| 0 <= i < |items| && items[i] == x;
      var j :| 0 <= j < |items| && items[j] == y;
    }
    sorted := Sort(ToSet(items), ByTime());
    CountDistinct(items);
  }
}
