/** Choosing one reference outcome per generation, asset and horizon: the one of the latest edition. */
module LatestOutcomes {
  import opened Prelude
  import Storage

  datatype Key = Key(generation: nat, asset: nat, horizon: nat)

  datatype Row = Row(key: Key, reference: bool, edition: nat, settledAt: int, content: nat)

  predicate Contradict(a: Row, b: Row) {
    a.reference && b.reference && a.key == b.key && a.edition == b.edition && a != b
  }

  /** No reference row of the key has a later edition. */
  predicate IsLatest(rows: seq<Row>, r: Row) {
    r in rows && r.reference && forall x :: x in rows && x.reference && x.key == r.key ==> x.edition <= r.edition
  }

  ghost predicate AreLatest(latest: map<Key, Row>, rows: seq<Row>) {
    && (forall key :: key in latest ==> latest[key].key == key && IsLatest(rows, latest[key]))
    && (forall r :: r in rows && r.reference ==> r.key in latest)
    && (forall r :: IsLatest(rows, r) ==> r.key in latest && latest[r.key] == r)
  }

  /** The latest edition of each key, unless a row contradicts the latest one before it. */
  method Latest(rows: seq<Row>) returns (latest: Option<map<Key, Row>>)
    ensures latest.Some? ==> AreLatest(latest.value, rows)
    ensures latest == None <==> RefusedIn(rows)
  {
    hide AreLatest, Refused;
    var chosen: map<Key, Row> := map[];
    NoneChosen();
    for i := 0 to |rows|
      invariant AreLatest(chosen, rows[..i])
      invariant forall j :: 0 <= j < i ==> !Refused(rows[..j], rows[j])
    {
      var r := rows[i];
      assert rows[..i + 1] == rows[..i] + [r];
      ChooseNext(chosen, rows[..i], r);
      if r.reference {
        if r.key !in chosen || r.edition > chosen[r.key].edition {
          chosen := chosen[r.key := r];
        } else if r.edition == chosen[r.key].edition && r != chosen[r.key] {
          return None;
        }
      }
    }
    assert rows[..|rows|] == rows;
    latest := Some(chosen);
  }

  lemma NoneChosen()
    ensures AreLatest(map[], [])
  {
  }

  lemma ChooseNext(chosen: map<Key, Row>, before: seq<Row>, r: Row)
    requires AreLatest(chosen, before)
    ensures Refused(before, r) <==>
      r.reference && r.key in chosen && r.edition == chosen[r.key].edition && r != chosen[r.key]
    ensures !Refused(before, r) ==>
      AreLatest(if r.reference && (r.key !in chosen || r.edition > chosen[r.key].edition) then chosen[r.key := r] else chosen,
        before + [r])
  {
    assert forall x :: x in before + [r] <==> x in before || x == r;
    if r.reference && r.key in chosen {
      assert IsLatest(before, chosen[r.key]);
    }
    forall x | IsLatest(before + [r], x) && x != r ensures IsLatest(before, x) {
    }
  }

  /** Rows that never differ at one key and edition are never refused. */
  lemma ConsistentNeverRefused(rows: seq<Row>, j: nat)
    requires j < |rows| && forall a, b :: a in rows && b in rows ==> !Contradict(a, b)
    ensures !Refused(rows[..j], rows[j])
  {
    forall a | a in rows[..j] ensures !Contradict(a, rows[j]) {
      assert a in rows && rows[j] in rows;
    }
  }

  /** A row contradicts the latest edition before it. */
  predicate Refused(before: seq<Row>, r: Row) {
    exists a :: a in before && IsLatest(before, a) && Contradict(a, r)
  }

  // ----- when the order of the rows matters -----

  ghost predicate RefusedIn(rows: seq<Row>) {
    exists j :: 0 <= j < |rows| && Refused(rows[..j], rows[j])
  }

  ghost predicate Reorders(order: seq<Row>, rows: seq<Row>) {
    multiset(order) == multiset(rows)
  }

  /** Two different reference rows of one key and edition. */
  predicate Contradictory(rows: seq<Row>) {
    exists a, b :: a in rows && b in rows && Contradict(a, b)
  }

  /** Two such rows of the greatest edition of their key. */
  predicate ContradictoryLatest(rows: seq<Row>) {
    exists a, b :: a in rows && b in rows && IsLatest(rows, a) && Contradict(a, b)
  }

  lemma SameMembers(order: seq<Row>, rows: seq<Row>)
    requires Reorders(order, rows)
    ensures forall r :: r in order <==> r in rows
  {
    forall r ensures r in order <==> r in rows {
      assert r in multiset(order) <==> r in multiset(rows);
    }
  }

  /** Some order of the rows is refused exactly when two of them contradict each other. */
  lemma SomeOrderRefused(rows: seq<Row>)
    ensures (exists order :: Reorders(order, rows) && RefusedIn(order)) <==> Contradictory(rows)
  {
    if Contradictory(rows) {
      var a, b :| a in rows && b in rows && Contradict(a, b);
      var order := PairFirst(rows, a, b);
      assert order[..1] == [a] && IsLatest([a], a);
      assert Refused(order[..1], order[1]);
      assert RefusedIn(order);
    }
    if order :| Reorders(order, rows) && RefusedIn(order) {
      SameMembers(order, rows);
      var j :| 0 <= j < |order| && Refused(order[..j], order[j]);
      var a :| a in order[..j] && IsLatest(order[..j], a) && Contradict(a, order[j]);
      assert a in order && order[j] in order;
    }
  }

  /** The rows with two different ones moved to the front. */
  lemma PairFirst(rows: seq<Row>, a: Row, b: Row) returns (order: seq<Row>)
    requires a in rows && b in rows && a != b
    ensures Reorders(order, rows) && |order| >= 2 && order[0] == a && order[1] == b
  {
    var rest := MoveOut(rows, a);
    assert b in multiset(rest);
    order := [a, b] + MoveOut(rest, b);
  }

  /** The rows without one of them. */
  ghost function MoveOut(rows: seq<Row>, r: Row): (rest: seq<Row>)
    requires r in rows
    ensures multiset(rows) == multiset([r]) + multiset(rest)
  {
    var i :| 0 <= i < |rows| && rows[i] == r;
    assert rows == rows[..i] + [r] + rows[i + 1..];
    rows[..i] + rows[i + 1..]
  }

  /** Every order of the rows is refused exactly when two of them contradict each other in the latest edition. */
  lemma EveryOrderRefused(rows: seq<Row>)
    ensures (forall order :: Reorders(order, rows) ==> RefusedIn(order)) <==> ContradictoryLatest(rows)
  {
    if ContradictoryLatest(rows) {
      forall order | Reorders(order, rows) ensures RefusedIn(order) {
        LatestContradictionRefused(rows, order);
      }
    } else {
      var order := LatestFirst(rows);
      LatestFirstAccepted(rows, order);
    }
  }

  lemma LatestContradictionRefused(rows: seq<Row>, order: seq<Row>)
    requires ContradictoryLatest(rows) && Reorders(order, rows)
    ensures RefusedIn(order)
  {
    SameMembers(order, rows);
    var a, b :| a in rows && b in rows && IsLatest(rows, a) && Contradict(a, b);
    var i :| 0 <= i < |order| && order[i] == a;
    var j :| 0 <= j < |order| && order[j] == b;
    var first, second := if i < j then i else j, if i < j then j else i;
    assert order[..second][first] == order[first];
    assert forall x :: x in order[..second] ==> x in order;
    assert IsLatest(order[..second], order[first]);
    assert Refused(order[..second], order[second]);
  }

  /** The latest rows first, then the others. */
  ghost function LatestFirst(rows: seq<Row>): (order: seq<Row>)
    ensures Reorders(order, rows)
  {
    Reordered(rows, rows);
    Keep(rows, rows, true) + Keep(rows, rows, false)
  }

  ghost function Keep(rows: seq<Row>, all: seq<Row>, latest: bool): seq<Row> {
    if rows == [] then []
    else Keep(rows[..|rows| - 1], all, latest) + KeepOne(rows[|rows| - 1], all, latest)
  }

  ghost function KeepOne(r: Row, all: seq<Row>, latest: bool): seq<Row> {
    if IsLatest(all, r) == latest then [r] else []
  }

  lemma {:induction false} Reordered(rows: seq<Row>, all: seq<Row>)
    ensures Reorders(Keep(rows, all, true) + Keep(rows, all, false), rows)
  {
    if rows != [] {
      Reordered(rows[..|rows| - 1], all);
      assert rows == rows[..|rows| - 1] + [rows[|rows| - 1]];
    }
  }

  lemma {:induction false} Kept(rows: seq<Row>, all: seq<Row>, latest: bool)
    ensures forall r :: r in Keep(rows, all, latest) <==> r in rows && IsLatest(all, r) == latest
  {
    if rows != [] {
      Kept(rows[..|rows| - 1], all, latest);
      assert rows == rows[..|rows| - 1] + [rows[|rows| - 1]];
    }
  }

  /** Every reference row has a latest one of its key. */
  lemma {:induction false} SomeLatest(rows: seq<Row>, r: Row) returns (latest: Row)
    requires r in rows && r.reference
    ensures IsLatest(rows, latest) && latest.key == r.key && latest.edition >= r.edition
  {
    var n := |rows| - 1;
    assert rows == rows[..n] + [rows[n]];
    if rows[n].reference && rows[n].key == r.key && forall x :: x in rows[..n] && x.reference && x.key == r.key ==> x.edition <= rows[n].edition {
      latest := rows[n];
    } else {
      var x: Row;
      if rows[n].reference && rows[n].key == r.key {
        x :| x in rows[..n] && x.reference && x.key == r.key && x.edition > rows[n].edition;
      } else {
        x := r;
      }
      latest := SomeLatest(rows[..n], x);
    }
  }

  lemma LatestFirstAccepted(rows: seq<Row>, order: seq<Row>)
    requires !ContradictoryLatest(rows) && order == LatestFirst(rows)
    ensures !RefusedIn(order)
  {
    var first := Keep(rows, rows, true);
    Kept(rows, rows, true);
    SameMembers(order, rows);
    forall k | 0 <= k < |first| ensures IsLatest(rows, order[k]) {
      assert order[k] == first[k] && first[k] in first;
    }
    forall j, a | 0 <= j < |order| && a in order[..j] && Contradict(a, order[j]) ensures !IsLatest(order[..j], a) {
      assert a in order && order[j] in order;
      assert !IsLatest(rows, a) && !IsLatest(rows, order[j]) by {
        assert Contradict(order[j], a);
      }
      var latest := SomeLatest(rows, a);
      assert j >= |first|;
      assert latest in first;
      var i :| 0 <= i < |first| && first[i] == latest;
      assert order[..j][i] == latest;
    }
  }

  /** Order can decide: a contradiction is refused when met while it is the latest, and not after a correction. */
  lemma OrderDecides()
    ensures var key := Key(1, 1, 15);
      var a, b, c := Row(key, true, 1, 0, 0), Row(key, true, 1, 0, 1), Row(key, true, 2, 0, 2);
      RefusedIn([a, b, c]) && Reorders([a, c, b], [a, b, c]) && !RefusedIn([a, c, b])
  {
    var key := Key(1, 1, 15);
    var a, b, c := Row(key, true, 1, 0, 0), Row(key, true, 1, 0, 1), Row(key, true, 2, 0, 2);
    assert [a, b, c][..1] == [a] && IsLatest([a], a) && Refused([a, b, c][..1], [a, b, c][1]);
    forall j | 0 <= j < 3 ensures !Refused([a, c, b][..j], [a, c, b][j]) {
      assert [a, c, b][..0] == [] && [a, c, b][..1] == [a] && [a, c, b][..2] == [a, c];
    }
  }

  // ----- what the store delivers -----

  /** No key has two reference rows. */
  predicate OneRowAKey(rows: seq<Row>) {
    forall i, j :: 0 <= i < j < |rows| ==> !(rows[i].reference && rows[j].reference && rows[i].key == rows[j].key)
  }

  /** Rows with one reference row a key are refused in no order. */
  lemma OneRowAKeyNeverRefused(rows: seq<Row>, order: seq<Row>)
    requires OneRowAKey(rows) && Reorders(order, rows)
    ensures !RefusedIn(order)
  {
    SomeOrderRefused(rows);
    forall a, b | a in rows && b in rows ensures !Contradict(a, b) {
      var i :| 0 <= i < |rows| && rows[i] == a;
      var j :| 0 <= j < |rows| && rows[j] == b;
    }
  }

  function RowOf(o: Storage.Outcome): Row {
    Row(Key(o.key.generation, o.key.asset, o.key.horizon), o.key.reference, o.edition, o.settledAt, o.content)
  }

  /** The rows the store reads back, listed once each. */
  ghost predicate ReadBack(rows: seq<Row>, editions: Storage.Editions) {
    && (forall i, j :: 0 <= i < j < |rows| ==> rows[i] != rows[j])
    && (forall r :: r in rows ==> exists o :: o in Storage.Delivered(editions) && r == RowOf(o))
  }

  /** The store's outcomes are refused in no order, so the order dependence never shows on them. */
  lemma StoredNeverRefused(editions: Storage.Editions, rows: seq<Row>, order: seq<Row>)
    requires Storage.WellNumbered(editions) && ReadBack(rows, editions) && Reorders(order, rows)
    ensures !RefusedIn(order)
  {
    forall i, j | 0 <= i < j < |rows| && rows[i].reference && rows[j].reference ensures rows[i].key != rows[j].key {
      assert rows[i] in rows && rows[j] in rows;
      var o :| o in Storage.Delivered(editions) && rows[i] == RowOf(o);
      var q :| q in Storage.Delivered(editions) && rows[j] == RowOf(q);
      Storage.OneDelivered(editions, o, q);
    }
    OneRowAKeyNeverRefused(rows, order);
  }
}
