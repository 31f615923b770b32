/** Loading one saved candle snapshot: which minute buckets are usable, and why the others are not. Times are whole seconds. */
module Snapshot {
  import opened Prelude

  datatype Candle = Candle(open: real, high: real, low: real, close: real, volumeBase: Option<real>,
    sourceAt: Option<int>, observedAt: int, finalizedAt: Option<int>, derived: bool)

  /** A record as read: its time if it has one, and its decoded values if they decode. */
  datatype Record = Record(bucket: Option<int>, version: int, final: bool, candle: Option<Candle>)

  datatype Reason = InvalidRow | DuplicateBucket | VersionMismatch | NotFinal | ObservedBeforeClose | UnavailableAtAsOf

  /** The row number counts from one. */
  datatype Finding = Finding(row: nat, bucket: Option<int>, reason: Reason)

  datatype Window = Window(start: int, end: int, asOf: int)

  predicate WellFormed(c: Candle, bucket: int) {
    && bucket % 60 == 0 && c.low > 0.0 && c.low <= c.open <= c.high && c.low <= c.close <= c.high
    && (c.volumeBase.Some? ==> c.volumeBase.value >= 0.0)
    && (c.finalizedAt.Some? ==> c.finalizedAt.value >= c.observedAt && c.finalizedAt.value >= bucket + 60)
  }

  /** What is wrong with a record on its own, in the order it is checked. */
  function Fault(r: Record, w: Window, version: int): Option<Reason>
    requires r.bucket.Some?
  {
    var bucket := r.bucket.value;
    if r.version != version then Some(VersionMismatch)
    else if !r.final then Some(NotFinal)
    else if r.candle == None || !WellFormed(r.candle.value, bucket) then Some(InvalidRow)
    else
      var c := r.candle.value;
      if bucket + 60 > c.observedAt && c.finalizedAt == None then Some(ObservedBeforeClose)
      else if c.observedAt > w.asOf || Past(c.sourceAt, w.asOf) || Past(c.finalizedAt, w.asOf) then Some(UnavailableAtAsOf)
      else None
  }

  predicate Past(at: Option<int>, asOf: int) {
    at.Some? && at.value > asOf
  }

  predicate InWindow(r: Record, w: Window) {
    r.bucket.Some? && w.start <= r.bucket.value < w.end
  }

  predicate Names(r: Record, w: Window, b: int) {
    InWindow(r, w) && r.bucket == Some(b)
  }

  /** How many in-window records name a bucket. */
  function Count(records: seq<Record>, w: Window, b: int): nat {
    if records == [] then 0
    else Count(records[..|records| - 1], w, b) + if Names(records[|records| - 1], w, b) then 1 else 0
  }

  /** The bucket is usable: exactly one in-window record names it, and that record is valid. */
  ghost predicate Usable(records: seq<Record>, w: Window, version: int, b: int, c: Candle) {
    Count(records, w, b) == 1 && exists r :: r in records && Names(r, w, b) && Fault(r, w, version) == None && r.candle == Some(c)
  }

  datatype Snapshot = Snapshot(rows: map<int, Candle>, present: set<int>, findings: seq<Finding>, inputRows: nat)

  /** The loaded rows are exactly the usable buckets, the present ones exactly those named at all. */
  ghost predicate Loads(rows: map<int, Candle>, present: set<int>, records: seq<Record>, w: Window, version: int) {
    && (forall b :: b in present <==> Count(records, w, b) >= 1)
    && (forall b :: b in rows ==> Usable(records, w, version, b, rows[b]))
    && (forall b, c :: Usable(records, w, version, b, c) ==> b in rows && rows[b] == c)
    && rows.Keys <= present
  }

  /** No record is out of order: each is outside the window, or the only one of its bucket and valid. */
  ghost predicate Spotless(records: seq<Record>, w: Window, version: int) {
    forall r :: r in records ==> Fine(records, r, w, version)
  }

  predicate Fine(records: seq<Record>, r: Record, w: Window, version: int) {
    r.bucket.Some? && (InWindow(r, w) ==> Count(records, w, r.bucket.value) == 1 && Fault(r, w, version) == None)
  }

  /** What is reported of a record: its own fault, or that its bucket was named before. */
  function FindingAt(before: seq<Record>, r: Record, w: Window, version: int): seq<Finding> {
    if r.bucket == None then [Finding(|before| + 1, None, InvalidRow)]
    else if !InWindow(r, w) then []
    else if Count(before, w, r.bucket.value) >= 1 then [Finding(|before| + 1, r.bucket, DuplicateBucket)]
    else if Fault(r, w, version).Some? then [Finding(|before| + 1, r.bucket, Fault(r, w, version).value)]
    else []
  }

  /** The findings of all records, in their order. */
  function FindingsOf(records: seq<Record>, w: Window, version: int): seq<Finding> {
    if records == [] then []
    else
      var n := |records| - 1;
      FindingsOf(records[..n], w, version) + FindingAt(records[..n], records[n], w, version)
  }

  lemma FindingsMore(records: seq<Record>, r: Record, w: Window, version: int)
    ensures FindingsOf(records + [r], w, version) == FindingsOf(records, w, version) + FindingAt(records, r, w, version)
  {
    assert (records + [r])[..|records|] == records;
  }

  lemma PresentIsCounted(rows: map<int, Candle>, present: set<int>, records: seq<Record>, w: Window, version: int, b: int)
    requires Loads(rows, present, records, w, version)
    ensures b in present <==> Count(records, w, b) >= 1
  {
  }

  method LoadSnapshot(records: seq<Record>, w: Window, version: int) returns (s: Snapshot)
    ensures Loads(s.rows, s.present, records, w, version) && s.inputRows == |records|
    ensures s.findings == FindingsOf(records, w, version)
    ensures s.findings == [] <==> Spotless(records, w, version)
  {
    hide Fault, Spotless, Loads, FindingsOf, Count;
    var rows, present, findings := map[], {}, [];
    NothingLoaded(w, version);
    for i := 0 to |records|
      invariant Loads(rows, present, records[..i], w, version)
      invariant findings == FindingsOf(records[..i], w, version)
      invariant findings == [] <==> Spotless(records[..i], w, version)
    {
      var r := records[i];
      assert records[..i + 1] == records[..i] + [r];
      LoadOne(rows, present, records[..i], r, w, version);
      SpotlessOne(rows, present, records[..i], r, w, version);
      FindingsMore(records[..i], r, w, version);
      if r.bucket.Some? {
        PresentIsCounted(rows, present, records[..i], w, version, r.bucket.value);
      }
      if r.bucket == None {
        findings := findings + [Finding(i + 1, None, InvalidRow)];
      } else if InWindow(r, w) {
        var bucket := r.bucket.value;
        if bucket in present {
          rows := rows - {bucket};
          findings := findings + [Finding(i + 1, r.bucket, DuplicateBucket)];
        } else {
          present := present + {bucket};
          if Fault(r, w, version).Some? {
            findings := findings + [Finding(i + 1, r.bucket, Fault(r, w, version).value)];
          } else {
            FaultlessDecodes(r, w, version);
            rows := rows[bucket := r.candle.value];
          }
        }
      }
    }
    s := Snapshot(rows, present, findings, |records|);
    assert records[..|records|] == records;
  }

  lemma FaultlessDecodes(r: Record, w: Window, version: int)
    requires r.bucket.Some? && Fault(r, w, version) == None
    ensures r.candle.Some?
  {
  }

  lemma NothingLoaded(w: Window, version: int)
    ensures Loads(map[], {}, [], w, version) && Spotless([], w, version) && FindingsOf([], w, version) == []
  {
  }

  lemma {:induction false} CountPositive(records: seq<Record>, w: Window, b: int)
    ensures Count(records, w, b) >= 1 <==> exists r :: r in records && Names(r, w, b)
  {
    if records != [] {
      var n := |records| - 1;
      CountPositive(records[..n], w, b);
      assert records == records[..n] + [records[n]];
      assert records[n] in records;
    }
  }

  lemma CountOne(records: seq<Record>, r: Record, w: Window)
    ensures forall b :: Count(records + [r], w, b) == Count(records, w, b) + if Names(r, w, b) then 1 else 0
  {
  }

  /** What one more record does to the usable buckets. */
  lemma UsableOne(records: seq<Record>, r: Record, w: Window, version: int, b: int, c: Candle)
    ensures !Names(r, w, b) ==> (Usable(records + [r], w, version, b, c) <==> Usable(records, w, version, b, c))
    ensures Names(r, w, b) ==>
      (Usable(records + [r], w, version, b, c) <==>
        Count(records, w, b) == 0 && Fault(r, w, version) == None && r.candle == Some(c))
  {
    hide Fault;
    CountOne(records, r, w);
    CountPositive(records, w, b);
    assert r in records + [r];
    assert forall x :: x in records + [r] <==> x in records || x == r;
  }

  lemma LoadOne(rows: map<int, Candle>, present: set<int>, records: seq<Record>, r: Record, w: Window, version: int)
    requires Loads(rows, present, records, w, version)
    ensures !InWindow(r, w) ==> Loads(rows, present, records + [r], w, version)
    ensures InWindow(r, w) && r.bucket.value in present ==>
      Loads(rows - {r.bucket.value}, present, records + [r], w, version)
    ensures InWindow(r, w) && r.bucket.value !in present && Fault(r, w, version).Some? ==>
      Loads(rows, present + {r.bucket.value}, records + [r], w, version)
    ensures InWindow(r, w) && r.bucket.value !in present && Fault(r, w, version) == None ==>
      r.candle.Some? && Loads(rows[r.bucket.value := r.candle.value], present + {r.bucket.value}, records + [r], w, version)
  {
    CountOne(records, r, w);
    forall b, c {:trigger Usable(records + [r], w, version, b, c)}
      ensures !Names(r, w, b) ==> (Usable(records + [r], w, version, b, c) <==> Usable(records, w, version, b, c))
      ensures Names(r, w, b) ==>
        (Usable(records + [r], w, version, b, c) <==>
          Count(records, w, b) == 0 && Fault(r, w, version) == None && r.candle == Some(c))
    {
      UsableOne(records, r, w, version, b, c);
    }
    if r.bucket.Some? && Fault(r, w, version) == None {
      FaultlessDecodes(r, w, version);
    }
    hide Usable, Fault;
  }

  lemma SpotlessOne(rows: map<int, Candle>, present: set<int>, records: seq<Record>, r: Record, w: Window, version: int)
    requires Loads(rows, present, records, w, version)
    ensures Spotless(records + [r], w, version) <==>
      Spotless(records, w, version) && r.bucket.Some?
      && (InWindow(r, w) ==> r.bucket.value !in present && Fault(r, w, version) == None)
  {
    hide Fault, Usable;
    CountOne(records, r, w);
    assert r in records + [r];
    assert forall x :: x in records + [r] <==> x in records || x == r;
    if InWindow(r, w) {
      CountPositive(records, w, r.bucket.value);
    }
  }

  // ----- the order of records does not matter -----

  lemma {:induction false} CountSplit(a: seq<Record>, b: seq<Record>, w: Window, at: int)
    ensures Count(a + b, w, at) == Count(a, w, at) + Count(b, w, at)
  {
    if b == [] {
      assert a + b == a;
    } else {
      assert (a + b)[..|a + b| - 1] == a + b[..|b| - 1];
      CountSplit(a, b[..|b| - 1], w, at);
    }
  }

  lemma WithoutOne(b: seq<Record>, j: nat, w: Window, at: int)
    requires j < |b|
    ensures multiset(b[..j] + b[j + 1..]) == multiset(b) - multiset{b[j]}
    ensures Count(b, w, at) == Count(b[..j] + b[j + 1..], w, at) + Count([b[j]], w, at)
  {
    assert b == b[..j] + [b[j]] + b[j + 1..];
    CountSplit(b[..j] + [b[j]], b[j + 1..], w, at);
    CountSplit(b[..j], [b[j]], w, at);
    CountSplit(b[..j], b[j + 1..], w, at);
  }

  lemma {:induction false} CountPermutes(a: seq<Record>, b: seq<Record>, w: Window, at: int)
    requires multiset(a) == multiset(b)
    ensures Count(a, w, at) == Count(b, w, at)
    decreases |a|
  {
    hide Count;
    if a == [] {
      assert |multiset(b)| == 0;
    } else {
      var n := |a| - 1;
      assert a[n] in multiset(b);
      var j :| 0 <= j < |b| && b[j] == a[n];
      assert a[..n] + a[n + 1..] == a[..n];
      WithoutOne(a, n, w, at);
      WithoutOne(b, j, w, at);
      CountPermutes(a[..n], b[..j] + b[j + 1..], w, at);
    }
  }

  lemma UsableTransfers(a: seq<Record>, b: seq<Record>, w: Window, version: int, at: int, c: Candle)
    requires (forall r :: r in a ==> r in b) && Count(a, w, at) == Count(b, w, at) && Usable(a, w, version, at, c)
    ensures Usable(b, w, version, at, c)
  {
  }

  /** Two orders of the same records load the same rows, the same present buckets, and are both spotless or neither. */
  lemma OrderIndependent(a: seq<Record>, b: seq<Record>, w: Window, version: int,
      rows: map<int, Candle>, present: set<int>, rows': map<int, Candle>, present': set<int>)
    requires multiset(a) == multiset(b)
    requires Loads(rows, present, a, w, version) && Loads(rows', present', b, w, version)
    ensures rows == rows' && present == present' && (Spotless(a, w, version) <==> Spotless(b, w, version))
  {
    hide Usable;
    forall r ensures r in a <==> r in b {
      assert r in multiset(a) <==> r in multiset(b);
    }
    forall at ensures Count(a, w, at) == Count(b, w, at) {
      CountPermutes(a, b, w, at);
    }
    forall at | at in rows ensures at in rows' && rows'[at] == rows[at] {
      UsableTransfers(a, b, w, version, at, rows[at]);
    }
    forall at | at in rows' ensures at in rows {
      UsableTransfers(b, a, w, version, at, rows'[at]);
    }
    assert rows.Keys == rows'.Keys && rows == rows';
    assert forall at :: at in present <==> at in present';
    hide Spotless;
    if Spotless(a, w, version) {
      SpotlessTransfers(a, b, w, version);
    } else if Spotless(b, w, version) {
      SpotlessTransfers(b, a, w, version);
    }
  }

  lemma SpotlessTransfers(a: seq<Record>, b: seq<Record>, w: Window, version: int)
    requires (forall r :: r in b ==> r in a) && (forall at :: Count(a, w, at) == Count(b, w, at))
    requires Spotless(a, w, version)
    ensures Spotless(b, w, version)
  {
  }
}
