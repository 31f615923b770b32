/**
 What an audit of two snapshots finds, in plain arithmetic: which records load, which values and
 returns are recorded as different, and what is recorded as missing.
 */
module AuditLaws {
  import opened Prelude
  import opened Snapshot
  import opened CandleAudit

  // ----- which records load -----

  /** The record is one of this series, final, well formed, over, and known by as-of. */
  predicate Loadable(r: Record, w: Window, version: int) {
    && r.bucket.Some? && r.version == version && r.final && r.candle.Some?
    && var b, c := r.bucket.value, r.candle.value;
      && b % 60 == 0 && 0.0 < c.low && c.low <= c.open && c.open <= c.high && c.low <= c.close && c.close <= c.high
      && (c.volumeBase == None || c.volumeBase.value >= 0.0)
      && (c.finalizedAt == None ==> b + 60 <= c.observedAt)
      && (c.finalizedAt.Some? ==> c.observedAt <= c.finalizedAt.value <= w.asOf && b + 60 <= c.finalizedAt.value)
      && c.observedAt <= w.asOf && (c.sourceAt == None || c.sourceAt.value <= w.asOf)
  }

  /** A record has no fault exactly if it is loadable. */
  lemma FaultlessMeans(r: Record, w: Window, version: int)
    requires r.bucket.Some?
    ensures Fault(r, w, version) == None <==> Loadable(r, w, version)
  {
  }

  /** The first thing wrong with a record, in this order. */
  lemma FaultsInOrder(r: Record, w: Window, version: int)
    requires r.bucket.Some?
    ensures Fault(r, w, version) == Some(VersionMismatch) <==> r.version != version
    ensures Fault(r, w, version) == Some(NotFinal) <==> r.version == version && !r.final
    ensures Fault(r, w, version) == Some(InvalidRow) ==> r.version == version && r.final
    ensures Fault(r, w, version) == Some(ObservedBeforeClose) ==>
      r.candle.Some? && r.candle.value.observedAt < r.bucket.value + 60 && r.candle.value.finalizedAt == None
    ensures Fault(r, w, version) == Some(UnavailableAtAsOf) ==> r.candle.Some? && var c := r.candle.value;
      c.observedAt > w.asOf || (c.sourceAt.Some? && c.sourceAt.value > w.asOf) || (c.finalizedAt.Some? && c.finalizedAt.value > w.asOf)
    ensures Fault(r, w, version) != Some(DuplicateBucket)
  {
  }

  /** The record names a bucket of the window. */
  predicate InTime(r: Record, w: Window) {
    r.bucket.Some? && w.start <= r.bucket.value < w.end
  }

  /** What is reported of the i-th record. */
  predicate Reports(records: seq<Record>, i: int, w: Window, version: int, f: Finding) {
    && 0 <= i < |records| && f.row == i + 1 && f.bucket == records[i].bucket
    && if records[i].bucket == None then f.reason == InvalidRow
       else
         && InTime(records[i], w)
         && if exists j :: 0 <= j < i && InTime(records[j], w) && records[j].bucket == records[i].bucket then f.reason == DuplicateBucket
            else Fault(records[i], w, version) == Some(f.reason)
  }

  lemma NamedBefore(records: seq<Record>, w: Window, b: int)
    ensures Count(records, w, b) >= 1 <==> exists j :: 0 <= j < |records| && InTime(records[j], w) && records[j].bucket == Some(b)
  {
    CountPositive(records, w, b);
    hide Count;
    if j :| 0 <= j < |records| && InTime(records[j], w) && records[j].bucket == Some(b) {
      assert records[j] in records && Names(records[j], w, b);
    }
  }

  ghost predicate SomeReports(records: seq<Record>, w: Window, version: int, f: Finding) {
    exists i :: Reports(records, i, w, version, f)
  }

  /** The findings are exactly those of the single records: no time, a bucket named before, or the record's own fault. */
  lemma {:induction false} FindingsTell(records: seq<Record>, w: Window, version: int)
    ensures forall f :: f in FindingsOf(records, w, version) <==> SomeReports(records, w, version, f)
  {
    hide Fault, Count, Reports, SomeReports, FindingAt;
    if records == [] {
      NothingReported(w, version);
    } else {
      var n := |records| - 1;
      FindingsTell(records[..n], w, version);
      forall f ensures SomeReports(records, w, version, f) <==>
        SomeReports(records[..n], w, version, f) || f in FindingAt(records[..n], records[n], w, version)
      {
        OneMoreReport(records, w, version, f);
      }
    }
  }

  lemma NothingReported(w: Window, version: int)
    ensures forall f :: !SomeReports([], w, version, f)
  {
  }

  lemma OneMoreReport(records: seq<Record>, w: Window, version: int, f: Finding)
    requires records != []
    ensures var n := |records| - 1;
      SomeReports(records, w, version, f) <==>
        SomeReports(records[..n], w, version, f) || f in FindingAt(records[..n], records[n], w, version)
  {
    var n := |records| - 1;
    LastReport(records, w, version, f);
    ReportsWithin(records, w, version, f);
    ReportsWithin(records[..n], w, version, f);
    hide Reports, FindingAt;
    forall i | 0 <= i < n ensures Reports(records, i, w, version, f) <==> Reports(records[..n], i, w, version, f) {
      EarlierReport(records, i, w, version, f);
    }
  }

  lemma ReportsWithin(records: seq<Record>, w: Window, version: int, f: Finding)
    ensures forall i :: Reports(records, i, w, version, f) ==> 0 <= i < |records|
  {
  }

  lemma LastReport(records: seq<Record>, w: Window, version: int, f: Finding)
    requires records != []
    ensures var n := |records| - 1; Reports(records, n, w, version, f) <==> f in FindingAt(records[..n], records[n], w, version)
  {
    hide Fault, Count;
    var n := |records| - 1;
    if records[n].bucket.Some? {
      NamedBefore(records[..n], w, records[n].bucket.value);
    }
    assert forall j :: 0 <= j < n ==> records[..n][j] == records[j];
  }

  lemma EarlierReport(records: seq<Record>, i: nat, w: Window, version: int, f: Finding)
    requires i < |records| - 1
    ensures Reports(records, i, w, version, f) <==> Reports(records[..|records| - 1], i, w, version, f)
  {
    hide Fault;
    assert forall j :: 0 <= j < |records| - 1 ==> records[..|records| - 1][j] == records[j];
  }

  /** Nothing that was not over and known at as-of is ever loaded: an audit cannot look ahead. */
  lemma NothingFromTheFuture(rows: map<int, Candle>, present: set<int>, records: seq<Record>, w: Window, version: int, b: int)
    requires Loads(rows, present, records, w, version) && b in rows
    ensures w.start <= b < w.end && b % 60 == 0 && b + 60 <= w.asOf && rows[b].observedAt <= w.asOf
    ensures rows[b].sourceAt.Some? ==> rows[b].sourceAt.value <= w.asOf
    ensures exists r :: r in records && Loadable(r, w, version) && r.bucket == Some(b) && r.candle == Some(rows[b])
  {
    var r :| r in records && Names(r, w, b) && Fault(r, w, version) == None && r.candle == Some(rows[b]);
    FaultlessMeans(r, w, version);
  }

  // ----- which differences are recorded -----

  function Gap(a: real, b: real): real {
    if a < b then b - a else a - b
  }

  function Size(a: real): real {
    if a < 0.0 then 0.0 - a else a
  }

  /** The gap is more than the absolute tolerance, and twice the gap more than the relative one times both sizes. */
  predicate Beyond(a: real, b: real, absolute: real, relative: real) {
    Gap(a, b) > absolute && 2.0 * Gap(a, b) > relative * (Size(a) + Size(b))
  }

  predicate BeyondField(f: Field, a: real, b: real, t: Tolerances) {
    if f == VolumeBase then Beyond(a, b, t.volumeAbs, t.volumeRel) else Beyond(a, b, t.priceAbs, t.priceRel)
  }

  lemma RelativeMeans(gap: real, size: real, relative: real)
    requires size > 0.0
    ensures gap / (size / 2.0) > relative <==> 2.0 * gap > relative * size
  {
    var q := gap / (size / 2.0);
    assert q * (size / 2.0) == gap;
    assert q * size == 2.0 * gap;
    if q > relative {
      assert (q - relative) * size > 0.0;
    } else {
      assert (relative - q) * size >= 0.0;
    }
  }

  lemma DifferIs(a: real, b: real)
    ensures Differ(a, b).0 == Gap(a, b)
    ensures Size(a) + Size(b) > 0.0 ==> Differ(a, b).1 == Gap(a, b) / ((Size(a) + Size(b)) / 2.0)
    ensures !(Size(a) + Size(b) > 0.0) ==> Gap(a, b) == 0.0 && Size(a) + Size(b) == 0.0 && Differ(a, b).1 == 0.0
  {
  }

  /** What is recorded of a pair of values, without a division. */
  lemma ExceedsMeans(f: Field, a: real, b: real, t: Tolerances)
    requires ValidTolerances(t)
    ensures Exceeds(f, a, b, t) <==> BeyondField(f, a, b, t)
  {
    DifferIs(a, b);
    var size := Size(a) + Size(b);
    hide Differ, Gap, Size;
    if size > 0.0 {
      RelativeMeans(Gap(a, b), size, t.priceRel);
      RelativeMeans(Gap(a, b), size, t.volumeRel);
    }
  }

  /** The relative difference in basis points: twice the gap over both sizes. */
  function BasisPoints(a: real, b: real): real {
    if Size(a) + Size(b) == 0.0 then 0.0 else 20000.0 * Gap(a, b) / (Size(a) + Size(b))
  }

  lemma BasisPointsMean(a: real, b: real)
    ensures 10000.0 * Differ(a, b).1 == BasisPoints(a, b)
  {
    DifferIs(a, b);
    hide Differ, Gap, Size;
    if Size(a) + Size(b) > 0.0 {
      Doubled(Gap(a, b), Size(a) + Size(b));
    }
  }

  lemma Doubled(gap: real, size: real)
    requires size > 0.0
    ensures 10000.0 * (gap / (size / 2.0)) == 20000.0 * gap / size
  {
    var q := gap / (size / 2.0);
    assert q * (size / 2.0) == gap;
    assert 10000.0 * q * size == 20000.0 * gap;
  }

  function Reading(c: Candle, f: Field): Option<real> {
    if f == Open then Some(c.open)
    else if f == High then Some(c.high)
    else if f == Low then Some(c.low)
    else if f == Close then Some(c.close)
    else c.volumeBase
  }

  /** A pair of values of one field beyond tolerance, reported as it is. */
  predicate FieldDiffers(a: Candle, b: Candle, at: int, f: Field, t: Tolerances, d: Difference) {
    && d.ValueDifference? && d.bucket == at && d.field == f
    && Reading(a, f) == Some(d.left) && Reading(b, f) == Some(d.right) && BeyondField(f, d.left, d.right, t)
    && d.absolute == Gap(d.left, d.right) && d.bps == BasisPoints(d.left, d.right)
  }

  predicate FieldMissing(a: Candle, b: Candle, f: Field) {
    Reading(a, f) == None || Reading(b, f) == None
  }

  lemma FieldRecords(a: Candle, b: Candle, at: int, f: Field, t: Tolerances)
    requires ValidTolerances(t)
    ensures var c := CompareField(a, b, at, f, t);
      && (forall d :: d in c.differences <==> FieldDiffers(a, b, at, f, t, d))
      && (forall m :: m in c.missing <==> m == (at, f) && FieldMissing(a, b, f))
      && c.unpaired == [] && c.pairs == 0
  {
    var x, y := Reading(a, f), Reading(b, f);
    assert Value(a, f) == x && Value(b, f) == y;
    if x.Some? && y.Some? {
      ExceedsMeans(f, x.value, y.value, t);
      BasisPointsMean(x.value, y.value);
      DifferIs(x.value, y.value);
      hide Exceeds, Differ, BeyondField, BasisPoints, Gap, Reading, Value;
    }
  }

  lemma PlusMembers(a: Tally, b: Tally)
    ensures forall d :: d in Plus(a, b).differences <==> d in a.differences || d in b.differences
    ensures forall m :: m in Plus(a, b).missing <==> m in a.missing || m in b.missing
    ensures forall u :: u in Plus(a, b).unpaired <==> u in a.unpaired || u in b.unpaired
  {
  }

  ghost predicate SomeFieldDiffers(a: Candle, b: Candle, at: int, fields: seq<Field>, t: Tolerances, d: Difference) {
    exists f :: f in fields && FieldDiffers(a, b, at, f, t, d)
  }

  lemma {:induction false} FieldsRecord(a: Candle, b: Candle, at: int, fields: seq<Field>, t: Tolerances)
    requires ValidTolerances(t)
    ensures var c := CompareFields(a, b, at, fields, t);
      && (forall d :: d in c.differences <==> SomeFieldDiffers(a, b, at, fields, t, d))
      && (forall m :: m in c.missing <==> m.0 == at && m.1 in fields && FieldMissing(a, b, m.1))
  {
    hide FieldDiffers, FieldMissing, CompareField;
    if fields != [] {
      var n := |fields| - 1;
      FieldsRecord(a, b, at, fields[..n], t);
      FieldRecords(a, b, at, fields[n], t);
      PlusMembers(CompareFields(a, b, at, fields[..n], t), CompareField(a, b, at, fields[n], t));
      assert fields == fields[..n] + [fields[n]];
      hide Plus;
      forall d ensures SomeFieldDiffers(a, b, at, fields, t, d) <==>
        SomeFieldDiffers(a, b, at, fields[..n], t, d) || FieldDiffers(a, b, at, fields[n], t, d)
      {
      }
    }
  }

  /** The i-th expected minute. */
  function MinuteAt(s: Settings, i: int): int {
    s.start + 60 * i
  }

  predicate Requested(f: Field, volume: bool) {
    f != VolumeBase || volume
  }

  /** Both snapshots have the minute, and a requested value of it is beyond tolerance. */
  ghost predicate ValueDiffers(left: Rows, right: Rows, s: Settings, at: int, d: Difference) {
    at in left && at in right && exists f :: Requested(f, s.volume) && FieldDiffers(left[at], right[at], at, f, s.tolerances, d)
  }

  predicate ValueMissing(left: Rows, right: Rows, s: Settings, at: int, f: Field) {
    at in left && at in right && Requested(f, s.volume) && FieldMissing(left[at], right[at], f)
  }

  lemma FieldsRequested(volume: bool)
    ensures forall f :: f in Fields(volume) <==> Requested(f, volume)
  {
    forall f: Field ensures f in Fields(volume) <==> Requested(f, volume) {
      assert f.Open? || f.High? || f.Low? || f.Close? || f.VolumeBase?;
      assert Fields(volume)[..4] == [Open, High, Low, Close];
      assert Fields(volume)[0] == Open && Fields(volume)[1] == High && Fields(volume)[2] == Low && Fields(volume)[3] == Close;
    }
  }

  lemma StampRecords(left: Rows, right: Rows, s: Settings, at: int)
    requires ValidTolerances(s.tolerances)
    ensures var c := CompareStamp(left, right, s, at);
      && (forall d :: d in c.differences <==> ValueDiffers(left, right, s, at, d))
      && (forall m :: m in c.missing <==> m.0 == at && ValueMissing(left, right, s, at, m.1))
  {
    FieldsRequested(s.volume);
    hide FieldDiffers, FieldMissing, CompareFields, Fields, Requested;
    if Common(left, right, at) {
      var a, b, t, fields := left[at], right[at], s.tolerances, Fields(s.volume);
      FieldsRecord(a, b, at, fields, t);
      forall d ensures SomeFieldDiffers(a, b, at, fields, t, d) <==> ValueDiffers(left, right, s, at, d) {
        if f :| f in fields && FieldDiffers(a, b, at, f, t, d) {
          assert Requested(f, s.volume);
        }
        if f :| Requested(f, s.volume) && FieldDiffers(a, b, at, f, t, d) {
          assert f in fields;
        }
      }
    }
  }

  lemma {:induction false} ValuesRecord(left: Rows, right: Rows, s: Settings, n: nat)
    requires ValidTolerances(s.tolerances)
    ensures var c := CompareValues(left, right, s, n);
      && (forall d :: d in c.differences <==> SomeValueDiffers(left, right, s, n, d))
      && (forall m :: m in c.missing <==> exists i :: 0 <= i < n && m.0 == MinuteAt(s, i) && ValueMissing(left, right, s, m.0, m.1))
  {
    hide ValueDiffers, ValueMissing, CompareStamp, ValidTolerances;
    if n > 0 {
      var at := Stamp(s, n - 1);
      ValuesRecord(left, right, s, n - 1);
      StampRecords(left, right, s, at);
      PlusMembers(CompareValues(left, right, s, n - 1), CompareStamp(left, right, s, at));
      assert MinuteAt(s, n - 1) == at;
      hide MinuteAt, CompareValues, Plus;
      forall d ensures SomeValueDiffers(left, right, s, n, d) <==>
        SomeValueDiffers(left, right, s, n - 1, d) || ValueDiffers(left, right, s, at, d)
      {
        if ValueDiffers(left, right, s, at, d) {
          assert ValueDiffers(left, right, s, MinuteAt(s, n - 1), d);
        }
      }
    }
  }

  /** A requested value of one of the first n minutes is beyond tolerance. */
  ghost predicate SomeValueDiffers(left: Rows, right: Rows, s: Settings, n: int, d: Difference) {
    exists i :: 0 <= i < n && ValueDiffers(left, right, s, MinuteAt(s, i), d)
  }

  // ----- returns -----

  /** Both snapshots have the minute and the one a return horizon before it. */
  predicate HasReturn(left: Rows, right: Rows, s: Settings, at: int) {
    var from := at - 60 * s.returnMinutes;
    at in left && from in left && at in right && from in right
  }

  /** The log returns over the horizon differ by more than the tolerance. */
  ghost predicate ReturnDiffers(left: Rows, right: Rows, s: Settings, at: int, d: Difference)
    requires Positive(left) && Positive(right)
  {
    && HasReturn(left, right, s, at) && d.ReturnDifference?
    && d.start == at - 60 * s.returnMinutes + 60 && d.end == at + 60
    && d.left == s.ln(left[at].close / left[at - 60 * s.returnMinutes].close)
    && d.right == s.ln(right[at].close / right[at - 60 * s.returnMinutes].close)
    && d.bps == 10000.0 * Gap(d.left, d.right) && d.bps > s.tolerances.returnBps
  }

  lemma ReturnRecords(left: Rows, right: Rows, s: Settings, at: int)
    requires Positive(left) && Positive(right)
    ensures var c := CompareReturn(left, right, s, at);
      && (forall d :: d in c.differences <==> ReturnDiffers(left, right, s, at, d))
      && (forall u :: u in c.unpaired <==> u == at + 60 && !HasReturn(left, right, s, at))
      && c.missing == []
  {
  }

  lemma {:induction false} ReturnsRecord(left: Rows, right: Rows, s: Settings, n: nat)
    requires Positive(left) && Positive(right)
    ensures var c := CompareReturns(left, right, s, n);
      && (forall d :: d in c.differences <==>
            exists i :: s.returnMinutes <= i < n && ReturnDiffers(left, right, s, MinuteAt(s, i), d))
      && (forall u :: u in c.unpaired <==>
            exists i :: s.returnMinutes <= i < n && u == MinuteAt(s, i) + 60 && !HasReturn(left, right, s, MinuteAt(s, i)))
      && c.missing == []
  {
    hide ReturnDiffers, HasReturn, CompareReturn, Positive;
    if n > s.returnMinutes {
      var at := Stamp(s, n - 1);
      ReturnsRecord(left, right, s, n - 1);
      ReturnRecords(left, right, s, at);
      PlusMembers(CompareReturns(left, right, s, n - 1), CompareReturn(left, right, s, at));
      assert MinuteAt(s, n - 1) == at;
      hide MinuteAt;
    }
  }

  // ----- the whole comparison -----

  /**
   The recorded differences are exactly the requested values of common minutes that exceed both their
   absolute and their relative tolerance, and the returns that exceed theirs; the recorded gaps are
   exactly the requested values one side lacks and the minutes without a return on both sides.
   */
  lemma RecordsAreExact(left: Rows, right: Rows, s: Settings)
    requires Positive(left) && Positive(right) && ValidTolerances(s.tolerances)
    ensures var c := Compare(left, right, s);
      && (forall d :: d in c.differences <==>
            || SomeValueDiffers(left, right, s, s.count, d)
            || (exists i :: s.returnMinutes <= i < s.count && ReturnDiffers(left, right, s, MinuteAt(s, i), d)))
      && (forall m :: m in c.missing <==>
            exists i :: 0 <= i < s.count && m.0 == MinuteAt(s, i) && ValueMissing(left, right, s, m.0, m.1))
      && (forall u :: u in c.unpaired <==>
            exists i :: s.returnMinutes <= i < s.count && u == MinuteAt(s, i) + 60 && !HasReturn(left, right, s, MinuteAt(s, i)))
  {
    hide ReturnDiffers, HasReturn, Positive, CompareValues, CompareReturns, ValueDiffers, ValueMissing, MinuteAt;
    ValuesRecord(left, right, s, s.count);
    ReturnsRecord(left, right, s, s.count);
    PlusMembers(CompareValues(left, right, s, s.count), CompareReturns(left, right, s, s.count));
    hide ValidTolerances;
    NothingUnpaired(left, right, s, s.count);
  }

  lemma {:induction false} NothingUnpaired(left: Rows, right: Rows, s: Settings, n: nat)
    ensures CompareValues(left, right, s, n).unpaired == []
  {
    ValuesReconcile(left, right, s, n);
  }

  predicate Looser(t: Tolerances, u: Tolerances) {
    && t.priceAbs <= u.priceAbs && t.priceRel <= u.priceRel && t.volumeAbs <= u.volumeAbs && t.volumeRel <= u.volumeRel
    && t.returnBps <= u.returnBps
  }

  /** Raising any tolerance never adds a difference. */
  lemma RaisingNeverAdds(left: Rows, right: Rows, s: Settings, u: Tolerances)
    requires Positive(left) && Positive(right) && ValidTolerances(s.tolerances) && Looser(s.tolerances, u)
    ensures forall d :: d in Compare(left, right, s.(tolerances := u)).differences ==> d in Compare(left, right, s).differences
  {
    var t := s.(tolerances := u);
    RecordsAreExact(left, right, s);
    RecordsAreExact(left, right, t);
    hide Compare, Positive;
    forall at, d | ValueDiffers(left, right, t, at, d) ensures ValueDiffers(left, right, s, at, d) {
      var f :| Requested(f, s.volume) && FieldDiffers(left[at], right[at], at, f, u, d);
      StillBeyond(f, d.left, d.right, s.tolerances, u);
      assert FieldDiffers(left[at], right[at], at, f, s.tolerances, d);
    }
    forall at, d | ReturnDiffers(left, right, t, at, d) ensures ReturnDiffers(left, right, s, at, d) {}
    hide ValueDiffers, ReturnDiffers;
    assert forall i :: MinuteAt(t, i) == MinuteAt(s, i);
  }

  lemma StillBeyond(f: Field, a: real, b: real, t: Tolerances, u: Tolerances)
    requires Looser(t, u) && BeyondField(f, a, b, u)
    ensures BeyondField(f, a, b, t)
  {
    var size := Size(a) + Size(b);
    assert size >= 0.0;
    Grows(t.priceRel, u.priceRel, size);
    Grows(t.volumeRel, u.volumeRel, size);
    hide Size, Gap;
  }

  lemma Grows(x: real, y: real, z: real)
    requires x <= y && z >= 0.0
    ensures x * z <= y * z
  {
  }

  // ----- counts and outcome -----

  function CommonMinutes(left: Rows, right: Rows, s: Settings, n: nat): set<int> {
    set i | 0 <= i < n && MinuteAt(s, i) in left && MinuteAt(s, i) in right :: i
  }

  /** The published count is how many expected minutes both snapshots have. */
  lemma {:induction false} CommonIsCount(left: Rows, right: Rows, s: Settings, n: nat)
    ensures CommonCount(left, right, s, n) == |CommonMinutes(left, right, s, n)|
  {
    if n > 0 {
      CommonIsCount(left, right, s, n - 1);
      var before, here := CommonMinutes(left, right, s, n - 1), Common(left, right, Stamp(s, n - 1));
      assert MinuteAt(s, n - 1) == Stamp(s, n - 1) && n - 1 !in before;
      assert CommonMinutes(left, right, s, n) == if here then before + {n - 1} else before;
    }
  }

  /** The expected minutes outside a set are listed in time order. */
  lemma {:induction false} OutsideMeans(s: Settings, loaded: set<int>, n: nat)
    ensures forall x :: x in Outside(s, loaded, n) <==> x !in loaded && exists i :: 0 <= i < n && x == MinuteAt(s, i)
    ensures forall i, j :: 0 <= i < j < |Outside(s, loaded, n)| ==> Outside(s, loaded, n)[i] < Outside(s, loaded, n)[j]
  {
    if n > 0 {
      OutsideMeans(s, loaded, n - 1);
      var before, last := Outside(s, loaded, n - 1), MinuteAt(s, n - 1);
      assert last == Stamp(s, n - 1);
      forall i | 0 <= i < |before| ensures before[i] < last {
        assert before[i] in before;
      }
    }
  }

  /** The outcome is unverified without a common minute or a return on both sides; then differences win over gaps. */
  lemma OutcomeMeans(common: nat, tally: Tally, complete: bool)
    ensures OutcomeOf(common, tally, complete) == Unverified <==> common == 0 || tally.pairs == 0
    ensures OutcomeOf(common, tally, complete) == Differences <==> common > 0 && tally.pairs > 0 && tally.differences != []
    ensures OutcomeOf(common, tally, complete) == Incomplete <==>
      common > 0 && tally.pairs > 0 && tally.differences == [] && !complete
  {
  }

  /**
   Two files are audited exactly if both hold one and the same series and the window consists of whole
   minutes, is closed by as-of, is longer than the return horizon and at most a week.
   */
  lemma AuditableMeans(left: File, right: File, w: Window, returnMinutes: int, t: Tolerances)
    ensures Auditable(left, right, w, returnMinutes, t) <==>
      && left.series.Some? && right.series == left.series && ValidTolerances(t)
      && w.start % 60 == 0 && w.end % 60 == 0 && w.end <= w.asOf
      && returnMinutes >= 1 && 60 * returnMinutes < w.end - w.start <= 604_800
  {
    if w.start % 60 == 0 && w.end % 60 == 0 {
      assert (w.end - w.start) / 60 * 60 == w.end - w.start;
    }
  }
}
