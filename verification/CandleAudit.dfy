/**
 Reconciliation of two loaded snapshots of one series over a window of minutes. The natural
 logarithm is any function of a positive ratio.
 */
module CandleAudit {
  import opened Prelude
  import opened Snapshot

  datatype Field = Open | High | Low | Close | VolumeBase

  datatype Tolerances = Tolerances(priceAbs: real, priceRel: real, volumeAbs: real, volumeRel: real, returnBps: real)

  type Rows = map<int, Candle>

  datatype Difference = ValueDifference(bucket: int, field: Field, left: real, right: real, absolute: real, bps: real)
                      | ReturnDifference(start: int, end: int, left: real, right: real, bps: real)

  /** The settings of one audit: `count` expected minutes from `start`. */
  datatype Settings = Settings(start: int, count: nat, returnMinutes: nat, volume: bool, tolerances: Tolerances, ln: real -> real)

  function Value(c: Candle, f: Field): Option<real> {
    match f
    case Open => Some(c.open)
    case High => Some(c.high)
    case Low => Some(c.low)
    case Close => Some(c.close)
    case VolumeBase => c.volumeBase
  }

  function Fields(volume: bool): seq<Field> {
    [Open, High, Low, Close] + if volume then [VolumeBase] else []
  }

  function FieldCount(volume: bool): (n: nat)
    ensures n == |Fields(volume)|
  {
    if volume then 5 else 4
  }

  function Abs(x: real): (a: real)
    ensures a >= 0.0
  {
    if x < 0.0 then -x else x
  }

  /** Absolute difference, and the difference relative to the mean magnitude. */
  function Differ(a: real, b: real): (real, real) {
    var denominator := (Abs(a) + Abs(b)) / 2.0;
    (Abs(a - b), if denominator != 0.0 then Abs(a - b) / denominator else 0.0)
  }

  /** A value difference counts when it exceeds the absolute and the relative tolerance. */
  predicate Exceeds(f: Field, a: real, b: real, t: Tolerances) {
    var d := Differ(a, b);
    if f == VolumeBase then d.0 > t.volumeAbs && d.1 > t.volumeRel else d.0 > t.priceAbs && d.1 > t.priceRel
  }

  /** The relative difference of magnitudes is at most two, and zero exactly for equal values. */
  lemma DifferMeans(a: real, b: real)
    ensures Differ(a, b).0 == 0.0 <==> a == b
    ensures Differ(a, b).1 == 0.0 <==> a == b
    ensures 0.0 <= Differ(a, b).1 <= 2.0
  {
    var mean := (Abs(a) + Abs(b)) / 2.0;
    assert Abs(a - b) <= 2.0 * mean;
    if mean != 0.0 {
      AtMostTwice(Abs(a - b), mean);
    }
  }

  lemma AtMostTwice(x: real, y: real)
    requires 0.0 <= x <= 2.0 * y && y > 0.0
    ensures 0.0 <= x / y <= 2.0 && (x / y == 0.0 <==> x == 0.0)
  {
    assert x / y * y == x;
  }

  /** Without tolerance, values agree only if they are equal. */
  lemma ExactWithoutTolerance(f: Field, a: real, b: real, t: Tolerances)
    requires t.priceAbs == 0.0 && t.priceRel == 0.0 && t.volumeAbs == 0.0 && t.volumeRel == 0.0
    ensures Exceeds(f, a, b, t) <==> a != b
  {
    DifferMeans(a, b);
  }

  /** What the comparison adds up to, in the order it is found. */
  datatype Tally = Tally(compared: nat, missing: seq<(int, Field)>, pairs: nat, unpaired: seq<int>, differences: seq<Difference>)

  function Plus(a: Tally, b: Tally): Tally {
    Tally(a.compared + b.compared, a.missing + b.missing, a.pairs + b.pairs, a.unpaired + b.unpaired, a.differences + b.differences)
  }

  const Nothing := Tally(0, [], 0, [], [])

  function CompareField(a: Candle, b: Candle, at: int, f: Field, t: Tolerances): Tally {
    var x, y := Value(a, f), Value(b, f);
    if x == None || y == None then Tally(0, [(at, f)], 0, [], [])
    else
      var d := Differ(x.value, y.value);
      Tally(1, [], 0, [], if Exceeds(f, x.value, y.value, t) then [ValueDifference(at, f, x.value, y.value, d.0, 10000.0 * d.1)] else [])
  }

  function CompareFields(a: Candle, b: Candle, at: int, fields: seq<Field>, t: Tolerances): Tally {
    if fields == [] then Nothing
    else Plus(CompareFields(a, b, at, fields[..|fields| - 1], t), CompareField(a, b, at, fields[|fields| - 1], t))
  }

  function Stamp(s: Settings, i: nat): int {
    s.start + 60 * i
  }

  predicate Common(left: Rows, right: Rows, at: int) {
    at in left && at in right
  }

  function CommonCount(left: Rows, right: Rows, s: Settings, n: nat): nat {
    if n == 0 then 0 else CommonCount(left, right, s, n - 1) + if Common(left, right, Stamp(s, n - 1)) then 1 else 0
  }

  function CompareStamp(left: Rows, right: Rows, s: Settings, at: int): Tally {
    if Common(left, right, at) then CompareFields(left[at], right[at], at, Fields(s.volume), s.tolerances) else Nothing
  }

  /** The values of the first n minutes. */
  function CompareValues(left: Rows, right: Rows, s: Settings, n: nat): Tally {
    if n == 0 then Nothing else Plus(CompareValues(left, right, s, n - 1), CompareStamp(left, right, s, Stamp(s, n - 1)))
  }

  predicate Paired(left: Rows, right: Rows, s: Settings, at: int) {
    Common(left, right, at) && Common(left, right, at - 60 * s.returnMinutes)
  }

  function LogReturn(rows: Rows, s: Settings, at: int): real
    requires at in rows && at - 60 * s.returnMinutes in rows && rows[at - 60 * s.returnMinutes].close > 0.0
  {
    s.ln(rows[at].close / rows[at - 60 * s.returnMinutes].close)
  }

  ghost predicate Positive(rows: Rows) {
    forall at :: at in rows ==> rows[at].close > 0.0
  }

  function CompareReturn(left: Rows, right: Rows, s: Settings, at: int): Tally
    requires Positive(left) && Positive(right)
  {
    if !Paired(left, right, s, at) then Tally(0, [], 0, [at + 60], [])
    else
      var x, y := LogReturn(left, s, at), LogReturn(right, s, at);
      var bps := Abs(x - y) * 10000.0;
      Tally(0, [], 1, [], if bps > s.tolerances.returnBps
        then [ReturnDifference(at - 60 * s.returnMinutes + 60, at + 60, x, y, bps)] else [])
  }

  /** The returns ending in the minutes from the return horizon up to n. */
  function CompareReturns(left: Rows, right: Rows, s: Settings, n: nat): Tally
    requires Positive(left) && Positive(right)
  {
    if n <= s.returnMinutes then Nothing
    else Plus(CompareReturns(left, right, s, n - 1), CompareReturn(left, right, s, Stamp(s, n - 1)))
  }

  function Compare(left: Rows, right: Rows, s: Settings): Tally
    requires Positive(left) && Positive(right)
  {
    Plus(CompareValues(left, right, s, s.count), CompareReturns(left, right, s, s.count))
  }

  datatype Outcome = Unverified | Differences | Incomplete | Match

  datatype Report = Report(outcome: Outcome, complete: bool, common: nat, tally: Tally, leftMissing: seq<int>, rightMissing: seq<int>,
    leftUnusable: seq<int>, rightUnusable: seq<int>)

  // ----- the audit loops -----

  method CompareCandles(a: Candle, b: Candle, at: int, volume: bool, t: Tolerances, before: Tally) returns (tally: Tally)
    ensures tally == Plus(before, CompareFields(a, b, at, Fields(volume), t))
  {
    hide CompareField;
    var fields := Fields(volume);
    tally := before;
    for i := 0 to |fields|
      invariant tally == Plus(before, CompareFields(a, b, at, fields[..i], t))
    {
      assert fields[..i + 1][..i] == fields[..i];
      tally := AddField(a, b, at, fields[i], t, tally);
      PlusAssociates(before, CompareFields(a, b, at, fields[..i], t), CompareField(a, b, at, fields[i], t));
    }
    assert fields[..|fields|] == fields;
  }

  method AddField(a: Candle, b: Candle, at: int, f: Field, t: Tolerances, before: Tally) returns (tally: Tally)
    ensures tally == Plus(before, CompareField(a, b, at, f, t))
  {
    hide Value, Exceeds, Differ;
    var x, y := Value(a, f), Value(b, f);
    tally := before;
    if x == None || y == None {
      return tally.(missing := tally.missing + [(at, f)]);
    }
    tally := tally.(compared := tally.compared + 1);
    if Exceeds(f, x.value, y.value, t) {
      var d := Differ(x.value, y.value);
      tally := tally.(differences := tally.differences + [ValueDifference(at, f, x.value, y.value, d.0, 10000.0 * d.1)]);
    }
  }

  method CompareSnapshots(left: Rows, right: Rows, s: Settings) returns (tally: Tally, common: nat)
    requires Positive(left) && Positive(right) && s.returnMinutes <= s.count
    ensures tally == Compare(left, right, s) && common == CommonCount(left, right, s, s.count)
  {
    hide CompareFields, CompareReturn;
    tally, common := Nothing, 0;
    for i := 0 to s.count
      invariant tally == CompareValues(left, right, s, i) && common == CommonCount(left, right, s, i)
    {
      var at := Stamp(s, i);
      if at in left && at in right {
        common := common + 1;
        tally := CompareCandles(left[at], right[at], at, s.volume, s.tolerances, tally);
      }
    }
    var values := tally;
    for i := s.returnMinutes to s.count
      invariant tally == Plus(values, CompareReturns(left, right, s, i))
    {
      tally := AddReturn(left, right, s, i, tally);
      PlusAssociates(values, CompareReturns(left, right, s, i), CompareReturn(left, right, s, Stamp(s, i)));
    }
  }

  method AddReturn(left: Rows, right: Rows, s: Settings, i: nat, before: Tally) returns (tally: Tally)
    requires Positive(left) && Positive(right)
    ensures tally == Plus(before, CompareReturn(left, right, s, Stamp(s, i)))
  {
    var at := Stamp(s, i);
    var previous := at - 60 * s.returnMinutes;
    tally := before;
    if previous !in left || at !in left || previous !in right || at !in right {
      return tally.(unpaired := tally.unpaired + [at + 60]);
    }
    var x, y := s.ln(left[at].close / left[previous].close), s.ln(right[at].close / right[previous].close);
    var bps := Abs(x - y) * 10000.0;
    tally := tally.(pairs := tally.pairs + 1);
    if bps > s.tolerances.returnBps {
      tally := tally.(differences := tally.differences + [ReturnDifference(previous + 60, at + 60, x, y, bps)]);
    }
  }

  lemma PlusAssociates(a: Tally, b: Tally, c: Tally)
    ensures Plus(Plus(a, b), c) == Plus(a, Plus(b, c))
  {
  }

  /** The expected minutes outside a set. */
  function Outside(s: Settings, set_: set<int>, n: nat): seq<int> {
    if n == 0 then [] else Outside(s, set_, n - 1) + if Stamp(s, n - 1) in set_ then [] else [Stamp(s, n - 1)]
  }

  /** Nothing missing on either side, in any value, or in any return. */
  predicate Covered(s: Settings, common: nat, tally: Tally, left: Snapshot, right: Snapshot) {
    common == s.count && tally.missing == [] && tally.unpaired == [] && left.findings == [] && right.findings == []
  }

  method Audit(left: Snapshot, right: Snapshot, s: Settings) returns (r: Report)
    requires Positive(left.rows) && Positive(right.rows) && 1 <= s.returnMinutes < s.count
    ensures r.tally == Compare(left.rows, right.rows, s) && r.common == CommonCount(left.rows, right.rows, s, s.count)
    ensures r.complete <==> Covered(s, r.common, r.tally, left, right)
    ensures r.outcome == OutcomeOf(r.common, r.tally, r.complete)
    ensures r.leftMissing == Outside(s, left.present, s.count) && r.rightMissing == Outside(s, right.present, s.count)
    ensures r.leftUnusable == Outside(s, left.rows.Keys, s.count) && r.rightUnusable == Outside(s, right.rows.Keys, s.count)
  {
    hide Compare, CommonCount;
    var tally, common := CompareSnapshots(left.rows, right.rows, s);
    var incomplete := common != s.count || tally.missing != [] || tally.unpaired != [] || left.findings != [] || right.findings != [];
    var outcome;
    if common == 0 || tally.pairs == 0 {
      outcome := Unverified;
    } else if tally.differences != [] {
      outcome := Differences;
    } else if incomplete {
      outcome := Incomplete;
    } else {
      outcome := Match;
    }
    r := Report(outcome, !incomplete, common, tally, Outside(s, left.present, s.count), Outside(s, right.present, s.count),
      Outside(s, left.rows.Keys, s.count), Outside(s, right.rows.Keys, s.count));
  }

  function OutcomeOf(common: nat, tally: Tally, complete: bool): Outcome {
    if common == 0 || tally.pairs == 0 then Unverified
    else if tally.differences != [] then Differences
    else if !complete then Incomplete
    else Match
  }

  // ----- reconciliation -----

  /** Every requested value of a common minute is compared or missing. */
  lemma {:induction false} FieldsReconcile(a: Candle, b: Candle, at: int, fields: seq<Field>, t: Tolerances)
    ensures var c := CompareFields(a, b, at, fields, t); c.compared + |c.missing| == |fields| && c.pairs == 0 && c.unpaired == []
    ensures (forall i :: 0 <= i < |fields| ==> fields[i] != VolumeBase) ==> CompareFields(a, b, at, fields, t).missing == []
  {
    if fields != [] {
      FieldsReconcile(a, b, at, fields[..|fields| - 1], t);
    }
  }

  /** Only a requested volume can be missing. */
  lemma OnlyVolumeMissing(a: Candle, b: Candle, at: int, volume: bool, t: Tolerances)
    ensures var c := CompareFields(a, b, at, Fields(volume), t); |c.missing| <= 1 && (!volume ==> c.missing == [])
  {
    hide CompareField;
    var prices := Fields(false);
    FieldsReconcile(a, b, at, prices, t);
    if volume {
      assert Fields(true)[..4] == prices;
      assert |CompareField(a, b, at, VolumeBase, t).missing| <= 1 by { MissingAtMostOne(a, b, at, t); }
    }
  }

  lemma MissingAtMostOne(a: Candle, b: Candle, at: int, t: Tolerances)
    ensures |CompareField(a, b, at, VolumeBase, t).missing| <= 1
  {
  }

  /**
   Compared and missing values make up the common minutes times the fields; at most one value of a
   common minute is missing, and none unless volume was requested.
   */
  lemma {:induction false} ValuesReconcile(left: Rows, right: Rows, s: Settings, n: nat)
    ensures var c, common := CompareValues(left, right, s, n), CommonCount(left, right, s, n);
      && c.compared + |c.missing| == common * FieldCount(s.volume)
      && |c.missing| <= common && (!s.volume ==> c.missing == []) && c.pairs == 0 && c.unpaired == []
  {
    if n > 0 {
      hide CompareFields, Fields, Stamp;
      var at := Stamp(s, n - 1);
      ValuesReconcile(left, right, s, n - 1);
      if Common(left, right, at) {
        FieldsReconcile(left[at], right[at], at, Fields(s.volume), s.tolerances);
        OnlyVolumeMissing(left[at], right[at], at, s.volume, s.tolerances);
      }
    }
  }

  /** Compared and unavailable returns make up all minutes after the return horizon. */
  lemma {:induction false} ReturnsReconcile(left: Rows, right: Rows, s: Settings, n: nat)
    requires Positive(left) && Positive(right)
    ensures var c := CompareReturns(left, right, s, n);
      && c.pairs + |c.unpaired| == (if n <= s.returnMinutes then 0 else n - s.returnMinutes)
      && c.compared == 0 && c.missing == []
  {
    if n > s.returnMinutes {
      ReturnsReconcile(left, right, s, n - 1);
    }
  }

  lemma Reconciles(left: Rows, right: Rows, s: Settings)
    requires Positive(left) && Positive(right) && s.returnMinutes <= s.count
    ensures var c, common := Compare(left, right, s), CommonCount(left, right, s, s.count);
      && c.compared + |c.missing| == common * FieldCount(s.volume)
      && c.pairs + |c.unpaired| == s.count - s.returnMinutes
  {
    ValuesReconcile(left, right, s, s.count);
    ReturnsReconcile(left, right, s, s.count);
  }

  /** The published counts are derived from the totals, and agree with what the loop compared. */
  lemma DerivedCountsAgree(left: Rows, right: Rows, s: Settings)
    requires Positive(left) && Positive(right)
    ensures var c, common := Compare(left, right, s), CommonCount(left, right, s, s.count);
      var prices, volumes := common * 4, if s.volume then common - |c.missing| else 0;
      volumes >= 0 && prices + volumes == c.compared
  {
    ValuesReconcile(left, right, s, s.count);
    ReturnsReconcile(left, right, s, s.count);
  }

  // ----- swapping the inputs -----

  function Swap(d: Difference): Difference {
    match d
    case ValueDifference(at, f, l, r, a, bps) => ValueDifference(at, f, r, l, a, bps)
    case ReturnDifference(start, end, l, r, bps) => ReturnDifference(start, end, r, l, bps)
  }

  function SwapAll(ds: seq<Difference>): seq<Difference> {
    if ds == [] then [] else SwapAll(ds[..|ds| - 1]) + [Swap(ds[|ds| - 1])]
  }

  lemma {:induction false} SwapConcat(a: seq<Difference>, b: seq<Difference>)
    ensures SwapAll(a + b) == SwapAll(a) + SwapAll(b)
  {
    if b == [] {
      assert a + b == a;
    } else {
      assert (a + b)[..|a + b| - 1] == a + b[..|b| - 1];
      SwapConcat(a, b[..|b| - 1]);
    }
  }

  /** The tally with left and right exchanged in every difference. */
  function Mirror(t: Tally): Tally {
    t.(differences := SwapAll(t.differences))
  }

  lemma MirrorPlus(a: Tally, b: Tally)
    ensures Mirror(Plus(a, b)) == Plus(Mirror(a), Mirror(b)) && Mirror(Nothing) == Nothing
  {
    SwapConcat(a.differences, b.differences);
  }

  lemma DifferSymmetric(a: real, b: real)
    ensures Differ(a, b) == Differ(b, a)
  {
  }

  lemma FieldMirrors(a: Candle, b: Candle, at: int, f: Field, t: Tolerances)
    ensures CompareField(b, a, at, f, t) == Mirror(CompareField(a, b, at, f, t))
  {
    var x, y := Value(a, f), Value(b, f);
    if x.Some? && y.Some? {
      DifferSymmetric(x.value, y.value);
      hide Differ;
      var d := Differ(x.value, y.value);
      SwapOne(ValueDifference(at, f, x.value, y.value, d.0, 10000.0 * d.1));
    }
  }

  lemma SwapOne(d: Difference)
    ensures SwapAll([d]) == [Swap(d)] && SwapAll([]) == []
  {
  }

  lemma {:induction false} FieldsMirror(a: Candle, b: Candle, at: int, fields: seq<Field>, t: Tolerances)
    ensures CompareFields(b, a, at, fields, t) == Mirror(CompareFields(a, b, at, fields, t))
  {
    hide CompareField, Mirror;
    if fields != [] {
      var n := |fields| - 1;
      FieldsMirror(a, b, at, fields[..n], t);
      FieldMirrors(a, b, at, fields[n], t);
      MirrorPlus(CompareFields(a, b, at, fields[..n], t), CompareField(a, b, at, fields[n], t));
    } else {
      MirrorPlus(Nothing, Nothing);
    }
  }

  lemma {:induction false} ValuesMirror(left: Rows, right: Rows, s: Settings, n: nat)
    ensures CompareValues(right, left, s, n) == Mirror(CompareValues(left, right, s, n))
    ensures CommonCount(right, left, s, n) == CommonCount(left, right, s, n)
  {
    hide CompareFields, Mirror;
    MirrorPlus(Nothing, Nothing);
    if n > 0 {
      var at := Stamp(s, n - 1);
      ValuesMirror(left, right, s, n - 1);
      if Common(left, right, at) {
        FieldsMirror(left[at], right[at], at, Fields(s.volume), s.tolerances);
      }
      MirrorPlus(CompareValues(left, right, s, n - 1), CompareStamp(left, right, s, at));
    }
  }

  lemma ReturnMirrors(left: Rows, right: Rows, s: Settings, at: int)
    requires Positive(left) && Positive(right)
    ensures CompareReturn(right, left, s, at) == Mirror(CompareReturn(left, right, s, at))
  {
    if Paired(left, right, s, at) {
      var x, y := LogReturn(left, s, at), LogReturn(right, s, at);
      assert Abs(x - y) == Abs(y - x);
      SwapOne(ReturnDifference(at - 60 * s.returnMinutes + 60, at + 60, x, y, Abs(x - y) * 10000.0));
    }
  }

  lemma {:induction false} ReturnsMirror(left: Rows, right: Rows, s: Settings, n: nat)
    requires Positive(left) && Positive(right)
    ensures CompareReturns(right, left, s, n) == Mirror(CompareReturns(left, right, s, n))
  {
    hide CompareReturn, Mirror;
    MirrorPlus(Nothing, Nothing);
    if n > s.returnMinutes {
      ReturnsMirror(left, right, s, n - 1);
      ReturnMirrors(left, right, s, Stamp(s, n - 1));
      MirrorPlus(CompareReturns(left, right, s, n - 1), CompareReturn(left, right, s, Stamp(s, n - 1)));
    }
  }

  /** Exchanging the inputs exchanges the sides of every difference and changes nothing else. */
  lemma SwapMirrors(left: Rows, right: Rows, s: Settings)
    requires Positive(left) && Positive(right)
    ensures Compare(right, left, s) == Mirror(Compare(left, right, s))
    ensures CommonCount(right, left, s, s.count) == CommonCount(left, right, s, s.count)
  {
    hide CompareValues, CompareReturns, Mirror, CommonCount;
    ValuesMirror(left, right, s, s.count);
    ReturnsMirror(left, right, s, s.count);
    MirrorPlus(CompareValues(left, right, s, s.count), CompareReturns(left, right, s, s.count));
  }

  lemma SwapPreservesOutcome(left: Snapshot, right: Snapshot, s: Settings)
    requires Positive(left.rows) && Positive(right.rows)
    ensures var a, b := Compare(left.rows, right.rows, s), Compare(right.rows, left.rows, s);
      var common := CommonCount(left.rows, right.rows, s, s.count);
      && CommonCount(right.rows, left.rows, s, s.count) == common
      && Covered(s, common, a, left, right) == Covered(s, common, b, right, left)
      && OutcomeOf(common, a, Covered(s, common, a, left, right)) == OutcomeOf(common, b, Covered(s, common, b, right, left))
  {
    SwapMirrors(left.rows, right.rows, s);
    hide Compare, CommonCount;
  }

  // ----- what match means -----

  /** All requested values of all expected minutes are within tolerance, and so are all returns. */
  ghost predicate Agree(left: Rows, right: Rows, s: Settings)
    requires Positive(left) && Positive(right)
  {
    && (forall i: nat :: i < s.count ==> Common(left, right, Stamp(s, i)))
    && (forall i: nat :: i < s.count && Common(left, right, Stamp(s, i)) ==>
      ValuesAgree(left[Stamp(s, i)], right[Stamp(s, i)], Fields(s.volume), s.tolerances))
    && (forall i: nat :: s.returnMinutes <= i < s.count ==> ReturnAgrees(left, right, s, Stamp(s, i)))
  }

  predicate ValuesAgree(a: Candle, b: Candle, fields: seq<Field>, t: Tolerances) {
    forall f :: f in fields ==> FieldAgrees(a, b, f, t)
  }

  predicate FieldAgrees(a: Candle, b: Candle, f: Field, t: Tolerances) {
    Value(a, f).Some? && Value(b, f).Some? && !Exceeds(f, Value(a, f).value, Value(b, f).value, t)
  }

  ghost predicate ReturnAgrees(left: Rows, right: Rows, s: Settings, at: int)
    requires Positive(left) && Positive(right)
  {
    Paired(left, right, s, at) && Abs(LogReturn(left, s, at) - LogReturn(right, s, at)) * 10000.0 <= s.tolerances.returnBps
  }

  predicate Clean(t: Tally) {
    t.missing == [] && t.unpaired == [] && t.differences == []
  }

  lemma {:induction false} FieldsClean(a: Candle, b: Candle, at: int, fields: seq<Field>, t: Tolerances)
    ensures Clean(CompareFields(a, b, at, fields, t)) <==> ValuesAgree(a, b, fields, t)
  {
    hide Exceeds, Differ, Value;
    if fields != [] {
      var n := |fields| - 1;
      FieldsClean(a, b, at, fields[..n], t);
      assert fields == fields[..n] + [fields[n]];
      assert Clean(CompareField(a, b, at, fields[n], t)) <==> FieldAgrees(a, b, fields[n], t);
    }
  }

  lemma {:induction false} ValuesClean(left: Rows, right: Rows, s: Settings, n: nat)
    requires Positive(left) && Positive(right) && CommonCount(left, right, s, n) == n
    ensures forall i: nat :: i < n ==> Common(left, right, Stamp(s, i))
    ensures Clean(CompareValues(left, right, s, n)) <==>
      forall i: nat :: i < n ==> Common(left, right, Stamp(s, i)) ==>
        ValuesAgree(left[Stamp(s, i)], right[Stamp(s, i)], Fields(s.volume), s.tolerances)
  {
    hide CompareFields, ValuesAgree, Fields, Stamp;
    if n > 0 {
      var at := Stamp(s, n - 1);
      CommonAtMost(left, right, s, n - 1);
      ValuesClean(left, right, s, n - 1);
      FieldsClean(left[at], right[at], at, Fields(s.volume), s.tolerances);
    }
  }

  lemma {:induction false} CommonAtMost(left: Rows, right: Rows, s: Settings, n: nat)
    ensures CommonCount(left, right, s, n) <= n
    ensures (forall i: nat :: i < n ==> Common(left, right, Stamp(s, i))) ==> CommonCount(left, right, s, n) == n
  {
    if n > 0 {
      CommonAtMost(left, right, s, n - 1);
    }
  }

  lemma {:induction false} ReturnsClean(left: Rows, right: Rows, s: Settings, n: nat)
    requires Positive(left) && Positive(right)
    ensures Clean(CompareReturns(left, right, s, n)) <==>
      forall i: nat :: s.returnMinutes <= i < n ==> ReturnAgrees(left, right, s, Stamp(s, i))
  {
    hide Stamp, CompareReturn, ReturnAgrees;
    if n > s.returnMinutes {
      ReturnsClean(left, right, s, n - 1);
      ReturnClean(left, right, s, Stamp(s, n - 1));
    }
  }

  lemma ReturnClean(left: Rows, right: Rows, s: Settings, at: int)
    requires Positive(left) && Positive(right)
    ensures Clean(CompareReturn(left, right, s, at)) <==> ReturnAgrees(left, right, s, at)
  {
  }

  /** "match" is exactly: both snapshots are spotless and agree everywhere within tolerance. */
  lemma MatchMeansAgreement(left: Snapshot, right: Snapshot, s: Settings)
    requires Positive(left.rows) && Positive(right.rows) && 1 <= s.returnMinutes < s.count
    ensures var tally, common := Compare(left.rows, right.rows, s), CommonCount(left.rows, right.rows, s, s.count);
      OutcomeOf(common, tally, Covered(s, common, tally, left, right)) == Match <==>
        left.findings == [] && right.findings == [] && Agree(left.rows, right.rows, s)
  {
    var l, r := left.rows, right.rows;
    hide Stamp, ReturnAgrees, ValuesAgree, CompareValues, CompareReturns, CommonCount;
    CommonAtMost(l, r, s, s.count);
    ReturnsClean(l, r, s, s.count);
    Reconciles(l, r, s);
    if CommonCount(l, r, s, s.count) == s.count {
      ValuesClean(l, r, s, s.count);
    }
  }

  /** Loaded rows are fit to be compared. */
  lemma LoadedRowsPositive(rows: Rows, present: set<int>, records: seq<Record>, w: Window, version: int)
    requires Loads(rows, present, records, w, version)
    ensures Positive(rows)
  {
  }

  /** The expected minutes that some record names and that are not usable. */
  function Spoilt(s: Settings, rows: set<int>, present: set<int>, n: nat): seq<int> {
    if n == 0 then [] else Spoilt(s, rows, present, n - 1) + SpoiltAt(Stamp(s, n - 1), rows, present)
  }

  function SpoiltAt(at: int, rows: set<int>, present: set<int>): seq<int> {
    if at in present && at !in rows then [at] else []
  }

  /** Unusable minutes less missing ones, as published, are exactly the named but unusable minutes. */
  lemma {:induction false} InvalidBars(s: Settings, rows: set<int>, present: set<int>, n: nat)
    requires rows <= present
    ensures |Outside(s, rows, n)| - |Outside(s, present, n)| == |Spoilt(s, rows, present, n)|
  {
    if n > 0 {
      InvalidBars(s, rows, present, n - 1);
    }
  }

  // ----- two saved files -----

  const MAX_WINDOW_MINUTES := 7 * 24 * 60

  /** The market, units and definition a file says it holds. */
  datatype Series = Series(version: int, description: nat)

  /** A saved file; one whose header is not that of a snapshot has no series. */
  datatype File = File(series: Option<Series>, records: seq<Record>)

  predicate ValidTolerances(t: Tolerances) {
    t.priceAbs >= 0.0 && t.priceRel >= 0.0 && t.volumeAbs >= 0.0 && t.volumeRel >= 0.0 && t.returnBps >= 0.0
  }

  /** The request and the files can be audited: whole minutes, closed at as-of, within limits, and one series. */
  predicate Auditable(left: File, right: File, w: Window, returnMinutes: int, t: Tolerances) {
    && w.start % 60 == 0 && w.end % 60 == 0
    && 1 <= returnMinutes < (w.end - w.start) / 60 <= MAX_WINDOW_MINUTES && w.end <= w.asOf && ValidTolerances(t)
    && left.series.Some? && right.series.Some? && left.series == right.series
  }

  /** The audit of two files: refused, or a report over what they load. */
  method AuditFiles(left: File, right: File, w: Window, returnMinutes: int, volume: bool, t: Tolerances, ln: real -> real)
    returns (report: Option<Report>, l: Snapshot, r: Snapshot, s: Settings)
    ensures report == None <==> !Auditable(left, right, w, returnMinutes, t)
    ensures report.Some? ==> s == Settings(w.start, (w.end - w.start) / 60, returnMinutes, volume, t, ln)
    ensures report.Some? ==> Loads(l.rows, l.present, left.records, w, left.series.value.version)
    ensures report.Some? ==> Loads(r.rows, r.present, right.records, w, right.series.value.version)
    ensures report.Some? ==> Positive(l.rows) && Positive(r.rows) && report.value.tally == Compare(l.rows, r.rows, s)
    ensures report.Some? ==> (report.value.outcome == Match <==>
      Spotless(left.records, w, left.series.value.version) && Spotless(right.records, w, right.series.value.version)
      && Agree(l.rows, r.rows, s))
  {
    hide Loads, Spotless, Compare, Agree, Positive, OutcomeOf, Covered, CommonCount, Outside;
    report, l, r := None, Snapshot(map[], {}, [], 0), Snapshot(map[], {}, [], 0);
    s := Settings(0, 0, 0, volume, t, ln);
    var count := (w.end - w.start) / 60;
    if w.start % 60 != 0 || w.end % 60 != 0 {
      return;
    }
    if !(1 <= returnMinutes < count <= MAX_WINDOW_MINUTES) || w.end > w.asOf || !ValidTolerances(t) {
      return;
    }
    if left.series == None || right.series == None {
      return;
    }
    l := LoadSnapshot(left.records, w, left.series.value.version);
    r := LoadSnapshot(right.records, w, right.series.value.version);
    if left.series != right.series {
      return;
    }
    s := Settings(w.start, count, returnMinutes, volume, t, ln);
    LoadedRowsPositive(l.rows, l.present, left.records, w, left.series.value.version);
    LoadedRowsPositive(r.rows, r.present, right.records, w, right.series.value.version);
    var audited := Audit(l, r, s);
    MatchMeansAgreement(l, r, s);
    report := Some(audited);
  }
}
