/**
 Settlement of one decision over a horizon from closed minute bars: the reference outcome of each
 asset, and how long each took to move as far as the top decile did.
 */
module Settlement {
  import opened Prelude
  import opened Bundles
  import opened OutcomeReader

  datatype Decision = Decision(mapVersion: nat, decisionAt: int)

  /** An asset's features: excluded or invalid identities are not eligible. */
  datatype Feature = Feature(asset: nat, eligible: bool, referenceKey: Option<nat>)

  /** An offline input; `family` of a key is the key without its revision. */
  datatype Reader = Reader(mapVersion: nat, keys: set<nat>, family: nat -> nat, data: Data)

  datatype Reason = HorizonPending | ReferenceIneligible | MapChanged | RevisionChanged | BaselineUnavailable | FutureBarGap

  datatype Outcome = Unsettled(reason: Reason) | Ready(maxAbsReturn: real, closeReturn: real)

  /** Bars end on minutes and prices are positive. */
  predicate ValidBars(bars: seq<Bar>) {
    OnePerMinute(bars) && forall b :: b in bars ==> b.at % MINUTE == 0 && b.value.low > 0.0 && b.value.close > 0.0
  }

  function Abs(x: real): real {
    if x < 0.0 then -x else x
  }

  function Return(value: real, price: real): real
    requires price > 0.0
  {
    100.0 * (value / price - 1.0)
  }

  /** How far a bar's extremes are from the baseline, in percent. */
  function Move(bar: Bar, price: real): (m: real)
    requires price > 0.0
    ensures m >= 0.0
  {
    var up, down := Abs(Return(bar.value.high, price)), Abs(Return(bar.value.low, price));
    if up < down then down else up
  }

  /** No price the bar may have had is further from the baseline than its move, and one is as far. */
  lemma MoveIsFurthest(bar: Bar, price: real)
    requires price > 0.0 && bar.value.low <= bar.value.high
    ensures forall v :: bar.value.low <= v <= bar.value.high ==> Abs(Return(v, price)) <= Move(bar, price)
    ensures exists v :: bar.value.low <= v <= bar.value.high && Abs(Return(v, price)) == Move(bar, price)
  {
    forall v | bar.value.low <= v <= bar.value.high ensures Abs(Return(v, price)) <= Move(bar, price) {
      ReturnGrows(bar.value.low, v, price);
      ReturnGrows(v, bar.value.high, price);
    }
    var high, low := bar.value.high, bar.value.low;
    assert Abs(Return(high, price)) == Move(bar, price) || Abs(Return(low, price)) == Move(bar, price);
    assert bar.value.low <= high <= bar.value.high && bar.value.low <= low <= bar.value.high;
  }

  lemma ReturnGrows(a: real, b: real, price: real)
    requires price > 0.0 && a <= b
    ensures Return(a, price) <= Return(b, price)
  {
    assert a / price * price == a && b / price * price == b;
  }

  // ----- what settlement means, bar by bar -----

  predicate HasBar(reader: Reader, key: nat, at: int) {
    exists b :: b in reader.data.bars && b.key == key && b.at == at
  }

  /** Why an asset has no reference outcome, if it has none. */
  ghost function Verdict(d: Decision, f: Feature, reader: Reader, horizon: nat, now: int): Option<Reason> {
    var cutoff := OutcomeCutoff(d.decisionAt);
    if now < cutoff + horizon * MINUTE then Some(HorizonPending)
    else if !f.eligible || f.referenceKey == None then Some(ReferenceIneligible)
    else if reader.mapVersion != d.mapVersion then Some(MapChanged)
    else
      var key := f.referenceKey.value;
      if OnlyOtherRevision(reader, key) then Some(RevisionChanged)
      else if !HasBar(reader, key, cutoff) then Some(BaselineUnavailable)
      else if !Unbroken(reader, key, cutoff, horizon) then Some(FutureBarGap)
      else None
  }

  predicate OnlyOtherRevision(reader: Reader, key: nat) {
    key !in reader.keys && exists other :: other in reader.keys && reader.family(other) == reader.family(key)
  }

  /** Every minute of the horizon has its bar. */
  ghost predicate Unbroken(reader: Reader, key: nat, cutoff: int, horizon: nat) {
    forall m: nat :: 1 <= m <= horizon ==> HasBar(reader, key, cutoff + m * MINUTE)
  }

  ghost predicate IsBar(reader: Reader, key: nat, after: int, through: int, b: Bar) {
    b in reader.data.bars && b.key == key && after < b.at <= through
  }

  /** The settled outcome: largest move of any bar of the horizon, and the return of its last close. */
  ghost predicate Settled(d: Decision, f: Feature, reader: Reader, horizon: nat, now: int, outcome: Outcome) {
    var cutoff := OutcomeCutoff(d.decisionAt);
    var through := cutoff + horizon * MINUTE;
    match Verdict(d, f, reader, horizon, now)
    case Some(reason) => outcome == Unsettled(reason)
    case None => outcome.Ready? && SomeMeasure(reader, f.referenceKey.value, cutoff, through, outcome)
  }

  ghost predicate SomeMeasure(reader: Reader, key: nat, cutoff: int, through: int, outcome: Outcome)
    requires outcome.Ready?
  {
    exists base, last :: Measured(reader, key, cutoff, through, base, last, outcome)
  }

  ghost predicate Measured(reader: Reader, key: nat, cutoff: int, through: int, base: Bar, last: Bar, outcome: Outcome)
    requires outcome.Ready?
  {
    && IsBar(reader, key, cutoff - MINUTE, cutoff, base) && base.at == cutoff && base.value.close > 0.0
    && IsBar(reader, key, cutoff, through, last) && last.at == through
    && outcome.closeReturn == Return(last.value.close, base.value.close)
    && (forall b :: IsBar(reader, key, cutoff, through, b) ==> Move(b, base.value.close) <= outcome.maxAbsReturn)
    && (exists b :: IsBar(reader, key, cutoff, through, b) && Move(b, base.value.close) == outcome.maxAbsReturn)
  }

  /** The readers hold the same bars of a key in (after, through]. */
  ghost predicate AgreeOn(a: Reader, b: Reader, key: nat, after: int, through: int) {
    && a.mapVersion == b.mapVersion && a.keys == b.keys && a.family == b.family
    && (forall x :: IsBar(a, key, after, through, x) <==> IsBar(b, key, after, through, x))
  }

  /**
   The outcome is a function of the bars of the asset's own reference in (cutoff - MINUTE, through]:
   any other bar may change without changing it.
   */
  lemma OutcomeIsLocal(d: Decision, f: Feature, a: Reader, b: Reader, horizon: nat, now: int, x: Outcome, y: Outcome)
    requires ValidBars(a.data.bars) && ValidBars(b.data.bars)
    requires Settled(d, f, a, horizon, now, x) && Settled(d, f, b, horizon, now, y)
    requires var cutoff := OutcomeCutoff(d.decisionAt);
      f.referenceKey.Some? ==> AgreeOn(a, b, f.referenceKey.value, cutoff - MINUTE, cutoff + horizon * MINUTE)
    requires a.mapVersion == b.mapVersion
    ensures x == y
  {
    if f.referenceKey.Some? {
      SameVerdict(d, f, a, b, horizon, now);
      if Verdict(d, f, a, horizon, now) == None {
        var key, cutoff := f.referenceKey.value, OutcomeCutoff(d.decisionAt);
        var through := cutoff + horizon * MINUTE;
        var base, last :| Measured(a, key, cutoff, through, base, last, x);
        var base', last' :| Measured(b, key, cutoff, through, base', last', y);
        SameMeasure(a, b, key, cutoff, through, base, last, x, base', last', y);
      }
    }
  }

  lemma SameVerdict(d: Decision, f: Feature, a: Reader, b: Reader, horizon: nat, now: int)
    requires f.referenceKey.Some?
    requires var cutoff := OutcomeCutoff(d.decisionAt);
      AgreeOn(a, b, f.referenceKey.value, cutoff - MINUTE, cutoff + horizon * MINUTE)
    ensures Verdict(d, f, a, horizon, now) == Verdict(d, f, b, horizon, now)
  {
    var key, cutoff := f.referenceKey.value, OutcomeCutoff(d.decisionAt);
    SameBars(a, b, key, cutoff - MINUTE, cutoff + horizon * MINUTE);
    assert OnlyOtherRevision(a, key) == OnlyOtherRevision(b, key);
    assert HasBar(a, key, cutoff) == HasBar(b, key, cutoff);
    assert forall m: nat :: 1 <= m <= horizon ==> HasBar(a, key, cutoff + m * MINUTE) == HasBar(b, key, cutoff + m * MINUTE);
  }

  lemma SameBars(a: Reader, b: Reader, key: nat, after: int, through: int)
    requires AgreeOn(a, b, key, after, through)
    ensures forall at :: after < at <= through ==> HasBar(a, key, at) == HasBar(b, key, at)
  {
    forall at | after < at <= through ensures HasBar(a, key, at) == HasBar(b, key, at) {
      if HasBar(a, key, at) {
        var x :| x in a.data.bars && x.key == key && x.at == at;
        assert IsBar(b, key, after, through, x);
      }
      if HasBar(b, key, at) {
        var x :| x in b.data.bars && x.key == key && x.at == at;
        assert IsBar(a, key, after, through, x);
      }
    }
  }

  lemma SameMeasure(a: Reader, b: Reader, key: nat, cutoff: int, through: int,
      base: Bar, last: Bar, x: Outcome, base': Bar, last': Bar, y: Outcome)
    requires ValidBars(b.data.bars) && AgreeOn(a, b, key, cutoff - MINUTE, through) && cutoff <= through
    requires x.Ready? && Measured(a, key, cutoff, through, base, last, x)
    requires y.Ready? && Measured(b, key, cutoff, through, base', last', y)
    ensures x == y
  {
    assert IsBar(b, key, cutoff - MINUTE, through, base) && IsBar(b, key, cutoff - MINUTE, through, last);
    OneBar(b.data.bars, base, base');
    OneBar(b.data.bars, last, last');
    forall bar ensures IsBar(a, key, cutoff, through, bar) <==> IsBar(b, key, cutoff, through, bar) {
      assert IsBar(a, key, cutoff - MINUTE, through, bar) <==> IsBar(b, key, cutoff - MINUTE, through, bar);
    }
  }

  lemma OneBar(bars: seq<Bar>, x: Bar, y: Bar)
    requires OnePerMinute(bars) && x in bars && y in bars && x.key == y.key && x.at == y.at
    ensures x == y
  {
  }

  // ----- settling one asset -----

  /** The bars end at every minute of the horizon, in order. */
  predicate EveryMinute(bars: seq<Bar>, cutoff: int, horizon: nat) {
    |bars| == horizon && forall i :: 0 <= i < |bars| ==> bars[i].at == cutoff + (i + 1) * MINUTE
  }

  ghost predicate Answered(reader: Reader, key: nat, after: int, through: int, bars: seq<Bar>) {
    Answers(ToSet(reader.data.bars), key, after, through, bars)
  }

  lemma {:induction false} MinuteByMinute(reader: Reader, key: nat, cutoff: int, horizon: nat, bars: seq<Bar>, n: nat)
    requires ValidBars(reader.data.bars) && cutoff % MINUTE == 0
    requires Answered(reader, key, cutoff, cutoff + horizon * MINUTE, bars) && Unbroken(reader, key, cutoff, horizon)
    requires n <= horizon
    ensures n <= |bars| && forall i :: 0 <= i < n ==> bars[i].at == cutoff + (i + 1) * MINUTE
  {
    if n > 0 {
      MinuteByMinute(reader, key, cutoff, horizon, bars, n - 1);
      var at := cutoff + n * MINUTE;
      assert HasBar(reader, key, at);
      var b :| b in reader.data.bars && b.key == key && b.at == at;
      assert at <= cutoff + horizon * MINUTE;
      assert b in ToSet(bars);
      var j :| 0 <= j < |bars| && bars[j] == b;
      assert j >= n - 1;
      assert bars[n - 1] in ToSet(bars) && bars[n - 1].at <= at;
      assert n > 1 ==> bars[n - 2].at < bars[n - 1].at;
      NoMinuteBetween(bars[n - 1].at, cutoff, n);
    }
  }

  lemma NoMinuteBetween(at: int, cutoff: int, n: nat)
    requires cutoff % MINUTE == 0 && at % MINUTE == 0 && n >= 1
    ensures !(cutoff + (n - 1) * MINUTE < at < cutoff + n * MINUTE)
  {
    assert at / MINUTE * MINUTE == at && cutoff / MINUTE * MINUTE == cutoff;
  }

  lemma EveryMinuteIffUnbroken(reader: Reader, key: nat, cutoff: int, horizon: nat, bars: seq<Bar>)
    requires ValidBars(reader.data.bars) && cutoff % MINUTE == 0
    requires Answered(reader, key, cutoff, cutoff + horizon * MINUTE, bars)
    ensures EveryMinute(bars, cutoff, horizon) <==> Unbroken(reader, key, cutoff, horizon)
  {
    if EveryMinute(bars, cutoff, horizon) {
      forall m: nat | 1 <= m <= horizon ensures HasBar(reader, key, cutoff + m * MINUTE) {
        assert bars[m - 1] in ToSet(bars) && bars[m - 1].at == cutoff + m * MINUTE;
      }
    }
    if Unbroken(reader, key, cutoff, horizon) {
      MinuteByMinute(reader, key, cutoff, horizon, bars, horizon);
      assert forall i :: 0 <= i < |bars| ==> bars[i] in ToSet(bars);
      assert forall i :: 0 <= i < |bars| ==> cutoff < bars[i].at <= cutoff + horizon * MINUTE;
      if |bars| > horizon {
        LongerGoesOn(bars, cutoff, horizon);
      }
    }
  }

  lemma LongerGoesOn(bars: seq<Bar>, cutoff: int, horizon: nat)
    requires horizon < |bars| && Ascending(bars) && bars[0].at > cutoff
    requires forall i :: 0 <= i < horizon ==> bars[i].at == cutoff + (i + 1) * MINUTE
    ensures bars[horizon].at > cutoff + horizon * MINUTE
  {
    assert horizon > 0 ==> bars[horizon - 1].at < bars[horizon].at;
  }

  /** The baseline query returns one bar at the cutoff exactly when there is one. */
  lemma BaselineFound(reader: Reader, key: nat, cutoff: int, bars: seq<Bar>)
    requires ValidBars(reader.data.bars) && cutoff % MINUTE == 0
    requires Answered(reader, key, cutoff - MINUTE, cutoff, bars)
    ensures |bars| == 1 && bars[0].at == cutoff <==> HasBar(reader, key, cutoff)
    ensures |bars| > 0 ==> IsBar(reader, key, cutoff - MINUTE, cutoff, bars[0])
  {
    forall i | 0 <= i < |bars| ensures bars[i].at == cutoff && IsBar(reader, key, cutoff - MINUTE, cutoff, bars[i]) {
      assert bars[i] in ToSet(bars);
      NoMinuteBetween(bars[i].at, cutoff - MINUTE, 1);
    }
    TwoTimes(bars);
    if HasBar(reader, key, cutoff) {
      var b :| b in reader.data.bars && b.key == key && b.at == cutoff;
      assert b in ToSet(bars);
    }
  }

  lemma TwoTimes(bars: seq<Bar>)
    requires Ascending(bars)
    ensures |bars| > 1 ==> bars[0].at < bars[1].at
  {
  }

  method MaxMove(bars: seq<Bar>, price: real) returns (most: real)
    requires |bars| > 0 && price > 0.0
    ensures forall i :: 0 <= i < |bars| ==> Move(bars[i], price) <= most
    ensures exists i :: 0 <= i < |bars| && Move(bars[i], price) == most
  {
    most := Move(bars[0], price);
    for n := 1 to |bars|
      invariant forall i :: 0 <= i < n ==> Move(bars[i], price) <= most
      invariant exists i :: 0 <= i < n && Move(bars[i], price) == most
    {
      if Move(bars[n], price) > most {
        most := Move(bars[n], price);
      }
    }
  }

  /** What the settlement of one asset hands on: its outcome, the bars of the horizon and the baseline. */
  datatype Result = Result(outcome: Outcome, bars: seq<Bar>, price: real)

  ghost predicate Carries(d: Decision, f: Feature, reader: Reader, horizon: nat, r: Result) {
    var cutoff := OutcomeCutoff(d.decisionAt);
    r.outcome.Ready? ==>
      && f.referenceKey.Some? && r.price > 0.0 && |r.bars| > 0
      && Answered(reader, f.referenceKey.value, cutoff, cutoff + horizon * MINUTE, r.bars)
      && (forall i :: 0 <= i < |r.bars| ==> Move(r.bars[i], r.price) <= r.outcome.maxAbsReturn)
      && (exists i :: 0 <= i < |r.bars| && Move(r.bars[i], r.price) == r.outcome.maxAbsReturn)
  }

  method ReferenceOutcome(d: Decision, f: Feature, reader: Reader, horizon: nat, now: int) returns (r: Result)
    requires ValidBars(reader.data.bars) && horizon >= 1
    ensures Settled(d, f, reader, horizon, now, r.outcome)
    ensures Carries(d, f, reader, horizon, r)
  {
    hide Answers, Answered, EveryMinute, Unbroken, HasBar, ValidBars, Measured, OnlyOtherRevision, Move;
    var cutoff := OutcomeCutoff(d.decisionAt);
    var through := cutoff + horizon * MINUTE;
    if now < through {
      return Result(Unsettled(HorizonPending), [], 0.0);
    }
    if !f.eligible || f.referenceKey == None {
      return Result(Unsettled(ReferenceIneligible), [], 0.0);
    }
    if reader.mapVersion != d.mapVersion {
      return Result(Unsettled(MapChanged), [], 0.0);
    }
    var key := f.referenceKey.value;
    if OnlyOtherRevision(reader, key) {
      return Result(Unsettled(RevisionChanged), [], 0.0);
    }
    var baseline := Query(reader, key, cutoff - MINUTE, cutoff);
    BaselineFound(reader, key, cutoff, baseline);
    if |baseline| != 1 || baseline[0].at != cutoff {
      return Result(Unsettled(BaselineUnavailable), [], 0.0);
    }
    var price := baseline[0].value.close;
    var bars := Query(reader, key, cutoff, through);
    EveryMinuteIffUnbroken(reader, key, cutoff, horizon, bars);
    if !EveryMinute(bars, cutoff, horizon) {
      return Result(Unsettled(FutureBarGap), [], 0.0);
    }
    PositivePrice(reader, key, cutoff, baseline[0]);
    LastBar(bars, cutoff, horizon);
    var most := MaxMove(bars, price);
    var last := bars[|bars| - 1];
    r := Result(Ready(most, Return(last.value.close, price)), bars, price);
    IsMeasured(reader, key, cutoff, through, baseline[0], last, bars, r.outcome);
    assert Verdict(d, f, reader, horizon, now) == None;
    assert SomeMeasure(reader, key, cutoff, through, r.outcome);
  }

  method Query(reader: Reader, key: nat, after: int, through: int) returns (bars: seq<Bar>)
    requires ValidBars(reader.data.bars)
    ensures Answered(reader, key, after, through, bars)
  {
    bars := FixtureBars(reader.data, key, after, through);
  }

  lemma PositivePrice(reader: Reader, key: nat, cutoff: int, b: Bar)
    requires ValidBars(reader.data.bars) && IsBar(reader, key, cutoff - MINUTE, cutoff, b)
    ensures b.value.close > 0.0
  {
  }

  lemma LastBar(bars: seq<Bar>, cutoff: int, horizon: nat)
    requires EveryMinute(bars, cutoff, horizon) && horizon >= 1
    ensures |bars| > 0 && bars[|bars| - 1].at == cutoff + horizon * MINUTE
  {
  }

  lemma IsMeasured(reader: Reader, key: nat, cutoff: int, through: int, base: Bar, last: Bar, bars: seq<Bar>, outcome: Outcome)
    requires outcome.Ready? && Answered(reader, key, cutoff, through, bars)
    requires IsBar(reader, key, cutoff - MINUTE, cutoff, base) && base.at == cutoff && base.value.close > 0.0
    requires last in bars && last.at == through && outcome.closeReturn == Return(last.value.close, base.value.close)
    requires forall i :: 0 <= i < |bars| ==> Move(bars[i], base.value.close) <= outcome.maxAbsReturn
    requires exists i :: 0 <= i < |bars| && Move(bars[i], base.value.close) == outcome.maxAbsReturn
    ensures Measured(reader, key, cutoff, through, base, last, outcome)
  {
    hide Move, Return;
    forall b ensures IsBar(reader, key, cutoff, through, b) <==> b in bars {
      assert b in bars <==> b in ToSet(bars);
    }
    var i :| 0 <= i < |bars| && Move(bars[i], base.value.close) == outcome.maxAbsReturn;
    assert IsBar(reader, key, cutoff, through, bars[i]);
  }
}
