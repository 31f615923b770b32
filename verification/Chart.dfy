/**
 Chart bars of one instrument: one-minute candles merged into wider and wider buckets. Times are
 whole seconds. A candle without prices is one with a price that is not finite.
 */
module Chart {
  import opened Prelude

  datatype Prices = Prices(open: real, high: real, low: real, close: real)

  datatype Candle = Candle(at: int, version: nat, prices: Option<Prices>, volumeBase: Option<real>,
    volumeNotional: Option<real>, trades: Option<int>, finality: nat, sourceAt: Option<int>, observedAt: int)

  /** What some consecutive candles come to; no finality is a mixed one. */
  datatype Summary = Summary(open: real, high: real, low: real, close: real, volumeBase: Option<real>,
    volumeNotional: Option<real>, trades: Option<int>, finality: Option<nat>, sourceAt: Option<int>, observedAt: int, count: nat)

  datatype Reason = VersionBoundary | NonFinite | Incomplete | MixedFinality | SourceTimeMissing | NoCandles | NoInstrument

  datatype Bar = Bar(at: int, summary: Summary, expected: nat, complete: bool, reasons: seq<Reason>)

  // ----- merging -----

  function Max(a: real, b: real): real {
    if a < b then b else a
  }

  function Min(a: real, b: real): real {
    if b < a then b else a
  }

  function Later(a: int, b: int): int {
    if a < b then b else a
  }

  /** Values that are missing if any is. */
  function Both<T>(a: Option<T>, b: Option<T>, f: (T, T) -> T): Option<T> {
    if a.Some? && b.Some? then Some(f(a.value, b.value)) else None
  }

  function OneFinality(a: Option<nat>, b: Option<nat>): Option<nat> {
    if a == b then a else None
  }

  /** The summary of two adjacent stretches. */
  function Merge(a: Summary, b: Summary): Summary {
    Summary(a.open, Max(a.high, b.high), Min(a.low, b.low), b.close,
      Both(a.volumeBase, b.volumeBase, (x: real, y: real) => x + y),
      Both(a.volumeNotional, b.volumeNotional, (x: real, y: real) => x + y),
      Both(a.trades, b.trades, (x: int, y: int) => x + y),
      OneFinality(a.finality, b.finality), Both(a.sourceAt, b.sourceAt, Later), Later(a.observedAt, b.observedAt), a.count + b.count)
  }

  function Single(c: Candle): Summary
    requires c.prices.Some?
  {
    var p := c.prices.value;
    Summary(p.open, p.high, p.low, p.close, c.volumeBase, c.volumeNotional, c.trades, Some(c.finality), c.sourceAt, c.observedAt, 1)
  }

  predicate Finite(candles: seq<Candle>) {
    forall c :: c in candles ==> c.prices.Some?
  }

  function Summarise(candles: seq<Candle>): Summary
    requires candles != [] && Finite(candles)
  {
    var n := |candles| - 1;
    if n == 0 then Single(candles[0]) else Merge(Summarise(candles[..n]), Single(candles[n]))
  }

  lemma MergeAssociates(a: Summary, b: Summary, c: Summary)
    ensures Merge(Merge(a, b), c) == Merge(a, Merge(b, c))
  {
  }

  /** Summarising two stretches one after the other is merging their summaries. */
  lemma {:induction false} SummariseConcat(a: seq<Candle>, b: seq<Candle>)
    requires a != [] && b != [] && Finite(a) && Finite(b)
    ensures Finite(a + b) && Summarise(a + b) == Merge(Summarise(a), Summarise(b))
  {
    var n := |b| - 1;
    assert (a + b)[..|a + b| - 1] == a + b[..n];
    if n == 0 {
      assert a + b[..n] == a;
    } else {
      SummariseConcat(a, b[..n]);
      MergeAssociates(Summarise(a), Summarise(b[..n]), Single(b[n]));
    }
  }

  /** The least upper, greatest lower, first and last values, without reference to merging. */
  ghost predicate PricesOf(candles: seq<Candle>, s: Summary)
    requires candles != [] && Finite(candles)
  {
    && s.open == candles[0].prices.value.open && s.close == candles[|candles| - 1].prices.value.close
    && (forall i :: 0 <= i < |candles| ==> s.low <= candles[i].prices.value.low && candles[i].prices.value.high <= s.high)
    && (exists i :: 0 <= i < |candles| && candles[i].prices.value.high == s.high)
    && (exists i :: 0 <= i < |candles| && candles[i].prices.value.low == s.low)
  }

  /** Times: the latest observation, and the latest source time unless one is missing. */
  ghost predicate TimesOf(candles: seq<Candle>, s: Summary) {
    && (forall i :: 0 <= i < |candles| ==> candles[i].observedAt <= s.observedAt)
    && (exists i :: 0 <= i < |candles| && candles[i].observedAt == s.observedAt)
    && (s.sourceAt.Some? <==> forall i :: 0 <= i < |candles| ==> candles[i].sourceAt.Some?)
    && (s.sourceAt.Some? ==> forall i :: 0 <= i < |candles| ==> candles[i].sourceAt.value <= s.sourceAt.value)
    && (s.sourceAt.Some? ==> exists i :: 0 <= i < |candles| && candles[i].sourceAt == s.sourceAt)
  }

  function Total(values: seq<Option<real>>): real {
    if values == [] then 0.0
    else Total(values[..|values| - 1]) + if values[|values| - 1].Some? then values[|values| - 1].value else 0.0
  }

  /** A sum, or nothing if any part is missing. */
  ghost predicate SumOf(values: seq<Option<real>>, sum: Option<real>) {
    && (sum.Some? <==> forall i :: 0 <= i < |values| ==> values[i].Some?)
    && (sum.Some? ==> sum.value == Total(values))
  }

  /** One optional figure of each candle. */
  function Figures(candles: seq<Candle>, figure: Candle -> Option<real>): (values: seq<Option<real>>)
    ensures |values| == |candles| && forall i :: 0 <= i < |candles| ==> values[i] == figure(candles[i])
  {
    seq(|candles|, i requires 0 <= i < |candles| => figure(candles[i]))
  }

  function BaseVolume(): Candle -> Option<real> { (c: Candle) => c.volumeBase }
  function NotionalVolume(): Candle -> Option<real> { (c: Candle) => c.volumeNotional }

  /** A trade count, as a number to be added up. */
  function TradeCount(): Candle -> Option<real> {
    (c: Candle) => if c.trades.Some? then Some(c.trades.value as real) else None
  }

  /** What a summary says about its candles. */
  lemma {:induction false} SummaryPrices(candles: seq<Candle>)
    requires candles != [] && Finite(candles)
    ensures PricesOf(candles, Summarise(candles)) && Summarise(candles).count == |candles|
  {
    var n := |candles| - 1;
    if n > 0 {
      SummaryPrices(candles[..n]);
      var before, after := Summarise(candles[..n]), Summarise(candles);
      assert forall i :: 0 <= i < n ==> candles[..n][i] == candles[i];
      assert after.high == before.high || after.high == candles[n].prices.value.high;
      assert after.low == before.low || after.low == candles[n].prices.value.low;
    }
  }

  lemma {:induction false} SummaryTimes(candles: seq<Candle>)
    requires candles != [] && Finite(candles)
    ensures TimesOf(candles, Summarise(candles))
  {
    var n := |candles| - 1;
    if n > 0 {
      SummaryTimes(candles[..n]);
      var before, after := Summarise(candles[..n]), Summarise(candles);
      assert forall i :: 0 <= i < n ==> candles[..n][i] == candles[i];
      assert after.observedAt == before.observedAt || after.observedAt == candles[n].observedAt;
      assert after.sourceAt.Some? ==> after.sourceAt == before.sourceAt || after.sourceAt == candles[n].sourceAt;
    }
  }

  lemma {:induction false} SummaryFinality(candles: seq<Candle>)
    requires candles != [] && Finite(candles)
    ensures forall f :: Summarise(candles).finality == Some(f) <==> forall i :: 0 <= i < |candles| ==> candles[i].finality == f
  {
    var n := |candles| - 1;
    if n > 0 {
      SummaryFinality(candles[..n]);
      assert forall i :: 0 <= i < n ==> candles[..n][i] == candles[i];
    }
  }

  /** Each sum is the total of its figures, or missing if one of them is. */
  lemma {:induction false} SummaryVolume(candles: seq<Candle>)
    requires candles != [] && Finite(candles)
    ensures var s := Summarise(candles);
      && SumOf(Figures(candles, BaseVolume()), s.volumeBase)
      && SumOf(Figures(candles, NotionalVolume()), s.volumeNotional)
      && SumOf(Figures(candles, TradeCount()), if s.trades.Some? then Some(s.trades.value as real) else None)
  {
    hide SumOf, Figures, Total, Max, Min, Later, OneFinality;
    var n := |candles| - 1;
    if n > 0 {
      SummaryVolume(candles[..n]);
      LastSums(candles);
      hide Summarise;
    }
    SumGrows(candles, BaseVolume());
    SumGrows(candles, NotionalVolume());
    SumGrows(candles, TradeCount());
  }

  lemma LastSums(candles: seq<Candle>)
    requires |candles| > 1 && Finite(candles)
    ensures var before, s, c := Summarise(candles[..|candles| - 1]), Summarise(candles), candles[|candles| - 1];
      && s.volumeBase == (if before.volumeBase.Some? && c.volumeBase.Some? then Some(before.volumeBase.value + c.volumeBase.value) else None)
      && s.volumeNotional ==
        (if before.volumeNotional.Some? && c.volumeNotional.Some? then Some(before.volumeNotional.value + c.volumeNotional.value) else None)
      && s.trades == (if before.trades.Some? && c.trades.Some? then Some(before.trades.value + c.trades.value) else None)
  {
  }

  /** One more candle adds its figure to the sum, or makes it missing. */
  lemma SumGrows(candles: seq<Candle>, figure: Candle -> Option<real>)
    requires candles != []
    ensures var n := |candles| - 1;
      var last := figure(candles[n]);
      if n == 0 then SumOf(Figures(candles, figure), last)
      else forall sum :: SumOf(Figures(candles[..n], figure), sum) ==>
        SumOf(Figures(candles, figure), if sum.Some? && last.Some? then Some(sum.value + last.value) else None)
  {
    var n := |candles| - 1;
    var values := Figures(candles, figure);
    assert values[..n] == Figures(candles[..n], figure);
    assert n == 0 ==> values[..0] == [];
    assert Total(values) == Total(values[..n]) + if values[n].Some? then values[n].value else 0.0;
    forall sum | n > 0 && SumOf(values[..n], sum)
      ensures SumOf(values, if sum.Some? && values[n].Some? then Some(sum.value + values[n].value) else None)
    {
      assert forall i :: 0 <= i < n ==> values[..n][i] == values[i];
    }
  }

  // ----- what a bucket holds -----

  /** The candles of one second, in input order. */
  function At(candles: seq<Candle>, t: int): seq<Candle> {
    if candles == [] then []
    else At(candles[..|candles| - 1], t) + If(candles[|candles| - 1].at == t, candles[|candles| - 1])
  }

  function If<T>(c: bool, x: T): seq<T> {
    if c then [x] else []
  }

  /** The candles of [from, until) by time, those of one second in input order. */
  function Span(candles: seq<Candle>, from: int, until: int): seq<Candle>
    decreases until - from
  {
    if from >= until then [] else Span(candles, from, until - 1) + At(candles, until - 1)
  }

  lemma {:induction false} SpanSplits(candles: seq<Candle>, from: int, mid: int, until: int)
    requires from <= mid <= until
    ensures Span(candles, from, until) == Span(candles, from, mid) + Span(candles, mid, until)
    decreases until - mid
  {
    if mid < until {
      SpanSplits(candles, from, mid, until - 1);
    }
  }

  lemma {:induction false} AtMembers(candles: seq<Candle>, t: int)
    ensures forall c :: c in At(candles, t) <==> c in candles && c.at == t
  {
    if candles != [] {
      AtMembers(candles[..|candles| - 1], t);
      assert candles == candles[..|candles| - 1] + [candles[|candles| - 1]];
    }
  }

  lemma {:induction false} SpanMembers(candles: seq<Candle>, from: int, until: int)
    ensures forall c :: c in Span(candles, from, until) <==> c in candles && from <= c.at < until
    decreases until - from
  {
    if from < until {
      SpanMembers(candles, from, until - 1);
      AtMembers(candles, until - 1);
    }
  }

  /** A further candle goes after everything that is not later. */
  lemma {:induction false} SpanInsert(candles: seq<Candle>, c: Candle, from: int, until: int)
    requires from <= c.at < until
    ensures Span(candles + [c], from, until) == Span(candles, from, c.at + 1) + [c] + Span(candles, c.at + 1, until)
    decreases until - c.at
  {
    hide At;
    AtMore(candles, c, until - 1);
    if c.at == until - 1 {
      SpanElsewhere(candles, c, from, until - 1);
      assert Span(candles, c.at + 1, until) == [];
    } else {
      SpanInsert(candles, c, from, until - 1);
      var before, after := Span(candles, from, c.at + 1) + [c], Span(candles, c.at + 1, until - 1);
      assert before + after + At(candles, until - 1) == before + (after + At(candles, until - 1));
    }
  }

  lemma AtMore(candles: seq<Candle>, c: Candle, t: int)
    ensures At(candles + [c], t) == if c.at == t then At(candles, t) + [c] else At(candles, t)
  {
  }

  lemma {:induction false} SpanElsewhere(candles: seq<Candle>, c: Candle, from: int, until: int)
    requires !(from <= c.at < until)
    ensures Span(candles + [c], from, until) == Span(candles, from, until)
    decreases until - from
  {
    hide At;
    if from < until {
      AtMore(candles, c, until - 1);
      SpanElsewhere(candles, c, from, until - 1);
    }
  }

  predicate OneVersion(candles: seq<Candle>) {
    forall c, d :: c in candles && d in candles ==> c.version == d.version
  }

  /** A bucket with a bar: some candles, all of one version, all finite. */
  predicate Drawn(candles: seq<Candle>, at: int, seconds: int) {
    var bucket := Span(candles, at, at + seconds);
    bucket != [] && OneVersion(bucket) && Finite(bucket)
  }

  function Offset(t: int, from: int): int {
    (t - from) % 60
  }

  /** Every minute of the bucket has exactly one candle and nothing else is in it. */
  predicate EachMinuteOnce(candles: seq<Candle>, at: int, seconds: int) {
    forall t :: at <= t < at + seconds ==> |At(candles, t)| == if Offset(t, at) == 0 then 1 else 0
  }

  predicate SameFinality(candles: seq<Candle>) {
    forall c, d :: c in candles && d in candles ==> c.finality == d.finality
  }

  predicate SourceTimed(candles: seq<Candle>) {
    forall c :: c in candles ==> c.sourceAt.Some?
  }

  function Unless(c: bool, reason: Reason): seq<Reason> {
    if c then [] else [reason]
  }

  /** What is held against a bucket, in order; a bucket over version or number problems has no bar at all. */
  function ReasonsOf(bucket: seq<Candle>, complete: bool): seq<Reason> {
    if bucket == [] then []
    else if !OneVersion(bucket) then [VersionBoundary]
    else if !Finite(bucket) then [NonFinite]
    else Unless(complete, Incomplete) + Unless(SameFinality(bucket), MixedFinality) + Unless(SourceTimed(bucket), SourceTimeMissing)
  }

  function BarOf(candles: seq<Candle>, at: int, seconds: int, now: int): Bar
    requires seconds > 0 && Drawn(candles, at, seconds)
  {
    var bucket, complete := Span(candles, at, at + seconds), EachMinuteOnce(candles, at, seconds) && at + seconds <= now;
    Bar(at, Summarise(bucket), seconds / 60, complete, ReasonsOf(bucket, complete))
  }

  // ----- nested timeframes -----

  function DrawnBar(candles: seq<Candle>, at: int, seconds: int, now: int): seq<Bar>
    requires seconds > 0
  {
    if Drawn(candles, at, seconds) then [BarOf(candles, at, seconds, now)] else []
  }

  /** The bars of the buckets of [from, until), in time order. */
  function BarsIn(candles: seq<Candle>, seconds: int, from: int, until: int, now: int): seq<Bar>
    requires seconds > 0
    decreases until - from
  {
    if until - from < seconds then []
    else BarsIn(candles, seconds, from, until - seconds, now) + DrawnBar(candles, until - seconds, seconds, now)
  }

  function Merged(bars: seq<Bar>): Summary
    requires bars != []
  {
    var n := |bars| - 1;
    if n == 0 then bars[0].summary else Merge(Merged(bars[..n]), bars[n].summary)
  }

  /** The bars exist when the candles do, and merge to their summary. */
  predicate Matches(bars: seq<Bar>, candles: seq<Candle>)
    requires Finite(candles)
  {
    && (candles == [] <==> bars == [])
    && (candles != [] && bars != [] ==> Merged(bars) == Summarise(candles))
  }

  lemma MatchesConcat(bars: seq<Bar>, candles: seq<Candle>, more: seq<Bar>, last: seq<Candle>)
    requires Finite(candles) && Finite(last) && Matches(bars, candles) && Matches(more, last) && |more| <= 1
    ensures Finite(candles + last) && Matches(bars + more, candles + last)
  {
    if last == [] {
      assert bars + more == bars && candles + last == candles;
    } else if candles == [] {
      assert bars + more == more && candles + last == last;
    } else {
      assert (bars + more)[..|bars|] == bars;
      SummariseConcat(candles, last);
    }
  }

  lemma NothingMatches(candles: seq<Candle>, seconds: int, from: int, now: int)
    requires seconds > 0
    ensures Finite(Span(candles, from, from)) && Matches(BarsIn(candles, seconds, from, from, now), Span(candles, from, from))
  {
  }

  lemma BucketMatches(candles: seq<Candle>, at: int, seconds: int, now: int)
    requires seconds > 0 && OneVersion(Span(candles, at, at + seconds)) && Finite(Span(candles, at, at + seconds))
    ensures |DrawnBar(candles, at, seconds, now)| <= 1
    ensures Matches(DrawnBar(candles, at, seconds, now), Span(candles, at, at + seconds))
  {
  }

  lemma LastBucket(from: int, n: nat, seconds: int)
    requires n > 0 && seconds > 0
    ensures from + n * seconds - seconds == from + (n - 1) * seconds
    ensures (n - 1) * seconds >= 0
  {
  }

  /**
   The candles of a stretch that is one version and finite come to what the finer bars of the
   stretch merge to: whether there are any, and open, high, low, close, sums, times and counts.
   */
  lemma {:induction false} FinerBarsMerge(candles: seq<Candle>, seconds: int, from: int, until: int, n: nat, now: int)
    requires seconds > 0 && until == from + n * seconds
    requires OneVersion(Span(candles, from, until)) && Finite(Span(candles, from, until))
    ensures Matches(BarsIn(candles, seconds, from, until, now), Span(candles, from, until))
    decreases n
  {
    hide Matches, OneVersion, Finite, DrawnBar, Span, BarsIn;
    if n == 0 {
      NothingMatches(candles, seconds, from, now);
    } else {
      var mid := until - seconds;
      LastBucket(from, n, seconds);
      BarsInLast(candles, seconds, from, until, now);
      Stretches(candles, from, mid, until);
      SpanSplits(candles, from, mid, until);
      FinerBarsMerge(candles, seconds, from, mid, n - 1, now);
      BucketMatches(candles, mid, seconds, now);
      MatchesConcat(BarsIn(candles, seconds, from, mid, now), Span(candles, from, mid),
        DrawnBar(candles, mid, seconds, now), Span(candles, mid, until));
    }
  }

  lemma SameMinute(t: int, from: int, mid: int)
    requires (mid - from) % 60 == 0
    ensures Offset(t, from) == Offset(t, mid)
  {
  }

  lemma EachMinuteSplits(candles: seq<Candle>, from: int, mid: int, until: int)
    requires from <= mid <= until && (mid - from) % 60 == 0
    ensures EachMinuteOnce(candles, from, until - from) <==>
      EachMinuteOnce(candles, from, mid - from) && EachMinuteOnce(candles, mid, until - mid)
  {
  }

  predicate AllComplete(bars: seq<Bar>) {
    forall bar :: bar in bars ==> bar.complete
  }

  /** All n buckets have a complete bar. */
  predicate Full(bars: seq<Bar>, n: nat) {
    |bars| == n && AllComplete(bars)
  }

  lemma BarsInLast(candles: seq<Candle>, seconds: int, from: int, until: int, now: int)
    requires seconds > 0 && until - from >= seconds
    ensures BarsIn(candles, seconds, from, until, now) ==
      BarsIn(candles, seconds, from, until - seconds, now) + DrawnBar(candles, until - seconds, seconds, now)
  {
  }

  /** A stretch has every minute once and is over exactly when all its finer bars exist and are complete. */
  lemma {:induction false} CompleteIffFinerComplete(candles: seq<Candle>, seconds: int, from: int, until: int, n: nat, now: int)
    requires seconds > 0 && seconds % 60 == 0 && until == from + n * seconds && n > 0
    requires OneVersion(Span(candles, from, until)) && Finite(Span(candles, from, until))
    ensures |BarsIn(candles, seconds, from, until, now)| <= n
    ensures EachMinuteOnce(candles, from, until - from) && until <= now <==>
      Full(BarsIn(candles, seconds, from, until, now), n)
    decreases n
  {
    hide EachMinuteOnce, AllComplete, OneVersion, Finite, DrawnBar, Span, BarsIn;
    var mid := until - seconds;
    LastBucket(from, n, seconds);
    BarsInLast(candles, seconds, from, until, now);
    MinutesMultiple(n - 1, seconds);
    Stretches(candles, from, mid, until);
    EachMinuteSplits(candles, from, mid, until);
    BucketComplete(candles, mid, seconds, now);
    AllCompleteConcat(BarsIn(candles, seconds, from, mid, now), DrawnBar(candles, mid, seconds, now));
    if n == 1 {
      NoBars(candles, seconds, from, mid, now);
    } else {
      CompleteIffFinerComplete(candles, seconds, from, mid, n - 1, now);
    }
  }

  lemma NoBars(candles: seq<Candle>, seconds: int, from: int, until: int, now: int)
    requires seconds > 0 && from == until
    ensures BarsIn(candles, seconds, from, until, now) == [] && EachMinuteOnce(candles, from, 0)
  {
  }

  lemma AllCompleteConcat(a: seq<Bar>, b: seq<Bar>)
    ensures AllComplete(a + b) <==> AllComplete(a) && AllComplete(b)
    ensures AllComplete([])
  {
  }

  lemma Stretches(candles: seq<Candle>, from: int, mid: int, until: int)
    requires from <= mid <= until && OneVersion(Span(candles, from, until)) && Finite(Span(candles, from, until))
    ensures OneVersion(Span(candles, from, mid)) && Finite(Span(candles, from, mid))
    ensures OneVersion(Span(candles, mid, until)) && Finite(Span(candles, mid, until))
  {
    SpanSplits(candles, from, mid, until);
    var before, last := Span(candles, from, mid), Span(candles, mid, until);
    assert forall c :: c in before || c in last ==> c in before + last;
  }

  lemma BucketComplete(candles: seq<Candle>, at: int, seconds: int, now: int)
    requires seconds > 0 && OneVersion(Span(candles, at, at + seconds)) && Finite(Span(candles, at, at + seconds))
    ensures var bars := DrawnBar(candles, at, seconds, now);
      |bars| <= 1 && (|bars| == 1 && AllComplete(bars) <==> EachMinuteOnce(candles, at, seconds) && at + seconds <= now)
  {
    MinuteOnceIsThere(candles, at, seconds);
    var bars := DrawnBar(candles, at, seconds, now);
    assert bars != [] ==> bars[0] in bars;
  }

  lemma MinutesMultiple(n: nat, seconds: int)
    requires seconds % 60 == 0
    ensures n * seconds % 60 == 0
  {
    var m := seconds / 60;
    assert seconds == 60 * m;
    assert n * seconds == 60 * (n * m);
  }

  lemma MinuteOnceIsThere(candles: seq<Candle>, at: int, seconds: int)
    requires seconds > 0
    ensures EachMinuteOnce(candles, at, seconds) ==> Span(candles, at, at + seconds) != []
  {
    hide Span, At;
    if EachMinuteOnce(candles, at, seconds) {
      assert Offset(at, at) == 0;
      AtMembers(candles, at);
      SpanMembers(candles, at, at + seconds);
      var c := At(candles, at)[0];
      assert c in At(candles, at);
      assert c in Span(candles, at, at + seconds);
    }
  }
}
