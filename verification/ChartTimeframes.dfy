/** The chart of all timeframes, and how the timeframes cohere. */
module ChartTimeframes {
  import opened Prelude
  import opened Chart
  import opened ChartBuild

  /** 5m, 15m, 1h, 4h and 24h */
  const TIMEFRAMES: seq<int> := [300, 900, 3600, 14400, 86400]

  datatype Status = Ready | Partial | Unavailable

  datatype MarketChart = MarketChart(status: Status, reasons: seq<Reason>, timeframes: seq<seq<Bar>>)

  function Newest(bars: seq<Bar>): seq<Bar> {
    if |bars| > CHART_LIMIT then bars[|bars| - CHART_LIMIT..] else bars
  }

  ghost predicate NewestBars(shown: seq<Bar>, candles: seq<Candle>, seconds: int, now: int)
    requires seconds > 0
  {
    exists bars :: AreBars(bars, candles, seconds, now) && shown == Newest(bars)
  }

  ghost predicate FlaggedBefore(candles: seq<Candle>, n: nat, now: int, r: Reason)
    requires n <= |TIMEFRAMES|
  {
    exists i :: 0 <= i < n && Flagged(candles, TIMEFRAMES[i], now, r)
  }

  /** The distinct elements, in the order they first appear. */
  function FirstSeen(xs: seq<Reason>): (seen: seq<Reason>)
    ensures forall x :: x in seen <==> x in xs
    ensures Distinct(seen)
  {
    if xs == [] then []
    else
      var n := |xs| - 1;
      assert xs == xs[..n] + [xs[n]];
      FirstSeen(xs[..n]) + if xs[n] in xs[..n] then [] else [xs[n]]
  }

  function Joined(parts: seq<seq<Reason>>): seq<Reason> {
    if parts == [] then [] else Joined(parts[..|parts| - 1]) + parts[|parts| - 1]
  }

  /** The selected instrument, and whether its id is a well-formed one. */
  datatype Instrument = Instrument(id: nat, wellFormed: bool)

  /**
   The chart of all timeframes; an ill-formed instrument id is refused. `held` are the reasons of
   each timeframe.
   */
  method BuildMarketChart(instrument: Option<Instrument>, candles: seq<Candle>, now: int)
    returns (chart: Option<MarketChart>, ghost held: seq<seq<Reason>>)
    ensures chart == None <==> instrument.Some? && !instrument.value.wellFormed
    ensures instrument == None ==> chart == Some(MarketChart(Unavailable, [NoInstrument], [[], [], [], [], []]))
    ensures instrument.Some? && chart.Some? ==> |held| == |TIMEFRAMES| && IsChart(chart.value, candles, now, held)
  {
    hide NewestBars, InBucketOrder, IsChart, Joined, FirstSeen;
    if instrument == None {
      return Some(MarketChart(Unavailable, [NoInstrument], [[], [], [], [], []])), [];
    }
    if !instrument.value.wellFormed {
      return None, [];
    }
    var timeframes, reasons;
    timeframes, reasons, held := AggregateAll(candles, now);
    var empty := forall i :: 0 <= i < |timeframes| ==> timeframes[i] == [];
    var top := reasons + if empty then [NoCandles] else [];
    var status := if empty then Unavailable else if top != [] then Partial else Ready;
    var built := MarketChart(status, FirstSeen(top), timeframes);
    BuiltIsChart(candles, now, held, built);
    chart := Some(built);
  }

  lemma BuiltIsChart(candles: seq<Candle>, now: int, held: seq<seq<Reason>>, built: MarketChart)
    requires |built.timeframes| == |TIMEFRAMES| == |held|
    requires forall i :: 0 <= i < |TIMEFRAMES| ==> NewestBars(built.timeframes[i], candles, TIMEFRAMES[i], now)
    requires forall i :: 0 <= i < |TIMEFRAMES| ==> InBucketOrder(held[i], candles, TIMEFRAMES[i], now)
    requires built.status == Unavailable <==> forall i :: 0 <= i < |TIMEFRAMES| ==> built.timeframes[i] == []
    requires var top := Joined(held) + if built.status == Unavailable then [NoCandles] else [];
      built.reasons == FirstSeen(top) && (built.status == Ready <==> built.status != Unavailable && top == [])
    ensures IsChart(built, candles, now, held)
  {
    hide NewestBars, FlaggedBefore, InBucketOrder, Joined, FirstSeen;
    ReasonsOfAll(candles, now, held);
    SomeSeen(Joined(held) + if built.status == Unavailable then [NoCandles] else []);
    SeenReasons(Joined(held), built.status == Unavailable, built.reasons);
  }

  lemma SeenReasons(all: seq<Reason>, unavailable: bool, seen: seq<Reason>)
    requires seen == FirstSeen(all + if unavailable then [NoCandles] else [])
    ensures forall r :: r in seen <==> r in all || (r == NoCandles && unavailable)
  {
    hide FirstSeen;
  }

  lemma FirstMember<T>(xs: seq<T>)
    ensures xs != [] ==> xs[0] in xs
  {
  }

  lemma SomeSeen(xs: seq<Reason>)
    ensures FirstSeen(xs) == [] <==> xs == []
  {
    if xs != [] {
      assert xs[0] in FirstSeen(xs);
    }
  }

  /** What a chart of an instrument is. */
  ghost predicate IsChart(chart: MarketChart, candles: seq<Candle>, now: int, held: seq<seq<Reason>>) {
    && |chart.timeframes| == |TIMEFRAMES| == |held|
    && (forall i :: 0 <= i < |TIMEFRAMES| ==>
      NewestBars(chart.timeframes[i], candles, TIMEFRAMES[i], now) && InBucketOrder(held[i], candles, TIMEFRAMES[i], now))
    && (chart.status == Unavailable <==> forall i :: 0 <= i < |TIMEFRAMES| ==> chart.timeframes[i] == [])
    && chart.reasons == FirstSeen(Joined(held) + if chart.status == Unavailable then [NoCandles] else [])
    && (forall r :: r in chart.reasons <==>
      FlaggedBefore(candles, |TIMEFRAMES|, now, r) || (r == NoCandles && chart.status == Unavailable))
    && (chart.status == Ready <==> chart.status != Unavailable && chart.reasons == [])
  }

  /** The loop over the timeframes. */
  method AggregateAll(candles: seq<Candle>, now: int)
    returns (timeframes: seq<seq<Bar>>, reasons: seq<Reason>, ghost held: seq<seq<Reason>>)
    ensures |timeframes| == |TIMEFRAMES| == |held| && reasons == Joined(held)
    ensures forall i :: 0 <= i < |TIMEFRAMES| ==> NewestBars(timeframes[i], candles, TIMEFRAMES[i], now)
    ensures forall i :: 0 <= i < |TIMEFRAMES| ==> InBucketOrder(held[i], candles, TIMEFRAMES[i], now)
  {
    hide AreBars, InBucketOrder, Flagged;
    timeframes, reasons, held := [], [], [];
    for i := 0 to |TIMEFRAMES|
      invariant |timeframes| == i == |held| && reasons == Joined(held)
      invariant forall j :: 0 <= j < i ==> NewestBars(timeframes[j], candles, TIMEFRAMES[j], now)
      invariant forall j :: 0 <= j < i ==> InBucketOrder(held[j], candles, TIMEFRAMES[j], now)
    {
      var bars, found := AggregateChart(candles, TIMEFRAMES[i], now);
      assert NewestBars(Newest(bars), candles, TIMEFRAMES[i], now);
      assert (held + [found])[..i] == held;
      timeframes, reasons, held := timeframes + [Newest(bars)], reasons + found, held + [found];
    }
  }

  /** Reasons in bucket order are exactly those held against some bucket. */
  lemma OrderedAreFlagged(reasons: seq<Reason>, candles: seq<Candle>, seconds: int, now: int)
    requires seconds > 0 && InBucketOrder(reasons, candles, seconds, now)
    ensures forall r :: r in reasons <==> Flagged(candles, seconds, now, r)
  {
    var buckets :| Exhaustive(candles, buckets, seconds) && reasons == ReasonsAt(candles, buckets, seconds, now);
    ReasonsFlagged(candles, buckets, seconds, now);
  }

  lemma {:induction false} JoinedFlagged(candles: seq<Candle>, now: int, held: seq<seq<Reason>>)
    requires |held| <= |TIMEFRAMES|
    requires forall i :: 0 <= i < |held| ==> InBucketOrder(held[i], candles, TIMEFRAMES[i], now)
    ensures forall r :: r in Joined(held) <==> FlaggedBefore(candles, |held|, now, r)
  {
    hide Flagged, InBucketOrder, FlaggedBefore;
    if held == [] {
      NothingBefore(candles, now);
    } else {
      var n := |held| - 1;
      JoinedFlagged(candles, now, held[..n]);
      OrderedAreFlagged(held[n], candles, TIMEFRAMES[n], now);
      forall r ensures FlaggedBefore(candles, n + 1, now, r) <==>
        FlaggedBefore(candles, n, now, r) || Flagged(candles, TIMEFRAMES[n], now, r)
      {
        FlaggedNext(candles, n, now, r);
      }
    }
  }

  lemma NothingBefore(candles: seq<Candle>, now: int)
    ensures forall r :: !FlaggedBefore(candles, 0, now, r)
  {
  }

  lemma ReasonsOfAll(candles: seq<Candle>, now: int, held: seq<seq<Reason>>)
    requires |held| == |TIMEFRAMES|
    requires forall i :: 0 <= i < |TIMEFRAMES| ==> InBucketOrder(held[i], candles, TIMEFRAMES[i], now)
    ensures forall r :: r in Joined(held) <==> FlaggedBefore(candles, |TIMEFRAMES|, now, r)
  {
    JoinedFlagged(candles, now, held);
  }

  lemma FlaggedNext(candles: seq<Candle>, i: nat, now: int, r: Reason)
    requires i < |TIMEFRAMES|
    ensures FlaggedBefore(candles, i + 1, now, r) <==> FlaggedBefore(candles, i, now, r) || Flagged(candles, TIMEFRAMES[i], now, r)
  {
  }

  // ----- coherence -----

  /** A bucket of n finer ones is aligned as they are. */
  lemma AlignedFiner(bucket: int, seconds: int, n: nat)
    requires seconds > 0 && n > 0 && n * seconds > 0 && Aligned(bucket, n * seconds)
    ensures Aligned(bucket, seconds)
  {
    var k :| Times(k, n * seconds) == bucket;
    assert Times(k * n, seconds) == bucket;
  }

  /** Finer buckets lie inside coarse ones. */
  lemma FinerInside(coarse: int, fine: int, seconds: int, n: nat, at: int)
    requires seconds > 0 && n > 0 && n * seconds > 0 && Aligned(coarse, n * seconds) && Aligned(fine, seconds)
    requires coarse <= at < coarse + n * seconds && fine <= at < fine + seconds
    ensures coarse <= fine && fine + seconds <= coarse + n * seconds
    ensures seconds % 60 == 0 ==> (fine - coarse) % 60 == 0
  {
    AlignedFiner(coarse, seconds, n);
    var j :| Times(j, seconds) == coarse;
    var k :| Times(k, seconds) == fine;
    StepAtLeast(k - j, seconds);
    StepAtLeast(k - j - n, seconds);
    assert (k - j) * seconds == fine - coarse;
    assert (k - j - n) * seconds == fine - coarse - n * seconds;
    StepAtMost(k - j, seconds);
    if seconds % 60 == 0 {
      assert fine - coarse >= 0;
      MinutesMultiple(k - j, seconds);
    }
  }

  lemma StepAtMost(d: int, seconds: int)
    requires seconds > 0 && d * seconds > -seconds
    ensures d >= 0
  {
    StepAtLeast(d, seconds);
  }

  lemma SubSpan(candles: seq<Candle>, from: int, until: int, at: int, end: int)
    requires from <= at <= end <= until
    ensures forall c :: c in Span(candles, at, end) ==> c in Span(candles, from, until)
  {
    SpanMembers(candles, from, until);
    SpanMembers(candles, at, end);
  }

  /** The bars of a finer timeframe inside a coarse bar, in order: they merge to it and decide its completeness. */
  lemma CoarseBarIsMerge(candles: seq<Candle>, seconds: int, n: nat, now: int, coarse: seq<Bar>, bar: Bar)
    requires seconds > 0 && seconds % 60 == 0 && n > 0 && n * seconds > 0
    requires AreBars(coarse, candles, n * seconds, now) && bar in coarse
    ensures var finer := BarsIn(candles, seconds, bar.at, bar.at + n * seconds, now);
      && finer != [] && bar.summary == Merged(finer)
      && (bar.complete <==> Full(finer, n))
  {
    var until := bar.at + n * seconds;
    FinerBarsMerge(candles, seconds, bar.at, until, n, now);
    CompleteIffFinerComplete(candles, seconds, bar.at, until, n, now);
  }

  /** Those finer bars are the ones the finer timeframe draws there. */
  lemma {:induction false} FinerBarsAreDrawn(candles: seq<Candle>, seconds: int, from: int, until: int, n: nat, now: int, fine: seq<Bar>)
    requires seconds > 0 && until == from + n * seconds && Aligned(from, seconds) && AreBars(fine, candles, seconds, now)
    ensures ChartBuild.Ascending(BarsIn(candles, seconds, from, until, now))
    ensures forall bar :: bar in BarsIn(candles, seconds, from, until, now) <==> bar in fine && from <= bar.at < until
    decreases n
  {
    hide AreBars, DrawnBar, ChartBuild.Ascending, Aligned, Span, BarOf;
    if n == 0 {
      assert BarsIn(candles, seconds, from, until, now) == [];
      NoneAscend();
    } else {
      var mid := until - seconds;
      LastBucket(from, n, seconds);
      AlignedLater(from, seconds, n - 1);
      FinerBarsAreDrawn(candles, seconds, from, mid, n - 1, now, fine);
      LastDrawn(candles, seconds, mid, now, fine);
      AscendingMore(BarsIn(candles, seconds, from, mid, now), DrawnBar(candles, mid, seconds, now));
    }
  }

  lemma AlignedLater(from: int, seconds: int, n: nat)
    requires seconds > 0 && Aligned(from, seconds)
    ensures Aligned(from + n * seconds, seconds)
  {
    var k :| Times(k, seconds) == from;
    assert Times(k + n, seconds) == from + n * seconds;
  }

  lemma LastDrawn(candles: seq<Candle>, seconds: int, mid: int, now: int, fine: seq<Bar>)
    requires seconds > 0 && Aligned(mid, seconds) && AreBars(fine, candles, seconds, now)
    ensures |DrawnBar(candles, mid, seconds, now)| <= 1
    ensures forall bar :: bar in DrawnBar(candles, mid, seconds, now) ==> bar.at == mid
    ensures forall bar :: bar in DrawnBar(candles, mid, seconds, now) <==> bar in fine && mid <= bar.at < mid + seconds
  {
    hide Span, BarOf;
    DrawnAt(candles, mid, seconds, now);
    forall bar | bar in fine && mid <= bar.at < mid + seconds ensures bar.at == mid {
      OneBucket(bar.at, mid, seconds);
      OneBucket(bar.at, bar.at, seconds);
    }
    if Drawn(candles, mid, seconds) {
      var bar :| bar in fine && bar.at == mid;
      assert DrawnBar(candles, mid, seconds, now) == [bar];
    }
  }

  // ----- what a ready chart promises -----

  ghost predicate Clean(candles: seq<Candle>, seconds: int, now: int)
    requires seconds > 0
  {
    forall r :: !Flagged(candles, seconds, now, r)
  }

  /** If nothing is held against a timeframe, nothing is held against a finer one. */
  lemma FinerIsClean(candles: seq<Candle>, seconds: int, n: nat, now: int)
    requires seconds > 0 && seconds % 60 == 0 && n > 0 && n * seconds > 0 && Clean(candles, n * seconds, now)
    ensures Clean(candles, seconds, now)
  {
    forall b | Aligned(b, seconds) ensures BucketReasons(candles, b, seconds, now) == [] {
      if Span(candles, b, b + seconds) != [] {
        FinerBucketClean(candles, seconds, n, now, b);
      }
    }
    hide BucketReasons;
  }

  lemma FinerBucketClean(candles: seq<Candle>, seconds: int, n: nat, now: int, b: int)
    requires seconds > 0 && seconds % 60 == 0 && n > 0 && n * seconds > 0 && Clean(candles, n * seconds, now)
    requires Aligned(b, seconds) && Span(candles, b, b + seconds) != []
    ensures BucketReasons(candles, b, seconds, now) == []
  {
    hide Aligned, EachMinuteOnce, OneVersion, Finite, SameFinality, SourceTimed, BucketOf, Span;
    var c := Span(candles, b, b + seconds)[0];
    assert c in Span(candles, b, b + seconds);
    SpanMembers(candles, b, b + seconds);
    var coarse := BucketOf(c.at, n * seconds);
    var until := coarse + n * seconds;
    FinerInside(coarse, b, seconds, n, c.at);
    SubSpan(candles, coarse, until, b, b + seconds);
    NotFlagged(candles, coarse, n * seconds, now);
    CleanBucket(candles, coarse, n * seconds, now);
    CleanInside(Span(candles, coarse, until), Span(candles, b, b + seconds));
    EachMinuteSplits(candles, coarse, b, until);
    EachMinuteSplits(candles, b, b + seconds, until);
  }

  lemma NotFlagged(candles: seq<Candle>, at: int, seconds: int, now: int)
    requires seconds > 0 && Aligned(at, seconds) && Clean(candles, seconds, now)
    ensures BucketReasons(candles, at, seconds, now) == []
  {
    hide BucketReasons;
    var reasons := BucketReasons(candles, at, seconds, now);
    forall r ensures r !in reasons {
      assert !Flagged(candles, seconds, now, r);
    }
    FirstMember(reasons);
  }

  lemma CleanBucket(candles: seq<Candle>, at: int, seconds: int, now: int)
    requires Span(candles, at, at + seconds) != [] && BucketReasons(candles, at, seconds, now) == []
    ensures var bucket := Span(candles, at, at + seconds);
      OneVersion(bucket) && Finite(bucket) && SameFinality(bucket) && SourceTimed(bucket)
    ensures EachMinuteOnce(candles, at, seconds) && at + seconds <= now
  {
  }

  lemma CleanInside(outer: seq<Candle>, inner: seq<Candle>)
    requires forall c :: c in inner ==> c in outer
    requires OneVersion(outer) && Finite(outer) && SameFinality(outer) && SourceTimed(outer)
    ensures OneVersion(inner) && Finite(inner) && SameFinality(inner) && SourceTimed(inner)
  {
  }

  /** With candles, the chart is ready exactly when nothing is held against any 24h bucket. */
  lemma ReadyIffDaysClean(candles: seq<Candle>, now: int, chart: MarketChart, held: seq<seq<Reason>>)
    requires IsChart(chart, candles, now, held)
    ensures chart.status == Ready <==> candles != [] && Clean(candles, 86400, now)
  {
    hide Flagged, AreBars, InBucketOrder;
    if chart.status == Ready {
      forall r ensures !Flagged(candles, TIMEFRAMES[4], now, r) {
        assert r !in chart.reasons;
      }
      SomeBarSomeCandle(candles, now, chart);
      assert TIMEFRAMES[4] == 86400;
      assert Clean(candles, 86400, now);
    }
    if candles != [] && Clean(candles, 86400, now) {
      FinerIsClean(candles, 14400, 6, now);
      FinerIsClean(candles, 3600, 4, now);
      FinerIsClean(candles, 900, 4, now);
      FinerIsClean(candles, 300, 3, now);
      CleanDayHasBar(candles, now, chart.timeframes[4]);
      assert chart.status != Unavailable;
      forall r ensures r !in chart.reasons {
        assert !FlaggedBefore(candles, |TIMEFRAMES|, now, r);
      }
      FirstMember(chart.reasons);
      assert chart.reasons == [];
      assert chart.status == Ready;
    }
  }

  lemma SomeBarSomeCandle(candles: seq<Candle>, now: int, chart: MarketChart)
    requires |chart.timeframes| == |TIMEFRAMES|
    requires forall i :: 0 <= i < |TIMEFRAMES| ==> NewestBars(chart.timeframes[i], candles, TIMEFRAMES[i], now)
    requires exists i :: 0 <= i < |TIMEFRAMES| && chart.timeframes[i] != []
    ensures candles != []
  {
    hide Aligned, Drawn, BarOf, ChartBuild.Ascending;
    var i :| 0 <= i < |TIMEFRAMES| && chart.timeframes[i] != [];
    var seconds := TIMEFRAMES[i];
    var bars: seq<Bar> :| AreBars(bars, candles, seconds, now) && chart.timeframes[i] == Newest(bars);
    assert bars[0] in bars;
    DrawnHasCandle(candles, bars[0].at, seconds);
  }

  lemma DrawnHasCandle(candles: seq<Candle>, at: int, seconds: int)
    requires Drawn(candles, at, seconds)
    ensures candles != []
  {
    SpanMembers(candles, at, at + seconds);
    var bucket := Span(candles, at, at + seconds);
    assert bucket[0] in bucket;
  }

  lemma CleanDayHasBar(candles: seq<Candle>, now: int, shown: seq<Bar>)
    requires candles != [] && Clean(candles, 86400, now) && NewestBars(shown, candles, 86400, now)
    ensures shown != []
  {
    hide Aligned, BarOf, ChartBuild.Ascending, BucketReasons, Span, BucketOf, OneVersion, Finite, EachMinuteOnce, SameFinality, SourceTimed;
    var bars :| AreBars(bars, candles, 86400, now) && shown == Newest(bars);
    var at := BucketOf(candles[0].at, 86400);
    SpanMembers(candles, at, at + 86400);
    assert candles[0] in Span(candles, at, at + 86400);
    NotFlagged(candles, at, 86400, now);
    CleanBucket(candles, at, 86400, now);
    assert Drawn(candles, at, 86400);
  }
}
