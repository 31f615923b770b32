/** What the bars and the chart say of the candles, candle by candle. */
module ChartLaws {
  import opened Prelude
  import opened Chart
  import opened ChartBuild
  import opened ChartTimeframes

  /** Candle i lies in the bucket. */
  predicate Within(candles: seq<Candle>, i: int, at: int, seconds: int) {
    0 <= i < |candles| && at <= candles[i].at < at + seconds
  }

  // ----- one candle a minute -----

  /** The bucket's candles stand on its minutes, no two on one, and every minute has one. */
  ghost predicate OneEachMinute(candles: seq<Candle>, at: int, minutes: nat) {
    && (forall i :: Within(candles, i, at, 60 * minutes) ==> (candles[i].at - at) % 60 == 0)
    && (forall i, j :: Within(candles, i, at, 60 * minutes) && Within(candles, j, at, 60 * minutes) && i != j ==>
          candles[i].at != candles[j].at)
    && (forall m :: 0 <= m < minutes ==> HasMinute(candles, at + 60 * m))
  }

  predicate HasMinute(candles: seq<Candle>, t: int) {
    exists i :: 0 <= i < |candles| && candles[i].at == t
  }

  /** There is a candle of a second, or more than one. */
  lemma {:induction false} AtCounts(candles: seq<Candle>, t: int)
    ensures |At(candles, t)| == 0 <==> !HasMinute(candles, t)
    ensures |At(candles, t)| > 1 <==> exists i, j :: 0 <= i < j < |candles| && candles[i].at == t && candles[j].at == t
  {
    if candles != [] {
      var n := |candles| - 1;
      AtCounts(candles[..n], t);
      assert |At(candles, t)| == |At(candles[..n], t)| + if candles[n].at == t then 1 else 0;
      assert forall i :: 0 <= i < n ==> candles[..n][i] == candles[i];
      hide At;
      if HasMinute(candles[..n], t) {
        var i :| 0 <= i < n && candles[..n][i].at == t;
        assert candles[i].at == t;
      }
    }
  }

  /** The count kept of every second says exactly that each minute has one candle. */
  lemma EachMinuteMeans(candles: seq<Candle>, at: int, minutes: nat)
    ensures EachMinuteOnce(candles, at, 60 * minutes) <==> OneEachMinute(candles, at, minutes)
  {
    hide At;
    forall t ensures |At(candles, t)| == 0 <==> !HasMinute(candles, t)
      ensures |At(candles, t)| > 1 <==> exists i, j :: 0 <= i < j < |candles| && candles[i].at == t && candles[j].at == t
    {
      AtCounts(candles, t);
    }
    if EachMinuteOnce(candles, at, 60 * minutes) {
      forall m | 0 <= m < minutes ensures HasMinute(candles, at + 60 * m) {
        assert Offset(at + 60 * m, at) == 0;
      }
      forall i | Within(candles, i, at, 60 * minutes) ensures (candles[i].at - at) % 60 == 0 {
        assert HasMinute(candles, candles[i].at);
        assert Offset(candles[i].at, at) == 0;
      }
      forall i, j | Within(candles, i, at, 60 * minutes) && Within(candles, j, at, 60 * minutes) && i != j
        ensures candles[i].at != candles[j].at
      {
        var t := candles[i].at;
        assert |At(candles, t)| <= 1;
      }
    }
    if OneEachMinute(candles, at, minutes) {
      forall t | at <= t < at + 60 * minutes ensures |At(candles, t)| == if Offset(t, at) == 0 then 1 else 0 {
        OneAt(candles, at, minutes, t);
      }
    }
  }

  lemma OneAt(candles: seq<Candle>, at: int, minutes: nat, t: int)
    requires OneEachMinute(candles, at, minutes) && at <= t < at + 60 * minutes
    ensures |At(candles, t)| == if Offset(t, at) == 0 then 1 else 0
  {
    hide At;
    AtCounts(candles, t);
    assert forall i :: 0 <= i < |candles| && candles[i].at == t ==> Within(candles, i, at, 60 * minutes);
    if Offset(t, at) == 0 {
      var m := (t - at) / 60;
      assert t == at + 60 * m && 0 <= m < minutes;
      assert HasMinute(candles, at + 60 * m);
    }
  }

  // ----- one bar -----

  /** Two candles of the bucket that disagree in some way. */
  ghost predicate Differ(candles: seq<Candle>, at: int, seconds: int, f: Candle -> nat) {
    exists i, j :: Within(candles, i, at, seconds) && Within(candles, j, at, seconds) && f(candles[i]) != f(candles[j])
  }

  ghost predicate Any(candles: seq<Candle>, at: int, seconds: int) {
    exists i :: Within(candles, i, at, seconds)
  }

  /** The candles of a bucket, as positions in the input. */
  ghost predicate Covers(candles: seq<Candle>, at: int, seconds: int, bucket: seq<Candle>) {
    && (forall i :: Within(candles, i, at, seconds) ==> candles[i] in bucket)
    && (forall c :: c in bucket ==> exists i :: Within(candles, i, at, seconds) && candles[i] == c)
  }

  lemma SpanWithin(candles: seq<Candle>, at: int, seconds: int)
    ensures Covers(candles, at, seconds, Span(candles, at, at + seconds))
    ensures Span(candles, at, at + seconds) == [] <==> !Any(candles, at, seconds)
  {
    SpanMembers(candles, at, at + seconds);
    hide Span;
    var bucket := Span(candles, at, at + seconds);
    forall i | Within(candles, i, at, seconds) ensures candles[i] in bucket {
      assert candles[i] in candles;
    }
    forall c | c in bucket ensures exists i :: Within(candles, i, at, seconds) && candles[i] == c {
      var i :| 0 <= i < |candles| && candles[i] == c;
      assert Within(candles, i, at, seconds);
    }
    if bucket != [] {
      assert bucket[0] in bucket;
    }
  }

  function VersionOf(): Candle -> nat { (c: Candle) => c.version }
  function FinalityOf(): Candle -> nat { (c: Candle) => c.finality }

  /** A bucket has a bar exactly if it has candles, all of one version and all with finite prices. */
  lemma DrawnMeans(candles: seq<Candle>, at: int, seconds: int)
    ensures Drawn(candles, at, seconds) <==>
      && Any(candles, at, seconds) && !Differ(candles, at, seconds, VersionOf())
      && forall i :: Within(candles, i, at, seconds) ==> candles[i].prices.Some?
  {
    SpanWithin(candles, at, seconds);
    hide Span;
    var bucket := Span(candles, at, at + seconds);
    if c, d :| c in bucket && d in bucket && c.version != d.version {
      var i :| Within(candles, i, at, seconds) && candles[i] == c;
      var j :| Within(candles, j, at, seconds) && candles[j] == d;
      assert VersionOf()(candles[i]) != VersionOf()(candles[j]);
    }
  }

  /** What is held against a bar, in order: minutes missing or not over, finalities mixed, a source time missing. */
  lemma BarTells(candles: seq<Candle>, at: int, minutes: nat, now: int)
    requires minutes > 0 && Drawn(candles, at, 60 * minutes)
    ensures var bar := BarOf(candles, at, 60 * minutes, now);
      && bar.at == at && bar.expected == minutes
      && (bar.complete <==> OneEachMinute(candles, at, minutes) && at + 60 * minutes <= now)
      && (bar.summary.finality == None <==> Differ(candles, at, 60 * minutes, FinalityOf()))
      && (bar.summary.sourceAt == None <==> exists i :: Within(candles, i, at, 60 * minutes) && candles[i].sourceAt == None)
      && bar.reasons == (if bar.complete then [] else [Incomplete])
        + (if bar.summary.finality == None then [MixedFinality] else [])
        + (if bar.summary.sourceAt == None then [SourceTimeMissing] else [])
  {
    hide Span, EachMinuteOnce, OneEachMinute, Summarise, OneVersion, Finite, TimesOf, SameFinality, SourceTimed, Differ, Any;
    var bucket := Span(candles, at, at + 60 * minutes);
    EachMinuteMeans(candles, at, minutes);
    SpanWithin(candles, at, 60 * minutes);
    SummaryFinality(bucket);
    FinalityTells(candles, at, 60 * minutes, bucket, Summarise(bucket).finality);
    SourceTells(candles, at, 60 * minutes, bucket);
  }

  lemma SourceTells(candles: seq<Candle>, at: int, seconds: int, bucket: seq<Candle>)
    requires bucket != [] && Finite(bucket)
    requires Covers(candles, at, seconds, bucket)
    ensures SourceTimed(bucket) <==> Summarise(bucket).sourceAt.Some?
    ensures Summarise(bucket).sourceAt == None <==> exists i :: Within(candles, i, at, seconds) && candles[i].sourceAt == None
  {
    SummaryTimes(bucket);
    hide Summarise, Finite;
    assert forall i :: 0 <= i < |bucket| ==> bucket[i] in bucket;
  }

  lemma FinalityTells(candles: seq<Candle>, at: int, seconds: int, bucket: seq<Candle>, finality: Option<nat>)
    requires bucket != []
    requires Covers(candles, at, seconds, bucket)
    requires forall f :: finality == Some(f) <==> forall i :: 0 <= i < |bucket| ==> bucket[i].finality == f
    ensures SameFinality(bucket) <==> finality.Some?
    ensures finality == None <==> Differ(candles, at, seconds, FinalityOf())
  {
    if SameFinality(bucket) {
      var f := bucket[0].finality;
      forall i | 0 <= i < |bucket| ensures bucket[i].finality == f {
        assert bucket[i] in bucket && bucket[0] in bucket;
      }
      assert finality == Some(f);
    } else {
      var c, d :| c in bucket && d in bucket && c.finality != d.finality;
      var i :| Within(candles, i, at, seconds) && candles[i] == c;
      var j :| Within(candles, j, at, seconds) && candles[j] == d;
      assert FinalityOf()(candles[i]) != FinalityOf()(candles[j]);
    }
  }

  ghost predicate Earliest(candles: seq<Candle>, i: int, at: int, seconds: int) {
    Within(candles, i, at, seconds) && forall j :: Within(candles, j, at, seconds) ==> candles[i].at <= candles[j].at
  }

  ghost predicate Latest(candles: seq<Candle>, i: int, at: int, seconds: int) {
    Within(candles, i, at, seconds) && forall j :: Within(candles, j, at, seconds) ==> candles[j].at <= candles[i].at
  }

  /** A bar opens with an earliest candle of its bucket and closes with a latest one. */
  lemma OpensAndCloses(candles: seq<Candle>, at: int, seconds: int, now: int)
    requires seconds > 0 && Drawn(candles, at, seconds)
    ensures var s := BarOf(candles, at, seconds, now).summary;
      && (exists i :: Earliest(candles, i, at, seconds) && candles[i].prices.Some? && candles[i].prices.value.open == s.open)
      && (exists i :: Latest(candles, i, at, seconds) && candles[i].prices.Some? && candles[i].prices.value.close == s.close)
  {
    hide *;
    var bucket := Span(candles, at, at + seconds);
    SpanInTime(candles, at, at + seconds);
    SpanWithin(candles, at, seconds);
    BarEnds(candles, at, seconds, now);
    EndsOf(candles, at, seconds, bucket);
  }

  lemma BarEnds(candles: seq<Candle>, at: int, seconds: int, now: int)
    requires seconds > 0 && Drawn(candles, at, seconds)
    ensures var s, bucket := BarOf(candles, at, seconds, now).summary, Span(candles, at, at + seconds);
      && bucket != [] && bucket[0].prices.Some? && bucket[|bucket| - 1].prices.Some?
      && bucket[0].prices.value.open == s.open && bucket[|bucket| - 1].prices.value.close == s.close
  {
    BarSummary(candles, at, seconds, now);
    SummaryPrices(Span(candles, at, at + seconds));
    hide Span, Summarise, BarOf, OneVersion;
  }

  lemma BarSummary(candles: seq<Candle>, at: int, seconds: int, now: int)
    requires seconds > 0 && Drawn(candles, at, seconds)
    ensures BarOf(candles, at, seconds, now).summary == Summarise(Span(candles, at, at + seconds))
  {
  }

  lemma EndsOf(candles: seq<Candle>, at: int, seconds: int, bucket: seq<Candle>)
    requires bucket != [] && Covers(candles, at, seconds, bucket)
    requires forall i, j :: 0 <= i <= j < |bucket| ==> bucket[i].at <= bucket[j].at
    ensures exists i :: Earliest(candles, i, at, seconds) && candles[i] == bucket[0]
    ensures exists i :: Latest(candles, i, at, seconds) && candles[i] == bucket[|bucket| - 1]
  {
    var first, last := bucket[0], bucket[|bucket| - 1];
    assert first in bucket && last in bucket;
    forall j | Within(candles, j, at, seconds) ensures first.at <= candles[j].at <= last.at {
      var k :| 0 <= k < |bucket| && bucket[k] == candles[j];
    }
    var i :| Within(candles, i, at, seconds) && candles[i] == first;
    assert Earliest(candles, i, at, seconds);
    var n :| Within(candles, n, at, seconds) && candles[n] == last;
    assert Latest(candles, n, at, seconds);
  }

  lemma {:induction false} SpanInTime(candles: seq<Candle>, from: int, until: int)
    ensures forall i, j :: 0 <= i <= j < |Span(candles, from, until)| ==> Span(candles, from, until)[i].at <= Span(candles, from, until)[j].at
    decreases until - from
  {
    if from < until {
      var before, last := Span(candles, from, until - 1), At(candles, until - 1);
      SpanInTime(candles, from, until - 1);
      SpanMembers(candles, from, until - 1);
      AtMembers(candles, until - 1);
      hide Span, At;
      SpanLast(candles, from, until);
      InTime(before, last, until - 1);
    }
  }

  lemma InTime(before: seq<Candle>, last: seq<Candle>, t: int)
    requires forall i, j :: 0 <= i <= j < |before| ==> before[i].at <= before[j].at
    requires (forall c :: c in before ==> c.at <= t) && forall c :: c in last ==> c.at == t
    ensures forall i, j :: 0 <= i <= j < |before + last| ==> (before + last)[i].at <= (before + last)[j].at
  {
    assert forall i :: 0 <= i < |before| ==> before[i] in before;
    assert forall i :: 0 <= i < |last| ==> last[i] in last;
  }

  lemma SpanLast(candles: seq<Candle>, from: int, until: int)
    requires from < until
    ensures Span(candles, from, until) == Span(candles, from, until - 1) + At(candles, until - 1)
  {
  }

  // ----- the chart -----

  /** The last bars, all of them up to five hundred. */
  predicate LastOf(shown: seq<Bar>, bars: seq<Bar>) {
    && |shown| == (if |bars| < 500 then |bars| else 500)
    && forall i :: 0 <= i < |shown| ==> shown[i] == bars[|bars| - |shown| + i]
  }

  /** A timeframe shows its newest bars. */
  lemma ShowsNewest(shown: seq<Bar>, candles: seq<Candle>, seconds: int, now: int)
    requires seconds > 0 && NewestBars(shown, candles, seconds, now)
    ensures exists bars :: AreBars(bars, candles, seconds, now) && LastOf(shown, bars)
  {
    hide AreBars, LastOf, Newest;
    var bars :| AreBars(bars, candles, seconds, now) && shown == Newest(bars);
    NewestAreLast(bars);
  }

  lemma NewestAreLast(bars: seq<Bar>)
    ensures LastOf(Newest(bars), bars)
  {
    var shown := Newest(bars);
    if |bars| <= 500 {
      assert shown == bars;
    } else {
      assert shown == bars[|bars| - 500..];
    }
  }
}
