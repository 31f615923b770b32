/** The aggregation loop, and the chart of all timeframes. */
module ChartBuild {
  import opened Prelude
  import opened Ranking
  import opened Chart

  const CHART_LIMIT := 500

  // ----- one bucket -----

  /** A bucket start of the timeframe. */
  ghost predicate Aligned(bucket: int, seconds: int)
    requires seconds > 0
  {
    exists k: int :: Times(k, seconds) == bucket
  }

  function Times(k: int, seconds: int): int {
    k * seconds
  }

  function BucketOf(at: int, seconds: int): (bucket: int)
    requires seconds > 0
    ensures bucket <= at < bucket + seconds && Aligned(bucket, seconds)
  {
    assert Times(at / seconds, seconds) == at - at % seconds;
    at - at % seconds
  }

  /** A second is in one bucket only. */
  lemma OneBucket(at: int, bucket: int, seconds: int)
    requires seconds > 0 && Aligned(bucket, seconds) && bucket <= at < bucket + seconds
    ensures BucketOf(at, seconds) == bucket
  {
    var k :| Times(k, seconds) == bucket;
    var j :| Times(j, seconds) == BucketOf(at, seconds);
    NotAStepApart(k - j, seconds, bucket - BucketOf(at, seconds));
  }

  lemma NotAStepApart(d: int, seconds: int, gap: int)
    requires seconds > 0 && gap == d * seconds && -seconds < gap < seconds
    ensures d == 0 && gap == 0
  {
  }

  lemma StepAtLeast(d: int, seconds: int)
    requires seconds > 0
    ensures d >= 1 ==> d * seconds >= seconds
    ensures d <= -1 ==> d * seconds <= -seconds
  {
  }

  function BucketReasons(candles: seq<Candle>, at: int, seconds: int, now: int): seq<Reason> {
    ReasonsOf(Span(candles, at, at + seconds), EachMinuteOnce(candles, at, seconds) && at + seconds <= now)
  }

  /** Stable insertion by time: rows of one second keep their order. */
  method SortRows(rows: seq<Candle>, from: int, until: int) returns (sorted: seq<Candle>)
    requires forall c :: c in rows ==> from <= c.at < until
    ensures sorted == Span(rows, from, until)
  {
    hide Span;
    sorted := [];
    EmptySpan(from, until);
    for i := 0 to |rows|
      invariant sorted == Span(rows[..i], from, until)
    {
      assert rows[..i + 1] == rows[..i] + [rows[i]];
      sorted := PlaceRow(sorted, rows[..i], rows[i], from, until);
    }
    assert rows[..|rows|] == rows;
  }

  /** One more row goes after everything that is not later. */
  method PlaceRow(sorted: seq<Candle>, ghost rows: seq<Candle>, c: Candle, from: int, until: int) returns (grown: seq<Candle>)
    requires from <= c.at < until && sorted == Span(rows, from, until)
    ensures grown == Span(rows + [c], from, until)
  {
    hide Span;
    var place := 0;
    while place < |sorted| && sorted[place].at <= c.at
      invariant place <= |sorted| && forall j :: 0 <= j < place ==> sorted[j].at <= c.at
    {
      place := place + 1;
    }
    SpanInsert(rows, c, from, until);
    SpanSplits(rows, from, c.at + 1, until);
    PlaceFound(rows, c, from, until, sorted, place);
    grown := sorted[..place] + [c] + sorted[place..];
  }

  lemma {:induction false} EmptySpan(from: int, until: int)
    ensures Span([], from, until) == []
    decreases until - from
  {
    if from < until {
      EmptySpan(from, until - 1);
    }
  }

  lemma PlaceFound(rows: seq<Candle>, c: Candle, from: int, until: int, sorted: seq<Candle>, place: nat)
    requires from <= c.at < until && place <= |sorted|
    requires sorted == Span(rows, from, c.at + 1) + Span(rows, c.at + 1, until)
    requires forall j :: 0 <= j < place ==> sorted[j].at <= c.at
    requires place < |sorted| ==> sorted[place].at > c.at
    ensures sorted[..place] == Span(rows, from, c.at + 1) && sorted[place..] == Span(rows, c.at + 1, until)
  {
    hide Span;
    var a, b := Span(rows, from, c.at + 1), Span(rows, c.at + 1, until);
    SpanMembers(rows, from, c.at + 1);
    SpanMembers(rows, c.at + 1, until);
    assert forall j :: 0 <= j < |a| ==> sorted[j] == a[j] && a[j] in a;
    assert forall j :: |a| <= j < |sorted| ==> sorted[j] == b[j - |a|] && b[j - |a|] in b;
    var next := if |a| < |sorted| then sorted[|a|].at else c.at + 1;
    assert next > c.at;
    assert place == |a|;
  }

  /** Rows filtered to a bucket have the bucket's candles. */
  function InBucket(candles: seq<Candle>, bucket: int, seconds: int): seq<Candle>
    requires seconds > 0
  {
    if candles == [] then []
    else
      var n := |candles| - 1;
      InBucket(candles[..n], bucket, seconds) + If(BucketOf(candles[n].at, seconds) == bucket, candles[n])
  }

  lemma IsBucket(at: int, bucket: int, seconds: int)
    requires seconds > 0 && Aligned(bucket, seconds)
    ensures BucketOf(at, seconds) == bucket <==> bucket <= at < bucket + seconds
  {
    if bucket <= at < bucket + seconds {
      OneBucket(at, bucket, seconds);
    }
  }

  lemma {:induction false} InBucketAt(candles: seq<Candle>, bucket: int, seconds: int, t: int)
    requires seconds > 0 && Aligned(bucket, seconds) && bucket <= t < bucket + seconds
    ensures At(InBucket(candles, bucket, seconds), t) == At(candles, t)
  {
    hide BucketOf, Aligned;
    if candles != [] {
      var n := |candles| - 1;
      InBucketAt(candles[..n], bucket, seconds, t);
      IsBucket(candles[n].at, bucket, seconds);
      var rest := InBucket(candles[..n], bucket, seconds);
      AtMore(rest, candles[n], t);
      assert rest + [] == rest;
    }
  }

  lemma {:induction false} InBucketMembers(candles: seq<Candle>, bucket: int, seconds: int)
    requires seconds > 0 && Aligned(bucket, seconds)
    ensures forall c :: c in InBucket(candles, bucket, seconds) <==> c in candles && bucket <= c.at < bucket + seconds
  {
    hide BucketOf, Aligned;
    if candles != [] {
      var n := |candles| - 1;
      InBucketMembers(candles[..n], bucket, seconds);
      IsBucket(candles[n].at, bucket, seconds);
      assert candles == candles[..n] + [candles[n]];
    }
  }

  lemma {:induction false} InBucketSpan(candles: seq<Candle>, bucket: int, seconds: int, until: int)
    requires seconds > 0 && Aligned(bucket, seconds) && bucket <= until <= bucket + seconds
    ensures Span(InBucket(candles, bucket, seconds), bucket, until) == Span(candles, bucket, until)
    decreases until - bucket
  {
    hide At, InBucket, Aligned;
    if bucket < until {
      InBucketSpan(candles, bucket, seconds, until - 1);
      InBucketAt(candles, bucket, seconds, until - 1);
    }
  }

  method SummariseRows(ordered: seq<Candle>) returns (summary: Summary)
    requires ordered != [] && Finite(ordered)
    ensures summary == Summarise(ordered)
  {
    hide Merge;
    summary := Single(ordered[0]);
    assert ordered[..1] == [ordered[0]];
    for i := 1 to |ordered|
      invariant summary == Summarise(ordered[..i])
    {
      assert ordered[..i + 1][..i] == ordered[..i];
      summary := Merge(summary, Single(ordered[i]));
    }
    assert ordered[..|ordered|] == ordered;
  }

  // ----- completeness by counting -----

  function Starts(rows: seq<Candle>): set<int> {
    set c | c in rows :: c.at
  }

  function ExpectedStarts(bucket: int, n: nat): set<int> {
    set i | 0 <= i < n :: bucket + 60 * i
  }

  /** The number of candles and the set of their minutes tell that every minute has exactly one. */
  lemma CountAndStarts(candles: seq<Candle>, bucket: int, n: nat)
    ensures var rows := Span(candles, bucket, bucket + 60 * n);
      |rows| == n && Starts(rows) == ExpectedStarts(bucket, n) <==> EachMinuteOnce(candles, bucket, 60 * n)
  {
    var rows := Span(candles, bucket, bucket + 60 * n);
    SpanMembers(candles, bucket, bucket + 60 * n);
    forall t | bucket <= t < bucket + 60 * n ensures t in Starts(rows) <==> At(candles, t) != [] {
      AtMembers(candles, t);
      assert At(candles, t) != [] ==> At(candles, t)[0] in At(candles, t);
    }
    forall t | bucket <= t < bucket + 60 * n ensures t in ExpectedStarts(bucket, n) <==> Offset(t, bucket) == 0 {
      ExpectedOffsets(bucket, n, t);
    }
    if Starts(rows) == ExpectedStarts(bucket, n) {
      if |rows| == n {
        MinutesCount(candles, bucket, n);
      }
    }
    if EachMinuteOnce(candles, bucket, 60 * n) {
      MinutesCount(candles, bucket, n);
      forall t | t in ExpectedStarts(bucket, n) ensures bucket <= t < bucket + 60 * n {}
      assert Starts(rows) == ExpectedStarts(bucket, n);
    }
  }

  lemma ExpectedOffsets(bucket: int, n: nat, t: int)
    requires bucket <= t < bucket + 60 * n
    ensures t in ExpectedStarts(bucket, n) <==> Offset(t, bucket) == 0
  {
    if Offset(t, bucket) == 0 {
      assert t == bucket + 60 * ((t - bucket) / 60);
    }
  }

  /** Candles only at minute starts, and at every one of them. */
  predicate MinuteStarts(candles: seq<Candle>, bucket: int, n: nat) {
    forall t :: bucket <= t < bucket + 60 * n ==> (At(candles, t) != [] <==> Offset(t, bucket) == 0)
  }

  /** With a candle at every minute start and nowhere else, there are n exactly when none repeats. */
  lemma {:induction false} MinutesCount(candles: seq<Candle>, bucket: int, n: nat)
    requires MinuteStarts(candles, bucket, n)
    ensures var rows := Span(candles, bucket, bucket + 60 * n);
      |rows| >= n && (|rows| == n <==> EachMinuteOnce(candles, bucket, 60 * n))
  {
    if n > 0 {
      LastMinute(candles, bucket, n);
      hide EachMinuteOnce, Span, At, Offset;
      MinutesCount(candles, bucket, n - 1);
    } else {
      assert Span(candles, bucket, bucket) == [];
    }
  }

  lemma LastMinute(candles: seq<Candle>, bucket: int, n: nat)
    requires n > 0 && MinuteStarts(candles, bucket, n)
    ensures var last := bucket + 60 * (n - 1);
      && |At(candles, last)| >= 1
      && |Span(candles, bucket, bucket + 60 * n)| == |Span(candles, bucket, last)| + |At(candles, last)|
      && (EachMinuteOnce(candles, bucket, 60 * n) <==>
        EachMinuteOnce(candles, bucket, 60 * (n - 1)) && |At(candles, last)| == 1)
  {
    var last := bucket + 60 * (n - 1);
    MinuteSpan(candles, bucket, n);
    EachMinuteSplits(candles, bucket, last, bucket + 60 * n);
    forall t | last < t < last + 60 ensures Offset(t, last) != 0 && Offset(t, bucket) != 0 && At(candles, t) == [] {}
    hide At;
    assert Offset(last, last) == 0;
  }

  lemma MinuteSpan(candles: seq<Candle>, bucket: int, n: nat)
    requires n > 0 && MinuteStarts(candles, bucket, n)
    ensures var last := bucket + 60 * (n - 1);
      |At(candles, last)| >= 1 && |Span(candles, bucket, bucket + 60 * n)| == |Span(candles, bucket, last)| + |At(candles, last)|
  {
    hide At;
    var last := bucket + 60 * (n - 1);
    SpanSplits(candles, bucket, last, bucket + 60 * n);
    SpanSplits(candles, last, last + 1, last + 60);
    assert Span(candles, last, last + 1) == Span(candles, last, last) + At(candles, last);
    assert Offset(last, bucket) == 0;
    forall t | last < t < last + 60 ensures Offset(t, bucket) != 0 && At(candles, t) == [] {}
    NothingIn(candles, last + 1, last + 60);
  }

  lemma {:induction false} NothingIn(candles: seq<Candle>, from: int, until: int)
    requires forall t :: from <= t < until ==> At(candles, t) == []
    ensures Span(candles, from, until) == []
    decreases until - from
  {
    if from < until {
      NothingIn(candles, from, until - 1);
    }
  }

  // ----- the loop over buckets -----

  ghost predicate Grouped(grouped: map<int, seq<Candle>>, candles: seq<Candle>, seconds: int)
    requires seconds > 0
  {
    && (forall b :: b in grouped <==> exists c :: c in candles && BucketOf(c.at, seconds) == b)
    && (forall b :: b in grouped ==> grouped[b] == InBucket(candles, b, seconds))
  }

  method GroupRows(candles: seq<Candle>, seconds: int) returns (grouped: map<int, seq<Candle>>)
    requires seconds > 0
    ensures Grouped(grouped, candles, seconds)
  {
    hide BucketOf, Grouped;
    grouped := map[];
    NothingGrouped(seconds);
    for i := 0 to |candles|
      invariant Grouped(grouped, candles[..i], seconds)
    {
      var b := BucketOf(candles[i].at, seconds);
      assert candles[..i + 1] == candles[..i] + [candles[i]];
      GroupOne(grouped, candles[..i], candles[i], seconds);
      grouped := grouped[b := (if b in grouped then grouped[b] else []) + [candles[i]]];
    }
    assert candles[..|candles|] == candles;
  }

  lemma NothingGrouped(seconds: int)
    requires seconds > 0
    ensures Grouped(map[], [], seconds)
  {
  }

  lemma GroupOne(grouped: map<int, seq<Candle>>, candles: seq<Candle>, c: Candle, seconds: int)
    requires seconds > 0 && Grouped(grouped, candles, seconds)
    ensures var b := BucketOf(c.at, seconds);
      Grouped(grouped[b := (if b in grouped then grouped[b] else []) + [c]], candles + [c], seconds)
  {
    hide BucketOf;
    var bucket := BucketOf(c.at, seconds);
    assert (candles + [c])[..|candles|] == candles;
    forall b ensures InBucket(candles + [c], b, seconds) == InBucket(candles, b, seconds) + If(b == bucket, c) {}
    if bucket !in grouped {
      NoneInBucket(candles, bucket, seconds);
    }
    forall b | exists d :: d in candles + [c] && BucketOf(d.at, seconds) == b
      ensures b == bucket || b in grouped
    {
    }
    forall b | b in grouped ensures exists d :: d in candles + [c] && BucketOf(d.at, seconds) == b {
      var d :| d in candles && BucketOf(d.at, seconds) == b;
      assert d in candles + [c];
    }
    assert c in candles + [c];
  }

  lemma {:induction false} NoneInBucket(candles: seq<Candle>, bucket: int, seconds: int)
    requires seconds > 0 && forall c :: c in candles ==> BucketOf(c.at, seconds) != bucket
    ensures InBucket(candles, bucket, seconds) == []
  {
    if candles != [] {
      NoneInBucket(candles[..|candles| - 1], bucket, seconds);
    }
  }

  /** Whether some bucket is held up for this reason. */
  ghost predicate Flagged(candles: seq<Candle>, seconds: int, now: int, reason: Reason)
    requires seconds > 0
  {
    exists b :: Aligned(b, seconds) && reason in BucketReasons(candles, b, seconds, now)
  }

  /** Exactly the drawn buckets, oldest first. */
  ghost predicate AreBars(bars: seq<Bar>, candles: seq<Candle>, seconds: int, now: int)
    requires seconds > 0
  {
    && Ascending(bars)
    && (forall bar :: bar in bars ==> Aligned(bar.at, seconds) && Drawn(candles, bar.at, seconds) && bar == BarOf(candles, bar.at, seconds, now))
    && (forall b :: Aligned(b, seconds) && Drawn(candles, b, seconds) ==> exists bar :: bar in bars && bar.at == b)
  }

  /** The bars of the first buckets, and the reasons against them. */
  ghost predicate Progress(bars: seq<Bar>, reasons: seq<Reason>, candles: seq<Candle>, buckets: seq<int>, seconds: int, now: int)
    requires seconds > 0
  {
    && bars == BarsAt(candles, buckets, seconds, now)
    && reasons == ReasonsAt(candles, buckets, seconds, now)
  }

  function BarsAt(candles: seq<Candle>, buckets: seq<int>, seconds: int, now: int): seq<Bar>
    requires seconds > 0
  {
    if buckets == [] then []
    else BarsAt(candles, buckets[..|buckets| - 1], seconds, now) + DrawnBar(candles, buckets[|buckets| - 1], seconds, now)
  }

  /** The reasons against the buckets, one after the other. */
  function ReasonsAt(candles: seq<Candle>, buckets: seq<int>, seconds: int, now: int): seq<Reason> {
    if buckets == [] then []
    else ReasonsAt(candles, buckets[..|buckets| - 1], seconds, now) + BucketReasons(candles, buckets[|buckets| - 1], seconds, now)
  }

  lemma {:induction false} ReasonsAtMembers(candles: seq<Candle>, buckets: seq<int>, seconds: int, now: int)
    ensures forall r :: r in ReasonsAt(candles, buckets, seconds, now) <==>
      exists b :: b in buckets && r in BucketReasons(candles, b, seconds, now)
  {
    hide BucketReasons;
    if buckets != [] {
      var n := |buckets| - 1;
      ReasonsAtMembers(candles, buckets[..n], seconds, now);
      assert buckets == buckets[..n] + [buckets[n]];
    }
  }

  /** The reasons are those of the non-empty buckets in time order. */
  ghost predicate InBucketOrder(reasons: seq<Reason>, candles: seq<Candle>, seconds: int, now: int)
    requires seconds > 0
  {
    exists buckets :: Exhaustive(candles, buckets, seconds) && reasons == ReasonsAt(candles, buckets, seconds, now)
  }

  method AggregateChart(candles: seq<Candle>, seconds: int, now: int) returns (bars: seq<Bar>, reasons: seq<Reason>)
    requires seconds > 0 && seconds % 60 == 0
    ensures AreBars(bars, candles, seconds, now)
    ensures InBucketOrder(reasons, candles, seconds, now)
    ensures forall r :: r in reasons <==> Flagged(candles, seconds, now, r)
  {
    hide InBucketOrder, ReasonsAt, Progress, Grouped, AreBars, Flagged, Finite, OneVersion, SameFinality, SourceTimed, DrawnBar, BucketReasons, Listing,
      Summarise, Span, EachMinuteOnce, BucketOf;
    var grouped := GroupRows(candles, seconds);
    var buckets := SortTimes(grouped.Keys);
    bars, reasons := [], [];
    NoProgress(candles, seconds, now);
    for i := 0 to |buckets|
      invariant Progress(bars, reasons, candles, buckets[..i], seconds, now)
    {
      var at := buckets[i];
      GroupedBucket(grouped, candles, buckets, i, seconds);
      var ordered := SortRows(grouped[at], at, at + seconds);
      var more, held := AggregateBucket(candles, ordered, at, seconds, now);
      ProgressOne(bars, reasons, candles, buckets, i, seconds, now, more, held);
      bars, reasons := bars + more, reasons + held;
    }
    assert buckets[..|buckets|] == buckets;
    ProgressAll(bars, reasons, candles, grouped, buckets, seconds, now);
  }

  method SortTimes(times: set<int>) returns (sorted: seq<int>)
    ensures Listing(times, Before(), sorted)
  {
    sorted := Sort(times, Before());
  }

  function Before(): (int, int) -> bool {
    (x: int, y: int) => x < y
  }

  /** One bucket of the loop: skipped with a reason, or one bar with its reasons. */
  method AggregateBucket(candles: seq<Candle>, ordered: seq<Candle>, at: int, seconds: int, now: int)
    returns (bars: seq<Bar>, reasons: seq<Reason>)
    requires seconds > 0 && seconds % 60 == 0 && ordered != [] && ordered == Span(candles, at, at + seconds)
    ensures bars == DrawnBar(candles, at, seconds, now) && reasons == BucketReasons(candles, at, seconds, now)
  {
    hide Span, EachMinuteOnce, OneVersion, Finite, SameFinality, SourceTimed, Summarise;
    if !OneVersion(ordered) {
      return [], [VersionBoundary];
    }
    if !Finite(ordered) {
      return [], [NonFinite];
    }
    var expected := seconds / 60;
    CountAndStarts(candles, at, expected);
    var complete := |ordered| == expected && Starts(ordered) == ExpectedStarts(at, expected) && at + seconds <= now;
    reasons := Unless(complete, Incomplete) + Unless(SameFinality(ordered), MixedFinality) + Unless(SourceTimed(ordered), SourceTimeMissing);
    var summary := SummariseRows(ordered);
    bars := [Bar(at, summary, expected, complete, reasons)];
  }

  lemma GroupedBucket(grouped: map<int, seq<Candle>>, candles: seq<Candle>, buckets: seq<int>, i: nat, seconds: int)
    requires seconds > 0 && Grouped(grouped, candles, seconds) && Listing(grouped.Keys, Before(), buckets) && i < |buckets|
    ensures buckets[i] in grouped && Aligned(buckets[i], seconds)
    ensures forall c :: c in grouped[buckets[i]] ==> buckets[i] <= c.at < buckets[i] + seconds
    ensures var at := buckets[i]; Span(grouped[at], at, at + seconds) == Span(candles, at, at + seconds) != []
  {
    hide Span, InBucket, BucketOf, Listing;
    var at := buckets[i];
    ListingMember(grouped.Keys, buckets, i);
    assert at in grouped.Keys;
    var c :| c in candles && BucketOf(c.at, seconds) == at;
    InBucketSpan(candles, at, seconds, at + seconds);
    InBucketMembers(candles, at, seconds);
    SpanMembers(candles, at, at + seconds);
    assert c in Span(candles, at, at + seconds);
  }

  lemma ListingMember(times: set<int>, buckets: seq<int>, i: nat)
    requires Listing(times, Before(), buckets) && i < |buckets|
    ensures buckets[i] in ToSet(buckets) && buckets[i] in times
  {
  }

  lemma NoProgress(candles: seq<Candle>, seconds: int, now: int)
    requires seconds > 0
    ensures Progress([], [], candles, [], seconds, now)
  {
  }

  lemma ProgressOne(bars: seq<Bar>, reasons: seq<Reason>, candles: seq<Candle>, buckets: seq<int>, i: nat, seconds: int, now: int,
      more: seq<Bar>, held: seq<Reason>)
    requires seconds > 0 && i < |buckets| && Progress(bars, reasons, candles, buckets[..i], seconds, now)
    requires more == DrawnBar(candles, buckets[i], seconds, now) && held == BucketReasons(candles, buckets[i], seconds, now)
    ensures Progress(bars + more, reasons + held, candles, buckets[..i + 1], seconds, now)
  {
    hide DrawnBar, BucketReasons;
    assert buckets[..i + 1] == buckets[..i] + [buckets[i]];
    assert buckets[..i + 1][..i] == buckets[..i];
  }

  /** Buckets that are not listed are empty. */
  lemma UnlistedEmpty(grouped: map<int, seq<Candle>>, candles: seq<Candle>, b: int, seconds: int)
    requires seconds > 0 && Grouped(grouped, candles, seconds) && Aligned(b, seconds) && b !in grouped
    ensures Span(candles, b, b + seconds) == []
  {
    SpanMembers(candles, b, b + seconds);
    if Span(candles, b, b + seconds) != [] {
      var c := Span(candles, b, b + seconds)[0];
      assert c in Span(candles, b, b + seconds);
      OneBucket(c.at, b, seconds);
    }
  }

  ghost predicate Ascending(bars: seq<Bar>) {
    forall i, j :: 0 <= i < j < |bars| ==> bars[i].at < bars[j].at
  }

  lemma AscendingMore(bars: seq<Bar>, more: seq<Bar>)
    requires Ascending(bars) && |more| <= 1 && forall a, b :: a in bars && b in more ==> a.at < b.at
    ensures Ascending(bars + more)
  {
  }

  lemma {:induction false} BarsAtMembers(candles: seq<Candle>, buckets: seq<int>, seconds: int, now: int)
    requires seconds > 0
    ensures forall bar :: bar in BarsAt(candles, buckets, seconds, now) <==>
      bar.at in buckets && bar in DrawnBar(candles, bar.at, seconds, now)
  {
    hide DrawnBar, BarsAt;
    if buckets == [] {
      NoBarsAt(candles, seconds, now);
    } else {
      var n := |buckets| - 1;
      BarsAtMembers(candles, buckets[..n], seconds, now);
      DrawnAt(candles, buckets[n], seconds, now);
      BarsAtLast(candles, buckets, seconds, now);
      OneMoreBucket(candles, buckets[..n], buckets[n], seconds, now, BarsAt(candles, buckets[..n], seconds, now));
      hide *;
      assert buckets == buckets[..n] + [buckets[n]];
    }
  }

  lemma NoBarsAt(candles: seq<Candle>, seconds: int, now: int)
    requires seconds > 0
    ensures BarsAt(candles, [], seconds, now) == []
  {
  }

  lemma BarsAtLast(candles: seq<Candle>, buckets: seq<int>, seconds: int, now: int)
    requires seconds > 0 && buckets != []
    ensures var n := |buckets| - 1;
      BarsAt(candles, buckets, seconds, now) == BarsAt(candles, buckets[..n], seconds, now) + DrawnBar(candles, buckets[n], seconds, now)
  {
  }

  lemma OneMoreBucket(candles: seq<Candle>, buckets: seq<int>, b: int, seconds: int, now: int, bars: seq<Bar>)
    requires seconds > 0
    requires forall bar :: bar in bars <==> bar.at in buckets && bar in DrawnBar(candles, bar.at, seconds, now)
    requires forall bar :: bar in DrawnBar(candles, b, seconds, now) ==> bar.at == b
    ensures forall bar :: bar in bars + DrawnBar(candles, b, seconds, now) <==>
      bar.at in buckets + [b] && bar in DrawnBar(candles, bar.at, seconds, now)
  {
  }

  lemma {:induction false} BarsAtAscend(candles: seq<Candle>, buckets: seq<int>, seconds: int, now: int)
    requires seconds > 0 && forall i, j :: 0 <= i < j < |buckets| ==> buckets[i] < buckets[j]
    ensures Ascending(BarsAt(candles, buckets, seconds, now))
  {
    hide DrawnBar, Ascending;
    if buckets == [] {
      NoneAscend();
    } else {
      var n := |buckets| - 1;
      var rest := buckets[..n];
      BarsAtAscend(candles, rest, seconds, now);
      BarsAtMembers(candles, rest, seconds, now);
      DrawnAt(candles, buckets[n], seconds, now);
      forall b | b in rest ensures b < buckets[n] {
        var i :| 0 <= i < n && rest[i] == b;
      }
      AscendingMore(BarsAt(candles, rest, seconds, now), DrawnBar(candles, buckets[n], seconds, now));
    }
  }

  lemma NoneAscend()
    ensures Ascending([])
  {
  }

  lemma DrawnAt(candles: seq<Candle>, at: int, seconds: int, now: int)
    requires seconds > 0
    ensures var bars := DrawnBar(candles, at, seconds, now); |bars| <= 1 && forall bar :: bar in bars ==> bar.at == at
  {
  }

  lemma ProgressAll(bars: seq<Bar>, reasons: seq<Reason>, candles: seq<Candle>, grouped: map<int, seq<Candle>>, buckets: seq<int>,
      seconds: int, now: int)
    requires seconds > 0 && Grouped(grouped, candles, seconds) && Listing(grouped.Keys, Before(), buckets)
    requires Progress(bars, reasons, candles, buckets, seconds, now)
    ensures AreBars(bars, candles, seconds, now)
    ensures InBucketOrder(reasons, candles, seconds, now)
    ensures forall r :: r in reasons <==> Flagged(candles, seconds, now, r)
  {
    ListedOrEmpty(candles, grouped, buckets, seconds);
    hide Grouped, Listing, Span, ReasonsOf, DrawnBar, Aligned, BarsAt, ReasonsAt;
    ReasonsFlagged(candles, buckets, seconds, now);
    AllBars(candles, buckets, seconds, now);
  }

  /** The buckets are aligned and leave out only empty ones. */
  ghost predicate Exhaustive(candles: seq<Candle>, buckets: seq<int>, seconds: int)
    requires seconds > 0
  {
    && (forall i, j :: 0 <= i < j < |buckets| ==> buckets[i] < buckets[j])
    && (forall b :: b in buckets ==> Aligned(b, seconds))
    && (forall b :: Aligned(b, seconds) && b !in buckets ==> Span(candles, b, b + seconds) == [])
  }

  lemma ListedOrEmpty(candles: seq<Candle>, grouped: map<int, seq<Candle>>, buckets: seq<int>, seconds: int)
    requires seconds > 0 && Grouped(grouped, candles, seconds) && Listing(grouped.Keys, Before(), buckets)
    ensures Exhaustive(candles, buckets, seconds)
  {
    forall b ensures b in buckets <==> b in grouped {
      assert b in buckets <==> b in ToSet(buckets);
    }
    forall b | b in buckets ensures Aligned(b, seconds) {
      var i :| 0 <= i < |buckets| && buckets[i] == b;
      GroupedBucket(grouped, candles, buckets, i, seconds);
    }
    hide Grouped, Aligned, Span;
    forall b | Aligned(b, seconds) && b !in buckets ensures Span(candles, b, b + seconds) == [] {
      UnlistedEmpty(grouped, candles, b, seconds);
    }
  }

  /** The reasons of exhaustive buckets are those held against some bucket. */
  lemma ReasonsFlagged(candles: seq<Candle>, buckets: seq<int>, seconds: int, now: int)
    requires seconds > 0 && Exhaustive(candles, buckets, seconds)
    ensures forall r :: r in ReasonsAt(candles, buckets, seconds, now) <==> Flagged(candles, seconds, now, r)
  {
    hide Aligned, Span, EachMinuteOnce, OneVersion, Finite, SameFinality, SourceTimed;
    ReasonsAtMembers(candles, buckets, seconds, now);
    forall b | Aligned(b, seconds) && b !in buckets ensures BucketReasons(candles, b, seconds, now) == [] {
    }
    hide BucketReasons;
  }

  lemma AllBars(candles: seq<Candle>, buckets: seq<int>, seconds: int, now: int)
    requires seconds > 0 && Exhaustive(candles, buckets, seconds)
    ensures AreBars(BarsAt(candles, buckets, seconds, now), candles, seconds, now)
  {
    hide Aligned, Span, BarsAt, Ascending, BarOf, OneVersion, Finite;
    var bars := BarsAt(candles, buckets, seconds, now);
    BarsAtMembers(candles, buckets, seconds, now);
    BarsAtAscend(candles, buckets, seconds, now);
    forall b | Aligned(b, seconds) && Drawn(candles, b, seconds) ensures exists bar :: bar in bars && bar.at == b {
      DrawnAt(candles, b, seconds, now);
      var bar := BarOf(candles, b, seconds, now);
      assert bar in DrawnBar(candles, b, seconds, now);
      assert bar in bars;
    }
    forall bar | bar in bars ensures Drawn(candles, bar.at, seconds) && bar == BarOf(candles, bar.at, seconds, now) {
      assert bar in DrawnBar(candles, bar.at, seconds, now);
    }
  }
}
