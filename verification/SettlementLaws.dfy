/**
 When an outcome is ready and what it says, read off the clock, the map and the bars alone; and that
 reading bars back from bundles settles the same outcomes as the table they were exported from.
 */
module SettlementLaws {
  import opened Prelude
  import opened Bundles
  import opened Settlement
  import opened LeadTime
  import OutcomeExport
  import OutcomeReader
  import OutcomeRoundTrip
  import Joining

  /** The first minute boundary at or after the decision. */
  predicate StartsAt(d: Decision, cutoff: int) {
    cutoff % 60_000 == 0 && d.decisionAt <= cutoff < d.decisionAt + 60_000
  }

  lemma OneStart(d: Decision, cutoff: int)
    requires StartsAt(d, cutoff)
    ensures cutoff == OutcomeCutoff(d.decisionAt)
  {
    var c := OutcomeCutoff(d.decisionAt);
    assert cutoff / 60_000 * 60_000 == cutoff && c / 60_000 * 60_000 == c;
  }

  /** The reader has another revision of the reference's market and not this one. */
  predicate Renamed(reader: Reader, key: nat) {
    key !in reader.keys && exists k :: k in reader.keys && reader.family(k) == reader.family(key)
  }

  predicate HasBarAt(reader: Reader, key: nat, at: int) {
    exists i :: 0 <= i < |reader.data.bars| && reader.data.bars[i].key == key && reader.data.bars[i].at == at
  }

  lemma HasBarMeans(reader: Reader, key: nat, at: int)
    ensures HasBar(reader, key, at) <==> HasBarAt(reader, key, at)
  {
    if HasBar(reader, key, at) {
      var b :| b in reader.data.bars && b.key == key && b.at == at;
    }
  }

  /** The bar at the cutoff and every bar of the horizon are there. */
  ghost predicate HasAll(reader: Reader, key: nat, cutoff: int, horizon: nat) {
    forall m :: 0 <= m <= horizon ==> HasBarAt(reader, key, cutoff + 60_000 * m)
  }

  /**
   An outcome is ready exactly if its horizon is over, its identity has a reference, the reader is of the
   decision's map and has not renamed the reference, and every minute from the cutoff on has its bar.
   */
  lemma ReadyIff(d: Decision, f: Feature, reader: Reader, horizon: nat, now: int, outcome: Outcome, cutoff: int)
    requires Settled(d, f, reader, horizon, now, outcome) && StartsAt(d, cutoff)
    ensures outcome.Ready? <==>
      && now >= cutoff + 60_000 * horizon && f.eligible && f.referenceKey.Some?
      && reader.mapVersion == d.mapVersion && !Renamed(reader, f.referenceKey.value)
      && HasAll(reader, f.referenceKey.value, cutoff, horizon)
  {
    OneStart(d, cutoff);
    if f.referenceKey.Some? {
      AllMeans(reader, f.referenceKey.value, cutoff, horizon);
      hide HasBarAt, Unbroken, HasBar, SomeMeasure, HasAll;
    }
  }

  lemma AllMeans(reader: Reader, key: nat, cutoff: int, horizon: nat)
    ensures HasAll(reader, key, cutoff, horizon) <==> HasBar(reader, key, cutoff) && Unbroken(reader, key, cutoff, horizon)
  {
    forall m: nat ensures HasBarAt(reader, key, cutoff + 60_000 * m) <==> HasBar(reader, key, cutoff + m * MINUTE) {
      HasBarMeans(reader, key, cutoff + m * MINUTE);
    }
    hide HasBar, HasBarAt;
    if HasAll(reader, key, cutoff, horizon) {
      assert HasBarAt(reader, key, cutoff + 60_000 * 0);
      assert HasBar(reader, key, cutoff + 0 * MINUTE);
    }
    if HasBar(reader, key, cutoff) && Unbroken(reader, key, cutoff, horizon) {
      forall m | 0 <= m <= horizon ensures HasBarAt(reader, key, cutoff + 60_000 * m) {
        var n: nat := m;
        assert HasBar(reader, key, cutoff + n * MINUTE);
      }
    }
  }

  /** Why an outcome is not ready: the first of these, in this order. */
  lemma ReasonsInOrder(d: Decision, f: Feature, reader: Reader, horizon: nat, now: int, outcome: Outcome, cutoff: int)
    requires Settled(d, f, reader, horizon, now, outcome) && StartsAt(d, cutoff)
    ensures outcome == Unsettled(HorizonPending) <==> now < cutoff + 60_000 * horizon
    ensures outcome.Unsettled? && outcome.reason != HorizonPending ==>
      (outcome.reason == ReferenceIneligible <==> !f.eligible || f.referenceKey == None)
    ensures outcome.Unsettled? && outcome.reason != HorizonPending && outcome.reason != ReferenceIneligible ==>
      && (outcome.reason == MapChanged <==> reader.mapVersion != d.mapVersion)
      && (outcome.reason == RevisionChanged <==> reader.mapVersion == d.mapVersion && Renamed(reader, f.referenceKey.value))
      && (outcome.reason == BaselineUnavailable ==> !HasBarAt(reader, f.referenceKey.value, cutoff))
      && (outcome.reason == FutureBarGap ==>
            HasBarAt(reader, f.referenceKey.value, cutoff) && !HasAll(reader, f.referenceKey.value, cutoff, horizon))
  {
    OneStart(d, cutoff);
    if f.referenceKey.Some? {
      AllMeans(reader, f.referenceKey.value, cutoff, horizon);
      HasBarMeans(reader, f.referenceKey.value, cutoff);
      hide HasBarAt, Unbroken, HasBar, SomeMeasure, HasAll;
    }
  }

  // ----- what a ready outcome says -----

  /** By how many percent a value is off a price, without a quotient. */
  predicate Percent(value: real, price: real, percent: real) {
    percent * price == 100.0 * (value - price)
  }

  lemma ReturnIsPercent(value: real, price: real)
    requires price > 0.0
    ensures Percent(value, price, Return(value, price))
  {
    assert value / price * price == value;
  }

  /** The high or the low of the bar is that far off the price. */
  predicate Reaches(b: Bar, price: real, size: real) {
    || Percent(b.value.high, price, size) || Percent(b.value.high, price, 0.0 - size)
    || Percent(b.value.low, price, size) || Percent(b.value.low, price, 0.0 - size)
  }

  /** Neither the high nor the low of the bar is further off the price. */
  predicate Stays(b: Bar, price: real, size: real) {
    NoFurther(b.value.high, price, size) && NoFurther(b.value.low, price, size)
  }

  predicate NoFurther(value: real, price: real, size: real) {
    (0.0 - size) * price <= 100.0 * (value - price) <= size * price
  }

  lemma MoveMeans(b: Bar, price: real, size: real)
    requires price > 0.0
    ensures Move(b, price) <= size ==> Stays(b, price, size)
    ensures Move(b, price) == size ==> Reaches(b, price, size)
  {
    ReturnIsPercent(b.value.high, price);
    ReturnIsPercent(b.value.low, price);
    var high, low := Return(b.value.high, price), Return(b.value.low, price);
    hide Return, NoFurther, Percent;
    if Move(b, price) <= size {
      Scaled(b.value.high, high, size, price);
      Scaled(b.value.low, low, size, price);
    }
  }

  lemma Scaled(value: real, percent: real, size: real, price: real)
    requires price > 0.0 && 0.0 - size <= percent <= size && Percent(value, price, percent)
    ensures NoFurther(value, price, size)
  {
    assert (percent + size) * price >= 0.0 && (size - percent) * price >= 0.0;
  }

  /** The bars of the reference in the horizon. */
  predicate Future(reader: Reader, key: nat, cutoff: int, horizon: nat, b: Bar) {
    b in reader.data.bars && b.key == key && cutoff < b.at <= cutoff + 60_000 * horizon
  }

  ghost predicate SaysOf(reader: Reader, key: nat, cutoff: int, horizon: nat, base: Bar, last: Bar, outcome: Outcome)
    requires outcome.Ready?
  {
    && base in reader.data.bars && base.key == key && base.at == cutoff && base.value.close > 0.0
    && Future(reader, key, cutoff, horizon, last) && last.at == cutoff + 60_000 * horizon
    && Percent(last.value.close, base.value.close, outcome.closeReturn)
    && (forall b :: Future(reader, key, cutoff, horizon, b) ==> Stays(b, base.value.close, outcome.maxAbsReturn))
    && (exists b :: Future(reader, key, cutoff, horizon, b) && Reaches(b, base.value.close, outcome.maxAbsReturn))
  }

  /**
   A ready outcome states, in percent of the close at the cutoff, the greatest distance any high or low of
   the horizon reaches and none exceeds, and where its last bar closes.
   */
  lemma ReadySays(d: Decision, f: Feature, reader: Reader, horizon: nat, now: int, outcome: Outcome, cutoff: int)
    requires Settled(d, f, reader, horizon, now, outcome) && StartsAt(d, cutoff) && outcome.Ready?
    ensures f.referenceKey.Some? && exists base, last :: SaysOf(reader, f.referenceKey.value, cutoff, horizon, base, last, outcome)
  {
    OneStart(d, cutoff);
    var key, through := f.referenceKey.value, cutoff + horizon * MINUTE;
    var base, last :| Measured(reader, key, cutoff, through, base, last, outcome);
    var price := base.value.close;
    ReturnIsPercent(last.value.close, price);
    hide Move, Return, Percent, Stays, Reaches, NoFurther;
    forall b | Future(reader, key, cutoff, horizon, b) ensures Stays(b, price, outcome.maxAbsReturn) {
      assert IsBar(reader, key, cutoff, through, b);
      MoveMeans(b, price, outcome.maxAbsReturn);
    }
    var b :| IsBar(reader, key, cutoff, through, b) && Move(b, price) == outcome.maxAbsReturn;
    MoveMeans(b, price, outcome.maxAbsReturn);
    assert Future(reader, key, cutoff, horizon, b);
    assert SaysOf(reader, key, cutoff, horizon, base, last, outcome);
  }

  // ----- lead times -----

  /** The lead time in seconds ends at the first bar of the horizon that moved as far as the threshold. */
  ghost predicate LeadsTo(d: Decision, r: Result, t: real, lead: real, b: Bar)
    requires r.price > 0.0
  {
    && b in r.bars && 1000.0 * lead == (b.at - d.decisionAt) as real && Move(b, r.price) >= t
    && forall x :: x in r.bars && x.at < b.at ==> Move(x, r.price) < t
  }

  /** A lead time is positive and at most the horizon and one minute; it is there exactly for a move that reaches the threshold. */
  lemma LeadTells(d: Decision, f: Feature, reader: Reader, horizon: nat, r: Result, t: real, lead: Option<real>)
    requires Carries(d, f, reader, horizon, r) && IsLead(d, r, Some(t), lead)
    ensures lead.Some? <==> r.outcome.Ready? && r.outcome.maxAbsReturn >= t
    ensures lead.Some? ==> r.price > 0.0 && exists b :: LeadsTo(d, r, t, lead.value, b)
    ensures lead.Some? ==> 0.0 < lead.value < (60 * (horizon + 1)) as real
  {
    hide Move;
    if lead.Some? {
      var b :| FirstReaching(r.bars, r.price, t, b) && lead.value == Seconds(d, b);
      assert b in ToSet(r.bars);
      assert LeadsTo(d, r, t, lead.value, b);
      InSeconds(d.decisionAt, b.at, horizon);
    }
  }

  lemma InSeconds(decisionAt: int, at: int, horizon: nat)
    requires OutcomeCutoff(decisionAt) < at <= OutcomeCutoff(decisionAt) + horizon * MINUTE
    ensures 0.0 < (at - decisionAt) as real / 1000.0 < (60 * (horizon + 1)) as real
  {
    var ms := at - decisionAt;
    assert 0 < ms < 60_000 * (horizon + 1);
    assert 60_000 * (horizon + 1) == 1000 * (60 * (horizon + 1));
  }

  // ----- settling from bundles -----

  /** The reader offers the bars of these bundles. */
  predicate Offers(reader: Reader, bars: set<Bar>) {
    ToSet(reader.data.bars) == bars
  }

  /**
   Bundles whose windows cover a decision's minutes settle the same outcomes as the table they were
   exported from: nothing is lost or added between the export, the fragments and the readers.
   */
  lemma BundlesSettleAlike(d: Decision, f: Feature, fromBundles: Reader, fromTable: Reader, horizon: nat, now: int,
      readers: seq<OutcomeReader.PartitionedReader>, rows: seq<seq<OutcomeExport.Row>>, table: OutcomeExport.Table, x: Outcome, y: Outcome)
    requires |rows| == |readers|
    requires f.referenceKey.Some? ==> forall i :: 0 <= i < |readers| ==>
      OutcomeExport.IsExport(readers[i].bundle, rows[i], table) && f.referenceKey.value in OutcomeExport.ReferenceKeys(rows[i])
    requires var cutoff := OutcomeCutoff(d.decisionAt);
      forall at :: cutoff - MINUTE < at <= cutoff + horizon * MINUTE ==> OutcomeRoundTrip.Covered(readers, at)
    requires Offers(fromBundles, Joining.UnionBars(readers)) && Offers(fromTable, OutcomeRoundTrip.AllBars(table))
    requires fromBundles.mapVersion == fromTable.mapVersion && fromBundles.keys == fromTable.keys && fromBundles.family == fromTable.family
    requires ValidBars(fromBundles.data.bars) && ValidBars(fromTable.data.bars)
    requires Settled(d, f, fromBundles, horizon, now, x) && Settled(d, f, fromTable, horizon, now, y)
    ensures x == y
  {
    hide ValidBars, Settled;
    if f.referenceKey.Some? {
      var key, after, through := f.referenceKey.value, OutcomeCutoff(d.decisionAt) - MINUTE, OutcomeCutoff(d.decisionAt) + horizon * MINUTE;
      OutcomeRoundTrip.SameSelection(readers, rows, table, key, after, through);
      forall b ensures IsBar(fromBundles, key, after, through, b) <==> IsBar(fromTable, key, after, through, b) {
        assert b in fromBundles.data.bars <==> b in ToSet(fromBundles.data.bars);
        assert b in fromTable.data.bars <==> b in ToSet(fromTable.data.bars);
        assert b in Selected(Joining.UnionBars(readers), key, after, through) <==> b in Selected(OutcomeRoundTrip.AllBars(table), key, after, through);
      }
      assert AgreeOn(fromBundles, fromTable, key, after, through);
    }
    OutcomeIsLocal(d, f, fromBundles, fromTable, horizon, now, x, y);
  }
}
