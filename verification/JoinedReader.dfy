/** Several opened bundles read as one input over one shared cache. */
module Joining {
  import opened Prelude
  import opened Ranking
  import opened Bundles
  import opened OutcomeReader

  datatype JoinedAnswer = Answer(bars: seq<Bar>) | Conflict | Changed

  ghost function UnionBars(readers: seq<PartitionedReader>): set<Bar> {
    set r, b | r in readers && b in BarsOf(r.bundle.files) :: b
  }

  /** Two readers hold different bars of the key for the same minute of the window. */
  ghost predicate Conflicting(bars: set<Bar>, key: nat, after: int, through: int) {
    Clash(Selected(bars, key, after, through), Selected(bars, key, after, through))
  }

  ghost predicate Clash(a: set<Bar>, b: set<Bar>) {
    exists x, y :: x in a && y in b && x.at == y.at && x != y
  }

  /** The points gathered so far are the selected bars, by minute. */
  ghost predicate Gathered(points: map<int, Bar>, bars: set<Bar>) {
    (forall b :: b in bars ==> b.at in points && points[b.at] == b) && (forall t :: t in points ==> points[t] in bars && points[t].at == t)
  }

  class JoinedReader {
    const readers: seq<PartitionedReader>
    const cache: Cache

    ghost predicate Valid(expected: map<Path, Data>) reads this, readers, cache {
      && (forall r :: r in readers ==> r.Valid() && r.cache == cache && Binds(expected, r.directory, r.bundle))
      && |cache.entries| <= 2 && Authentic(cache.entries, expected)
    }

    /** All readers give up their cache for one shared empty one. */
    constructor (readers: seq<PartitionedReader>, ghost expected: map<Path, Data>)
      requires forall r :: r in readers ==> r.Valid() && Binds(expected, r.directory, r.bundle)
      modifies readers`cache
      ensures this.readers == readers && Valid(expected) && fresh(cache) && cache.entries == []
    {
      this.readers := readers;
      cache := new Cache();
      new;
      for i := 0 to |readers|
        invariant cache.entries == []
        invariant forall r :: r in readers ==> r.Valid()
        invariant forall j :: 0 <= j < i ==> readers[j].cache == cache
      {
        readers[i].cache := cache;
      }
    }

    method Bars(key: nat, after: int, through: int, ghost expected: map<Path, Data>) returns (answer: JoinedAnswer)
      requires Valid(expected)
      modifies cache
      ensures Valid(expected)
      ensures answer.Answer? ==> Answers(UnionBars(readers), key, after, through, answer.bars)
      ensures answer == Conflict ==> Conflicting(UnionBars(readers), key, after, through)
      ensures (forall r :: r in readers ==> Intact(r.disk.files, r.directory, r.bundle)) ==> answer != Changed
    {
      hide Gathered, Answers, Conflicting, Clash, Selected, BarsOf, Authentic, Binds, Intact;
      var points: map<int, Bar> := map[];
      NothingGathered(readers, key, after, through);
      for i := 0 to |readers|
        invariant Valid(expected)
        invariant Gathered(points, Selected(UnionBars(readers[..i]), key, after, through))
      {
        var bars := readers[i].Bars(key, after, through, expected);
        if bars == None {
          return Changed;
        }
        GatherMore(readers, i, key, after, through);
        var merged := Merge(points, bars.value, BarsOf(readers[i].bundle.files),
          Selected(UnionBars(readers[..i]), key, after, through), key, after, through);
        if merged == None {
          ConflictRemains(readers, i, key, after, through);
          return Conflict;
        }
        points := merged.value;
      }
      assert readers[..|readers|] == readers;
      var sorted := SortPoints(points, UnionBars(readers), key, after, through);
      answer := Answer(sorted);
    }
  }

  /** One reader's bars, added to the points unless a minute already has a different bar. */
  method Merge(points: map<int, Bar>, bars: seq<Bar>, ghost held: set<Bar>, ghost before: set<Bar>, key: nat, after: int, through: int)
    returns (merged: Option<map<int, Bar>>)
    requires Gathered(points, before) && Answers(held, key, after, through, bars)
    ensures merged.Some? ==> Gathered(merged.value, before + Selected(held, key, after, through))
    ensures merged == None ==> Clash(before, Selected(held, key, after, through))
  {
    var all := points;
    for i := 0 to |bars|
      invariant Gathered(all, before + ToSet(bars[..i]))
    {
      var bar := bars[i];
      if bar.at in all && all[bar.at] != bar {
        FirstToDiffer(all, before, bars, i);
        assert bar in ToSet(bars);
        return None;
      }
      assert ToSet(bars[..i + 1]) == ToSet(bars[..i]) + {bar};
      all := all[bar.at := bar];
    }
    assert bars[..|bars|] == bars;
    merged := Some(all);
  }

  /** Within one reader no minute repeats, so a difference is with an earlier reader. */
  lemma FirstToDiffer(all: map<int, Bar>, before: set<Bar>, bars: seq<Bar>, i: nat)
    requires i < |bars| && Ascending(bars) && Gathered(all, before + ToSet(bars[..i]))
    requires bars[i].at in all && all[bars[i].at] != bars[i]
    ensures all[bars[i].at] in before && all[bars[i].at].at == bars[i].at
  {
  }

  lemma NothingGathered(readers: seq<PartitionedReader>, key: nat, after: int, through: int)
    ensures Gathered(map[], Selected(UnionBars(readers[..0]), key, after, through))
  {
  }

  lemma GatherMore(readers: seq<PartitionedReader>, i: nat, key: nat, after: int, through: int)
    requires i < |readers|
    ensures Selected(UnionBars(readers[..i + 1]), key, after, through) ==
      Selected(UnionBars(readers[..i]), key, after, through) + Selected(BarsOf(readers[i].bundle.files), key, after, through)
  {
  }

  lemma ConflictRemains(readers: seq<PartitionedReader>, i: nat, key: nat, after: int, through: int)
    requires i < |readers|
    requires Clash(Selected(UnionBars(readers[..i]), key, after, through),
      Selected(BarsOf(readers[i].bundle.files), key, after, through))
    ensures Conflicting(UnionBars(readers), key, after, through)
  {
  }

  method SortPoints(points: map<int, Bar>, ghost bars: set<Bar>, key: nat, after: int, through: int) returns (sorted: seq<Bar>)
    requires Gathered(points, Selected(bars, key, after, through))
    ensures Answers(bars, key, after, through, sorted)
  {
    var times := Sort(points.Keys, (x: int, y: int) => x < y);
    assert forall i :: 0 <= i < |times| ==> times[i] in ToSet(times);
    sorted := seq(|times|, i requires 0 <= i < |times| => points[times[i]]);
    hide Selected;
    forall b | b in Selected(bars, key, after, through) ensures b in sorted {
      assert b.at in ToSet(times);
      var i :| 0 <= i < |times| && times[i] == b.at;
      assert sorted[i] == b;
    }
  }

  /** Bundles of the same source never conflict, whatever their windows. */
  lemma OneSourceNeverConflicts(source: seq<Bar>, bars: set<Bar>, key: nat, after: int, through: int)
    requires OnePerMinute(source) && bars <= ToSet(source)
    ensures !Conflicting(bars, key, after, through)
  {
  }

  /** An answer rules a conflict out. */
  lemma AnsweredMeansNoConflict(bars: set<Bar>, key: nat, after: int, through: int, answer: seq<Bar>)
    requires Answers(bars, key, after, through, answer)
    ensures !Conflicting(bars, key, after, through)
  {
  }
}
