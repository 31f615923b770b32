/**
 Reading a bundle back: an index of fragments by identity, and a least-recently-used cache of two
 fragments. Fragments on disk may change at any time; a read authenticates what it loads.
 */
module OutcomeReader {
  import opened Prelude
  import opened Bundles

  datatype Path = Path(directory: nat, name: Name)

  class Disk {
    var files: map<Path, Data>

    constructor () {
      files := map[];
    }
  }

  datatype Cached = Cached(path: Path, data: Data)

  function Without(entries: seq<Cached>, path: Path): (rest: seq<Cached>)
    ensures |rest| <= |entries| && (forall c :: c in rest <==> c in entries && c.path != path)
    ensures (forall c :: c in entries ==> c.path != path) ==> rest == entries
  {
    if entries == [] then []
    else (if entries[0].path == path then [] else [entries[0]]) + Without(entries[1..], path)
  }

  function Newest(entries: seq<Cached>): (kept: seq<Cached>)
    ensures |kept| <= 2 && forall c :: c in kept ==> c in entries
  {
    if |entries| > 2 then entries[|entries| - 2..] else entries
  }

  predicate Authentic(entries: seq<Cached>, expected: map<Path, Data>) {
    forall c :: c in entries ==> c.path in expected && expected[c.path] == c.data
  }

  class Cache {
    var entries: seq<Cached>

    constructor ()
      ensures entries == []
    {
      entries := [];
    }

    /** The cached fragment, or the one on disk if it still has the expected digest. */
    method Fetch(disk: Disk, path: Path, sha: Data) returns (data: Option<Data>)
      requires |entries| <= 2
      modifies this
      ensures (exists c :: c in old(entries) && c.path == path) ==>
        data.Some? && Cached(path, data.value) in old(entries)
      ensures (forall c :: c in old(entries) ==> c.path != path) ==>
        data == if path in disk.files && disk.files[path] == sha && WellFormed(sha) then Some(sha) else None
      ensures data == None ==> entries == old(entries)
      ensures data.Some? ==> entries == Newest(Without(old(entries), path) + [Cached(path, data.value)])
    {
      var at := 0;
      while at < |entries| && entries[at].path != path
        invariant at <= |entries|
        invariant forall i :: 0 <= i < at ==> entries[i].path != path
      {
        at := at + 1;
      }
      if at < |entries| {
        data := Some(entries[at].data);
      } else if path in disk.files && disk.files[path] == sha && WellFormed(sha) {
        data := Some(sha);
      } else {
        return None;
      }
      entries := Newest(Without(entries, path) + [Cached(path, data.value)]);
    }
  }

  // ----- the index -----

  function Named(e: Entry, native: bool): seq<nat> {
    if native then e.assetIds else e.referenceKeys
  }

  /** The fragments naming an identity, in manifest order. */
  function Naming(files: seq<Entry>, native: bool, key: nat): seq<Entry> {
    if files == [] then []
    else Naming(files[..|files| - 1], native, key) + If(key in Named(files[|files| - 1], native), files[|files| - 1])
  }

  function If<T>(c: bool, x: T): seq<T> {
    if c then [x] else []
  }

  type Index = map<nat, seq<Entry>>

  function Lookup(index: Index, key: nat): seq<Entry> {
    if key in index then index[key] else []
  }

  ghost predicate Indexes(index: Index, files: seq<Entry>, native: bool) {
    forall key :: Lookup(index, key) == Naming(files, native, key)
  }

  /** The index of `files` once the entry has been added under some of its keys. */
  ghost predicate Growing(index: Index, files: seq<Entry>, native: bool, entry: Entry, keys: seq<nat>) {
    forall key :: Lookup(index, key) == Naming(files, native, key) + If(key in keys, entry)
  }

  predicate Blocked(fragments: seq<Entry>, entry: Entry) {
    exists e :: e in fragments && Overlap(e, entry)
  }

  /** Indexing one more entry fails exactly when an identity would have two overlapping fragments. */
  method AddEntry(index: Index, entry: Entry, native: bool, ghost files: seq<Entry>) returns (added: bool, grown: Index)
    requires Indexes(index, files, native) && entry.after < entry.through
    ensures added <==> Distinct(Named(entry, native)) && Apart(files, entry, native)
    ensures added ==> Indexes(grown, files + [entry], native)
  {
    hide Growing, Indexes, Blocked, Overlap, Apart, Naming, Lookup;
    var keys := Named(entry, native);
    grown := index;
    GrowthStarts(index, files, native, entry);
    for j := 0 to |keys|
      invariant Growing(grown, files, native, entry, keys[..j])
      invariant Distinct(keys[..j])
      invariant forall i :: 0 <= i < j ==> !Blocked(Naming(files, native, keys[i]), entry)
    {
      Growth(grown, files, native, entry, keys, j);
      if Blocked(Lookup(grown, keys[j]), entry) {
        BlockedMeans(files, native, entry, j);
        return false, grown;
      }
      grown := grown[keys[j] := Lookup(grown, keys[j]) + [entry]];
    }
    assert keys[..|keys|] == keys;
    GrowthEnds(grown, files, native, entry);
    added := true;
  }

  lemma GrowthStarts(index: Index, files: seq<Entry>, native: bool, entry: Entry)
    requires Indexes(index, files, native)
    ensures Growing(index, files, native, entry, Named(entry, native)[..0])
  {
  }

  /** A key is blocked by an overlapping fragment, or by having been added already. */
  lemma Growth(index: Index, files: seq<Entry>, native: bool, entry: Entry, keys: seq<nat>, j: nat)
    requires j < |keys| && Distinct(keys[..j])
    requires Growing(index, files, native, entry, keys[..j]) && entry.after < entry.through
    ensures Blocked(Lookup(index, keys[j]), entry) <==>
      Blocked(Naming(files, native, keys[j]), entry) || keys[j] in keys[..j]
    ensures keys[j] !in keys[..j] ==> Distinct(keys[..j + 1])
    ensures keys[j] !in keys[..j] ==>
      Growing(index[keys[j] := Lookup(index, keys[j]) + [entry]], files, native, entry, keys[..j + 1])
  {
    assert keys[..j + 1] == keys[..j] + [keys[j]];
    var before, here := Naming(files, native, keys[j]), Lookup(index, keys[j]);
    assert here == before + If(keys[j] in keys[..j], entry);
    forall e | e in before && Overlap(e, entry) ensures e in here {}
    assert keys[j] in keys[..j] ==> here[|before|] == entry && Overlap(entry, entry);
  }

  lemma BlockedMeans(files: seq<Entry>, native: bool, entry: Entry, j: nat)
    requires var keys := Named(entry, native);
      j < |keys| && (Blocked(Naming(files, native, keys[j]), entry) || keys[j] in keys[..j])
    ensures !(Distinct(Named(entry, native)) && Apart(files, entry, native))
  {
    var keys := Named(entry, native);
    NamingMembers(files, native, keys[j]);
    assert keys[j] in ToSet(keys);
    if keys[j] in keys[..j] {
      var i :| 0 <= i < j && keys[..j][i] == keys[j];
      assert keys[i] == keys[j];
    }
  }

  lemma GrowthEnds(index: Index, files: seq<Entry>, native: bool, entry: Entry)
    requires Growing(index, files, native, entry, Named(entry, native))
    requires forall i :: 0 <= i < |Named(entry, native)| ==> !Blocked(Naming(files, native, Named(entry, native)[i]), entry)
    ensures Indexes(index, files + [entry], native) && Apart(files, entry, native)
  {
    assert (files + [entry])[..|files|] == files;
    var keys := Named(entry, native);
    forall e, key | e in files && Overlap(e, entry) && key in Named(e, native) ensures key !in keys {
      NamingMembers(files, native, key);
    }
  }

  /** No earlier fragment that overlaps the entry names one of its identities. */
  predicate Apart(files: seq<Entry>, entry: Entry, native: bool) {
    forall e :: e in files && Overlap(e, entry) ==> ToSet(Named(e, native)) !! ToSet(Named(entry, native))
  }

  lemma {:induction false} NamingMembers(files: seq<Entry>, native: bool, key: nat)
    ensures forall e :: e in Naming(files, native, key) <==> e in files && key in Named(e, native)
  {
    if files != [] {
      NamingMembers(files[..|files| - 1], native, key);
      assert files == files[..|files| - 1] + [files[|files| - 1]];
    }
  }

  // ----- the partitioned reader -----

  /** The content every path of the bundle was published with. */
  predicate Binds(expected: map<Path, Data>, directory: nat, bundle: Bundle) {
    forall e :: e in bundle.files ==>
      Path(directory, e.name) in expected && expected[Path(directory, e.name)] == e.sha
  }

  /** Every fragment is on disk as published. */
  predicate Intact(files: map<Path, Data>, directory: nat, bundle: Bundle) {
    Binds(files, directory, bundle)
  }

  predicate UnderNames(entries: seq<Cached>, directory: nat, files: seq<Entry>) {
    forall c :: c in entries ==> exists e :: e in files && c == Cached(Path(directory, e.name), e.sha)
  }

  predicate PairwiseApart(files: seq<Entry>) {
    forall i, j :: 0 <= i < j < |files| ==> !Overlap(files[i], files[j])
  }

  lemma {:induction false} NamingDisjoint(bundle: Bundle, files: seq<Entry>, key: nat)
    requires Consistent(bundle) && |files| <= |bundle.files| && files == bundle.files[..|files|]
    ensures PairwiseApart(Naming(files, false, key))
  {
    if files != [] {
      var n := |files| - 1;
      assert files[..n] == bundle.files[..n] && files[n] == bundle.files[n];
      NamingDisjoint(bundle, files[..n], key);
      NamingMembers(files[..n], false, key);
      forall e | e in Naming(files[..n], false, key) && key in Named(files[n], false) ensures !Overlap(e, files[n]) {
        assert e in files[..n];
        var i :| 0 <= i < n && files[..n][i] == e;
        assert Separate(bundle.files[i], bundle.files[n]);
        assert key in ToSet(e.referenceKeys) && key in ToSet(files[n].referenceKeys);
      }
      OneMoreApart(Naming(files[..n], false, key), key in Named(files[n], false), files[n]);
    }
  }

  lemma OneMoreApart(files: seq<Entry>, named: bool, entry: Entry)
    requires PairwiseApart(files) && forall e :: e in files && named ==> !Overlap(e, entry)
    ensures PairwiseApart(files + If(named, entry))
  {
  }

  /** One fragment's bars of a key in (after, through], by time. */
  method FixtureBars(data: Data, key: nat, after: int, through: int) returns (bars: seq<Bar>)
    requires OnePerMinute(data.bars)
    ensures Answers(ToSet(data.bars), key, after, through, bars)
  {
    var found: seq<Bar> := [];
    for i := 0 to |data.bars|
      invariant ToSet(found) == Selected(ToSet(data.bars[..i]), key, after, through)
      invariant forall m, n :: 0 <= m < n < |found| ==> found[m].at != found[n].at
    {
      var bar := data.bars[i];
      assert data.bars[..i + 1] == data.bars[..i] + [bar];
      assert ToSet(data.bars[..i + 1]) == ToSet(data.bars[..i]) + {bar};
      assert ToSet(found + [bar]) == ToSet(found) + {bar};
      if bar.key == key && after < bar.at <= through {
        forall m | 0 <= m < |found| ensures found[m].at != bar.at {
          assert found[m] in ToSet(found);
          var j :| 0 <= j < i && data.bars[..i][j] == found[m];
          assert data.bars[j] == found[m];
        }
        found := found + [bar];
      }
    }
    assert data.bars[..|data.bars|] == data.bars;
    bars := SortByTime(found);
  }

  /** The checks of one loaded fragment: bindings, window, and every item inside it. */
  predicate Bound(bundle: Bundle, e: Entry, data: Data) {
    && data.mapVersion == bundle.mapVersion && Keys(data.bars) == ToSet(e.referenceKeys)
    && Keys(data.native) == ToSet(e.assetIds)
    && bundle.after <= e.after < e.through <= bundle.through
    && Inside(data.bars, e.after, e.through) && Inside(data.native, e.after, e.through)
  }

  function Upto(bundle: Bundle, i: nat): Bundle
    requires i <= |bundle.files|
  {
    bundle.(files := bundle.files[..i])
  }

  predicate Accepted(bundle: Bundle, directory: nat, files: map<Path, Data>) {
    Consistent(bundle) && Intact(files, directory, bundle)
  }

  /** A bundle is acceptable up to one more entry exactly when that entry passes every check. */
  lemma OneMoreEntry(bundle: Bundle, directory: nat, files: map<Path, Data>, i: nat)
    requires i < |bundle.files| && Accepted(Upto(bundle, i), directory, files)
    ensures var e, before := bundle.files[i], bundle.files[..i];
      Accepted(Upto(bundle, i + 1), directory, files) <==>
        && (forall f :: f in before ==> f.name != e.name)
        && Path(directory, e.name) in files && files[Path(directory, e.name)] == e.sha
        && WellFormed(e.sha) && Bound(bundle, e, e.sha)
        && Distinct(e.referenceKeys) && Apart(before, e, false)
        && Distinct(e.assetIds) && Apart(before, e, true)
  {
    hide WellFormed, Keys, Inside, Overlap, Distinct, ToSet;
    var e, before := bundle.files[i], bundle.files[..i];
    assert bundle.files[..i + 1] == before + [e];
    assert forall f :: f in before + [e] <==> f in before || f == e;
    assert Upto(bundle, i + 1).files[i] == e;
    assert forall j :: 0 <= j < i ==> Upto(bundle, i + 1).files[j] == before[j];
    if (forall f :: f in before ==> f.name != e.name) && Apart(before, e, false) && Apart(before, e, true) {
      forall j | 0 <= j < i ensures Separate(before[j], e) {
        assert before[j] in before;
      }
    }
    if Consistent(Upto(bundle, i + 1)) {
      forall f | f in before ensures Separate(f, e) {
        var j :| 0 <= j < i && before[j] == f;
        assert Separate(Upto(bundle, i + 1).files[j], Upto(bundle, i + 1).files[i]);
      }
    }
  }

  lemma PrefixAccepted(bundle: Bundle, directory: nat, files: map<Path, Data>, i: nat)
    requires i <= |bundle.files|
    ensures Accepted(bundle, directory, files) ==> Accepted(Upto(bundle, i), directory, files)
    ensures i == 0 || i == |bundle.files| ==> Accepted(Upto(bundle, i), directory, files) == (i == 0 || Accepted(bundle, directory, files))
  {
    assert i == |bundle.files| ==> Upto(bundle, i) == bundle;
    if !Accepted(bundle, directory, files) {
      return;
    }
    hide Separate, WellFormed, Keys, Inside, Distinct, ToSet;
    forall e | e in bundle.files[..i] ensures e in bundle.files && Sound(Upto(bundle, i), e) {
      assert Sound(bundle, e);
    }
    assert forall j :: 0 <= j < i ==> bundle.files[..i][j] == bundle.files[j];
  }

  class PartitionedReader {
    const bundle: Bundle
    const directory: nat
    const disk: Disk
    var cache: Cache
    var referenceFiles: Index
    var nativeFiles: Index

    ghost predicate Valid() reads this {
      Consistent(bundle) && Indexes(referenceFiles, bundle.files, false) && Indexes(nativeFiles, bundle.files, true)
    }

    constructor (bundle: Bundle, directory: nat, disk: Disk)
      ensures this.bundle == bundle && this.directory == directory && this.disk == disk
      ensures fresh(cache) && cache.entries == [] && referenceFiles == map[] && nativeFiles == map[]
    {
      this.bundle, this.directory, this.disk := bundle, directory, disk;
      cache := new Cache();
      referenceFiles, nativeFiles := map[], map[];
    }

    /** Opening accepts exactly the consistent bundles whose fragments are on disk as published. */
    method Open() returns (accepted: bool)
      requires cache.entries == [] && referenceFiles == map[] && nativeFiles == map[]
      modifies this, cache
      ensures cache == old(cache) && |cache.entries| <= 2
      ensures accepted <==> Accepted(bundle, directory, disk.files)
      ensures accepted ==> Valid() && UnderNames(cache.entries, directory, bundle.files)
    {
      hide Accepted, Bound, WellFormed, Distinct, Apart, Indexes, UnderNames;
      NothingYet(directory);
      PrefixAccepted(bundle, directory, disk.files, 0);
      var names: set<Name> := {};
      for i := 0 to |bundle.files|
        invariant cache == old(cache) && |cache.entries| <= 2
        invariant names == Names(bundle.files[..i]) && UnderNames(cache.entries, directory, bundle.files[..i])
        invariant Accepted(Upto(bundle, i), directory, disk.files)
        invariant Indexes(referenceFiles, bundle.files[..i], false) && Indexes(nativeFiles, bundle.files[..i], true)
      {
        var entry := bundle.files[i];
        ghost var before := bundle.files[..i];
        OneMoreEntry(bundle, directory, disk.files, i);
        PrefixAccepted(bundle, directory, disk.files, i + 1);
        assert bundle.files[..i + 1] == before + [entry];
        if entry.name in names {
          return false;
        }
        names := names + {entry.name};
        NotYetCached(cache.entries, directory, before, entry);
        var data := cache.Fetch(disk, Path(directory, entry.name), entry.sha);
        if data == None || !Bound(bundle, entry, data.value) {
          return false;
        }
        BoundWindow(bundle, entry, data.value);
        var added, grown := AddEntry(referenceFiles, entry, false, before);
        if !added {
          return false;
        }
        referenceFiles := grown;
        added, grown := AddEntry(nativeFiles, entry, true, before);
        if !added {
          return false;
        }
        nativeFiles := grown;
      }
      PrefixAccepted(bundle, directory, disk.files, |bundle.files|);
      assert bundle.files[..|bundle.files|] == bundle.files;
      AcceptedConsistent(bundle, directory, disk.files);
      accepted := true;
    }

    /**
     The bars of a key in (after, through]: read through the index and the cache, by time. Whatever
     became of the disk, an answer is that of the published fragments; it fails only on a changed one.
     */
    method Bars(key: nat, after: int, through: int, ghost expected: map<Path, Data>) returns (answer: Option<seq<Bar>>)
      requires Valid() && |cache.entries| <= 2 && Authentic(cache.entries, expected)
      requires Binds(expected, directory, bundle)
      modifies cache
      ensures |cache.entries| <= 2 && Authentic(cache.entries, expected)
      ensures answer.Some? ==> Answers(BarsOf(bundle.files), key, after, through, answer.value)
      ensures Intact(disk.files, directory, bundle) ==> answer.Some?
    {
      hide Authentic, Binds, Indexes, Answers, Consistent, BarsOf, WellFormed, Collected, Naming;
      var entries := Lookup(referenceFiles, key);
      IndexedEntries(bundle, referenceFiles, key);
      var found: seq<Bar> := [];
      NothingCollected(key, after, through);
      for i := 0 to |entries|
        invariant |cache.entries| <= 2 && Authentic(cache.entries, expected)
        invariant Collected(entries[..i], key, after, through, found)
      {
        var entry := entries[i];
        assert entries[..i + 1] == entries[..i] + [entry];
        if entry.after < through && after < entry.through {
          assert entry in entries;
          ExpectedContent(bundle, directory, expected, disk.files, entry);
          FetchAuthentic(cache.entries, expected, Path(directory, entry.name), entry.sha);
          var data := cache.Fetch(disk, Path(directory, entry.name), entry.sha);
          if data == None {
            return None;
          }
          var bars := FixtureBars(data.value, key, after, through);
          CollectMore(entries, i, key, after, through, found, bars);
          found := found + bars;
        } else {
          CollectNothing(entries, i, key, after, through, found);
        }
      }
      assert entries[..|entries|] == entries;
      CollectedAll(bundle, entries, key, after, through, found);
      var sorted := SortByTime(found);
      AnswerSorted(bundle, key, after, through, found, sorted);
      answer := Some(sorted);
    }
  }

  function Names(files: seq<Entry>): set<Name> {
    set e | e in files :: e.name
  }

  lemma NothingYet(directory: nat)
    ensures UnderNames([], directory, [])
    ensures Indexes(map[], [], false) && Indexes(map[], [], true)
  {
  }

  lemma AcceptedConsistent(bundle: Bundle, directory: nat, files: map<Path, Data>)
    requires Accepted(bundle, directory, files)
    ensures Consistent(bundle)
  {
  }

  lemma BoundWindow(bundle: Bundle, e: Entry, data: Data)
    requires Bound(bundle, e, data)
    ensures e.after < e.through
  {
  }

  lemma NotYetCached(entries: seq<Cached>, directory: nat, before: seq<Entry>, e: Entry)
    requires UnderNames(entries, directory, before) && e.name !in Names(before)
    ensures forall c :: c in entries ==> c.path != Path(directory, e.name)
    ensures UnderNames(Newest(entries + [Cached(Path(directory, e.name), e.sha)]), directory, before + [e])
  {
  }

  /** `found` is what the entries hold of the key in the window, no minute twice. */
  ghost predicate Collected(entries: seq<Entry>, key: nat, after: int, through: int, found: seq<Bar>) {
    ToSet(found) == Selected(BarsOf(entries), key, after, through) && OneTime(found)
  }

  predicate OneTime(bars: seq<Bar>) {
    forall i, j :: 0 <= i < j < |bars| ==> bars[i].at != bars[j].at
  }

  lemma NothingCollected(key: nat, after: int, through: int)
    ensures Collected([], key, after, through, [])
  {
  }

  lemma IndexedEntries(bundle: Bundle, index: Index, key: nat)
    requires Consistent(bundle) && Indexes(index, bundle.files, false)
    ensures var entries := Lookup(index, key);
      && PairwiseApart(entries)
      && (forall e :: e in entries ==> e in bundle.files && Sound(bundle, e) && OnePerMinute(e.sha.bars))
      && (forall e :: e in bundle.files && key in e.referenceKeys ==> e in entries)
  {
    assert bundle.files[..|bundle.files|] == bundle.files;
    NamingDisjoint(bundle, bundle.files, key);
    NamingMembers(bundle.files, false, key);
  }

  lemma ExpectedContent(bundle: Bundle, directory: nat, expected: map<Path, Data>, files: map<Path, Data>, e: Entry)
    requires e in bundle.files && Binds(expected, directory, bundle)
    ensures Path(directory, e.name) in expected && expected[Path(directory, e.name)] == e.sha
    ensures Intact(files, directory, bundle) ==> Path(directory, e.name) in files && files[Path(directory, e.name)] == e.sha
  {
  }

  /** What the cache holds of a path is what was published, and loading keeps it so. */
  lemma FetchAuthentic(entries: seq<Cached>, expected: map<Path, Data>, path: Path, sha: Data)
    requires Authentic(entries, expected) && path in expected && expected[path] == sha
    ensures forall c :: c in entries && c.path == path ==> c.data == sha
    ensures Authentic(Newest(Without(entries, path) + [Cached(path, sha)]), expected)
  {
  }

  lemma CollectMore(entries: seq<Entry>, i: nat, key: nat, after: int, through: int, found: seq<Bar>, bars: seq<Bar>)
    requires i < |entries| && PairwiseApart(entries)
    requires forall e :: e in entries ==> Inside(e.sha.bars, e.after, e.through)
    requires Collected(entries[..i], key, after, through, found)
    requires Answers(ToSet(entries[i].sha.bars), key, after, through, bars)
    ensures Collected(entries[..i + 1], key, after, through, found + bars)
  {
    assert entries[..i + 1] == entries[..i] + [entries[i]];
    assert ToSet(found + bars) == ToSet(found) + ToSet(bars);
    MoreBars(entries[..i], entries[i], key, after, through);
    forall m, n | 0 <= m < |found| && 0 <= n < |bars| ensures found[m].at != bars[n].at {
      assert found[m] in ToSet(found) && bars[n] in ToSet(bars);
      var e :| e in entries[..i] && found[m] in e.sha.bars;
      var j :| 0 <= j < i && entries[..i][j] == e;
      assert entries[j] == e && entries[i] in entries;
      assert !Overlap(entries[j], entries[i]);
    }
  }

  lemma MoreBars(before: seq<Entry>, e: Entry, key: nat, after: int, through: int)
    ensures Selected(BarsOf(before + [e]), key, after, through) ==
      Selected(BarsOf(before), key, after, through) + Selected(ToSet(e.sha.bars), key, after, through)
  {
    assert BarsOf(before + [e]) == BarsOf(before) + ToSet(e.sha.bars);
  }

  /** A fragment whose window misses the query holds nothing of it. */
  lemma CollectNothing(entries: seq<Entry>, i: nat, key: nat, after: int, through: int, found: seq<Bar>)
    requires i < |entries| && Inside(entries[i].sha.bars, entries[i].after, entries[i].through)
    requires !(entries[i].after < through && after < entries[i].through)
    requires Collected(entries[..i], key, after, through, found)
    ensures Collected(entries[..i + 1], key, after, through, found)
  {
    assert entries[..i + 1] == entries[..i] + [entries[i]];
    MoreBars(entries[..i], entries[i], key, after, through);
    assert Selected(ToSet(entries[i].sha.bars), key, after, through) == {};
  }

  /** The index misses no fragment that holds a bar of the key. */
  lemma CollectedAll(bundle: Bundle, entries: seq<Entry>, key: nat, after: int, through: int, found: seq<Bar>)
    requires Consistent(bundle) && Collected(entries, key, after, through, found)
    requires forall e :: e in entries ==> e in bundle.files
    requires forall e :: e in bundle.files && key in e.referenceKeys ==> e in entries
    ensures Collected(bundle.files, key, after, through, found) && OneTime(found)
  {
    forall e, b | e in bundle.files && b in e.sha.bars && b.key == key ensures b in BarsOf(entries) {
      assert b.key in Keys(e.sha.bars) && Sound(bundle, e);
      assert key in ToSet(e.referenceKeys);
    }
    assert Selected(BarsOf(entries), key, after, through) == Selected(BarsOf(bundle.files), key, after, through);
  }

  lemma AnswerSorted(bundle: Bundle, key: nat, after: int, through: int, found: seq<Bar>, sorted: seq<Bar>)
    requires Collected(bundle.files, key, after, through, found)
    requires Ascending(sorted) && ToSet(sorted) == ToSet(found)
    ensures Answers(BarsOf(bundle.files), key, after, through, sorted)
  {
  }
}
