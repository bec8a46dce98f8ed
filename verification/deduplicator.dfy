/** `scan_directory` end to end and the duplicate filter of the `scan`
    command: walk the tree, fingerprint every collected file (dropping
    the ones whose hashing fails), group the paths by fingerprint in
    parallel, and report the groups holding more than one path. */
module Deduplicator {
  import opened Io
  import opened Bytes
  import opened Walker
  import opened WalkerFacts
  import opened Fingerprinter
  import opened Aggregator

  /** The file at `p` gets the fingerprint `k`. */
  predicate HashesTo(disk: Path -> StoredFile, h: seq<Byte> -> U64, p: Path, k: Fingerprint)
  {
    FileFingerprint(h, disk(p)) == Ok(k)
  }

  /** The `filter_map` step: one (fingerprint, path) pair per path whose
      hashing succeeds, in the order of `paths`; a failure is reported and
      the path dropped. `disk` is the state of each file when it is hashed. */
  function Hashed(paths: seq<Path>, disk: Path -> StoredFile, h: seq<Byte> -> U64): seq<Pair>
  {
    if paths == [] then []
    else
      var init, p := paths[..|paths| - 1], paths[|paths| - 1];
      var r := FileFingerprint(h, disk(p));
      if r.Ok? then Hashed(init, disk, h) + [(r.value, p)] else Hashed(init, disk, h)
  }

  /** Reference result of a scan: the grouping of every collected file
      that could be hashed, by fingerprint. */
  function Groups(rootPath: Path, root: Node, disk: Path -> StoredFile, h: seq<Byte> -> U64): Index
  {
    Fold(Hashed(Collected(rootPath, root), disk, h))
  }

  /** A pair is produced exactly as often as its path was given, provided
      the path hashes to that fingerprint; a failed hash contributes nothing. */
  lemma {:induction false} HashedCount(paths: seq<Path>, disk: Path -> StoredFile, h: seq<Byte> -> U64,
                                       k: Fingerprint, p: Path)
    ensures multiset(Hashed(paths, disk, h))[(k, p)] ==
            if HashesTo(disk, h, p, k) then multiset(paths)[p] else 0
  {
    if paths != [] {
      var init, q := paths[..|paths| - 1], paths[|paths| - 1];
      HashedCount(init, disk, h, k, p);
      assert paths == init + [q];
    }
  }

  lemma HashedSnoc(init: seq<Path>, q: Path, disk: Path -> StoredFile, h: seq<Byte> -> U64, k: Fingerprint)
    ensures PathsWith(Hashed(init + [q], disk, h), k) ==
            PathsWith(Hashed(init, disk, h), k) + (if HashesTo(disk, h, q, k) then [q] else [])
  {
    var paths := init + [q];
    assert paths[..|paths| - 1] == init;
    var r := FileFingerprint(h, disk(q));
    if r.Ok? {
      PathsWithAppend(Hashed(init, disk, h), [(r.value, q)], k);
    }
  }

  /** The `filter_map` closure run over every path. */
  method HashAll(paths: seq<Path>, disk: Path -> StoredFile, h: seq<Byte> -> U64) returns (pairs: seq<Pair>)
    ensures pairs == Hashed(paths, disk, h)
  {
    pairs := [];
    for i := 0 to |paths|
      invariant pairs == Hashed(paths[..i], disk, h)
    {
      var r := HashFile(disk(paths[i]), h);
      if r.Ok? {
        pairs := pairs + [(r.value, paths[i])];
      }
      assert paths[..i + 1][..i] == paths[..i];
    }
    assert paths[..|paths|] == paths;
  }

  /** The grouping does not depend on the order in which the walk
      delivers the paths. */
  lemma SameWalkSameGroups(a: seq<Path>, b: seq<Path>, disk: Path -> StoredFile, h: seq<Byte> -> U64)
    requires multiset(a) == multiset(b)
    ensures Bag(Fold(Hashed(a, disk, h))) == Bag(Fold(Hashed(b, disk, h)))
  {
    var x, y := Hashed(a, disk, h), Hashed(b, disk, h);
    forall pair: Pair ensures multiset(x)[pair] == multiset(y)[pair] {
      HashedCount(a, disk, h, pair.0, pair.1);
      HashedCount(b, disk, h, pair.0, pair.1);
    }
    assert multiset(x) == multiset(y);
    AnyPlanSameGroups(Batch(x), y);
  }

  /** `scan_directory`: the walk, then the parallel `filter_map`, `fold`
      and `reduce`. Rayon's choice of batches is left open. It fails
      exactly when the walk does, and otherwise returns the reference
      grouping, up to the order of the paths inside each group. */
  method ScanDirectory(rootPath: Path, root: Node, disk: Path -> StoredFile, h: seq<Byte> -> U64)
    returns (r: Result<Index>)
    ensures r.Ok? <==> WalkSucceeds(root)
    ensures r.Ok? ==> Bag(r.value) == Bag(Groups(rootPath, root, disk, h))
  {
    var walked := Walk(rootPath, root);
    if walked.Err? {
      return Err(walked.error);
    }
    var pairs := HashAll(walked.value, disk, h);
    assert Flatten([pairs]) == pairs by {
      var one: seq<seq<Pair>> := [pairs];
      assert one[..0] == [];
    }
    var batches :| Flatten(batches) == pairs;
    var groups := Aggregate(batches);
    SameWalkSameGroups(walked.value, Collected(rootPath, root), disk, h);
    return Ok(groups);
  }

  /** A path sits in the group of fingerprint `k` exactly when it is among
      `paths` and its file hashes to `k`. */
  lemma GroupMembers(paths: seq<Path>, disk: Path -> StoredFile, h: seq<Byte> -> U64, k: Fingerprint, p: Path)
    ensures p in Get(Fold(Hashed(paths, disk, h)), k) <==> p in paths && HashesTo(disk, h, p, k)
  {
    FoldGet(Hashed(paths, disk, h), k);
    PathsWithCount(Hashed(paths, disk, h), k, p);
    HashedCount(paths, disk, h, k, p);
  }

  /** The groups of a scan, stated against the tree: a path is in the group
      of `k` exactly when it names a regular file larger than 1024 bytes
      and that file hashes to `k`. */
  lemma ScanGroupMembers(rootPath: Path, root: Node, disk: Path -> StoredFile, h: seq<Byte> -> U64,
                         k: Fingerprint, rel: seq<string>)
    ensures rootPath + rel in Get(Groups(rootPath, root, disk, h), k) <==>
            (exists s :: s > MIN_SIZE && HasAt(root, rel, File(s))) && HashesTo(disk, h, rootPath + rel, k)
  {
    GroupMembers(Collected(rootPath, root), disk, h, k, rootPath + rel);
    CollectedExactly(rootPath, root, rel);
  }

  /** With unique entry names no path occurs twice, in one group or across
      two. */
  lemma ScanGroupsHaveNoRepeats(rootPath: Path, root: Node, disk: Path -> StoredFile, h: seq<Byte> -> U64,
                                k: Fingerprint, p: Path)
    requires UniqueNames(root)
    ensures multiset(Get(Groups(rootPath, root, disk, h), k))[p] <= 1
    ensures forall k' | k' != k :: p !in Get(Groups(rootPath, root, disk, h), k) ||
                                   p !in Get(Groups(rootPath, root, disk, h), k')
  {
    var pairs := Hashed(Collected(rootPath, root), disk, h);
    FoldGet(pairs, k);
    PathsWithCount(pairs, k, p);
    HashedCount(Collected(rootPath, root), disk, h, k, p);
    CollectedOnce(rootPath, root);
    forall k' | k' != k ensures p !in Get(Fold(pairs), k) || p !in Get(Fold(pairs), k') {
      GroupMembers(Collected(rootPath, root), disk, h, k, p);
      GroupMembers(Collected(rootPath, root), disk, h, k', p);
    }
  }

  /** The filter `paths.len() > 1`: the groups with at least two paths,
      unaltered. */
  function Duplicates(m: Index): (d: Index)
    ensures forall k :: k in d <==> |Get(m, k)| > 1
    ensures forall k | k in d :: k in m && d[k] == m[k]
  {
    map k | k in m && |m[k]| > 1 :: m[k]
  }

  /** Some entry of `paths` hashes to `k`. */
  predicate SomeHashTo(disk: Path -> StoredFile, h: seq<Byte> -> U64, paths: seq<Path>, k: Fingerprint)
  {
    exists i :: 0 <= i < |paths| && HashesTo(disk, h, paths[i], k)
  }

  /** Two entries of `paths` hash to `k`. */
  predicate TwoHashTo(disk: Path -> StoredFile, h: seq<Byte> -> U64, paths: seq<Path>, k: Fingerprint)
  {
    exists i, j :: 0 <= i < j < |paths| && HashesTo(disk, h, paths[i], k) && HashesTo(disk, h, paths[j], k)
  }

  lemma SomeSnoc(init: seq<Path>, q: Path, disk: Path -> StoredFile, h: seq<Byte> -> U64, k: Fingerprint)
    ensures SomeHashTo(disk, h, init + [q], k) <==> SomeHashTo(disk, h, init, k) || HashesTo(disk, h, q, k)
  {
    var paths := init + [q];
    if SomeHashTo(disk, h, paths, k) && !HashesTo(disk, h, q, k) {
      var i :| 0 <= i < |paths| && HashesTo(disk, h, paths[i], k);
      assert init[i] == paths[i];
    }
    if SomeHashTo(disk, h, init, k) {
      var i :| 0 <= i < |init| && HashesTo(disk, h, init[i], k);
      assert paths[i] == init[i];
    }
    if HashesTo(disk, h, q, k) {
      assert paths[|init|] == q;
    }
  }

  lemma TwoSnoc(init: seq<Path>, q: Path, disk: Path -> StoredFile, h: seq<Byte> -> U64, k: Fingerprint)
    ensures TwoHashTo(disk, h, init + [q], k) <==>
            TwoHashTo(disk, h, init, k) || (SomeHashTo(disk, h, init, k) && HashesTo(disk, h, q, k))
  {
    var paths := init + [q];
    if TwoHashTo(disk, h, paths, k) {
      var i, j :| 0 <= i < j < |paths| && HashesTo(disk, h, paths[i], k) && HashesTo(disk, h, paths[j], k);
      assert init[i] == paths[i];
      if j < |init| {
        assert init[j] == paths[j];
        assert TwoHashTo(disk, h, init, k);
      } else {
        assert SomeHashTo(disk, h, init, k);
      }
    }
    if TwoHashTo(disk, h, init, k) {
      var i, j :| 0 <= i < j < |init| && HashesTo(disk, h, init[i], k) && HashesTo(disk, h, init[j], k);
      assert paths[i] == init[i] && paths[j] == init[j];
    }
    if SomeHashTo(disk, h, init, k) && HashesTo(disk, h, q, k) {
      var i :| 0 <= i < |init| && HashesTo(disk, h, init[i], k);
      assert paths[i] == init[i] && paths[|init|] == q;
    }
  }

  lemma {:induction false} OneMatch(paths: seq<Path>, disk: Path -> StoredFile, h: seq<Byte> -> U64, k: Fingerprint)
    ensures |PathsWith(Hashed(paths, disk, h), k)| >= 1 <==> SomeHashTo(disk, h, paths, k)
  {
    if paths != [] {
      var init, q := paths[..|paths| - 1], paths[|paths| - 1];
      assert paths == init + [q];
      OneMatch(init, disk, h, k);
      HashedSnoc(init, q, disk, h, k);
      SomeSnoc(init, q, disk, h, k);
    }
  }

  lemma {:induction false} TwoMatches(paths: seq<Path>, disk: Path -> StoredFile, h: seq<Byte> -> U64, k: Fingerprint)
    ensures |PathsWith(Hashed(paths, disk, h), k)| >= 2 <==> TwoHashTo(disk, h, paths, k)
  {
    if paths != [] {
      var init, q := paths[..|paths| - 1], paths[|paths| - 1];
      assert paths == init + [q];
      TwoMatches(init, disk, h, k);
      OneMatch(init, disk, h, k);
      HashedSnoc(init, q, disk, h, k);
      TwoSnoc(init, q, disk, h, k);
    }
  }

  /** A fingerprint is reported as a duplicate set exactly when two of the
      hashed files (two entries of `paths`) get it. */
  lemma DuplicatesExactly(paths: seq<Path>, disk: Path -> StoredFile, h: seq<Byte> -> U64, k: Fingerprint)
    ensures k in Duplicates(Fold(Hashed(paths, disk, h))) <==>
            exists i, j :: 0 <= i < j < |paths| && HashesTo(disk, h, paths[i], k) && HashesTo(disk, h, paths[j], k)
  {
    FoldGet(Hashed(paths, disk, h), k);
    TwoMatches(paths, disk, h, k);
  }

  /** "No duplicates found." is printed exactly when every group holds a
      single path. */
  lemma DuplicatesEmpty(pairs: seq<Pair>)
    ensures Duplicates(Fold(pairs)) == map[] <==> forall k | k in Fold(pairs) :: |Fold(pairs)[k]| == 1
  {
    var m := Fold(pairs);
    FoldGroupsNonEmpty(pairs);
    if forall k | k in m :: |m[k]| == 1 {
      assert Duplicates(m).Keys == {};
    } else {
      var k :| k in m && |m[k]| != 1;
      assert k in Duplicates(m);
    }
  }

  /** The filter keeps the same groups whatever order the paths inside a
      group come in. */
  lemma DuplicatesRespectBag(a: Index, b: Index)
    requires Bag(a) == Bag(b)
    ensures Bag(Duplicates(a)) == Bag(Duplicates(b))
    ensures Duplicates(a).Keys == Duplicates(b).Keys
  {
    forall k | k in a ensures k in b && |a[k]| == |b[k]| {
      assert k in Bag(a) && k in Bag(b);
      assert multiset(a[k]) == Bag(a)[k] == Bag(b)[k] == multiset(b[k]);
      assert |a[k]| == |multiset(a[k])| && |b[k]| == |multiset(b[k])|;
    }
    forall k | k in b ensures k in a {
      assert k in Bag(b);
    }
    var da, db := Duplicates(a), Duplicates(b);
    assert da.Keys == db.Keys;
    forall k | k in da ensures multiset(da[k]) == multiset(db[k]) {
      assert multiset(a[k]) == Bag(a)[k] == Bag(b)[k] == multiset(b[k]);
    }
    BagsEqual(da, db);
  }

  /** The `scan` command up to the listing: the duplicate sets of the tree,
      and "No duplicates found." exactly when every group is a singleton. */
  method FindDuplicates(rootPath: Path, root: Node, disk: Path -> StoredFile, h: seq<Byte> -> U64)
    returns (r: Result<Index>)
    ensures r.Ok? <==> WalkSucceeds(root)
    ensures r.Ok? ==> Bag(r.value) == Bag(Duplicates(Groups(rootPath, root, disk, h)))
    ensures r.Ok? ==> (r.value == map[] <==>
                       forall k | k in Groups(rootPath, root, disk, h) :: |Groups(rootPath, root, disk, h)[k]| == 1)
  {
    var scanned := ScanDirectory(rootPath, root, disk, h);
    if scanned.Err? {
      return Err(scanned.error);
    }
    var groups := Groups(rootPath, root, disk, h);
    DuplicatesRespectBag(scanned.value, groups);
    DuplicatesEmpty(Hashed(Collected(rootPath, root), disk, h));
    r := Ok(Duplicates(scanned.value));
    assert r.value == map[] <==> r.value.Keys == {};
    assert Duplicates(groups) == map[] <==> Duplicates(groups).Keys == {};
  }

  /** Sampling makes false positives: two large files that agree on their
      size, first 64 KiB and last 64 KiB end up in one duplicate set,
      whatever lies between. */
  lemma SampledLookalikesReported(paths: seq<Path>, disk: Path -> StoredFile, h: seq<Byte> -> U64, i: nat, j: nat)
    requires i < j < |paths|
    requires var f, g := disk(paths[i]), disk(paths[j]);
      Intact(f) && Intact(g) && f.size == g.size &&
      LARGE_FILE_THRESHOLD < f.size < 0x8000_0000_0000_0000 &&
      f.content[..SAMPLE_SIZE] == g.content[..SAMPLE_SIZE] &&
      f.content[f.size - SAMPLE_SIZE..] == g.content[g.size - SAMPLE_SIZE..]
    ensures FileFingerprint(h, disk(paths[i])).Ok?
    ensures FileFingerprint(h, disk(paths[i])).value in Duplicates(Fold(Hashed(paths, disk, h)))
  {
    SameHeadTailSizeCollide(h, disk(paths[i]), disk(paths[j]));
    var k := FileFingerprint(h, disk(paths[i])).value;
    DuplicatesExactly(paths, disk, h, k);
    assert HashesTo(disk, h, paths[i], k) && HashesTo(disk, h, paths[j], k);
  }
}
