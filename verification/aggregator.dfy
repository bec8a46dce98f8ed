/** The group aggregator: the fold and reduce that turn `(fingerprint, path)`
    pairs into a map from fingerprint to the paths that produced it.

    Each worker folds its batch into a private map by appending; the
    partial maps are then merged by per-key concatenation. */
module Aggregator {
  import opened Io
  import opened Bytes

  type Fingerprint = seq<Byte>
  type Pair = (Fingerprint, Path)

  /** A `HashMap<Vec<u8>, Vec<PathBuf>>`. */
  type Index = map<Fingerprint, seq<Path>>

  function Get(m: Index, k: Fingerprint): seq<Path>
  {
    if k in m then m[k] else []
  }

  /** `acc.entry(hash).or_insert_with(Vec::new).push(path)` */
  function Push(m: Index, k: Fingerprint, p: Path): Index
  {
    m[k := Get(m, k) + [p]]
  }

  /** The fold closure over a batch, from an empty map. */
  function Fold(pairs: seq<Pair>): Index
  {
    if pairs == [] then map[]
    else
      var last := pairs[|pairs| - 1];
      Push(Fold(pairs[..|pairs| - 1]), last.0, last.1)
  }

  /** The reduce closure: per-key concatenation, left group first. */
  function Merge(a: Index, b: Index): Index
  {
    map k | k in a.Keys + b.Keys :: Get(a, k) + Get(b, k)
  }

  /** The paths paired with `k`, in input order. */
  function PathsWith(pairs: seq<Pair>, k: Fingerprint): seq<Path>
  {
    if pairs == [] then []
    else
      var last := pairs[|pairs| - 1];
      PathsWith(pairs[..|pairs| - 1], k) + (if last.0 == k then [last.1] else [])
  }

  function Hashes(pairs: seq<Pair>): set<Fingerprint>
  {
    set i | 0 <= i < |pairs| :: pairs[i].0
  }

  function PathsOf(pairs: seq<Pair>): seq<Path>
  {
    seq(|pairs|, i requires 0 <= i < |pairs| => pairs[i].1)
  }

  /** A map seen up to the order inside each group. */
  function Bag(m: Index): map<Fingerprint, multiset<Path>>
  {
    map k | k in m :: multiset(m[k])
  }

  lemma PathsWithAppend(a: seq<Pair>, b: seq<Pair>, k: Fingerprint)
    ensures PathsWith(a + b, k) == PathsWith(a, k) + PathsWith(b, k)
    decreases |b|
  {
    if b == [] {
      assert a + b == a;
    } else {
      var last := |b| - 1;
      assert (a + b)[..|a + b| - 1] == a + b[..last];
      assert (a + b)[|a + b| - 1] == b[last];
      PathsWithAppend(a, b[..last], k);
    }
  }

  /** Each path sits under its own fingerprint: the fold of a batch has a key
      for exactly the fingerprints in it, and under each the paths paired
      with that fingerprint, in order. */
  lemma {:induction false} FoldGroups(pairs: seq<Pair>)
    ensures Fold(pairs).Keys == Hashes(pairs)
    ensures forall k | k in Fold(pairs) :: Fold(pairs)[k] == PathsWith(pairs, k)
  {
    if pairs != [] {
      var init := pairs[..|pairs| - 1];
      FoldGroups(init);
      assert Hashes(pairs) == Hashes(init) + {pairs[|pairs| - 1].0} by {
        forall k | k in Hashes(pairs) ensures k in Hashes(init) + {pairs[|pairs| - 1].0} {
          var i :| 0 <= i < |pairs| && pairs[i].0 == k;
          if i < |pairs| - 1 {
            assert init[i] == pairs[i];
          }
        }
        forall k | k in Hashes(init) ensures k in Hashes(pairs) {
          var i :| 0 <= i < |init| && init[i].0 == k;
          assert pairs[i] == init[i];
        }
      }
      forall k | k !in Fold(init) ensures PathsWith(init, k) == [] {
        PathsWithAbsent(init, k);
      }
    }
  }

  lemma {:induction false} PathsWithAbsent(pairs: seq<Pair>, k: Fingerprint)
    requires k !in Hashes(pairs)
    ensures PathsWith(pairs, k) == []
  {
    if pairs != [] {
      var init := pairs[..|pairs| - 1];
      assert Hashes(init) <= Hashes(pairs) by {
        forall j | j in Hashes(init) ensures j in Hashes(pairs) {
          var i :| 0 <= i < |init| && init[i].0 == j;
          assert pairs[i] == init[i];
        }
      }
      PathsWithAbsent(init, k);
    }
  }

  lemma FoldGet(pairs: seq<Pair>, k: Fingerprint)
    ensures Get(Fold(pairs), k) == PathsWith(pairs, k)
  {
    FoldGroups(pairs);
    if k !in Fold(pairs) {
      PathsWithAbsent(pairs, k);
    }
  }

  /** Groups built by appending are never empty. */
  lemma {:induction false} FoldGroupsNonEmpty(pairs: seq<Pair>)
    ensures forall k | k in Fold(pairs) :: |Fold(pairs)[k]| >= 1
  {
    if pairs != [] {
      FoldGroupsNonEmpty(pairs[..|pairs| - 1]);
    }
  }

  /** Merging the folds of two consecutive batches gives the fold of both:
      a split into consecutive batches, reduced in order, changes nothing. */
  lemma FoldSplit(a: seq<Pair>, b: seq<Pair>)
    ensures Merge(Fold(a), Fold(b)) == Fold(a + b)
  {
    var l, r := Merge(Fold(a), Fold(b)), Fold(a + b);
    FoldGroups(a);
    FoldGroups(b);
    FoldGroups(a + b);
    HashesAppend(a, b);
    MergeKeys(Fold(a), Fold(b));
    forall k | k in l ensures l[k] == r[k] {
      FoldSplitAt(a, b, k);
    }
    MapsEqual(l, r);
  }

  lemma FoldSplitAt(a: seq<Pair>, b: seq<Pair>, k: Fingerprint)
    ensures Get(Merge(Fold(a), Fold(b)), k) == Get(Fold(a + b), k)
  {
    MergeGet(Fold(a), Fold(b), k);
    FoldGet(a, k);
    FoldGet(b, k);
    FoldGet(a + b, k);
    PathsWithAppend(a, b, k);
  }

  /** The empty map (rayon's identity) is neutral on either side. */
  lemma MergeIdentity(a: Index)
    ensures Merge(map[], a) == a && Merge(a, map[]) == a
  {
    var l, r := Merge(map[], a), Merge(a, map[]);
    assert l.Keys == a.Keys && r.Keys == a.Keys;
    forall k | k in a ensures l[k] == a[k] && r[k] == a[k] {
      assert Get(map[], k) == [] && Get(a, k) == a[k];
    }
  }

  lemma MergeGet(a: Index, b: Index, k: Fingerprint)
    ensures Get(Merge(a, b), k) == Get(a, k) + Get(b, k)
  {
  }

  lemma MapsEqual(l: Index, r: Index)
    requires l.Keys == r.Keys && forall k | k in l :: l[k] == r[k]
    ensures l == r
  {
  }

  lemma MergeKeys(a: Index, b: Index)
    ensures Merge(a, b).Keys == a.Keys + b.Keys
  {
  }

  /** Merging is associative, exactly. */
  lemma MergeAssociative(a: Index, b: Index, c: Index)
    ensures Merge(Merge(a, b), c) == Merge(a, Merge(b, c))
  {
    var ab, bc := Merge(a, b), Merge(b, c);
    var l, r := Merge(ab, c), Merge(a, bc);
    MergeKeys(a, b);
    MergeKeys(b, c);
    MergeKeys(ab, c);
    MergeKeys(a, bc);
    forall k | k in l ensures l[k] == r[k] {
      MergeAssociativeAt(a, b, c, k);
    }
    MapsEqual(l, r);
  }

  lemma MergeAssociativeAt(a: Index, b: Index, c: Index, k: Fingerprint)
    ensures Get(Merge(Merge(a, b), c), k) == Get(Merge(a, Merge(b, c)), k)
  {
    var x, y, z := Get(a, k), Get(b, k), Get(c, k);
    var ab, bc := Merge(a, b), Merge(b, c);
    MergeGet(a, b, k);
    MergeGet(b, c, k);
    MergeGet(ab, c, k);
    MergeGet(a, bc, k);
    assert Get(ab, k) == x + y;
    assert Get(bc, k) == y + z;
    ConcatAssociative(x, y, z);
  }

  /** Kept apart from its callers: proved in a small context it is
      immediate, while inside a map proof the solver does not find it. */
  lemma ConcatAssociative(x: seq<Path>, y: seq<Path>, z: seq<Path>)
    ensures (x + y) + z == x + (y + z)
  {
  }

  /** Merging is commutative up to the order inside each group. */
  lemma MergeCommutative(a: Index, b: Index)
    ensures Bag(Merge(a, b)) == Bag(Merge(b, a))
  {
    var l, r := Merge(a, b), Merge(b, a);
    MergeKeys(a, b);
    MergeKeys(b, a);
    forall k | k in l ensures multiset(l[k]) == multiset(r[k]) {
      MergeGet(a, b, k);
      MergeGet(b, a, k);
    }
    BagsEqual(l, r);
  }

  /** How often a path stands under a fingerprint is how often the pair
      occurs in the input. */
  lemma {:induction false} PathsWithCount(pairs: seq<Pair>, k: Fingerprint, p: Path)
    ensures multiset(PathsWith(pairs, k))[p] == multiset(pairs)[(k, p)]
  {
    if pairs != [] {
      var init, last := pairs[..|pairs| - 1], pairs[|pairs| - 1];
      PathsWithCount(init, k, p);
      assert pairs == init + [last];
      assert multiset(pairs) == multiset(init) + multiset{last};
      assert PathsWith(pairs, k) == PathsWith(init, k) + (if last.0 == k then [last.1] else []);
    }
  }

  /** Any way of merging partial maps: the leaves are the batches the
      workers fold, the inner nodes the order of the merges. */
  datatype Plan = Batch(pairs: seq<Pair>) | Combine(left: Plan, right: Plan)

  function Eval(t: Plan): Index
  {
    match t
    case Batch(pairs) => Fold(pairs)
    case Combine(l, r) => Merge(Eval(l), Eval(r))
  }

  function Leaves(t: Plan): seq<Pair>
  {
    match t
    case Batch(pairs) => pairs
    case Combine(l, r) => Leaves(l) + Leaves(r)
  }

  /** The keys of any plan's result are the fingerprints of its pairs. */
  lemma {:induction false} EvalKeys(t: Plan)
    ensures Eval(t).Keys == Hashes(Leaves(t))
  {
    match t
    case Batch(pairs) =>
      FoldGroups(pairs);
    case Combine(l, r) =>
      EvalKeys(l);
      EvalKeys(r);
      MergeKeys(Eval(l), Eval(r));
      HashesAppend(Leaves(l), Leaves(r));
  }

  /** In any plan's result, a path stands under a fingerprint as often as
      the pair occurs among the batches. */
  lemma {:induction false} EvalCount(t: Plan, k: Fingerprint, p: Path)
    ensures multiset(Get(Eval(t), k))[p] == multiset(Leaves(t))[(k, p)]
  {
    match t
    case Batch(pairs) =>
      FoldGet(pairs, k);
      PathsWithCount(pairs, k, p);
    case Combine(l, r) =>
      EvalCount(l, k, p);
      EvalCount(r, k, p);
      MergeGet(Eval(l), Eval(r), k);
  }

  lemma HashesAppend(a: seq<Pair>, b: seq<Pair>)
    ensures Hashes(a + b) == Hashes(a) + Hashes(b)
  {
    forall k | k in Hashes(a + b) ensures k in Hashes(a) + Hashes(b) {
      var i :| 0 <= i < |a + b| && (a + b)[i].0 == k;
      if i < |a| { assert (a + b)[i] == a[i]; } else { assert (a + b)[i] == b[i - |a|]; }
    }
    forall k | k in Hashes(a) + Hashes(b) ensures k in Hashes(a + b) {
      if k in Hashes(a) {
        var i :| 0 <= i < |a| && a[i].0 == k;
        assert (a + b)[i] == a[i];
      } else {
        var i :| 0 <= i < |b| && b[i].0 == k;
        assert (a + b)[|a| + i] == b[i];
      }
    }
  }

  /** The fingerprints of a sequence of pairs depend only on its multiset. */
  lemma HashesOfPermutation(a: seq<Pair>, b: seq<Pair>)
    requires multiset(a) == multiset(b)
    ensures Hashes(a) == Hashes(b)
  {
    forall k | k in Hashes(a) ensures k in Hashes(b) {
      var i :| 0 <= i < |a| && a[i].0 == k;
      assert a[i] in multiset(b);
      var j :| 0 <= j < |b| && b[j] == a[i];
    }
    forall k | k in Hashes(b) ensures k in Hashes(a) {
      var i :| 0 <= i < |b| && b[i].0 == k;
      assert b[i] in multiset(a);
      var j :| 0 <= j < |a| && a[j] == b[i];
    }
  }

  /** Batching and merge order do not matter: whichever way the pairs are
      dealt out to workers and whichever order the partial maps are merged
      in, the result maps each fingerprint to the same multiset of paths
      as one sequential fold. */
  lemma AnyPlanSameGroups(t: Plan, pairs: seq<Pair>)
    requires multiset(Leaves(t)) == multiset(pairs)
    ensures Bag(Eval(t)) == Bag(Fold(pairs))
  {
    var l, r := Eval(t), Fold(pairs);
    EvalKeys(t);
    EvalKeys(Batch(pairs));
    HashesOfPermutation(Leaves(t), pairs);
    forall k | k in l ensures multiset(l[k]) == multiset(r[k]) {
      forall p ensures multiset(l[k])[p] == multiset(r[k])[p] {
        EvalCount(t, k, p);
        EvalCount(Batch(pairs), k, p);
      }
    }
    BagsEqual(l, r);
  }

  lemma BagsEqual(l: Index, r: Index)
    requires l.Keys == r.Keys && forall k | k in l :: multiset(l[k]) == multiset(r[k])
    ensures Bag(l) == Bag(r)
  {
  }

  /** The groups of an index, one after another, in the order `keys` (the
      order in which a `HashMap` happens to yield its entries). */
  function Concat(m: Index, keys: seq<Fingerprint>): seq<Path>
  {
    if keys == [] then [] else Get(m, keys[0]) + Concat(m, keys[1..])
  }

  function ConcatWith(pairs: seq<Pair>, keys: seq<Fingerprint>): seq<Path>
  {
    if keys == [] then [] else PathsWith(pairs, keys[0]) + ConcatWith(pairs, keys[1..])
  }

  predicate Distinct(keys: seq<Fingerprint>)
  {
    forall i, j | 0 <= i < j < |keys| :: keys[i] != keys[j]
  }

  lemma {:induction false} ConcatFold(pairs: seq<Pair>, keys: seq<Fingerprint>)
    ensures Concat(Fold(pairs), keys) == ConcatWith(pairs, keys)
  {
    if keys != [] {
      FoldGet(pairs, keys[0]);
      ConcatFold(pairs, keys[1..]);
    }
  }

  lemma {:induction false} ConcatWithSnoc(pairs: seq<Pair>, x: Pair, keys: seq<Fingerprint>)
    requires Distinct(keys)
    ensures multiset(ConcatWith(pairs + [x], keys)) ==
            multiset(ConcatWith(pairs, keys)) + (if x.0 in keys then multiset{x.1} else multiset{})
  {
    if keys != [] {
      var k, rest := keys[0], keys[1..];
      DistinctTail(keys);
      ConcatWithSnoc(pairs, x, rest);
      PathsWithAppend(pairs, [x], k);
      assert x.0 in keys <==> x.0 == k || x.0 in rest;
    }
  }

  lemma DistinctTail(keys: seq<Fingerprint>)
    requires Distinct(keys) && keys != []
    ensures Distinct(keys[1..]) && keys[0] !in keys[1..]
  {
    var rest := keys[1..];
    forall i, j | 0 <= i < j < |rest| ensures rest[i] != rest[j] {
      assert rest[i] == keys[i + 1] && rest[j] == keys[j + 1];
    }
    forall j | 0 <= j < |rest| ensures rest[j] != keys[0] {
      assert rest[j] == keys[j + 1];
    }
  }

  lemma {:induction false} ConcatWithAll(pairs: seq<Pair>, keys: seq<Fingerprint>)
    requires Distinct(keys) && forall i | 0 <= i < |pairs| :: pairs[i].0 in keys
    ensures multiset(ConcatWith(pairs, keys)) == multiset(PathsOf(pairs))
  {
    if pairs == [] {
      EmptyConcatWith(keys);
    } else {
      var init, x := pairs[..|pairs| - 1], pairs[|pairs| - 1];
      assert forall i | 0 <= i < |init| :: init[i] == pairs[i];
      ConcatWithAll(init, keys);
      assert pairs == init + [x];
      ConcatWithSnoc(init, x, keys);
      PathsOfSnoc(init, x);
    }
  }

  lemma PathsOfSnoc(init: seq<Pair>, x: Pair)
    ensures PathsOf(init + [x]) == PathsOf(init) + [x.1]
  {
    var l, r := PathsOf(init + [x]), PathsOf(init) + [x.1];
    assert |l| == |r|;
    forall i | 0 <= i < |l| ensures l[i] == r[i] {
      if i < |init| {
        assert (init + [x])[i] == init[i];
      }
    }
  }

  lemma {:induction false} EmptyConcatWith(keys: seq<Fingerprint>)
    ensures ConcatWith([], keys) == []
  {
    if keys != [] {
      EmptyConcatWith(keys[1..]);
    }
  }

  /** No loss and no duplication: listing every group of the fold, in any
      order of its keys, gives back exactly the multiset of input paths. */
  lemma NoLossNoDuplication(pairs: seq<Pair>, keys: seq<Fingerprint>)
    requires Distinct(keys) && forall k | k in Fold(pairs) :: k in keys
    ensures multiset(Concat(Fold(pairs), keys)) == multiset(PathsOf(pairs))
  {
    FoldGroups(pairs);
    forall i | 0 <= i < |pairs| ensures pairs[i].0 in keys {
      assert pairs[i].0 in Hashes(pairs);
    }
    ConcatFold(pairs, keys);
    ConcatWithAll(pairs, keys);
  }

  predicate DistinctPaths(pairs: seq<Pair>)
  {
    forall i, j | 0 <= i < j < |pairs| :: pairs[i].1 != pairs[j].1
  }

  /** When every path is hashed once, each path stands exactly once in the
      group of its own fingerprint and in no other group. */
  lemma EachPathInItsOwnGroup(pairs: seq<Pair>, i: nat, k: Fingerprint)
    requires DistinctPaths(pairs) && i < |pairs|
    ensures multiset(Get(Fold(pairs), k))[pairs[i].1] == if k == pairs[i].0 then 1 else 0
  {
    FoldGet(pairs, k);
    PathsWithCount(pairs, k, pairs[i].1);
    DistinctPathCount(pairs, i, k);
  }

  lemma DistinctPathCount(pairs: seq<Pair>, i: nat, k: Fingerprint)
    requires DistinctPaths(pairs) && i < |pairs|
    ensures multiset(pairs)[(k, pairs[i].1)] == if k == pairs[i].0 then 1 else 0
  {
    var x := (k, pairs[i].1);
    var before, after := pairs[..i], pairs[i + 1..];
    assert pairs == before + [pairs[i]] + after;
    assert x !in before by {
      forall j | 0 <= j < |before| ensures before[j] != x {
        assert before[j] == pairs[j];
      }
    }
    assert x !in after by {
      forall j | 0 <= j < |after| ensures after[j] != x {
        assert after[j] == pairs[i + 1 + j];
      }
    }
  }

  /** The fold closure, run by one worker over its batch. */
  method FoldBatch(batch: seq<Pair>) returns (acc: Index)
    ensures acc == Fold(batch)
  {
    acc := map[];
    for i := 0 to |batch|
      invariant acc == Fold(batch[..i])
    {
      var (hash, path) := batch[i];
      acc := acc[hash := (if hash in acc then acc[hash] else []) + [path]];
      assert batch[..i + 1][..i] == batch[..i];
    }
    assert batch[..|batch|] == batch;
  }

  /** The reduce closure: every entry of `part`, in whatever order the map
      yields them, is appended to the group of the same key in `acc`. */
  method MergeInto(acc: Index, part: Index) returns (r: Index)
    ensures r == Merge(acc, part)
  {
    r := acc;
    var rest := part.Keys;
    while rest != {}
      invariant rest <= part.Keys
      invariant r.Keys == acc.Keys + (part.Keys - rest)
      invariant forall k | k in r :: r[k] == Get(acc, k) + (if k in part && k !in rest then part[k] else [])
      decreases rest
    {
      var k :| k in rest;
      r := r[k := (if k in r then r[k] else []) + part[k]];
      rest := rest - {k};
    }
    MergeKeys(acc, part);
    forall k | k in r ensures r[k] == Merge(acc, part)[k] {
      MergeGet(acc, part, k);
    }
    MapsEqual(r, Merge(acc, part));
  }

  function Flatten(batches: seq<seq<Pair>>): seq<Pair>
  {
    if batches == [] then [] else Flatten(batches[..|batches| - 1]) + batches[|batches| - 1]
  }

  /** Fold and reduce over consecutive batches: each batch is folded from an
      empty map and the partial maps are merged in order. The result is
      the fold of all the pairs, as if one worker had done everything. */
  method Aggregate(batches: seq<seq<Pair>>) returns (r: Index)
    ensures r == Fold(Flatten(batches))
  {
    r := map[];
    for i := 0 to |batches|
      invariant r == Fold(Flatten(batches[..i]))
    {
      var part := FoldBatch(batches[i]);
      FoldSplit(Flatten(batches[..i]), batches[i]);
      r := MergeInto(r, part);
      assert batches[..i + 1][..i] == batches[..i];
    }
    assert batches[..|batches|] == batches;
  }
}
