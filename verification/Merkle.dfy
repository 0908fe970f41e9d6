// The duplicate-last Merkle tree shared by blocks, share archives and epoch commits.

module Merkle {
  import opened Bytes

  // SHA-256 stands as an arbitrary function; collision freedom is asked only of the finitely
  // many strings that a pair of trees really hashes.
  type Hasher = seq<byte> -> Hash32

  // The second child of pair i: the last element stands in for a missing one.
  function RightIndex(n: nat, i: nat): nat {
    if 2 * i + 1 < n then 2 * i + 1 else 2 * i
  }

  function Pair(level: seq<Hash32>, i: nat): (p: seq<byte>)
    requires 2 * i < |level|
    ensures |p| == 64
  {
    var left: seq<byte>, right: seq<byte> := level[2 * i], level[RightIndex(|level|, i)];
    left + right
  }

  function Up(sha: Hasher, level: seq<Hash32>): (next: seq<Hash32>)
    ensures |next| == (|level| + 1) / 2
  {
    seq<Hash32>((|level| + 1) / 2, i requires 0 <= 2 * i < |level| => sha(Pair(level, i)))
  }

  lemma PairParts(level: seq<Hash32>, i: nat)
    requires 2 * i < |level|
    ensures Pair(level, i)[..32] == level[2 * i]
    ensures Pair(level, i)[32..] == level[RightIndex(|level|, i)]
  {}

  function Root(sha: Hasher, leaves: seq<Hash32>): Hash32
    decreases |leaves|
  {
    if leaves == [] then ZERO_HASH
    else if |leaves| == 1 then leaves[0]
    else Root(sha, Up(sha, leaves))
  }

  // The loop of the source: replace the level by the hashes of its chunks of two.
  method RootFromLeaves(sha: Hasher, leaves: seq<Hash32>) returns (root: Hash32)
    ensures root == Root(sha, leaves)
  {
    if leaves == [] {
      return ZERO_HASH;
    }
    var level := leaves;
    while |level| > 1
      invariant level != []
      invariant Root(sha, level) == Root(sha, leaves)
      decreases |level|
    {
      var next: seq<Hash32> := [];
      var start := 0;
      while start < |level|
        invariant start == 2 * |next| && |next| <= (|level| + 1) / 2
        invariant next == Up(sha, level)[..|next|]
      {
        next := next + [sha(Pair(level, |next|))];
        start := start + 2;
      }
      assert next == Up(sha, level);
      level := next;
    }
    return level[0];
  }

  lemma RootOfPair(sha: Hasher, a: Hash32, b: Hash32)
    ensures Root(sha, [a, b]) == sha(Raw(a) + Raw(b))
  {
    var level: seq<Hash32> := [a, b];
    assert Pair(level, 0) == Raw(a) + Raw(b);
    assert Up(sha, level) == [sha(Pair(level, 0))];
  }

  // An odd last leaf is its own partner.
  lemma RootOfThree(sha: Hasher, a: Hash32, b: Hash32, c: Hash32)
    ensures Root(sha, [a, b, c]) == sha(Raw(sha(Raw(a) + Raw(b))) + Raw(sha(Raw(c) + Raw(c))))
  {
    var left, right := sha(Raw(a) + Raw(b)), sha(Raw(c) + Raw(c));
    var level: seq<Hash32> := [a, b, c];
    assert Pair(level, 0) == Raw(a) + Raw(b) && Pair(level, 1) == Raw(c) + Raw(c);
    assert Up(sha, level) == [left, right];
    RootOfPair(sha, left, right);
  }

  lemma {:induction false} UpOfBoth(sha: Hasher, x: seq<Hash32>, y: seq<Hash32>)
    requires |x| % 2 == 0
    ensures Up(sha, x + y) == Up(sha, x) + Up(sha, y)
  {
    var l, r := Up(sha, x + y), Up(sha, x) + Up(sha, y);
    assert |l| == |r|;
    forall i | 0 <= i < |l|
      ensures l[i] == r[i]
    {
      if 2 * i < |x| {
        assert Pair(x + y, i) == Pair(x, i);
      } else {
        var j := i - |x| / 2;
        assert Pair(x + y, i) == Pair(y, j);
      }
    }
  }

  // The root over two full halves is the hash of their roots, the left one first.
  lemma {:induction false} RootOfHalves(sha: Hasher, x: seq<Hash32>, y: seq<Hash32>, k: nat)
    requires |x| == |y| == Pow(2, k)
    ensures Root(sha, x + y) == sha(Raw(Root(sha, x)) + Raw(Root(sha, y)))
    decreases k
  {
    PowPositive(2, k);
    if k == 0 {
      assert x + y == [x[0], y[0]];
      RootOfPair(sha, x[0], y[0]);
    } else {
      PowPositive(2, k - 1);
      UpOfBoth(sha, x, y);
      RootOfHalves(sha, Up(sha, x), Up(sha, y), k - 1);
    }
  }

  // ---- The strings hashed by a tree ----

  function Preimages(sha: Hasher, level: seq<Hash32>): set<seq<byte>>
    decreases |level|
  {
    if |level| <= 1 then {}
    else (set i | 0 <= i < (|level| + 1) / 2 :: Pair(level, i)) + Preimages(sha, Up(sha, level))
  }

  function Leaves(sha: Hasher, entries: seq<seq<byte>>): (leaves: seq<Hash32>)
    ensures |leaves| == |entries|
    ensures forall i :: 0 <= i < |entries| ==> leaves[i] == sha(entries[i])
  {
    seq<Hash32>(|entries|, i requires 0 <= i < |entries| => sha(entries[i]))
  }

  // Everything hashed while the root over these leaf strings is computed.
  function Hashed(sha: Hasher, entries: seq<seq<byte>>): set<seq<byte>> {
    (set e | e in entries) + Preimages(sha, Leaves(sha, entries))
  }

  function EntriesRoot(sha: Hasher, entries: seq<seq<byte>>): Hash32 {
    Root(sha, Leaves(sha, entries))
  }

  ghost predicate CollisionFree(sha: Hasher, hashed: set<seq<byte>>) {
    forall p, q {:trigger NoCollision(sha, p, q)} :: p in hashed && q in hashed ==> NoCollision(sha, p, q)
  }

  ghost predicate NoCollision(sha: Hasher, p: seq<byte>, q: seq<byte>) {
    sha(p) == sha(q) ==> p == q
  }

  lemma Injective(sha: Hasher, hashed: set<seq<byte>>, p: seq<byte>, q: seq<byte>)
    requires CollisionFree(sha, hashed) && p in hashed && q in hashed && sha(p) == sha(q)
    ensures p == q
  {
    assert NoCollision(sha, p, q);
  }

  ghost predicate NeverZero(sha: Hasher, hashed: set<seq<byte>>) {
    forall p :: p in hashed ==> sha(p) != ZERO_HASH
  }

  // ---- Why distinct entries are needed ----

  lemma LastLeafCanRepeat(sha: Hasher, a: Hash32, b: Hash32, c: Hash32)
    ensures Root(sha, [a, b, c]) == Root(sha, [a, b, c, c])
  {
    var xs, ys := Up(sha, [a, b, c]), Up(sha, [a, b, c, c]);
    assert Pair([a, b, c], 0) == Pair([a, b, c, c], 0) && Pair([a, b, c], 1) == Pair([a, b, c, c], 1);
    assert xs[0] == ys[0] && xs[1] == ys[1];
    assert xs == ys;
  }

  // ---- Binding ----

  // The levels above a list of hashes.
  function Level(sha: Hasher, leaves: seq<Hash32>, k: nat): (level: seq<Hash32>)
    requires leaves != []
    ensures level != []
    decreases k
  {
    if k == 0 then leaves else Level(sha, Up(sha, leaves), k - 1)
  }

  function Depth(n: nat): nat {
    if n <= 1 then 0 else 1 + Depth((n + 1) / 2)
  }

  lemma LevelUp(sha: Hasher, leaves: seq<Hash32>, k: nat)
    requires leaves != []
    ensures Level(sha, leaves, k + 1) == Up(sha, Level(sha, leaves, k))
    decreases k
  {
    if k > 0 {
      LevelUp(sha, Up(sha, leaves), k - 1);
    }
  }

  lemma RootIsTopLevel(sha: Hasher, leaves: seq<Hash32>)
    requires leaves != []
    ensures Root(sha, leaves) == Level(sha, leaves, Depth(|leaves|))[0]
    decreases |leaves|
  {
    if |leaves| > 1 {
      RootIsTopLevel(sha, Up(sha, leaves));
    }
  }

  lemma LevelIsWide(sha: Hasher, leaves: seq<Hash32>, k: nat)
    requires leaves != [] && k < Depth(|leaves|)
    ensures |Level(sha, leaves, k)| > 1
    ensures Pair(Level(sha, leaves, k), 0) in Preimages(sha, leaves)
    decreases |leaves|
  {
    if k > 0 {
      LevelIsWide(sha, Up(sha, leaves), k - 1);
    }
  }

  lemma LevelNode(sha: Hasher, leaves: seq<Hash32>, k: nat)
    requires leaves != [] && k < Depth(|leaves|)
    ensures Pair(Level(sha, leaves, k), 0) in Preimages(sha, leaves)
    ensures Level(sha, leaves, k + 1)[0] == sha(Pair(Level(sha, leaves, k), 0))
  {
    LevelUp(sha, leaves, k);
    LevelIsWide(sha, leaves, k);
  }

  // Equal roots of trees of different depth: walking down the left edges, the first leaf of
  // the shallow tree equals an inner node of the deep one.
  lemma {:induction false} LeftEdge(sha: Hasher, xs: seq<Hash32>, ys: seq<Hash32>, gap: nat, pre: set<seq<byte>>)
    requires xs != [] && ys != [] && Depth(|xs|) + gap == Depth(|ys|) && gap > 0
    requires Root(sha, xs) == Root(sha, ys)
    requires Preimages(sha, xs) <= pre && Preimages(sha, ys) <= pre && CollisionFree(sha, pre)
    ensures xs[0] == Level(sha, ys, gap)[0]
    decreases |xs|
  {
    RootIsTopLevel(sha, ys);
    if |xs| > 1 {
      LeftEdge(sha, Up(sha, xs), Up(sha, ys), gap, pre);
      LevelUp(sha, ys, gap);
      LevelIsWide(sha, ys, gap);
      var p, q := Pair(xs, 0), Pair(Level(sha, ys, gap), 0);
      assert p in Preimages(sha, xs);
      Injective(sha, pre, p, q);
      PairParts(xs, 0);
      PairParts(Level(sha, ys, gap), 0);
    }
  }

  lemma LeafIsNode(sha: Hasher, xs: seq<Hash32>, ys: seq<Hash32>, gap: nat, pre: set<seq<byte>>)
    returns (q: seq<byte>)
    requires xs != [] && ys != [] && Depth(|xs|) + gap + 1 == Depth(|ys|)
    requires Root(sha, xs) == Root(sha, ys)
    requires Preimages(sha, xs) <= pre && Preimages(sha, ys) <= pre && CollisionFree(sha, pre)
    ensures q in pre && |q| == 64 && sha(q) == xs[0]
  {
    LeftEdge(sha, xs, ys, gap + 1, pre);
    LevelNode(sha, ys, gap);
    q := Pair(Level(sha, ys, gap), 0);
  }

  lemma NotDeeper(sha: Hasher, es: seq<seq<byte>>, ys: seq<Hash32>, pre: set<seq<byte>>)
    requires es != [] && ys != []
    requires |es[0]| != 64 && es[0] in pre
    requires EntriesRoot(sha, es) == Root(sha, ys)
    requires Preimages(sha, Leaves(sha, es)) <= pre && Preimages(sha, ys) <= pre && CollisionFree(sha, pre)
    ensures Depth(|es|) >= Depth(|ys|)
  {
    if Depth(|es|) < Depth(|ys|) {
      var q := LeafIsNode(sha, Leaves(sha, es), ys, Depth(|ys|) - Depth(|es|) - 1, pre);
      Injective(sha, pre, es[0], q);
      assert false;
    }
  }

  // The shorter list is a prefix of the longer one, and what follows only repeats it.
  ghost predicate SameUpToRepeats<T>(xs: seq<T>, ys: seq<T>) {
    var k := Min(|xs|, |ys|);
    && xs[..k] == ys[..k]
    && (forall i :: k <= i < |xs| ==> xs[i] in xs[..k])
    && (forall i :: k <= i < |ys| ==> ys[i] in ys[..k])
  }

  lemma SameUpToRepeatsSymmetric<T>(xs: seq<T>, ys: seq<T>)
    requires SameUpToRepeats(xs, ys)
    ensures SameUpToRepeats(ys, xs)
  {}

  lemma {:induction false} SameRoot(sha: Hasher, xs: seq<Hash32>, ys: seq<Hash32>, pre: set<seq<byte>>)
    requires xs != [] && ys != [] && Depth(|xs|) == Depth(|ys|)
    requires Root(sha, xs) == Root(sha, ys)
    requires Preimages(sha, xs) <= pre && Preimages(sha, ys) <= pre && CollisionFree(sha, pre)
    ensures SameUpToRepeats(xs, ys)
    decreases |xs|
  {
    if |xs| > 1 {
      SameRoot(sha, Up(sha, xs), Up(sha, ys), pre);
      if |xs| <= |ys| {
        Descend(sha, xs, ys, pre);
      } else {
        SameUpToRepeatsSymmetric(Up(sha, xs), Up(sha, ys));
        Descend(sha, ys, xs, pre);
        SameUpToRepeatsSymmetric(ys, xs);
      }
    }
  }

  lemma SamePair(sha: Hasher, xs: seq<Hash32>, i: nat, ys: seq<Hash32>, j: nat, pre: set<seq<byte>>)
    requires |xs| > 1 && |ys| > 1 && 2 * i < |xs| && 2 * j < |ys|
    requires Preimages(sha, xs) <= pre && Preimages(sha, ys) <= pre && CollisionFree(sha, pre)
    requires Up(sha, xs)[i] == Up(sha, ys)[j]
    ensures xs[2 * i] == ys[2 * j]
    ensures xs[RightIndex(|xs|, i)] == ys[RightIndex(|ys|, j)]
  {
    var p, q := Pair(xs, i), Pair(ys, j);
    assert p in Preimages(sha, xs) && q in Preimages(sha, ys);
    Injective(sha, pre, p, q);
    PairParts(xs, i);
    PairParts(ys, j);
  }

  // Elements of one level follow from those of the level above.
  lemma {:induction false} Descend(sha: Hasher, xs: seq<Hash32>, ys: seq<Hash32>, pre: set<seq<byte>>)
    requires 1 < |xs| <= |ys|
    requires Preimages(sha, xs) <= pre && Preimages(sha, ys) <= pre && CollisionFree(sha, pre)
    requires SameUpToRepeats(Up(sha, xs), Up(sha, ys))
    ensures SameUpToRepeats(xs, ys)
  {
    forall i, j | 0 <= i < |Up(sha, xs)| && 0 <= j < |Up(sha, ys)| && Up(sha, xs)[i] == Up(sha, ys)[j]
      ensures SameChildren(xs, i, ys, j)
    {
      SamePair(sha, xs, i, ys, j, pre);
    }
    DescendLevel(Up(sha, xs), Up(sha, ys), xs, ys);
  }

  ghost predicate SameChildren<T>(xs: seq<T>, i: nat, ys: seq<T>, j: nat)
    requires 2 * i < |xs| && 2 * j < |ys|
  {
    xs[2 * i] == ys[2 * j] && xs[RightIndex(|xs|, i)] == ys[RightIndex(|ys|, j)]
  }

  lemma DescendLevel<T>(up: seq<T>, vp: seq<T>, xs: seq<T>, ys: seq<T>)
    requires 1 < |xs| <= |ys| && |up| == (|xs| + 1) / 2 && |vp| == (|ys| + 1) / 2
    requires forall i, j :: 0 <= i < |up| && 0 <= j < |vp| && up[i] == vp[j] ==> SameChildren(xs, i, ys, j)
    requires SameUpToRepeats(up, vp)
    ensures SameUpToRepeats(xs, ys)
  {
    forall i | 0 <= i < |xs|
      ensures xs[i] == ys[i]
    {
      assert up[i / 2] == up[..|up|][i / 2] == vp[..|up|][i / 2] == vp[i / 2];
      assert SameChildren(xs, i / 2, ys, i / 2);
    }
    forall i | |xs| <= i < |ys|
      ensures ys[i] in xs
    {
      RepeatedFrom(up, vp, i / 2);
      var j :| 0 <= j < |up| && up[j] == vp[i / 2];
      assert SameChildren(xs, j, ys, i / 2);
      assert ys[i] == xs[if i % 2 == 0 then 2 * j else RightIndex(|xs|, j)];
    }
    assert xs[..|xs|] == xs == ys[..|xs|];
  }

  lemma RepeatedFrom<T>(xs: seq<T>, ys: seq<T>, i: nat)
    requires |xs| <= |ys| && SameUpToRepeats(xs, ys) && i < |ys|
    ensures exists j :: 0 <= j < |xs| && xs[j] == ys[i]
  {
    assert xs[..|xs|] == xs;
    if i < |xs| {
      assert xs[i] == ys[..|xs|][i];
    } else {
      assert ys[i] in xs;
    }
  }

  lemma RootIsHash(sha: Hasher, entries: seq<seq<byte>>)
    requires entries != []
    ensures exists p :: p in Hashed(sha, entries) && sha(p) == EntriesRoot(sha, entries)
  {
    var leaves := Leaves(sha, entries);
    RootIsTopLevel(sha, leaves);
    var d := Depth(|leaves|);
    if d == 0 {
      assert entries[0] in Hashed(sha, entries);
    } else {
      LevelNode(sha, leaves, d - 1);
      assert Pair(Level(sha, leaves, d - 1), 0) in Hashed(sha, entries);
    }
  }

  // Lists of distinct leaf strings, none as long as an inner node, are determined by their
  // root: even lists of different lengths, and even the empty list.
  lemma Binding(sha: Hasher, es: seq<seq<byte>>, fs: seq<seq<byte>>)
    requires Distinct(es) && Distinct(fs)
    requires forall e :: e in es || e in fs ==> |e| != 64
    requires CollisionFree(sha, Hashed(sha, es) + Hashed(sha, fs))
    requires NeverZero(sha, Hashed(sha, es) + Hashed(sha, fs))
    requires EntriesRoot(sha, es) == EntriesRoot(sha, fs)
    ensures es == fs
  {
    if es == [] {
      if fs != [] { RootIsHash(sha, fs); }
    } else if fs == [] {
      RootIsHash(sha, es);
    } else {
      var pre := Hashed(sha, es) + Hashed(sha, fs);
      NotDeeper(sha, es, Leaves(sha, fs), pre);
      NotDeeper(sha, fs, Leaves(sha, es), pre);
      SameRoot(sha, Leaves(sha, es), Leaves(sha, fs), pre);
      NoRepeats(sha, es, fs);
    }
  }

  lemma NoRepeats(sha: Hasher, es: seq<seq<byte>>, fs: seq<seq<byte>>)
    requires Distinct(es) && Distinct(fs)
    requires CollisionFree(sha, Hashed(sha, es) + Hashed(sha, fs))
    requires SameUpToRepeats(Leaves(sha, es), Leaves(sha, fs))
    ensures es == fs
  {
    var xs, ys, pre := Leaves(sha, es), Leaves(sha, fs), Hashed(sha, es) + Hashed(sha, fs);
    var k := Min(|es|, |fs|);
    forall i | 0 <= i < k
      ensures es[i] == fs[i]
    {
      assert xs[..k][i] == ys[..k][i];
      assert es[i] in pre && fs[i] in pre;
      Injective(sha, pre, es[i], fs[i]);
    }
    if |es| > k {
      RepeatedEntry(sha, es, k, pre);
    }
    if |fs| > k {
      RepeatedEntry(sha, fs, k, pre);
    }
    assert es == es[..k] == fs[..k] == fs;
  }

  lemma RepeatedEntry(sha: Hasher, es: seq<seq<byte>>, k: nat, pre: set<seq<byte>>)
    requires k < |es| && Leaves(sha, es)[k] in Leaves(sha, es)[..k]
    requires CollisionFree(sha, pre) && forall e :: e in es ==> e in pre
    ensures es[k] in es[..k]
  {
    var xs := Leaves(sha, es);
    var j :| 0 <= j < k && xs[..k][j] == xs[k];
    Injective(sha, pre, es[j], es[k]);
    assert es[..k][j] == es[j];
  }
}
