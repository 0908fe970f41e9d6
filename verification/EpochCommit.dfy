// The epoch commit: canonical snapshot of share counts, bonds and loyalty.

module EpochCommits {
  import opened Bytes
  import opened Merkle
  import opened Records
  import opened SortedKeys
  import opened StableSort

  datatype Entry<V> = Entry(id: MinerId, value: V)

  datatype EpochCommit = EpochCommit(
    epoch: u32,
    blockHeight: u64,
    sharesRoot: Hash32,
    bondsRoot: Hash32,
    loyaltyRoot: Hash32,
    totalShares: u64,
    minersCount: u32,
    previousCommit: Hash32)

  // ---- Sorted listings of maps ----

  ghost predicate StrictlySorted<V>(v: seq<Entry<V>>) {
    forall i, j :: 0 <= i < j < |v| ==> LexLess(v[i].id, v[j].id)
  }

  // v lists exactly the items of m, by increasing miner id.
  ghost predicate Lists<V>(v: seq<Entry<V>>, m: map<MinerId, V>) {
    && StrictlySorted(v)
    && (forall i :: 0 <= i < |v| ==> v[i].id in m && m[v[i].id] == v[i].value)
    && (forall id :: id in m ==> Entry(id, m[id]) in v)
  }

  // Collects the map in whatever order its keys come and sorts by miner id.
  method CollectSorted<V(!new)>(m: map<MinerId, V>) returns (v: seq<Entry<V>>)
    ensures Lists(v, m)
  {
    var collected: seq<Entry<V>> := [];
    var todo := m.Keys;
    while todo != {}
      invariant todo <= m.Keys
      invariant forall i :: 0 <= i < |collected| ==>
        collected[i].id in m && collected[i].id !in todo && collected[i].value == m[collected[i].id]
      invariant forall i, j :: 0 <= i < j < |collected| ==> collected[i].id != collected[j].id
      invariant forall id :: id in m && id !in todo ==> Entry(id, m[id]) in collected
      decreases |todo|
    {
      var id :| id in todo;
      ghost var before := collected;
      collected := collected + [Entry(id, m[id])];
      todo := todo - {id};
      forall k | k in m && k !in todo
        ensures Entry(k, m[k]) in collected
      {
        if k == id {
          assert collected[|before|] == Entry(k, m[k]);
        } else {
          assert Entry(k, m[k]) in before;
        }
      }
    }
    v := SortById(collected);
    assert forall i :: 0 <= i < |v| ==> v[i] in v;
  }

  predicate IdBefore<V>(a: Entry<V>, b: Entry<V>) { LexLess(a.id, b.id) }

  method SortById<V(!new)>(entries: seq<Entry<V>>) returns (v: seq<Entry<V>>)
    requires forall i, j :: 0 <= i < j < |entries| ==> entries[i].id != entries[j].id
    ensures StrictlySorted(v)
    ensures forall e :: e in v <==> e in entries
  {
    v := Sort<Entry<V>>(IdBefore, entries);
    SortedById(entries);
    SortedHolds(entries);
  }

  lemma {:induction false} IdOrder<V(!new)>()
    ensures WeakOrder<Entry<V>>(IdBefore)
  {
    forall x: Entry<V>, y: Entry<V> | IdBefore(x, y)
      ensures !IdBefore(y, x)
    {
      LexAsymmetric(x.id, y.id);
    }
    forall x: Entry<V>, y: Entry<V>, z: Entry<V> | !IdBefore(x, y) && !IdBefore(y, z)
      ensures !IdBefore(x, z)
    {
      LexTotal(x.id, y.id);
      LexTotal(y.id, z.id);
      if LexLess(x.id, z.id) && LexLess(y.id, x.id) {
        LexTransitive(y.id, x.id, z.id);
      }
    }
  }

  ghost predicate OtherId<V>(a: Entry<V>, b: Entry<V>) { a.id != b.id }

  lemma {:induction false} SortedHolds<V>(entries: seq<Entry<V>>)
    ensures forall e: Entry<V> :: e in Sorted<Entry<V>>(IdBefore, entries) <==> e in entries
  {
    SortedKeepsAll<Entry<V>>(IdBefore, entries);
    SameElements<Entry<V>>(Sorted<Entry<V>>(IdBefore, entries), entries);
  }

  lemma {:induction false} InOrderById<V(!new)>(v: seq<Entry<V>>)
    requires InOrder<Entry<V>>(IdBefore, v) && Pairwise<Entry<V>>(OtherId, v)
    ensures StrictlySorted(v)
  {
    forall i, j | 0 <= i < j < |v|
      ensures LexLess(v[i].id, v[j].id)
    {
      assert OtherId(v[i], v[j]) && !IdBefore(v[j], v[i]);
      LexTotal(v[i].id, v[j].id);
    }
  }

  lemma {:induction false} SortedById<V(!new)>(entries: seq<Entry<V>>)
    requires forall i, j :: 0 <= i < j < |entries| ==> entries[i].id != entries[j].id
    ensures StrictlySorted(Sorted<Entry<V>>(IdBefore, entries))
  {
    IdOrder<V>();
    SortedInOrder<Entry<V>>(IdBefore, entries);
    SortedPairwise<Entry<V>>(IdBefore, OtherId, entries);
    InOrderById(Sorted<Entry<V>>(IdBefore, entries));
  }

  function Ids<V>(v: seq<Entry<V>>): (ids: seq<seq<byte>>)
    ensures |ids| == |v| && forall i :: 0 <= i < |v| ==> ids[i] == v[i].id
  {
    seq(|v|, i requires 0 <= i < |v| => Raw(v[i].id))
  }

  lemma {:induction false} ListedIds<V>(v: seq<Entry<V>>, m: map<MinerId, V>)
    requires Lists(v, m)
    ensures StrictlyAscending(Ids(v))
    ensures forall k :: k in Ids(v) <==> |k| == 20 && k in m
  {
    forall k | |k| == 20 && k in m
      ensures k in Ids(v)
    {
      var i :| 0 <= i < |v| && v[i] == Entry(k, m[k]);
      assert Ids(v)[i] == k;
    }
  }

  // Sorting by key leaves one listing per map, whatever the iteration order was, and a
  // listing determines its map.
  lemma {:induction false} ListingUnique<V>(v: seq<Entry<V>>, w: seq<Entry<V>>, m: map<MinerId, V>)
    requires Lists(v, m) && Lists(w, m)
    ensures v == w
  {
    ListedIds(v, m);
    ListedIds(w, m);
    StrictUnique(Ids(v), Ids(w));
    assert |v| == |w|;
    forall i | 0 <= i < |v|
      ensures v[i] == w[i]
    {
      assert Ids(v)[i] == Ids(w)[i];
    }
  }

  lemma ListedMap<V>(v: seq<Entry<V>>, m: map<MinerId, V>, n: map<MinerId, V>)
    requires Lists(v, m) && Lists(v, n)
    ensures m == n
  {
    forall id | id in m
      ensures id in n && m[id] == n[id]
    {
      assert Entry(id, m[id]) in v;
    }
    forall id | id in n
      ensures id in m
    {
      assert Entry(id, n[id]) in v;
    }
  }

  // ---- Leaves ----

  // Share counts and loyalty values use the same 28-byte leaf.
  function CountLeaf(e: Entry<u64>): seq<byte> { Raw(e.id) + LittleEndian(e.value, 8) }

  function BondLeaf(e: Entry<Bond>): seq<byte> {
    Raw(e.id) + (LittleEndian(e.value.amount, 8)
      + (LittleEndian(e.value.createdAt, 8) + LittleEndian(e.value.lockUntil, 8)))
  }

  function LeafStrings<V>(leaf: Entry<V> -> seq<byte>, v: seq<Entry<V>>): (s: seq<seq<byte>>)
    ensures |s| == |v| && forall i :: 0 <= i < |v| ==> s[i] == leaf(v[i])
  {
    seq(|v|, i requires 0 <= i < |v| => leaf(v[i]))
  }

  // Leaf strings tell entries apart and are never as long as an inner node.
  ghost predicate GoodLeaf<V(!new)>(leaf: Entry<V> -> seq<byte>) {
    && (forall e :: |leaf(e)| != 64)
    && (forall e, f :: leaf(e) == leaf(f) ==> e == f)
  }

  lemma LeavesAreGood()
    ensures GoodLeaf(CountLeaf) && GoodLeaf(BondLeaf)
  {
    PowValues();
    forall e: Entry<u64>, f: Entry<u64> | CountLeaf(e) == CountLeaf(f)
      ensures e == f
    {
      SplitConcat(e.id, LittleEndian(e.value, 8), f.id, LittleEndian(f.value, 8));
      LittleEndianInjective(e.value, f.value, 8);
    }
    forall e: Entry<Bond>, f: Entry<Bond> | BondLeaf(e) == BondLeaf(f)
      ensures e == f
    {
      BondLeafInjective(e, f);
    }
  }

  lemma BondLeafInjective(e: Entry<Bond>, f: Entry<Bond>)
    requires BondLeaf(e) == BondLeaf(f)
    ensures e == f
  {
    PowValues();
    var a, b, c := LittleEndian(e.value.amount, 8), LittleEndian(e.value.createdAt, 8), LittleEndian(e.value.lockUntil, 8);
    var a', b', c' := LittleEndian(f.value.amount, 8), LittleEndian(f.value.createdAt, 8), LittleEndian(f.value.lockUntil, 8);
    SplitConcat(e.id, a + (b + c), f.id, a' + (b' + c'));
    SplitConcat(a, b + c, a', b' + c');
    SplitConcat(b, c, b', c');
    LittleEndianInjective(e.value.amount, f.value.amount, 8);
    LittleEndianInjective(e.value.createdAt, f.value.createdAt, 8);
    LittleEndianInjective(e.value.lockUntil, f.value.lockUntil, 8);
  }

  // ---- Roots determine maps ----

  // The root over some sorted listing of m hashes the strings in `hashed`.
  ghost predicate RootOver<V(!new)>(sha: Hasher, leaf: Entry<V> -> seq<byte>, m: map<MinerId, V>,
                              root: Hash32, hashed: set<seq<byte>>)
  {
    exists v :: Lists(v, m)
      && root == EntriesRoot(sha, LeafStrings(leaf, v))
      && hashed == Hashed(sha, LeafStrings(leaf, v))
  }

  lemma RootDeterminesMap<V(!new)>(sha: Hasher, leaf: Entry<V> -> seq<byte>, m: map<MinerId, V>, n: map<MinerId, V>,
                             root: Hash32, hashedM: set<seq<byte>>, hashedN: set<seq<byte>>)
    requires GoodLeaf(leaf)
    requires RootOver(sha, leaf, m, root, hashedM) && RootOver(sha, leaf, n, root, hashedN)
    requires CollisionFree(sha, hashedM + hashedN) && NeverZero(sha, hashedM + hashedN)
    ensures m == n
  {
    var v :| Lists(v, m) && root == EntriesRoot(sha, LeafStrings(leaf, v)) && hashedM == Hashed(sha, LeafStrings(leaf, v));
    var w :| Lists(w, n) && root == EntriesRoot(sha, LeafStrings(leaf, w)) && hashedN == Hashed(sha, LeafStrings(leaf, w));
    DistinctLeaves(leaf, v);
    DistinctLeaves(leaf, w);
    Binding(sha, LeafStrings(leaf, v), LeafStrings(leaf, w));
    SameLeaves(leaf, v, w);
    ListedMap(v, m, n);
  }

  lemma DistinctLeaves<V(!new)>(leaf: Entry<V> -> seq<byte>, v: seq<Entry<V>>)
    requires GoodLeaf(leaf) && StrictlySorted(v)
    ensures Distinct(LeafStrings(leaf, v))
  {
    forall i, j | 0 <= i < j < |v|
      ensures leaf(v[i]) != leaf(v[j])
    {
      LexIrreflexive(v[i].id);
    }
  }

  lemma SameLeaves<V(!new)>(leaf: Entry<V> -> seq<byte>, v: seq<Entry<V>>, w: seq<Entry<V>>)
    requires GoodLeaf(leaf) && LeafStrings(leaf, v) == LeafStrings(leaf, w)
    ensures v == w
  {
    assert |v| == |w|;
    forall i | 0 <= i < |v|
      ensures v[i] == w[i]
    {
      assert LeafStrings(leaf, v)[i] == LeafStrings(leaf, w)[i];
    }
  }

  // The root depends on the map alone.
  lemma RootUnique<V(!new)>(sha: Hasher, leaf: Entry<V> -> seq<byte>, m: map<MinerId, V>,
                      root: Hash32, root': Hash32, hashed: set<seq<byte>>, hashed': set<seq<byte>>)
    requires RootOver(sha, leaf, m, root, hashed) && RootOver(sha, leaf, m, root', hashed')
    ensures root == root' && hashed == hashed'
  {
    var v :| Lists(v, m) && root == EntriesRoot(sha, LeafStrings(leaf, v)) && hashed == Hashed(sha, LeafStrings(leaf, v));
    var w :| Lists(w, m) && root' == EntriesRoot(sha, LeafStrings(leaf, w)) && hashed' == Hashed(sha, LeafStrings(leaf, w));
    ListingUnique(v, w, m);
  }

  // ---- Building a commit ----

  function Total(v: seq<Entry<u64>>): nat {
    if v == [] then 0 else Total(v[..|v| - 1]) + v[|v| - 1].value
  }

  // c is the commit of the three maps; its roots hash the strings in s, b and l.
  ghost predicate Commits(sha: Hasher, c: EpochCommit, shares: map<MinerId, u64>, bonds: map<MinerId, Bond>,
                          loyalty: map<MinerId, u64>, s: set<seq<byte>>, b: set<seq<byte>>, l: set<seq<byte>>)
  {
    && RootOver(sha, CountLeaf, shares, c.sharesRoot, s)
    && RootOver(sha, BondLeaf, bonds, c.bondsRoot, b)
    && RootOver(sha, CountLeaf, loyalty, c.loyaltyRoot, l)
    && (exists v :: Lists(v, shares) && c.totalShares == Total(v) % U64_LIMIT && c.minersCount == |v| % U32_LIMIT)
  }

  method MerkleOver<V>(sha: Hasher, leaf: Entry<V> -> seq<byte>, v: seq<Entry<V>>) returns (root: Hash32)
    ensures root == EntriesRoot(sha, LeafStrings(leaf, v))
  {
    root := RootFromLeaves(sha, Leaves(sha, LeafStrings(leaf, v)));
  }

  method SumShares(v: seq<Entry<u64>>) returns (total: u64)
    ensures total == Total(v) % U64_LIMIT
  {
    total := 0;
    for i := 0 to |v|
      invariant total == Total(v[..i]) % U64_LIMIT
    {
      assert v[..i + 1][..i] == v[..i];
      total := (total + v[i].value) % U64_LIMIT;
    }
    assert v[..|v|] == v;
  }

  method Build(sha: Hasher, epoch: u32, blockHeight: u64, previousCommit: Hash32,
               shares: map<MinerId, u64>, bonds: map<MinerId, Bond>, loyalty: map<MinerId, u64>)
    returns (c: EpochCommit)
    ensures c.epoch == epoch && c.blockHeight == blockHeight && c.previousCommit == previousCommit
    ensures exists s, b, l :: Commits(sha, c, shares, bonds, loyalty, s, b, l)
  {
    var shareEntries := CollectSorted(shares);
    var bondEntries := CollectSorted(bonds);
    var loyaltyEntries := CollectSorted(loyalty);
    var sharesRoot := MerkleOver(sha, CountLeaf, shareEntries);
    var bondsRoot := MerkleOver(sha, BondLeaf, bondEntries);
    var loyaltyRoot := MerkleOver(sha, CountLeaf, loyaltyEntries);
    var total := SumShares(shareEntries);
    c := EpochCommit(epoch, blockHeight, sharesRoot, bondsRoot, loyaltyRoot,
                     total, |shareEntries| % U32_LIMIT, previousCommit);
    CommitsFrom(sha, c, shares, bonds, loyalty, shareEntries, bondEntries, loyaltyEntries);
  }

  lemma CommitsFrom(sha: Hasher, c: EpochCommit, shares: map<MinerId, u64>, bonds: map<MinerId, Bond>,
                    loyalty: map<MinerId, u64>, s: seq<Entry<u64>>, b: seq<Entry<Bond>>, l: seq<Entry<u64>>)
    requires Lists(s, shares) && Lists(b, bonds) && Lists(l, loyalty)
    requires c.sharesRoot == EntriesRoot(sha, LeafStrings(CountLeaf, s))
    requires c.bondsRoot == EntriesRoot(sha, LeafStrings(BondLeaf, b))
    requires c.loyaltyRoot == EntriesRoot(sha, LeafStrings(CountLeaf, l))
    requires c.totalShares == Total(s) % U64_LIMIT && c.minersCount == |s| % U32_LIMIT
    ensures exists s, b, l :: Commits(sha, c, shares, bonds, loyalty, s, b, l)
  {
    assert Commits(sha, c, shares, bonds, loyalty,
                   Hashed(sha, LeafStrings(CountLeaf, s)),
                   Hashed(sha, LeafStrings(BondLeaf, b)),
                   Hashed(sha, LeafStrings(CountLeaf, l)));
  }

  // Two nodes with equal maps build equal commits, in whatever order their maps iterate.
  lemma BuildDeterministic(sha: Hasher, c: EpochCommit, c': EpochCommit,
                           shares: map<MinerId, u64>, bonds: map<MinerId, Bond>, loyalty: map<MinerId, u64>,
                           s: set<seq<byte>>, b: set<seq<byte>>, l: set<seq<byte>>,
                           s': set<seq<byte>>, b': set<seq<byte>>, l': set<seq<byte>>)
    requires Commits(sha, c, shares, bonds, loyalty, s, b, l)
    requires Commits(sha, c', shares, bonds, loyalty, s', b', l')
    requires c.epoch == c'.epoch && c.blockHeight == c'.blockHeight && c.previousCommit == c'.previousCommit
    ensures c == c' && s == s' && b == b' && l == l'
  {
    RootUnique(sha, CountLeaf, shares, c.sharesRoot, c'.sharesRoot, s, s');
    RootUnique(sha, BondLeaf, bonds, c.bondsRoot, c'.bondsRoot, b, b');
    RootUnique(sha, CountLeaf, loyalty, c.loyaltyRoot, c'.loyaltyRoot, l, l');
    var v :| Lists(v, shares) && c.totalShares == Total(v) % U64_LIMIT && c.minersCount == |v| % U32_LIMIT;
    var w :| Lists(w, shares) && c'.totalShares == Total(w) % U64_LIMIT && c'.minersCount == |w| % U32_LIMIT;
    ListingUnique(v, w, shares);
  }

  // The commit of one miner: each root is the hash of that miner's entry in its own map, the
  // total is the miner's share count and the number of miners one.
  lemma OneMinerCommit(sha: Hasher, c: EpochCommit, id: MinerId, shares: u64, bond: Bond, loyalty: u64,
                       s: set<seq<byte>>, b: set<seq<byte>>, l: set<seq<byte>>)
    requires Commits(sha, c, map[id := shares], map[id := bond], map[id := loyalty], s, b, l)
    ensures c.sharesRoot == sha(CountLeaf(Entry(id, shares))) && c.bondsRoot == sha(BondLeaf(Entry(id, bond)))
    ensures c.loyaltyRoot == sha(CountLeaf(Entry(id, loyalty))) && c.totalShares == shares && c.minersCount == 1
  {
    OneEntryRoot(sha, CountLeaf, id, shares, c.sharesRoot, s);
    OneEntryRoot(sha, BondLeaf, id, bond, c.bondsRoot, b);
    OneEntryRoot(sha, CountLeaf, id, loyalty, c.loyaltyRoot, l);
    OneMinerTotals(map[id := shares], c.totalShares, c.minersCount, id);
  }

  lemma OneMinerTotals(m: map<MinerId, u64>, total: u64, count: u32, id: MinerId)
    requires m.Keys == {id} && exists v :: Lists(v, m) && total == Total(v) % U64_LIMIT && count == |v| % U32_LIMIT
    ensures total == m[id] && count == 1
  {
    var v :| Lists(v, m) && total == Total(v) % U64_LIMIT && count == |v| % U32_LIMIT;
    OneEntry(v, m, id);
    OneTotal(id, m[id]);
  }

  lemma OneTotal(id: MinerId, value: u64)
    ensures Total([Entry(id, value)]) % U64_LIMIT == value
  {
    assert [Entry(id, value)][..0] == [];
    DivUnique(value, U64_LIMIT, 0, value);
  }

  lemma OneEntry<V>(v: seq<Entry<V>>, m: map<MinerId, V>, id: MinerId)
    requires Lists(v, m) && m.Keys == {id}
    ensures v == [Entry(id, m[id])]
  {
    var w := [Entry(id, m[id])];
    assert id in m && w[0] == Entry(id, m[id]);
    ListingUnique(v, w, m);
  }

  lemma OneEntryRoot<V(!new)>(sha: Hasher, leaf: Entry<V> -> seq<byte>, id: MinerId, value: V, root: Hash32, hashed: set<seq<byte>>)
    requires RootOver(sha, leaf, map[id := value], root, hashed)
    ensures root == sha(leaf(Entry(id, value)))
  {
    var m := map[id := value];
    var v :| Lists(v, m) && root == EntriesRoot(sha, LeafStrings(leaf, v)) && hashed == Hashed(sha, LeafStrings(leaf, v));
    OneEntry(v, m, id);
    assert LeafStrings(leaf, v) == [leaf(Entry(id, value))];
  }

  // ---- The commit hash ----

  // "ACCUM-EPOCH-COMMIT-v1"
  const COMMIT_TAG: seq<byte> :=
    [65, 67, 67, 85, 77, 45, 69, 80, 79, 67, 72, 45, 67, 79, 77, 77, 73, 84, 45, 118, 49]

  function CommitPreimage(c: EpochCommit): seq<byte> {
    COMMIT_TAG + (LittleEndian(c.epoch, 4) + (LittleEndian(c.blockHeight, 8)
      + (Raw(c.sharesRoot) + (Raw(c.bondsRoot) + (Raw(c.loyaltyRoot)
      + (LittleEndian(c.totalShares, 8) + (LittleEndian(c.minersCount, 4) + Raw(c.previousCommit))))))))
  }

  function CommitHash(sha: Hasher, c: EpochCommit): Hash32 { sha(CommitPreimage(c)) }

  lemma CommitPreimageInjective(c: EpochCommit, d: EpochCommit)
    requires CommitPreimage(c) == CommitPreimage(d)
    ensures c == d
  {
    PowValues();
    var c8, d8 := LittleEndian(c.minersCount, 4) + Raw(c.previousCommit), LittleEndian(d.minersCount, 4) + Raw(d.previousCommit);
    var c7, d7 := LittleEndian(c.totalShares, 8) + c8, LittleEndian(d.totalShares, 8) + d8;
    var c6, d6 := Raw(c.loyaltyRoot) + c7, Raw(d.loyaltyRoot) + d7;
    var c5, d5 := Raw(c.bondsRoot) + c6, Raw(d.bondsRoot) + d6;
    var c4, d4 := Raw(c.sharesRoot) + c5, Raw(d.sharesRoot) + d5;
    var c3, d3 := LittleEndian(c.blockHeight, 8) + c4, LittleEndian(d.blockHeight, 8) + d4;
    var c2, d2 := LittleEndian(c.epoch, 4) + c3, LittleEndian(d.epoch, 4) + d3;
    SplitConcat(COMMIT_TAG, c2, COMMIT_TAG, d2);
    SplitConcat(LittleEndian(c.epoch, 4), c3, LittleEndian(d.epoch, 4), d3);
    SplitConcat(LittleEndian(c.blockHeight, 8), c4, LittleEndian(d.blockHeight, 8), d4);
    SplitConcat(c.sharesRoot, c5, d.sharesRoot, d5);
    SplitConcat(c.bondsRoot, c6, d.bondsRoot, d6);
    SplitConcat(c.loyaltyRoot, c7, d.loyaltyRoot, d7);
    SplitConcat(LittleEndian(c.totalShares, 8), c8, LittleEndian(d.totalShares, 8), d8);
    SplitConcat(LittleEndian(c.minersCount, 4), c.previousCommit, LittleEndian(d.minersCount, 4), d.previousCommit);
    LittleEndianInjective(c.epoch, d.epoch, 4);
    LittleEndianInjective(c.blockHeight, d.blockHeight, 8);
    LittleEndianInjective(c.totalShares, d.totalShares, 8);
    LittleEndianInjective(c.minersCount, d.minersCount, 4);
  }

  // One hash commits to all three inputs of the reward formula.
  lemma CommitHashBinds(sha: Hasher, c: EpochCommit, d: EpochCommit,
                        shares: map<MinerId, u64>, bonds: map<MinerId, Bond>, loyalty: map<MinerId, u64>,
                        shares': map<MinerId, u64>, bonds': map<MinerId, Bond>, loyalty': map<MinerId, u64>,
                        s: set<seq<byte>>, b: set<seq<byte>>, l: set<seq<byte>>,
                        s': set<seq<byte>>, b': set<seq<byte>>, l': set<seq<byte>>)
    requires Commits(sha, c, shares, bonds, loyalty, s, b, l)
    requires Commits(sha, d, shares', bonds', loyalty', s', b', l')
    requires CommitHash(sha, c) == CommitHash(sha, d)
    requires CollisionFree(sha, {CommitPreimage(c), CommitPreimage(d)})
    requires CollisionFree(sha, s + s') && CollisionFree(sha, b + b') && CollisionFree(sha, l + l')
    requires NeverZero(sha, s + s') && NeverZero(sha, b + b') && NeverZero(sha, l + l')
    ensures c == d && shares == shares' && bonds == bonds' && loyalty == loyalty'
  {
    Injective(sha, {CommitPreimage(c), CommitPreimage(d)}, CommitPreimage(c), CommitPreimage(d));
    CommitPreimageInjective(c, d);
    LeavesAreGood();
    RootDeterminesMap(sha, CountLeaf, shares, shares', c.sharesRoot, s, s');
    RootDeterminesMap(sha, BondLeaf, bonds, bonds', c.bondsRoot, b, b');
    RootDeterminesMap(sha, CountLeaf, loyalty, loyalty', c.loyaltyRoot, l, l');
  }
}
