// Fetching archived shares from a peer: paginated replies, merging and the request loop.

module ShareSync {
  import opened Blocks
  import opened Bytes
  import opened Merkle
  import opened Packets
  import opened Permutations
  import opened SharePools
  import opened SortedKeys
  import opened StableSort
  import opened Targets
  import opened Transactions
  import opened Wrappers

  const MAX_SHARES_PER_REPLY: nat := 500

  // ---- Local validation ----

  // The cheap test compares the first eight bytes only.
  predicate PrefilterPasses(c: Crypto, headerBytes: seq<byte>, nonce: u64, target: Target) {
    var h := c.sha(headerBytes + LittleEndian(nonce, 8));
    !LexLess(target[..8], h[..8])
  }

  function EasedTo(t: Target, ratio: nat): Target { Saturated(Num(t) * ratio) }

  // The prefilter target is taken of the share target, so the share ratio enters it twice.
  function PeerPrefilter(difficulty: Target): Target {
    EasedTo(EasedTo(EasedTo(difficulty, SHARE_DIFFICULTY_RATIO), SHARE_DIFFICULTY_RATIO), SHARE_PREFILTER_RATIO)
  }

  predicate ValidPacket(c: Crypto, difficulty: Target, epoch: u32, p: Packet) {
    var shareTarget := EasedTo(difficulty, SHARE_DIFFICULTY_RATIO);
    && p.header.epochIndex == epoch
    && PrefilterPasses(c, HeaderBytes(p.header), p.nonce, PeerPrefilter(difficulty))
    && HeaderHash(c, p.header.(nonce := p.nonce)) == p.hash
    && Num(p.hash) <= Num(shareTarget)
  }

  // ---- Answering a request ----

  function OfMiner(ps: seq<Packet>, miner: MinerId): seq<Packet> {
    if ps == [] then []
    else OfMiner(ps[..|ps| - 1], miner) + if ps[|ps| - 1].miner == miner then [ps[|ps| - 1]] else []
  }

  // The places of that miner's packets.
  function PlacesOf(ps: seq<Packet>, miner: MinerId): seq<nat> {
    if ps == [] then []
    else PlacesOf(ps[..|ps| - 1], miner) + if ps[|ps| - 1].miner == miner then [|ps| - 1] else []
  }

  ghost predicate Rising(at: seq<nat>) { forall i, j :: 0 <= i < j < |at| ==> at[i] < at[j] }

  ghost predicate OnlyOf(ps: seq<Packet>, miner: MinerId, at: seq<nat>) {
    forall i :: 0 <= i < |at| ==> at[i] < |ps| && ps[at[i]].miner == miner
  }

  ghost predicate Found(ps: seq<Packet>, miner: MinerId, at: seq<nat>, j: nat)
    requires j < |ps|
  {
    ps[j].miner == miner ==> j in at
  }

  ghost predicate Places(ps: seq<Packet>, miner: MinerId, at: seq<nat>) {
    Rising(at) && OnlyOf(ps, miner, at) && forall j :: 0 <= j < |ps| ==> Found(ps, miner, at, j)
  }

  ghost predicate At(r: seq<Packet>, ps: seq<Packet>, at: seq<nat>) {
    |r| == |at| && forall i :: 0 <= i < |at| ==> at[i] < |ps| && r[i] == ps[at[i]]
  }

  lemma PlacesSnoc(ps: seq<Packet>, p: Packet, miner: MinerId, at: seq<nat>)
    requires Places(ps, miner, at)
    ensures Places(ps + [p], miner, if p.miner == miner then at + [|ps|] else at)
  {
    var more := if p.miner == miner then at + [|ps|] else at;
    forall j | 0 <= j < |ps + [p]|
      ensures Found(ps + [p], miner, more, j)
    {
      if j < |ps| {
        assert Found(ps, miner, at, j);
      }
    }
  }

  lemma AtSnoc(r: seq<Packet>, ps: seq<Packet>, p: Packet, at: seq<nat>)
    requires At(r, ps, at)
    ensures At(r, ps + [p], at) && At(r + [p], ps + [p], at + [|ps|])
  {}

  // Filtered are exactly the packets at the places of that miner, in the order of the archive.
  lemma {:induction false} OfMinerInOrder(ps: seq<Packet>, miner: MinerId)
    ensures Places(ps, miner, PlacesOf(ps, miner)) && At(OfMiner(ps, miner), ps, PlacesOf(ps, miner))
  {
    if ps != [] {
      var n := |ps| - 1;
      OfMinerInOrder(ps[..n], miner);
      assert ps == ps[..n] + [ps[n]];
      PlacesSnoc(ps[..n], ps[n], miner, PlacesOf(ps[..n], miner));
      AtSnoc(OfMiner(ps[..n], miner), ps[..n], ps[n], PlacesOf(ps[..n], miner));
    }
  }

  function Slice(ps: seq<Packet>, offset: nat, max: nat): seq<Packet> {
    if offset < |ps| then ps[offset..Min(offset + Min(max, MAX_SHARES_PER_REPLY), |ps|)] else []
  }

  // A page is the packets from the offset on: as many as there are, as asked for and as a
  // reply carries.
  lemma PageExactly(ps: seq<Packet>, offset: nat, max: nat)
    ensures |Slice(ps, offset, max)| == Max(0, Min(Min(max, 500), |ps| - offset))
    ensures forall i :: 0 <= i < |Slice(ps, offset, max)| ==> Slice(ps, offset, max)[i] == ps[offset + i]
  {}

  method HandleGetShares(archive: map<nat, seq<Packet>>, epoch: u32, offset: u32, maxCount: u32, miner: Option<MinerId>)
    returns (shares: seq<Packet>, total: u32)
    ensures epoch !in archive ==> shares == [] && total == 0
    ensures epoch in archive ==>
      var all := if miner.Some? then OfMiner(archive[epoch], miner.value) else archive[epoch];
      shares == Slice(all, offset, maxCount) && total == |all| % U32_LIMIT
  {
    if epoch !in archive {
      return [], 0;
    }
    var filtered := archive[epoch];
    if miner.Some? {
      filtered := FilterMiner(archive[epoch], miner.value);
    }
    var start, end := offset, Min(offset + Min(maxCount, MAX_SHARES_PER_REPLY), |filtered|);
    shares := if start < |filtered| then filtered[start..end] else [];
    total := |filtered| % U32_LIMIT;
  }

  method FilterMiner(ps: seq<Packet>, miner: MinerId) returns (r: seq<Packet>)
    ensures r == OfMiner(ps, miner)
  {
    r := [];
    for i := 0 to |ps|
      invariant r == OfMiner(ps[..i], miner)
    {
      assert ps[..i + 1][..i] == ps[..i];
      if ps[i].miner == miner {
        r := r + [ps[i]];
      }
    }
    assert ps[..|ps|] == ps;
  }

  // ---- Merging a reply ----

  // Returns the offset of the next request, when one is sent.
  method HandleShareReply(pool: SharePool, valid: Validator, epoch: u32, batch: seq<Packet>, totalAvailable: u32)
    returns (next: Option<u32>)
    modifies pool`archive, pool`epochRoots
    ensures pool.Abs() == MergedInto(pool.sha, old(pool.Abs()), valid, epoch, batch)
    ensures var have := |pool.archive[epoch]| % U32_LIMIT;
      next == if have < totalAvailable then Some(have) else None
  {
    var accepted := AcceptValid(valid, batch);
    var ours := Extend(Present(pool.archive, epoch), accepted);
    ours := Sort(Before, ours);
    var newRoot := ComputeSharesRoot(pool.sha, ours);
    var have := |ours| % U32_LIMIT;
    pool.archive := pool.archive[epoch := ours];
    pool.epochRoots := pool.epochRoots[epoch := newRoot];
    next := if have < totalAvailable then Some(have) else None;
  }

  method AcceptValid(valid: Validator, ps: seq<Packet>) returns (r: seq<Packet>)
    ensures r == Accepted(valid, ps)
  {
    r := [];
    for i := 0 to |ps|
      invariant r == Accepted(valid, ps[..i])
    {
      assert ps[..i + 1][..i] == ps[..i];
      if valid(ps[i]) {
        r := r + [ps[i]];
      }
    }
    assert ps[..|ps|] == ps;
  }

  method Extend(ours: seq<Packet>, ps: seq<Packet>) returns (r: seq<Packet>)
    ensures r == Extended(ours, ps)
  {
    r := ours;
    for i := 0 to |ps|
      invariant r == Extended(ours, ps[..i])
    {
      assert ps[..i + 1][..i] == ps[..i];
      if !Holds(r, ps[i]) {
        r := r + [ps[i]];
      }
    }
    assert ps[..|ps|] == ps;
  }

  // ---- A merge is a join on keys ----

  function KeySet(ps: seq<Packet>): set<seq<byte>> { set i | 0 <= i < |ps| :: Key(ps[i]) }

  // Sorted with pairwise distinct keys.
  ghost predicate Clean(ps: seq<Packet>) { StrictlyAscending(Keys(ps)) }

  ghost predicate DistinctKeys(ps: seq<Packet>) { Distinct(Keys(ps)) }

  lemma {:induction false} HoldsIsKey(ps: seq<Packet>, p: Packet)
    ensures Holds(ps, p) <==> Key(p) in KeySet(ps)
  {
    forall i | 0 <= i < |ps|
      ensures Key(ps[i]) == Key(p) <==> ps[i].miner == p.miner && ps[i].hash == p.hash
    {
      KeyIdentifies(ps[i], p);
    }
  }

  lemma {:induction false} KeySetOfKeys(ps: seq<Packet>)
    ensures forall k :: k in KeySet(ps) <==> k in Keys(ps)
  {}

  lemma {:induction false} KeySetSnoc(ps: seq<Packet>, p: Packet)
    ensures KeySet(ps + [p]) == KeySet(ps) + {Key(p)}
  {
    assert forall i :: 0 <= i < |ps| ==> (ps + [p])[i] == ps[i];
    assert (ps + [p])[|ps|] == p;
  }

  lemma {:induction false} ExtendedKeys(ours: seq<Packet>, ps: seq<Packet>)
    requires DistinctKeys(ours)
    ensures DistinctKeys(Extended(ours, ps)) && KeySet(Extended(ours, ps)) == KeySet(ours) + KeySet(ps)
  {
    if ps == [] {
      assert KeySet(ps) == {};
    } else {
      var n := |ps| - 1;
      ExtendedKeys(ours, ps[..n]);
      var sofar := Extended(ours, ps[..n]);
      HoldsIsKey(sofar, ps[n]);
      KeySetSnoc(ps[..n], ps[n]);
      assert ps == ps[..n] + [ps[n]];
      KeySetSnoc(sofar, ps[n]);
      assert Keys(sofar + [ps[n]]) == Keys(sofar) + [Key(ps[n])];
    }
  }

  lemma {:induction false} CleanExactly(ps: seq<Packet>)
    ensures Clean(ps) <==> KeyOrdered(ps) && DistinctKeys(ps)
  {
    OrderOfKeys(ps);
    if Clean(ps) {
      StrictIsWeak(Keys(ps));
      forall i, j | 0 <= i < j < |ps|
        ensures Keys(ps)[i] != Keys(ps)[j]
      {
        LexIrreflexive(Keys(ps)[i]);
      }
    }
    if KeyOrdered(ps) && DistinctKeys(ps) {
      forall i, j | 0 <= i < j < |ps|
        ensures LexLess(Keys(ps)[i], Keys(ps)[j])
      {
        LexTotal(Keys(ps)[i], Keys(ps)[j]);
      }
    }
  }

  lemma {:induction false} CanonicalIsClean(ps: seq<Packet>)
    requires DistinctKeys(ps)
    ensures Clean(Canonical(ps)) && KeySet(Canonical(ps)) == KeySet(ps)
  {
    var s := Canonical(ps);
    CanonicalInOrder(ps);
    CanonicalKeepsKeys(ps);
    assert forall k :: k in Keys(s) <==> k in multiset(Keys(s));
    assert forall k :: k in Keys(ps) <==> k in multiset(Keys(ps));
    KeySetOfKeys(s);
    KeySetOfKeys(ps);
    DistinctByMultiset(Keys(ps), Keys(s));
    CleanExactly(s);
  }

  lemma {:induction false} DistinctByMultiset(ks: seq<seq<byte>>, ls: seq<seq<byte>>)
    requires Distinct(ks) && multiset(ks) == multiset(ls)
    ensures Distinct(ls)
  {
    forall i, j | 0 <= i < j < |ls|
      ensures ls[i] != ls[j]
    {
      if ls[i] == ls[j] {
        HeldTwice(ls, i, j);
        HeldOnce(ks, ls[i]);
      }
    }
  }

  lemma {:induction false} HeldTwice(ls: seq<seq<byte>>, i: nat, j: nat)
    requires i < j < |ls| && ls[i] == ls[j]
    ensures multiset(ls)[ls[i]] >= 2
  {
    assert ls == ls[..i] + [ls[i]] + ls[i + 1..j] + [ls[j]] + ls[j + 1..];
  }

  // What a merge leaves: a sorted archive with distinct keys, holding the keys it had and
  // those of the valid packets of the batch.
  lemma {:induction false} MergeIsUnion(valid: Validator, ours: seq<Packet>, batch: seq<Packet>)
    requires DistinctKeys(ours)
    ensures Clean(Merged(valid, ours, batch)) && DistinctKeys(Merged(valid, ours, batch))
    ensures KeySet(Merged(valid, ours, batch)) == KeySet(ours) + KeySet(Accepted(valid, batch))
  {
    ExtendedKeys(ours, Accepted(valid, batch));
    CanonicalIsClean(Extended(ours, Accepted(valid, batch)));
    CleanExactly(Merged(valid, ours, batch));
  }

  // The keys held determine key list, size and root.
  lemma {:induction false} KeysDetermineRoot(sha: Hasher, ps: seq<Packet>, qs: seq<Packet>)
    requires Clean(ps) && Clean(qs) && KeySet(ps) == KeySet(qs)
    ensures Keys(ps) == Keys(qs) && |ps| == |qs| && SharesRoot(sha, ps) == SharesRoot(sha, qs)
  {
    KeySetOfKeys(ps);
    KeySetOfKeys(qs);
    StrictUnique(Keys(ps), Keys(qs));
    assert |Keys(ps)| == |Keys(qs)|;
  }

  // And conversely: equal roots mean equal keys, even for archives of different sizes.
  lemma {:induction false} RootDeterminesKeys(sha: Hasher, ps: seq<Packet>, qs: seq<Packet>)
    requires Clean(ps) && Clean(qs) && SharesRoot(sha, ps) == SharesRoot(sha, qs)
    requires CollisionFree(sha, Hashed(sha, Keys(ps)) + Hashed(sha, Keys(qs)))
    requires NeverZero(sha, Hashed(sha, Keys(ps)) + Hashed(sha, Keys(qs)))
    ensures Keys(ps) == Keys(qs)
  {
    CleanExactly(ps);
    CleanExactly(qs);
    Binding(sha, Keys(ps), Keys(qs));
  }

  // Merging batches one after the other.
  function MergedAll(valid: Validator, ours: seq<Packet>, batches: seq<seq<Packet>>): seq<Packet> {
    if batches == [] then ours
    else Merged(valid, MergedAll(valid, ours, batches[..|batches| - 1]), batches[|batches| - 1])
  }

  function KeysOfAll(valid: Validator, batches: seq<seq<Packet>>): set<seq<byte>> {
    if batches == [] then {}
    else KeysOfAll(valid, batches[..|batches| - 1]) + KeySet(Accepted(valid, batches[|batches| - 1]))
  }

  lemma {:induction false} MergedAllIsUnion(valid: Validator, ours: seq<Packet>, batches: seq<seq<Packet>>)
    requires Clean(ours)
    ensures Clean(MergedAll(valid, ours, batches))
    ensures KeySet(MergedAll(valid, ours, batches)) == KeySet(ours) + KeysOfAll(valid, batches)
  {
    if batches != [] {
      var n := |batches| - 1;
      MergedAllIsUnion(valid, ours, batches[..n]);
      CleanExactly(MergedAll(valid, ours, batches[..n]));
      MergeIsUnion(valid, MergedAll(valid, ours, batches[..n]), batches[n]);
    }
  }

  // Any two ways of delivering the same valid keys, in any order and any batching, end in
  // the same keys and the same root. Commutativity, associativity and idempotence follow.
  lemma {:induction false} AnyBatching(sha: Hasher, valid: Validator, ours: seq<Packet>, bs: seq<seq<Packet>>, cs: seq<seq<Packet>>)
    requires Clean(ours) && KeysOfAll(valid, bs) == KeysOfAll(valid, cs)
    ensures var p, q := MergedAll(valid, ours, bs), MergedAll(valid, ours, cs);
      Keys(p) == Keys(q) && SharesRoot(sha, p) == SharesRoot(sha, q)
  {
    MergedAllIsUnion(valid, ours, bs);
    MergedAllIsUnion(valid, ours, cs);
    KeysDetermineRoot(sha, MergedAll(valid, ours, bs), MergedAll(valid, ours, cs));
  }

  lemma {:induction false} MergeLaws(sha: Hasher, valid: Validator, ours: seq<Packet>, b: seq<Packet>, d: seq<Packet>)
    requires Clean(ours)
    ensures Keys(Merged(valid, Merged(valid, ours, b), d)) == Keys(Merged(valid, Merged(valid, ours, d), b))
    ensures Keys(Merged(valid, Merged(valid, ours, b), d)) == Keys(Merged(valid, ours, b + d))
    ensures Keys(Merged(valid, Merged(valid, ours, b), b)) == Keys(Merged(valid, ours, b))
  {
    CleanExactly(ours);
    MergeIsUnion(valid, ours, b);
    MergeIsUnion(valid, ours, d);
    MergeIsUnion(valid, ours, b + d);
    MergeIsUnion(valid, Merged(valid, ours, b), d);
    MergeIsUnion(valid, Merged(valid, ours, d), b);
    MergeIsUnion(valid, Merged(valid, ours, b), b);
    AcceptedConcat(valid, b, d);
    KeySetConcat(Accepted(valid, b), Accepted(valid, d));
    KeysDetermineRoot(sha, Merged(valid, Merged(valid, ours, b), d), Merged(valid, Merged(valid, ours, d), b));
    KeysDetermineRoot(sha, Merged(valid, Merged(valid, ours, b), d), Merged(valid, ours, b + d));
    KeysDetermineRoot(sha, Merged(valid, Merged(valid, ours, b), b), Merged(valid, ours, b));
  }

  lemma {:induction false} AcceptedConcat(valid: Validator, b: seq<Packet>, d: seq<Packet>)
    ensures Accepted(valid, b + d) == Accepted(valid, b) + Accepted(valid, d)
    decreases |d|
  {
    if d == [] {
      assert b + d == b;
    } else {
      assert (b + d)[..|b + d| - 1] == b + d[..|d| - 1];
      AcceptedConcat(valid, b, d[..|d| - 1]);
    }
  }

  lemma {:induction false} KeySetConcat(ps: seq<Packet>, qs: seq<Packet>)
    ensures KeySet(ps + qs) == KeySet(ps) + KeySet(qs)
    decreases |qs|
  {
    if qs == [] {
      assert ps + qs == ps && KeySet(qs) == {};
    } else {
      var n := |qs| - 1;
      KeySetConcat(ps, qs[..n]);
      KeySetSnoc(ps + qs[..n], qs[n]);
      KeySetSnoc(qs[..n], qs[n]);
      assert ps + qs == ps + qs[..n] + [qs[n]] && qs == qs[..n] + [qs[n]];
    }
  }

  // ---- The request loop ----

  // What one request and its reply make of the packets held.
  function Exchange(valid: Validator, theirs: seq<Packet>): seq<Packet> -> seq<Packet> {
    (have: seq<Packet>) => Merged(valid, have, Slice(theirs, |have|, MAX_SHARES_PER_REPLY))
  }

  function Repeated(f: seq<Packet> -> seq<Packet>, k: nat): seq<Packet> {
    if k == 0 then [] else f(Repeated(f, k - 1))
  }

  // What the requester holds after k replies of a peer whose archive stays as it is.
  function Rounds(valid: Validator, theirs: seq<Packet>, k: nat): seq<Packet> {
    Repeated(Exchange(valid, theirs), k)
  }

  // No further request is sent after reply k.
  predicate Stops(valid: Validator, theirs: seq<Packet>, k: nat) {
    k >= 1 && |Rounds(valid, theirs, k)| >= |theirs|
  }

  ghost predicate AllValid(valid: Validator, ps: seq<Packet>) {
    forall i :: 0 <= i < |ps| ==> valid(ps[i])
  }

  lemma {:induction false} AcceptedSize(valid: Validator, ps: seq<Packet>)
    ensures |Accepted(valid, ps)| <= |ps|
    ensures |Accepted(valid, ps)| == |ps| <==> AllValid(valid, ps)
    ensures AllValid(valid, ps) ==> Accepted(valid, ps) == ps
  {
    if ps != [] {
      var n := |ps| - 1;
      AcceptedSize(valid, ps[..n]);
      AllValidSnoc(valid, ps);
      assert ps == ps[..n] + [ps[n]];
    }
  }

  lemma {:induction false} AllValidSnoc(valid: Validator, ps: seq<Packet>)
    requires ps != []
    ensures AllValid(valid, ps) <==> AllValid(valid, ps[..|ps| - 1]) && valid(ps[|ps| - 1])
  {
    var n := |ps| - 1;
    assert forall i :: 0 <= i < n ==> ps[..n][i] == ps[i];
    if AllValid(valid, ps[..n]) && valid(ps[n]) {
      forall i | 0 <= i < |ps|
        ensures valid(ps[i])
      {
        if i < n { assert valid(ps[..n][i]); }
      }
    }
  }

  lemma {:induction false} AcceptedOfPart(valid: Validator, ps: seq<Packet>, p: Packet)
    ensures p in Accepted(valid, ps) <==> p in ps && valid(p)
  {
    if ps != [] {
      var n := |ps| - 1;
      AcceptedOfPart(valid, ps[..n], p);
      assert ps == ps[..n] + [ps[n]];
    }
  }

  lemma {:induction false} KeySetSize(ps: seq<Packet>)
    ensures |KeySet(ps)| <= |ps|
    ensures |KeySet(ps)| == |ps| <==> DistinctKeys(ps)
  {
    if ps == [] {
      assert KeySet(ps) == {};
    } else {
      var n := |ps| - 1;
      KeySetSize(ps[..n]);
      KeySetSnoc(ps[..n], ps[n]);
      KeySetOfKeys(ps[..n]);
      assert ps == ps[..n] + [ps[n]];
      assert Keys(ps) == Keys(ps[..n]) + [Key(ps[n])];
      DistinctSnoc(Keys(ps[..n]), Key(ps[n]));
    }
  }

  lemma {:induction false} DistinctSnoc(ks: seq<seq<byte>>, k: seq<byte>)
    ensures Distinct(ks + [k]) <==> Distinct(ks) && k !in ks
  {
    var all := ks + [k];
    assert forall i :: 0 <= i < |ks| ==> all[i] == ks[i];
    if Distinct(all) {
      assert all[|ks|] == k;
    }
  }

  // Extending by packets with new keys appends them.
  lemma {:induction false} ExtendedByNew(ours: seq<Packet>, ps: seq<Packet>)
    requires DistinctKeys(ours + ps)
    ensures Extended(ours, ps) == ours + ps
    decreases |ps|
  {
    if ps == [] {
      assert ours + ps == ours;
    } else {
      var n := |ps| - 1;
      var before := ours + ps[..n];
      assert ours + ps == before + [ps[n]];
      assert Keys(ours + ps) == Keys(before) + [Key(ps[n])];
      DistinctSnoc(Keys(before), Key(ps[n]));
      ExtendedByNew(ours, ps[..n]);
      HoldsIsKey(before, ps[n]);
      KeySetOfKeys(before);
    }
  }

  lemma {:induction false} PrefixInOrder(ps: seq<Packet>, n: nat)
    requires n <= |ps| && Clean(ps)
    ensures KeyOrdered(ps[..n]) && DistinctKeys(ps[..n])
  {
    assert Keys(ps[..n]) == Keys(ps)[..n];
    CleanExactly(ps[..n]);
  }

  function NextMark(total: nat, m: nat): nat { Min(m + MAX_SHARES_PER_REPLY, total) }

  // How many packets have arrived after k full pages.
  function Reached(total: nat, k: nat): (m: nat)
    ensures m <= total
    ensures m == Min(500 * k, total)
  {
    if k == 0 then 0 else NextMark(total, Reached(total, k - 1))
  }

  lemma {:induction false} PagesAddUp(f: seq<Packet> -> seq<Packet>, theirs: seq<Packet>, k: nat)
    requires forall m :: 0 <= m <= |theirs| ==> f(theirs[..m]) == theirs[..NextMark(|theirs|, m)]
    ensures Repeated(f, k) == theirs[..Reached(|theirs|, k)]
    decreases k
  {
    if k > 0 {
      PagesAddUp(f, theirs, k - 1);
    }
  }

  // A clean archive of locally valid packets arrives in order, a full page at a time.
  lemma {:induction false} PagesArrive(valid: Validator, theirs: seq<Packet>, k: nat)
    requires Clean(theirs) && AllValid(valid, theirs)
    ensures Rounds(valid, theirs, k) == theirs[..Reached(|theirs|, k)]
  {
    forall m | 0 <= m <= |theirs|
      ensures Exchange(valid, theirs)(theirs[..m]) == theirs[..NextMark(|theirs|, m)]
    {
      NextPage(valid, theirs, m);
    }
    PagesAddUp(Exchange(valid, theirs), theirs, k);
  }

  lemma {:induction false} PageAppends(valid: Validator, theirs: seq<Packet>, m: nat, n: nat)
    requires m <= n <= |theirs| && Clean(theirs) && AllValid(valid, theirs)
    ensures Merged(valid, theirs[..m], theirs[m..n]) == theirs[..n]
  {
    PrefixInOrder(theirs, n);
    assert theirs[..m] + theirs[m..n] == theirs[..n];
    assert AllValid(valid, theirs[m..n]) by {
      assert forall i :: 0 <= i < n - m ==> theirs[m..n][i] == theirs[m + i];
    }
    NewPage(valid, theirs[..m], theirs[m..n]);
  }

  lemma {:induction false} NewPage(valid: Validator, have: seq<Packet>, page: seq<Packet>)
    requires KeyOrdered(have + page) && DistinctKeys(have + page) && AllValid(valid, page)
    ensures Merged(valid, have, page) == have + page
  {
    AcceptedSize(valid, page);
    ExtendedByNew(have, page);
    SortedOfInOrder(Before, have + page);
  }

  lemma {:induction false} PageKeys(valid: Validator, theirs: seq<Packet>, have: seq<Packet>)
    requires DistinctKeys(have) && KeySet(have) <= KeySet(Accepted(valid, theirs))
    ensures var next := Exchange(valid, theirs)(have);
      DistinctKeys(next) && KeySet(next) <= KeySet(Accepted(valid, theirs))
  {
    PartKeys(valid, theirs, have, Slice(theirs, |have|, MAX_SHARES_PER_REPLY));
  }

  lemma {:induction false} PartKeys(valid: Validator, theirs: seq<Packet>, have: seq<Packet>, part: seq<Packet>)
    requires DistinctKeys(have) && KeySet(have) <= KeySet(Accepted(valid, theirs))
    requires forall p :: p in part ==> p in theirs
    ensures DistinctKeys(Merged(valid, have, part)) && KeySet(Merged(valid, have, part)) <= KeySet(Accepted(valid, theirs))
  {
    MergeIsUnion(valid, have, part);
    AcceptedWithin(valid, part, theirs);
  }

  lemma {:induction false} AcceptedWithin(valid: Validator, part: seq<Packet>, all: seq<Packet>)
    requires forall p :: p in part ==> p in all
    ensures KeySet(Accepted(valid, part)) <= KeySet(Accepted(valid, all))
  {
    forall i | 0 <= i < |Accepted(valid, part)|
      ensures Key(Accepted(valid, part)[i]) in KeySet(Accepted(valid, all))
    {
      var p := Accepted(valid, part)[i];
      AcceptedOfPart(valid, part, p);
      AcceptedOfPart(valid, all, p);
      assert p in Accepted(valid, all);
    }
  }

  // Whatever the peer sends, only its valid keys arrive, each once.
  lemma {:induction false} OnlyValidKeys(valid: Validator, theirs: seq<Packet>, k: nat)
    ensures DistinctKeys(Rounds(valid, theirs, k))
    ensures KeySet(Rounds(valid, theirs, k)) <= KeySet(Accepted(valid, theirs))
    decreases k
  {
    if k > 0 {
      OnlyValidKeys(valid, theirs, k - 1);
      PageKeys(valid, theirs, Rounds(valid, theirs, k - 1));
    } else {
      assert KeySet([]) == {};
    }
  }

  // Starting with nothing, the loop ends exactly when the peer's archive has distinct keys
  // and every packet of it passes local validation; it then ends with the peer's archive.
  lemma {:induction false} SyncEndsExactly(valid: Validator, theirs: seq<Packet>)
    requires KeyOrdered(theirs)
    ensures (exists k :: Stops(valid, theirs, k)) <==> AllValid(valid, theirs) && DistinctKeys(theirs)
    ensures forall k :: Stops(valid, theirs, k) ==> Rounds(valid, theirs, k) == theirs
  {
    forall k
      ensures Stops(valid, theirs, k) ==> AllValid(valid, theirs) && DistinctKeys(theirs) && Rounds(valid, theirs, k) == theirs
    {
      if Stops(valid, theirs, k) {
        EndsWithAll(valid, theirs, k);
      }
    }
    if AllValid(valid, theirs) && DistinctKeys(theirs) {
      EnoughRounds(valid, theirs);
    }
  }

  lemma {:induction false} EndsWithAll(valid: Validator, theirs: seq<Packet>, k: nat)
    requires KeyOrdered(theirs) && Stops(valid, theirs, k)
    ensures AllValid(valid, theirs) && DistinctKeys(theirs) && Rounds(valid, theirs, k) == theirs
  {
    if AllValid(valid, theirs) && DistinctKeys(theirs) {
      CleanExactly(theirs);
      PagesArrive(valid, theirs, k);
    } else {
      FallsShort(valid, theirs, k);
    }
  }

  lemma {:induction false} EnoughRounds(valid: Validator, theirs: seq<Packet>)
    requires KeyOrdered(theirs) && AllValid(valid, theirs) && DistinctKeys(theirs)
    ensures Stops(valid, theirs, |theirs| + 1)
  {
    CleanExactly(theirs);
    PagesArrive(valid, theirs, |theirs| + 1);
  }

  lemma {:induction false} FallsShort(valid: Validator, theirs: seq<Packet>, k: nat)
    requires !(AllValid(valid, theirs) && DistinctKeys(theirs))
    ensures |Rounds(valid, theirs, k)| < |theirs|
  {
    OnlyValidKeys(valid, theirs, k);
    KeySetSize(Rounds(valid, theirs, k));
    KeySetSize(Accepted(valid, theirs));
    AcceptedSize(valid, theirs);
    SubsetSize(KeySet(Rounds(valid, theirs, k)), KeySet(Accepted(valid, theirs)));
  }

  lemma {:induction false} SubsetSize<T>(a: set<T>, b: set<T>)
    requires a <= b
    ensures |a| <= |b|
    decreases |a|
  {
    if a != {} {
      var x :| x in a;
      SubsetSize(a - {x}, b - {x});
    }
  }

  lemma SmallMod(n: nat)
    requires n < U32_LIMIT
    ensures n % U32_LIMIT == n
  {}

  // One request and its reply: the next page is in, and more is asked for exactly while
  // something is missing.
  method FetchPage(valid: Validator, pool: SharePool, epoch: u32, peer: map<nat, seq<Packet>>, have: u32) returns (next: Option<u32>)
    requires epoch in peer && have <= |peer[epoch]| < U32_LIMIT && Clean(peer[epoch]) && AllValid(valid, peer[epoch])
    requires Present(pool.archive, epoch) == peer[epoch][..have]
    modifies pool`archive, pool`epochRoots
    ensures var n := Min(have + MAX_SHARES_PER_REPLY, |peer[epoch]|);
      && pool.archive == old(pool.archive)[epoch := peer[epoch][..n]]
      && pool.epochRoots == old(pool.epochRoots)[epoch := SharesRoot(pool.sha, peer[epoch][..n])]
      && next == if n < |peer[epoch]| then Some(n) else None
  {
    var shares, total := HandleGetShares(peer, epoch, have, MAX_SHARES_PER_REPLY, None);
    ghost var merged := Merged(valid, Present(pool.archive, epoch), shares);
    assert merged == peer[epoch][..Min(have + MAX_SHARES_PER_REPLY, |peer[epoch]|)] by {
      NextPage(valid, peer[epoch], have);
    }
    SmallMod(|merged|);
    SmallMod(|peer[epoch]|);
    next := HandleShareReply(pool, valid, epoch, shares, total);
  }

  lemma {:induction false} NextPage(valid: Validator, theirs: seq<Packet>, have: nat)
    requires have <= |theirs| && Clean(theirs) && AllValid(valid, theirs)
    ensures var n := Min(have + MAX_SHARES_PER_REPLY, |theirs|);
      Merged(valid, theirs[..have], Slice(theirs, have, MAX_SHARES_PER_REPLY)) == theirs[..n]
  {
    var n := Min(have + MAX_SHARES_PER_REPLY, |theirs|);
    PageAppends(valid, theirs, have, n);
    assert Slice(theirs, have, MAX_SHARES_PER_REPLY) == theirs[have..n];
  }

  // The whole exchange against such a peer; what is missing shrinks with every reply.
  method FetchEpoch(valid: Validator, pool: SharePool, epoch: u32, peer: map<nat, seq<Packet>>)
    requires epoch !in pool.archive && epoch in peer && |peer[epoch]| < U32_LIMIT
    requires Clean(peer[epoch]) && AllValid(valid, peer[epoch])
    modifies pool`archive, pool`epochRoots
    ensures pool.archive == old(pool.archive)[epoch := peer[epoch]]
    ensures pool.epochRoots == old(pool.epochRoots)[epoch := SharesRoot(pool.sha, peer[epoch])]
  {
    ghost var theirs := peer[epoch];
    var next := FetchPage(valid, pool, epoch, peer, 0);
    ghost var m := Min(MAX_SHARES_PER_REPLY, |theirs|);
    while next.Some?
      invariant m <= |theirs| && next == if m < |theirs| then Some(m) else None
      invariant pool.archive == old(pool.archive)[epoch := theirs[..m]]
      invariant pool.epochRoots == old(pool.epochRoots)[epoch := SharesRoot(pool.sha, theirs[..m])]
      decreases |theirs| - m
    {
      next := FetchPage(valid, pool, epoch, peer, next.value);
      m := Min(m + MAX_SHARES_PER_REPLY, |theirs|);
    }
    assert theirs[..m] == theirs;
  }
}
