// Archived shares: their key, their canonical order and the root over them.

module Packets {
  import opened Blocks
  import opened Bytes
  import opened Merkle
  import opened SortedKeys
  import opened StableSort

  datatype Packet = Packet(miner: MinerId, header: Header, nonce: u64, hash: Hash32)

  // What identifies an archived share, as the 52 bytes its canonical hash is taken of.
  function Key(p: Packet): (k: seq<byte>)
    ensures |k| == 52
  {
    Raw(p.miner) + Raw(p.hash)
  }

  lemma KeyIdentifies(p: Packet, q: Packet)
    ensures Key(p) == Key(q) <==> p.miner == q.miner && p.hash == q.hash
  {
    if Key(p) == Key(q) {
      SplitConcat(p.miner, p.hash, q.miner, q.hash);
    }
  }

  // By miner, then by hash.
  predicate Before(p: Packet, q: Packet) {
    LexLess(p.miner, q.miner) || (p.miner == q.miner && LexLess(p.hash, q.hash))
  }

  lemma BeforeIsKeyOrder(p: Packet, q: Packet)
    ensures Before(p, q) <==> LexLess(Key(p), Key(q))
  {
    LexOfPairs(p.miner, p.hash, q.miner, q.hash);
  }

  function Keys(ps: seq<Packet>): (ks: seq<seq<byte>>)
    ensures |ks| == |ps| && forall i :: 0 <= i < |ps| ==> ks[i] == Key(ps[i])
  {
    seq(|ps|, i requires 0 <= i < |ps| => Key(ps[i]))
  }

  lemma KeysConcat(ps: seq<Packet>, qs: seq<Packet>)
    ensures Keys(ps + qs) == Keys(ps) + Keys(qs)
  {}

  function SharesRoot(sha: Hasher, ps: seq<Packet>): Hash32 { EntriesRoot(sha, Keys(ps)) }

  method ComputeSharesRoot(sha: Hasher, ps: seq<Packet>) returns (root: Hash32)
    ensures root == SharesRoot(sha, ps)
  {
    root := RootFromLeaves(sha, Leaves(sha, Keys(ps)));
  }

  // ---- Sorting ----

  function Canonical(ps: seq<Packet>): (s: seq<Packet>)
    ensures |s| == |ps|
  {
    Sorted(Before, ps)
  }

  ghost predicate KeyOrdered(ps: seq<Packet>) { InOrder(Before, ps) }

  lemma BeforeIsWeakOrder()
    ensures WeakOrder(Before)
  {
    forall p, q | Before(p, q)
      ensures !Before(q, p)
    {
      BeforeIsKeyOrder(p, q);
      BeforeIsKeyOrder(q, p);
      LexAsymmetric(Key(p), Key(q));
    }
    forall p, q, r | !Before(p, q) && !Before(q, r)
      ensures !Before(p, r)
    {
      NotBeforeTrans(p, q, r);
    }
  }

  // Not being before is transitive, the order being total on keys.
  lemma NotBeforeTrans(p: Packet, q: Packet, r: Packet)
    requires !Before(p, q) && !Before(q, r)
    ensures !Before(p, r)
  {
    BeforeIsKeyOrder(p, q);
    BeforeIsKeyOrder(q, r);
    BeforeIsKeyOrder(p, r);
    LexTotal(Key(p), Key(q));
    LexTotal(Key(q), Key(r));
    if LexLess(Key(p), Key(r)) && LexLess(Key(q), Key(p)) {
      LexTransitive(Key(q), Key(p), Key(r));
    }
  }

  lemma CanonicalInOrder(ps: seq<Packet>)
    ensures KeyOrdered(Canonical(ps))
  {
    BeforeIsWeakOrder();
    SortedInOrder(Before, ps);
  }

  lemma {:induction false} OrderOfKeys(ps: seq<Packet>)
    ensures KeyOrdered(ps) <==> Ascending(Keys(ps))
  {
    forall i, j | 0 <= i < j < |ps|
      ensures Before(ps[j], ps[i]) <==> LexLess(Keys(ps)[j], Keys(ps)[i])
    {
      BeforeIsKeyOrder(ps[j], ps[i]);
    }
  }

  // The root over a collection does not depend on the order it was collected in.
  lemma {:induction false} RootOfCollection(sha: Hasher, ps: seq<Packet>, qs: seq<Packet>)
    requires multiset(Keys(ps)) == multiset(Keys(qs))
    ensures Keys(Canonical(ps)) == Keys(Canonical(qs))
    ensures SharesRoot(sha, Canonical(ps)) == SharesRoot(sha, Canonical(qs))
  {
    CanonicalInOrder(ps);
    CanonicalInOrder(qs);
    OrderOfKeys(Canonical(ps));
    OrderOfKeys(Canonical(qs));
    CanonicalKeepsKeys(ps);
    CanonicalKeepsKeys(qs);
    AscendingUnique(Keys(Canonical(ps)), Keys(Canonical(qs)));
  }

  lemma {:induction false} CanonicalKeepsKeys(ps: seq<Packet>)
    ensures multiset(Keys(Canonical(ps))) == multiset(Keys(ps))
  {
    if ps != [] {
      var n := |ps| - 1;
      CanonicalKeepsKeys(ps[..n]);
      PlacedKeys(Canonical(ps[..n]), ps[n]);
      assert Keys(ps) == Keys(ps[..n]) + [Key(ps[n])];
    }
  }

  lemma {:induction false} PlacedKeys(s: seq<Packet>, p: Packet)
    ensures multiset(Keys(Placed(Before, s, p))) == multiset(Keys(s)) + multiset{Key(p)}
    decreases |s|
  {
    if s == [] || !Before(p, s[|s| - 1]) {
      assert Keys(s + [p]) == Keys(s) + [Key(p)];
    } else {
      var n := |s| - 1;
      PlacedKeys(s[..n], p);
      assert Keys(s) == Keys(s[..n]) + [Key(s[n])];
      assert Keys(Placed(Before, s, p)) == Keys(Placed(Before, s[..n], p)) + [Key(s[n])];
    }
  }

  // ---- Merging ----

  type Validator = Packet -> bool

  function Accepted(valid: Validator, ps: seq<Packet>): seq<Packet> {
    if ps == [] then []
    else Accepted(valid, ps[..|ps| - 1]) + if valid(ps[|ps| - 1]) then [ps[|ps| - 1]] else []
  }

  predicate Holds(ps: seq<Packet>, p: Packet) {
    exists i :: 0 <= i < |ps| && ps[i].miner == p.miner && ps[i].hash == p.hash
  }

  function Extended(ours: seq<Packet>, ps: seq<Packet>): seq<Packet> {
    if ps == [] then ours
    else
      var sofar, p := Extended(ours, ps[..|ps| - 1]), ps[|ps| - 1];
      if Holds(sofar, p) then sofar else sofar + [p]
  }

  function Merged(valid: Validator, ours: seq<Packet>, batch: seq<Packet>): seq<Packet> {
    Canonical(Extended(ours, Accepted(valid, batch)))
  }
}
