// A miner that commits its block against a peer, in the same state, that accepts it.

module Agreement {
  import opened Blocks
  import opened Bytes
  import opened Chains
  import opened Economies
  import opened Emission
  import opened EpochOrders
  import opened Mempools
  import opened NodeSpecs
  import opened NodeSupply
  import opened Poci
  import opened Transactions
  import opened Wrappers

  // ---- Counting the block reward ----

  // The commit counts the block reward before the epoch end, the acceptance does not. Both
  // then have the same effective reward exactly when the cap is already reached or leaves
  // room for the block reward and the whole epoch reward.
  lemma EffectiveRewardsAgreeExactly(height: nat, emitted: nat)
    ensures EffectiveReward(height, emitted + BLOCK_REWARD_LYT) == EffectiveReward(height, emitted)
       <==> emitted >= MAX_SUPPLY_LYT || emitted + BLOCK_REWARD_LYT + EpochReward(height) <= MAX_SUPPLY_LYT
  {}

  lemma CutsFollowRewards(a: nat, b: nat)
    requires a >= b + 15
    ensures TreasuryCut(a) > TreasuryCut(b)
  {
    DivModOf(a * 700, 10_000);
    DivModOf(b * 700, 10_000);
  }

  // ---- What two epoch ends pay ----

  // What the miner of a result gets, if anything.
  function Owed(c: Crypto, p: Payday, r: PociResult): Option<TxOut> {
    if r.reward == 0 then None else OutputTo(c, PayoutAddress(p, r.id), r.reward)
  }

  predicate OwedAlike(c: Crypto, p: Payday, q: Payday, r: seq<PociResult>, s: seq<PociResult>, i: nat)
    requires i < |r| == |s|
  {
    Owed(c, p, r[i]) == Owed(c, q, s[i])
  }

  // Two epoch ends owe the same: the treasury its cut, each miner its output. `p` and `q` may
  // know different payout addresses, `e` and `f` are the two counters.
  predicate Alike(c: Crypto, p: Payday, q: Payday, results: seq<PociResult>, e: nat, f: nat) {
    && (c.decodeAddress(TREASURY_ADDRESS).Some? ==>
          TreasuryCut(EffectiveReward(p.height, e)) == TreasuryCut(EffectiveReward(q.height, f)))
    && forall i :: 0 <= i < |results| ==> OwedAlike(c, p, q, FinalRewards(results, p.height, e), FinalRewards(results, q.height, f), i)
  }

  predicate Usable(c: Crypto, p: Payday, id: MinerId) {
    PayoutAddress(p, id).Some? && c.decodeAddress(PayoutAddress(p, id).value).Some?
  }

  // A miner known to both at one address is owed the same exactly when that address is of no
  // use or the rewards are equal.
  lemma OwedAlikeExactly(c: Crypto, p: Payday, r: PociResult, s: PociResult)
    requires r.id == s.id
    ensures Owed(c, p, r) == Owed(c, p, s) <==> (Usable(c, p, r.id) ==> r.reward == s.reward)
  {}

  // For one identity: the cuts agree, and so do the rewards of all miners with a usable address.
  lemma AlikeExactly(c: Crypto, p: Payday, results: seq<PociResult>, e: nat, f: nat)
    ensures Alike(c, p, p, results, e, f) <==>
      && (c.decodeAddress(TREASURY_ADDRESS).Some? ==>
            TreasuryCut(EffectiveReward(p.height, e)) == TreasuryCut(EffectiveReward(p.height, f)))
      && forall i :: 0 <= i < |results| && Usable(c, p, results[i].id) ==>
           FinalRewards(results, p.height, e)[i].reward == FinalRewards(results, p.height, f)[i].reward
  {
    SameIds(results, p.height, e);
    SameIds(results, p.height, f);
    var r, s := FinalRewards(results, p.height, e), FinalRewards(results, p.height, f);
    forall i | 0 <= i < |results|
      ensures OwedAlike(c, p, p, r, s, i) <==>
        (Usable(c, p, results[i].id) ==> r[i].reward == s[i].reward)
    {
      OwedAlikeExactly(c, p, r[i], s[i]);
    }
  }

  // The outpoints an epoch end pays to are new and differ from one another.
  ghost predicate PaymentsApart(c: Crypto, p: Payday, utxos: Utxos, results: seq<PociResult>) {
    && TreasuryOutpoint(c, p.epoch) !in utxos && OutpointsApart(c, p, results)
    && forall i :: 0 <= i < |results| ==> RewardApart(c, p, utxos, results[i].id)
  }

  predicate RewardApart(c: Crypto, p: Payday, utxos: Utxos, id: MinerId) {
    RewardOutpoint(c, p, id) !in utxos && RewardOutpoint(c, p, id) != TreasuryOutpoint(c, p.epoch)
  }

  lemma SameIds(results: seq<PociResult>, height: nat, e: nat)
    ensures forall i :: 0 <= i < |results| ==> FinalRewards(results, height, e)[i].id == results[i].id
  {}

  lemma TreasuryAfter(c: Crypto, p: Payday, utxos: Utxos, results: seq<PociResult>, e: u64)
    requires c.decodeAddress(TREASURY_ADDRESS).Some? && PaymentsApart(c, p, utxos, results)
    ensures var after, o, cut := UtxosAfterEpoch(c, p, utxos, results, e), TreasuryOutpoint(c, p.epoch), TreasuryCut(EffectiveReward(p.height, e));
      (o in after <==> cut > 0) && (o in after ==> after[o].value == cut)
  {
    var cut, r := TreasuryCut(EffectiveReward(p.height, e)), FinalRewards(results, p.height, e);
    SameIds(results, p.height, e);
    forall i | 0 <= i < |r|
      ensures !PaysAt(c, p, r[i], TreasuryOutpoint(c, p.epoch))
    {
      assert RewardApart(c, p, utxos, results[i].id);
    }
    Untouched(c, p, TreasuryPaid(c, p.epoch, utxos, cut), r, |r|, TreasuryOutpoint(c, p.epoch));
  }

  // The outpoint of miner i holds exactly what the miner is owed.
  lemma OwedAfter(c: Crypto, p: Payday, utxos: Utxos, results: seq<PociResult>, e: u64, i: nat)
    requires i < |results| && PaymentsApart(c, p, utxos, results)
    ensures var after, o := UtxosAfterEpoch(c, p, utxos, results, e), RewardOutpoint(c, p, results[i].id);
      var owed := Owed(c, p, FinalRewards(results, p.height, e)[i]);
      (o in after <==> owed.Some?) && (o in after ==> after[o] == owed.value)
  {
    var r := FinalRewards(results, p.height, e);
    SameIds(results, p.height, e);
    assert RewardApart(c, p, utxos, results[i].id);
    PaidOwed(c, p, TreasuryPaid(c, p.epoch, utxos, TreasuryCut(EffectiveReward(p.height, e))), r, i);
  }

  lemma PaidOwed(c: Crypto, p: Payday, utxos: Utxos, r: seq<PociResult>, i: nat)
    requires i < |r| && OutpointsApart(c, p, r) && RewardOutpoint(c, p, r[i].id) !in utxos
    ensures var after, o := Paid(c, p, utxos, r, |r|), RewardOutpoint(c, p, r[i].id);
      (o in after <==> Owed(c, p, r[i]).Some?) && (o in after ==> after[o] == Owed(c, p, r[i]).value)
  {
    var o := RewardOutpoint(c, p, r[i].id);
    if Owed(c, p, r[i]).Some? {
      PaidFor(c, p, utxos, r, |r|, i, o);
    } else {
      Untouched(c, p, utxos, r, |r|, o);
    }
  }

  lemma {:induction false} SamePaid(c: Crypto, p: Payday, q: Payday, utxos: Utxos, r: seq<PociResult>, s: seq<PociResult>, n: nat)
    requires p.height == q.height && p.epoch == q.epoch && n <= |r| == |s|
    requires forall i :: 0 <= i < n ==> r[i].id == s[i].id && OwedAlike(c, p, q, r, s, i)
    ensures Paid(c, p, utxos, r, n) == Paid(c, q, utxos, s, n)
    decreases n
  {
    if n > 0 {
      SamePaid(c, p, q, utxos, r, s, n - 1);
      assert OwedAlike(c, p, q, r, s, n - 1);
    }
  }

  // Both nodes end with the same outputs exactly when they owe the same.
  lemma OutputsAgreeExactly(c: Crypto, p: Payday, q: Payday, utxos: Utxos, results: seq<PociResult>, e: u64, f: u64)
    requires p.height == q.height && p.epoch == q.epoch && PaymentsApart(c, p, utxos, results)
    ensures UtxosAfterEpoch(c, p, utxos, results, e) == UtxosAfterEpoch(c, q, utxos, results, f) <==> Alike(c, p, q, results, e, f)
  {
    SameIds(results, p.height, e);
    SameIds(results, p.height, f);
    if Alike(c, p, q, results, e, f) {
      var r := FinalRewards(results, p.height, e);
      SamePaid(c, p, q, TreasuryPaid(c, p.epoch, utxos, TreasuryCut(EffectiveReward(p.height, e))), r, FinalRewards(results, p.height, f), |r|);
    }
    if UtxosAfterEpoch(c, p, utxos, results, e) == UtxosAfterEpoch(c, q, utxos, results, f) {
      OutputsTell(c, p, q, utxos, results, e, f);
    }
  }

  lemma ApartForBoth(c: Crypto, p: Payday, q: Payday, utxos: Utxos, results: seq<PociResult>)
    requires p.height == q.height && p.epoch == q.epoch && PaymentsApart(c, p, utxos, results)
    ensures PaymentsApart(c, q, utxos, results)
  {
    forall id: MinerId
      ensures RewardOutpoint(c, q, id) == RewardOutpoint(c, p, id)
    {}
    forall i | 0 <= i < |results|
      ensures RewardApart(c, q, utxos, results[i].id)
    {
      assert RewardApart(c, p, utxos, results[i].id);
    }
  }

  lemma OutputsTell(c: Crypto, p: Payday, q: Payday, utxos: Utxos, results: seq<PociResult>, e: u64, f: u64)
    requires p.height == q.height && p.epoch == q.epoch && PaymentsApart(c, p, utxos, results)
    requires UtxosAfterEpoch(c, p, utxos, results, e) == UtxosAfterEpoch(c, q, utxos, results, f)
    ensures Alike(c, p, q, results, e, f)
  {
    ApartForBoth(c, p, q, utxos, results);
    if c.decodeAddress(TREASURY_ADDRESS).Some? {
      TreasuryAfter(c, p, utxos, results, e);
      TreasuryAfter(c, q, utxos, results, f);
    }
    forall i | 0 <= i < |results|
      ensures OwedAlike(c, p, q, FinalRewards(results, p.height, e), FinalRewards(results, q.height, f), i)
    {
      OwedAfter(c, p, utxos, results, e, i);
      OwedAfter(c, q, utxos, results, f, i);
    }
  }

  // ---- One block, two nodes ----

  // A peer that differs from the miner in whom it pays itself as.
  function Peer(env: Env, who: Identity): Env { env.(who := who) }

  // Before an epoch may end, commit and acceptance differ in nothing but the counter.
  lemma SameBeforeEpoch(env: Env, n: Node, job: Job, nonce: u64, hash: Hash32)
    ensures var m, p := MinedOnto(env, n, job, nonce, hash), WithBlock(env, n, MinedBlock(env, job, nonce), hash);
      && m.chain == p.chain && m.econ == p.econ.(emitted := Min(n.econ.emitted + BLOCK_REWARD_LYT, U64_LIMIT - 1))
      && m.memo == p.memo && m.generation == p.generation
  {}

  lemma EpochKeepsChain(env: Env, call: Call, n: Node)
    ensures AfterEpoch(env, call, n).chain == n.chain
    ensures n.chain.height % EPOCH_BLOCKS != 0 ==> AfterEpoch(env, call, n) == n
    ensures n.chain.height % EPOCH_BLOCKS == 0 ==>
      AfterEpoch(env, call, n).econ == EpochClosed(env.c, env.who, n.econ, n.chain.height, call.slashed, call.order)
  {}

  // Chains agree always; outputs and bonds agree away from an epoch end, whoever the peer is.
  lemma CommitAgreesWithAccept(env: Env, who: Identity, call: Call, theirs: Call, n: Node, job: Job, nonce: u64)
    requires Accept(Peer(env, who), theirs, n, MinedBlock(env, job, nonce)).1.Ok?
    ensures var m := Committed(env, call, n, job, nonce, HeaderHash(env.c, job.header.(nonce := nonce)));
      var p := Accept(Peer(env, who), theirs, n, MinedBlock(env, job, nonce)).0;
      && m.chain == p.chain
      && ((n.chain.height + 1) % EPOCH_BLOCKS != 0 ==> m.econ.utxos == p.econ.utxos && m.econ.bonds == p.econ.bonds)
  {
    var b, hash := MinedBlock(env, job, nonce), HeaderHash(env.c, job.header.(nonce := nonce));
    AcceptForm(Peer(env, who), theirs, n, b);
    SameWithPeer(env, who, n, b, hash);
    SameBeforeEpoch(env, n, job, nonce, hash);
    EpochKeepsChain(env, call, MinedOnto(env, n, job, nonce, hash));
    EpochKeepsChain(Peer(env, who), theirs, WithBlock(env, n, b, hash));
  }

  lemma SameWithPeer(env: Env, who: Identity, n: Node, b: Block, hash: Hash32)
    ensures WithBlock(Peer(env, who), n, b, hash) == WithBlock(env, n, b, hash)
  {}

  // What the two pay out of at an epoch end.
  ghost function ResultsAt(env: Env, call: Call, n: Node): seq<PociResult> {
    ResultsOf(Slashed(n.econ, call.slashed), call.order)
  }

  ghost function PaydayAt(env: Env, call: Call, n: Node): Payday {
    PaydayOf(env.who, Slashed(n.econ, call.slashed), n.chain.height)
  }

  lemma EpochOutputs(env: Env, call: Call, n: Node)
    requires n.chain.height % EPOCH_BLOCKS == 0
    ensures AfterEpoch(env, call, n).econ.utxos
         == UtxosAfterEpoch(env.c, PaydayAt(env, call, n), n.econ.utxos, ResultsAt(env, call, n), n.econ.emitted)
    ensures Unrewarded(ResultsAt(env, call, n))
  {
    UnrewardedResults(Slashed(n.econ, call.slashed), call.order);
  }

  function WithReward(emitted: u64): u64 { Min(emitted + BLOCK_REWARD_LYT, U64_LIMIT - 1) }

  // The same node with the block reward counted.
  function Rewarded(n: Node): Node { n.(econ := n.econ.(emitted := WithReward(n.econ.emitted))) }

  // The payments of this epoch end go to new outpoints.
  ghost predicate ApartAt(env: Env, call: Call, n: Node) {
    PaymentsApart(env.c, PaydayAt(env, call, n), n.econ.utxos, ResultsAt(env, call, n))
  }

  // With the block reward counted and without it, this node and the peer owe the same.
  ghost predicate AlikeAt(env: Env, who: Identity, call: Call, n: Node) {
    Alike(env.c, PaydayAt(env, call, n), PaydayAt(Peer(env, who), call, n), ResultsAt(env, call, n), WithReward(n.econ.emitted), n.econ.emitted)
  }

  // At an epoch end a node that counted the block reward and a peer that did not, in the same
  // state otherwise, end with the same outputs exactly when they owe the same.
  lemma EpochEndAgreesExactly(env: Env, who: Identity, call: Call, n: Node)
    requires n.chain.height % EPOCH_BLOCKS == 0 && ApartAt(env, call, n)
    ensures AfterEpoch(env, call, Rewarded(n)).econ.utxos == AfterEpoch(Peer(env, who), call, n).econ.utxos <==> AlikeAt(env, who, call, n)
  {
    var m := Rewarded(n);
    EpochOutputs(env, call, m);
    EpochOutputs(Peer(env, who), call, n);
    SameToPay(env, call, m, n);
    OutputsAgreeExactly(env.c, PaydayAt(env, call, n), PaydayAt(Peer(env, who), call, n), n.econ.utxos, ResultsAt(env, call, n),
                        m.econ.emitted, n.econ.emitted);
  }

  lemma SameToPay(env: Env, call: Call, m: Node, n: Node)
    requires m.chain == n.chain && m.econ == n.econ.(emitted := m.econ.emitted)
    ensures PaydayAt(env, call, m) == PaydayAt(env, call, n) && ResultsAt(env, call, m) == ResultsAt(env, call, n)
  {}

  // The state both have before the epoch ends, up to the counter.
  function Joined(env: Env, n: Node, job: Job, nonce: u64): Node {
    WithBlock(env, n, MinedBlock(env, job, nonce), HeaderHash(env.c, job.header.(nonce := nonce)))
  }

  ghost predicate PeerTakes(env: Env, who: Identity, theirs: Call, n: Node, job: Job, nonce: u64) {
    Accept(Peer(env, who), theirs, n, MinedBlock(env, job, nonce)).1.Ok?
  }

  ghost function PeerOutputs(env: Env, who: Identity, theirs: Call, n: Node, job: Job, nonce: u64): Utxos {
    Accept(Peer(env, who), theirs, n, MinedBlock(env, job, nonce)).0.econ.utxos
  }

  ghost function MinerOutputs(env: Env, call: Call, n: Node, job: Job, nonce: u64): Utxos {
    Committed(env, call, n, job, nonce, HeaderHash(env.c, job.header.(nonce := nonce))).econ.utxos
  }

  // So the miner of a block that ends an epoch and a peer that takes it, whoever the peer pays
  // and in whatever order its miners iterate, part exactly when they do not owe the same.
  lemma MinerAgreesWithPeerExactly(env: Env, who: Identity, call: Call, theirs: Call, n: Node, job: Job, nonce: u64)
    requires (n.chain.height + 1) % EPOCH_BLOCKS == 0 && theirs.slashed == call.slashed
    requires PeerTakes(env, who, theirs, n, job, nonce) && Exchangeable(Peer(env, who), n, theirs, call.order)
    requires ApartAt(env, call, Joined(env, n, job, nonce))
    ensures MinerOutputs(env, call, n, job, nonce) == PeerOutputs(env, who, theirs, n, job, nonce)
       <==> AlikeAt(env, who, call, Joined(env, n, job, nonce))
  {
    PeerEnds(env, who, call, theirs, n, job, nonce);
    MinerEnds(env, call, n, job, nonce);
    JoinedHeight(env, n, job, nonce);
    EpochEndAgreesExactly(env, who, call, Joined(env, n, job, nonce));
  }

  lemma JoinedHeight(env: Env, n: Node, job: Job, nonce: u64)
    ensures Joined(env, n, job, nonce).chain.height == n.chain.height + 1
  {}

  lemma MinerEnds(env: Env, call: Call, n: Node, job: Job, nonce: u64)
    ensures MinerOutputs(env, call, n, job, nonce) == AfterEpoch(env, call, Rewarded(Joined(env, n, job, nonce))).econ.utxos
  {
    var hash := HeaderHash(env.c, job.header.(nonce := nonce));
    SameBeforeEpoch(env, n, job, nonce, hash);
    SameEnd(env, call, MinedOnto(env, n, job, nonce, hash), Rewarded(Joined(env, n, job, nonce)));
  }

  lemma SameEnd(env: Env, call: Call, m: Node, n: Node)
    requires m.chain == n.chain && m.econ == n.econ
    ensures AfterEpoch(env, call, m).econ == AfterEpoch(env, call, n).econ
  {}

  // What the peer holds once it took the block.
  lemma PeerEnds(env: Env, who: Identity, call: Call, theirs: Call, n: Node, job: Job, nonce: u64)
    requires theirs.slashed == call.slashed && Exchangeable(Peer(env, who), n, theirs, call.order)
    requires PeerTakes(env, who, theirs, n, job, nonce)
    ensures PeerOutputs(env, who, theirs, n, job, nonce) == AfterEpoch(Peer(env, who), call, Joined(env, n, job, nonce)).econ.utxos
  {
    var b, reordered := MinedBlock(env, job, nonce), theirs.(order := call.order);
    AcceptIgnoresOrder(Peer(env, who), theirs, n, b, call.order);
    AcceptForm(Peer(env, who), reordered, n, b);
    SameWithPeer(env, who, n, b, HeaderHash(env.c, b.header));
    CallMatters(Peer(env, who), call, reordered, Joined(env, n, job, nonce));
  }

  lemma CallMatters(env: Env, call: Call, theirs: Call, n: Node)
    requires call.slashed == theirs.slashed && call.order == theirs.order
    ensures AfterEpoch(env, call, n) == AfterEpoch(env, theirs, n)
  {}

  // ---- A disagreement ----

  // A thousand units below the cap the peer still emits them while the miner emits nothing.
  lemma NearCapRewards(height: nat)
    ensures var e := MAX_SUPPLY_LYT - 1000;
      EffectiveReward(height, e) == 1000 && EffectiveReward(height, e + BLOCK_REWARD_LYT) == 0
  {}

  lemma NearCapDisagrees(env: Env, who: Identity, call: Call, n: Node)
    requires n.chain.height % EPOCH_BLOCKS == 0 && n.econ.emitted == MAX_SUPPLY_LYT - 1000
    requires ApartAt(env, call, n) && env.c.decodeAddress(TREASURY_ADDRESS).Some?
    ensures AfterEpoch(env, call, Rewarded(n)).econ.utxos != AfterEpoch(Peer(env, who), call, n).econ.utxos
  {
    NearCapRewards(n.chain.height);
    CutsFollowRewards(1000, 0);
    EpochEndAgreesExactly(env, who, call, n);
  }

  // Such a node: no outputs, no miners, at the end of the first epoch.
  lemma NearCapExists(env: Env, call: Call)
    returns (n: Node)
    requires call.order == []
    ensures n.chain.height == EPOCH_BLOCKS && n.econ.emitted == MAX_SUPPLY_LYT - 1000 && ApartAt(env, call, n)
  {
    n := Node(Chain(EPOCH_BLOCKS, [], map[], [], map[]), Economy(1, map[], map[], map[], map[], MAX_SUPPLY_LYT - 1000),
              TxPool([], map[]), None, 0, map[]);
  }
}
