// The order in which a node's maps iterate does not matter: two nodes that agree on the
// state agree on it after every epoch end.

module EpochOrders {
  import opened Blocks
  import opened Bytes
  import opened Economies
  import opened Emission
  import L = Loyalty
  import opened Merkle
  import opened NodeSpecs
  import opened Permutations
  import opened Poci
  import opened Transactions

  // ---- Rewards ----

  function PociIn(r: PociResult): nat { r.poci }

  function RewardIn(r: PociResult): nat { r.reward }

  lemma {:induction false} PociSumIs(results: seq<PociResult>, n: nat)
    requires n <= |results|
    ensures PociSum(results, n) == SumBy(PociIn, results[..n])
    decreases n
  {
    if n > 0 {
      PociSumIs(results, n - 1);
      assert results[..n][..n - 1] == results[..n - 1];
    }
  }

  lemma {:induction false} RewardSumIs(results: seq<PociResult>, n: nat)
    requires n <= |results|
    ensures RewardSum(results, n) == SumBy(RewardIn, results[..n])
    decreases n
  {
    if n > 0 {
      RewardSumIs(results, n - 1);
      assert results[..n][..n - 1] == results[..n - 1];
    }
  }

  lemma {:induction false} SamePociSum(r: seq<PociResult>, s: seq<PociResult>)
    requires Permuted(r, s)
    ensures PociSum(r, |r|) == PociSum(s, |s|)
  {
    PociSumIs(r, |r|);
    PociSumIs(s, |s|);
    assert r[..|r|] == r && s[..|s|] == s;
    SumPermuted(PociIn, r, s);
  }

  lemma {:induction false} SameRewardSum(r: seq<PociResult>, s: seq<PociResult>)
    requires Permuted(r, s)
    ensures RewardSum(r, |r|) == RewardSum(s, |s|)
  {
    RewardSumIs(r, |r|);
    RewardSumIs(s, |s|);
    assert r[..|r|] == r && s[..|s|] == s;
    SumPermuted(RewardIn, r, s);
  }

  // Visiting the same miners in another order gives each the same reward.
  lemma {:induction false} DividedPermuted(r: seq<PociResult>, s: seq<PociResult>, pool: nat)
    requires Permuted(r, s)
    ensures Permuted(Divided(r, pool), Divided(s, pool))
  {
    SamePociSum(r, s);
    var total := PociSum(r, |r|);
    if total > 0 {
      var f := (x: PociResult) => x.(reward := Portion(x.poci, pool, total));
      MapPermuted(f, r, s);
      assert Divided(r, pool) == Mapped(f, r) && Divided(s, pool) == Mapped(f, s);
    }
  }

  lemma {:induction false} RewardsPermuted(r: seq<PociResult>, s: seq<PociResult>, height: nat, emitted: u64)
    requires Permuted(r, s) && Unrewarded(r) && Unrewarded(s)
    ensures Permuted(FinalRewards(r, height, emitted), FinalRewards(s, height, emitted))
    ensures Emitted(r, height, emitted) == Emitted(s, height, emitted)
  {
    FinalPermuted(r, s, height, emitted);
    SameRewardSum(FinalRewards(r, height, emitted), FinalRewards(s, height, emitted));
    EmittedBySum(r, s, height, emitted);
  }

  lemma {:induction false} FinalPermuted(r: seq<PociResult>, s: seq<PociResult>, height: nat, emitted: u64)
    requires Permuted(r, s) && Unrewarded(r) && Unrewarded(s)
    ensures Permuted(FinalRewards(r, height, emitted), FinalRewards(s, height, emitted))
  {
    var effective := EffectiveReward(height, emitted);
    var pool := effective - TreasuryCut(effective);
    FinalIsDivided(r, height, emitted, pool);
    FinalIsDivided(s, height, emitted, pool);
    DividedPermuted(r, s, pool);
  }

  lemma {:induction false} FinalIsDivided(results: seq<PociResult>, height: nat, emitted: u64, pool: nat)
    requires Unrewarded(results)
    requires pool == EffectiveReward(height, emitted) - TreasuryCut(EffectiveReward(height, emitted))
    ensures FinalRewards(results, height, emitted) == Divided(results, pool)
  {
    TrimIsNoOp(results, height, emitted);
  }

  lemma {:induction false} EmittedBySum(r: seq<PociResult>, s: seq<PociResult>, height: nat, emitted: u64)
    requires var x, y := FinalRewards(r, height, emitted), FinalRewards(s, height, emitted);
      RewardSum(x, |x|) == RewardSum(y, |y|)
    ensures Emitted(r, height, emitted) == Emitted(s, height, emitted)
  {}

  // ---- Payment ----

  // Reward outpoints of different miners differ.
  ghost predicate OutpointsApart(c: Crypto, p: Payday, results: seq<PociResult>) {
    forall i, j :: 0 <= i < j < |results| ==> RewardOutpoint(c, p, results[i].id) != RewardOutpoint(c, p, results[j].id)
  }

  // Everything hashed to pay these miners.
  function RewardPreimages(p: Payday, ids: set<MinerId>): set<seq<byte>> {
    set id | id in ids :: RewardPreimage(p, id)
  }

  lemma RewardPreimageInjective(p: Payday, a: MinerId, b: MinerId)
    requires RewardPreimage(p, a) == RewardPreimage(p, b)
    ensures a == b
  {
    var height, epoch := LittleEndian(p.height, 8), LittleEndian(p.epoch, 4);
    SplitConcat(REWARD_TAG, height + (epoch + Raw(a)), REWARD_TAG, height + (epoch + Raw(b)));
    SplitConcat(height, epoch + Raw(a), height, epoch + Raw(b));
    SplitConcat(epoch, Raw(a), epoch, Raw(b));
  }

  lemma {:induction false} DistinctMinersApart(c: Crypto, p: Payday, results: seq<PociResult>, order: seq<MinerId>, ids: set<MinerId>)
    requires Enumerates(order, ids) && CollisionFree(c.sha, RewardPreimages(p, ids))
    requires |results| == |order| && forall i :: 0 <= i < |order| ==> results[i].id == order[i]
    ensures OutpointsApart(c, p, results)
  {
    forall i, j | 0 <= i < j < |results|
      ensures RewardOutpoint(c, p, results[i].id) != RewardOutpoint(c, p, results[j].id)
    {
      if c.sha(RewardPreimage(p, order[i])) == c.sha(RewardPreimage(p, order[j])) {
        Injective(c.sha, RewardPreimages(p, ids), RewardPreimage(p, order[i]), RewardPreimage(p, order[j]));
        RewardPreimageInjective(p, order[i], order[j]);
      }
    }
  }

  ghost predicate PaysAt(c: Crypto, p: Payday, r: PociResult, o: OutPoint) {
    r.reward != 0 && OutputTo(c, PayoutAddress(p, r.id), r.reward).Some? && RewardOutpoint(c, p, r.id) == o
  }

  ghost predicate SameAt(m: Utxos, n: Utxos, o: OutPoint) {
    (o in m <==> o in n) && (o in m ==> m[o] == n[o])
  }

  // What payment leaves at an outpoint: the old output when no result pays there, and
  // otherwise the output of the one result that does.
  lemma {:induction false} Untouched(c: Crypto, p: Payday, utxos: Utxos, results: seq<PociResult>, n: nat, o: OutPoint)
    requires n <= |results| && forall i :: 0 <= i < n ==> !PaysAt(c, p, results[i], o)
    ensures SameAt(Paid(c, p, utxos, results, n), utxos, o)
    decreases n
  {
    if n > 0 {
      Untouched(c, p, utxos, results, n - 1, o);
    }
  }

  lemma {:induction false} PaidFor(c: Crypto, p: Payday, utxos: Utxos, results: seq<PociResult>, n: nat, i: nat, o: OutPoint)
    requires i < n <= |results| && OutpointsApart(c, p, results) && PaysAt(c, p, results[i], o)
    ensures SameAt(Paid(c, p, utxos, results, n), PaidOne(c, p, map[], results[i]), o)
    decreases n
  {
    if i < n - 1 {
      PaidFor(c, p, utxos, results, n - 1, i, o);
      assert !PaysAt(c, p, results[n - 1], o);
    }
  }

  lemma {:induction false} SameOutcomeAt(c: Crypto, p: Payday, utxos: Utxos, r: seq<PociResult>, s: seq<PociResult>, o: OutPoint)
    requires Permuted(r, s) && OutpointsApart(c, p, r) && OutpointsApart(c, p, s)
    ensures SameAt(Paid(c, p, utxos, r, |r|), Paid(c, p, utxos, s, |s|), o)
  {
    if i :| 0 <= i < |r| && PaysAt(c, p, r[i], o) {
      var j := Counterpart(r, s, i);
      PaidFor(c, p, utxos, r, |r|, i, o);
      PaidFor(c, p, utxos, s, |s|, j, o);
    } else {
      forall j | 0 <= j < |s|
        ensures !PaysAt(c, p, s[j], o)
      {
        var i := Counterpart(s, r, j);
      }
      Untouched(c, p, utxos, r, |r|, o);
      Untouched(c, p, utxos, s, |s|, o);
    }
  }

  lemma {:induction false} PaymentPermuted(c: Crypto, p: Payday, utxos: Utxos, r: seq<PociResult>, s: seq<PociResult>)
    requires Permuted(r, s) && OutpointsApart(c, p, r) && OutpointsApart(c, p, s)
    ensures Paid(c, p, utxos, r, |r|) == Paid(c, p, utxos, s, |s|)
  {
    var a, b := Paid(c, p, utxos, r, |r|), Paid(c, p, utxos, s, |s|);
    forall o
      ensures o in a <==> o in b
      ensures o in a ==> a[o] == b[o]
    {
      SameOutcomeAt(c, p, utxos, r, s, o);
    }
  }

  // ---- Loyalty ----

  lemma {:induction false} ParticipatedPermuted(r: seq<PociResult>, s: seq<PociResult>, id: MinerId)
    requires Permuted(r, s)
    ensures Participated(r, id) ==> Participated(s, id)
  {
    if Participated(r, id) {
      var i :| 0 <= i < |r| && r[i].id == id && r[i].shares > 0;
      var j := Counterpart(r, s, i);
    }
  }

  lemma {:induction false} LoyaltyKeys(loyalty: map<MinerId, L.State>, epoch: nat, results: seq<PociResult>, order: seq<MinerId>, n: nat)
    requires n <= |order|
    ensures forall id :: id in LoyaltyAfter(loyalty, epoch, results, order, n) <==> id in loyalty || id in order[..n]
    decreases n
  {
    if n > 0 {
      LoyaltyKeys(loyalty, epoch, results, order, n - 1);
      assert order[..n] == order[..n - 1] + [order[n - 1]];
    }
  }

  lemma {:induction false} LoyaltyPermuted(loyalty: map<MinerId, L.State>, epoch: nat, r: seq<PociResult>, s: seq<PociResult>,
                                           a: seq<MinerId>, b: seq<MinerId>, ids: set<MinerId>)
    requires Permuted(r, s) && Enumerates(a, ids) && Enumerates(b, ids)
    ensures LoyaltyAfter(loyalty, epoch, r, a, |a|) == LoyaltyAfter(loyalty, epoch, s, b, |b|)
  {
    var x, y := LoyaltyAfter(loyalty, epoch, r, a, |a|), LoyaltyAfter(loyalty, epoch, s, b, |b|);
    LoyaltyKeys(loyalty, epoch, r, a, |a|);
    LoyaltyKeys(loyalty, epoch, s, b, |b|);
    assert a[..|a|] == a && b[..|b|] == b;
    forall id | id in x
      ensures id in y && LoyaltyOf(x, id) == LoyaltyOf(y, id)
    {
      LoyaltyMovesOnce(loyalty, epoch, r, a, |a|, id);
      LoyaltyMovesOnce(loyalty, epoch, s, b, |b|, id);
      ParticipatedPermuted(r, s, id);
      ParticipatedPermuted(s, r, id);
    }
    assert x.Keys == y.Keys;
  }

  // ---- The whole epoch end ----

  lemma {:induction false} ResultsPermuted(e: Economy, a: seq<MinerId>, b: seq<MinerId>)
    requires Enumerates(a, e.miners.Keys) && Enumerates(b, e.miners.Keys)
    ensures Permuted(ResultsOf(e, a), ResultsOf(e, b))
  {
    var f := (id: MinerId) => ResultOf(id, MinerOf(e.miners, id), e.bonds, LoyaltyValues(e.loyalty));
    SameListing(a, b);
    MapPermuted(f, a, b);
    assert ResultsOf(e, a) == Mapped(f, a) && ResultsOf(e, b) == Mapped(f, b);
  }

  // Paying the miners left after slashing hashes no two strings to one id.
  ghost predicate PaysApart(c: Crypto, who: Identity, e: Economy, height: nat, slashed: set<MinerId>) {
    CollisionFree(c.sha, RewardPreimages(PaydayOf(who, Slashed(e, slashed), height), (e.miners - slashed).Keys))
  }

  lemma {:induction false} OutputsPermuted(c: Crypto, p: Payday, utxos: Utxos, emitted: u64, r: seq<PociResult>, s: seq<PociResult>,
                                           a: seq<MinerId>, b: seq<MinerId>, ids: set<MinerId>)
    requires Permuted(r, s) && Unrewarded(r) && Unrewarded(s) && Enumerates(a, ids) && Enumerates(b, ids)
    requires |r| == |a| && forall i :: 0 <= i < |a| ==> r[i].id == a[i]
    requires |s| == |b| && forall i :: 0 <= i < |b| ==> s[i].id == b[i]
    requires CollisionFree(c.sha, RewardPreimages(p, ids))
    ensures UtxosAfterEpoch(c, p, utxos, r, emitted) == UtxosAfterEpoch(c, p, utxos, s, emitted)
  {
    var x, y := FinalRewards(r, p.height, emitted), FinalRewards(s, p.height, emitted);
    RewardsPermuted(r, s, p.height, emitted);
    DistinctMinersApart(c, p, x, a, ids);
    DistinctMinersApart(c, p, y, b, ids);
    PaymentPermuted(c, p, TreasuryPaid(c, p.epoch, utxos, TreasuryCut(EffectiveReward(p.height, emitted))), x, y);
  }

  // Closing an epoch gives one result whatever order the miners are visited in.
  lemma {:induction false} EpochEndIgnoresOrder(c: Crypto, who: Identity, e: Economy, height: nat, slashed: set<MinerId>,
                                                a: seq<MinerId>, b: seq<MinerId>)
    requires Enumerates(a, (e.miners - slashed).Keys) && Enumerates(b, (e.miners - slashed).Keys)
    requires PaysApart(c, who, e, height, slashed)
    ensures EpochClosed(c, who, e, height, slashed, a) == EpochClosed(c, who, e, height, slashed, b)
  {
    var left := Slashed(e, slashed);
    var r, s := ResultsOf(left, a), ResultsOf(left, b);
    ResultsPermuted(left, a, b);
    UnrewardedResults(left, a);
    UnrewardedResults(left, b);
    RewardsPermuted(r, s, height, e.emitted);
    OutputsPermuted(c, PaydayOf(who, left, height), e.utxos, e.emitted, r, s, a, b, (e.miners - slashed).Keys);
    LoyaltyPermuted(left.loyalty, e.epoch, r, s, a, b, (e.miners - slashed).Keys);
  }

  // ---- Blocks ----

  // Orders for the miners left after slashing, and payments that do not collide.
  ghost predicate Exchangeable(env: Env, n: Node, call: Call, order: seq<MinerId>) {
    && Enumerates(call.order, (n.econ.miners - call.slashed).Keys)
    && Enumerates(order, (n.econ.miners - call.slashed).Keys)
    && PaysApart(env.c, env.who, n.econ, n.chain.height + 1, call.slashed)
  }

  lemma AfterEpochIgnoresOrder(env: Env, call: Call, n: Node, order: seq<MinerId>)
    requires Enumerates(call.order, (n.econ.miners - call.slashed).Keys)
    requires Enumerates(order, (n.econ.miners - call.slashed).Keys)
    requires PaysApart(env.c, env.who, n.econ, n.chain.height, call.slashed)
    ensures AfterEpoch(env, call, n) == AfterEpoch(env, call.(order := order), n)
  {
    EpochEndIgnoresOrder(env.c, env.who, n.econ, n.chain.height, call.slashed, call.order, order);
  }

  // Two nodes in one state that take the same block end in one state.
  lemma AcceptIgnoresOrder(env: Env, call: Call, n: Node, b: Block, order: seq<MinerId>)
    requires Exchangeable(env, n, call, order)
    ensures Accept(env, call, n, b) == Accept(env, call.(order := order), n, b)
  {
    AfterEpochIgnoresOrder(env, call, WithBlock(env, n, b, HeaderHash(env.c, b.header)), order);
  }

  lemma CommitIgnoresOrder(env: Env, call: Call, n: Node, job: Job, nonce: u64, hash: Hash32, found: bool, order: seq<MinerId>)
    requires Exchangeable(env, n, call, order)
    ensures Commit(env, call, n, job, nonce, hash, found) == Commit(env, call.(order := order), n, job, nonce, hash, found)
  {
    AfterEpochIgnoresOrder(env, call, MinedOnto(env, n, job, nonce, hash), order);
  }
}
