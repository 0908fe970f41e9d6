// What an epoch end hands to whom, and what the schedule adds up to.

module Payouts {
  import opened Agreement
  import opened Bytes
  import opened Emission
  import opened Poci
  import opened Transactions
  import opened Wrappers

  // ---- The schedule ----

  // A year is 525600 blocks; the reward falls with each of the first four and then stays.
  lemma ScheduleExactly(height: nat)
    ensures EpochReward(height) ==
      if height < 525_600 then 720_000_000
      else if height < 1_051_200 then 288_000_000
      else if height < 1_576_800 then 144_000_000
      else if height < 2_102_400 then 72_000_000
      else 7_200_000
  {
    DivModOf(height, 525_600);
  }

  // What the first n epoch ends, at heights 1440, 2880 and so on, may emit together.
  function Scheduled(n: nat): nat {
    if n == 0 then 0 else Scheduled(n - 1) + EpochReward(1440 * n)
  }

  // The reward of epoch end k.
  function Listed(k: nat): nat {
    if k <= 364 then 720_000_000
    else if k <= 729 then 288_000_000
    else if k <= 1094 then 144_000_000
    else if k <= 1459 then 72_000_000
    else 7_200_000
  }

  lemma RewardOfEnd(k: nat)
    ensures EpochReward(1440 * k) == Listed(k)
  {
    ScheduleExactly(1440 * k);
  }

  function ListedSum(n: nat): nat { if n == 0 then 0 else ListedSum(n - 1) + Listed(n) }

  lemma {:induction false} ScheduledIsListed(n: nat)
    ensures Scheduled(n) == ListedSum(n)
  {
    if n > 0 {
      ScheduledIsListed(n - 1);
      RewardOfEnd(n);
    }
  }

  lemma {:induction false} ListedIn(m: nat, n: nat, reward: nat)
    requires m <= n && forall k :: m < k <= n ==> Listed(k) == reward
    ensures ListedSum(n) == ListedSum(m) + (n - m) * reward
    decreases n
  {
    if m < n {
      ListedIn(m, n - 1, reward);
      OneMore(n - m, reward);
    }
  }

  lemma OneMore(k: int, reward: int)
    ensures (k - 1) * reward + reward == k * reward
  {}

  lemma FirstYears()
    ensures ListedSum(364) == 262_080_000_000 && ListedSum(729) == 367_200_000_000
    ensures ListedSum(1094) == 419_760_000_000 && ListedSum(1459) == 446_040_000_000
  {
    ListedIn(0, 364, 720_000_000);
    ListedIn(364, 729, 288_000_000);
    ListedIn(729, 1094, 144_000_000);
    ListedIn(1094, 1459, 72_000_000);
  }

  // The first year has one epoch end fewer than the others, since the end at its last height
  // already counts to the next; after four years the schedule grows by the last reward for good.
  lemma ScheduleAddsUp(n: nat)
    requires n >= 1459
    ensures Scheduled(364) == 262_080_000_000 && Scheduled(729) == 367_200_000_000
    ensures Scheduled(1094) == 419_760_000_000 && Scheduled(1459) == 446_040_000_000
    ensures Scheduled(n) == Scheduled(1459) + (n - 1459) * 7_200_000
  {
    FirstYears();
    ListedIn(1459, n, 7_200_000);
    forall k: nat
      ensures Scheduled(k) == ListedSum(k)
    {
      ScheduledIsListed(k);
    }
  }

  // ---- Who gets how much ----

  // A reward is the miner's part of the pool by its index, rounded down.
  ghost predicate IsPart(reward: nat, poci: nat, pool: nat, total: nat) {
    reward * total <= poci * pool < (reward + 1) * total
  }

  // Every miner gets its part: so equal indices earn equally, and a larger one never less.
  lemma RewardsFollowIndex(results: seq<PociResult>, pool: nat, i: nat, j: nat)
    requires i < |results| && j < |results| && pool < U64_LIMIT && PociSum(results, |results|) > 0
    ensures IsPart(Divided(results, pool)[i].reward, results[i].poci, pool, PociSum(results, |results|))
    ensures results[i].poci <= results[j].poci ==> Divided(results, pool)[i].reward <= Divided(results, pool)[j].reward
  {
    PartOf(results, pool, i);
    PartOf(results, pool, j);
    PartsGrow(Divided(results, pool)[i].reward, Divided(results, pool)[j].reward, results[i].poci, results[j].poci, pool, PociSum(results, |results|));
  }

  lemma PartOf(results: seq<PociResult>, pool: nat, i: nat)
    requires i < |results| && pool < U64_LIMIT && PociSum(results, |results|) > 0
    ensures IsPart(Divided(results, pool)[i].reward, results[i].poci, pool, PociSum(results, |results|))
  {
    var total := PociSum(results, |results|);
    PociWithin(results, i, |results|);
    FloorBounds(results[i].poci, pool, total);
    MulDistrib(results[i].poci * pool / total, 1, total);
  }

  lemma PartsGrow(r: nat, s: nat, p: nat, q: nat, pool: nat, total: nat)
    requires total > 0 && IsPart(r, p, pool, total) && IsPart(s, q, pool, total)
    ensures p <= q ==> r <= s
  {
    if p <= q {
      MulMono(p, q, pool);
      if r > s {
        MulMono(s + 1, r, total);
      }
    }
  }

  // ---- Scaling down ----

  // Scaled down to what is left, rewards keep their proportion but for rounding and together
  // take no more than that.
  lemma {:induction false} TrimmedFits(results: seq<PociResult>, emitted: nat)
    requires RewardSum(results, |results|) > Available(emitted)
    ensures RewardSum(Trimmed(results, emitted), |results|) <= Available(emitted)
    ensures forall i :: 0 <= i < |results| ==>
      IsPart(Trimmed(results, emitted)[i].reward, results[i].reward, Available(emitted), RewardSum(results, |results|))
  {
    var requested, available := RewardSum(results, |results|), Available(emitted);
    forall i | 0 <= i < |results|
      ensures IsPart(Trimmed(results, emitted)[i].reward, results[i].reward, available, requested)
    {
      RewardWithin(results, i, |results|);
      ScaledPart(results[i].reward, available, requested);
    }
    PartsAddUp(results, Trimmed(results, emitted), available, requested, |results|);
    AtMost(RewardSum(Trimmed(results, emitted), |results|), available, requested);
  }

  lemma {:induction false} RewardWithin(results: seq<PociResult>, i: nat, n: nat)
    requires i < n <= |results|
    ensures results[i].reward <= RewardSum(results, n)
    decreases n
  {
    if i < n - 1 {
      RewardWithin(results, i, n - 1);
    }
  }

  lemma ScaledPart(reward: u64, available: nat, requested: nat)
    requires reward <= requested && 0 < requested && available < requested
    ensures IsPart(ScaledDown(reward, available, requested), reward, available, requested)
  {
    FloorBounds(reward, available, requested);
    var q := reward * available / requested;
    MulDistrib(q, 1, requested);
    MulMono(available, requested, reward);
    if q > reward {
      MulMono(reward + 1, q, requested);
      MulDistrib(reward, 1, requested);
    }
    DivUnique(q, U64_LIMIT, 0, q);
    if available == 0 {
      DivUnique(0, requested, 0, 0);
    }
  }

  lemma {:induction false} PartsAddUp(results: seq<PociResult>, parts: seq<PociResult>, available: nat, requested: nat, n: nat)
    requires n <= |results| == |parts|
    requires forall i :: 0 <= i < |results| ==> IsPart(parts[i].reward, results[i].reward, available, requested)
    ensures RewardSum(parts, n) * requested <= RewardSum(results, n) * available
    decreases n
  {
    if n > 0 {
      PartsAddUp(results, parts, available, requested, n - 1);
      MulDistrib(RewardSum(parts, n - 1), parts[n - 1].reward, requested);
      MulDistrib(RewardSum(results, n - 1), results[n - 1].reward, available);
      assert IsPart(parts[n - 1].reward, results[n - 1].reward, available, requested);
    }
  }

  lemma AtMost(sum: nat, available: nat, requested: nat)
    requires requested > 0 && sum * requested <= requested * available
    ensures sum <= available
  {
    if sum > available {
      MulMono(available + 1, sum, requested);
      MulDistrib(available, 1, requested);
    }
  }

  // The counter moves by exactly the treasury's cut and the rewards of all miners, paid or not,
  // and stays within the cap.
  lemma CountedExactly(results: seq<PociResult>, height: nat, emitted: u64)
    requires Unrewarded(results) && emitted <= MAX_SUPPLY_LYT
    ensures var effective, r := EffectiveReward(height, emitted), FinalRewards(results, height, emitted);
      Emitted(results, height, emitted) == emitted + RewardSum(r, |r|) + TreasuryCut(effective) <= MAX_SUPPLY_LYT
  {
    var effective, r := EffectiveReward(height, emitted), FinalRewards(results, height, emitted);
    TrimIsNoOp(results, height, emitted);
    RewardFits(height, emitted);
    SumFits(emitted, RewardSum(r, |r|), TreasuryCut(effective));
  }

  lemma RewardFits(height: nat, emitted: u64)
    requires emitted <= MAX_SUPPLY_LYT
    ensures emitted + EffectiveReward(height, emitted) <= MAX_SUPPLY_LYT
  {}

  lemma SumFits(emitted: u64, rewards: nat, cut: u64)
    requires emitted + rewards + cut <= MAX_SUPPLY_LYT
    ensures Counted(emitted, rewards, cut) == emitted + rewards + cut
  {}

  // Of the effective reward less than one unit for each miner is left over, and all but the cut
  // when nobody has an index.
  lemma LeftOverExactly(results: seq<PociResult>, height: nat, emitted: u64)
    requires Unrewarded(results)
    ensures var effective, r := EffectiveReward(height, emitted), FinalRewards(results, height, emitted);
      var left := effective - TreasuryCut(effective) - RewardSum(r, |r|);
      if PociSum(results, |results|) == 0 then RewardSum(r, |r|) == 0 else 0 <= left < |results|
  {
    var effective := EffectiveReward(height, emitted);
    TrimIsNoOp(results, height, emitted);
    if PociSum(results, |results|) > 0 {
      PoolDivided(results, effective - TreasuryCut(effective));
    } else {
      NoRewards(results, |results|);
    }
  }

  // ---- Who is paid where ----

  // The node pays itself at its wallet, every other registered miner at its payout address.
  ghost predicate PaidAt(c: Crypto, p: Payday, id: MinerId, key: MinerId) {
    exists address :: c.decodeAddress(address) == Some(key)
      && if id == p.local then p.wallet == Some(address) else id in p.miners && p.miners[id].payout == Some(address)
  }

  // At an epoch end whose payments go to new outpoints, a miner with a reward finds exactly that
  // reward under its own key, and a miner without reward or without usable address nothing.
  lemma RewardReaches(c: Crypto, p: Payday, utxos: Utxos, results: seq<PociResult>, e: u64, i: nat, key: MinerId)
    requires i < |results| && PaymentsApart(c, p, utxos, results)
    ensures var after, o, reward := UtxosAfterEpoch(c, p, utxos, results, e), RewardOutpoint(c, p, results[i].id), FinalRewards(results, p.height, e)[i].reward;
      && (o in after ==> reward > 0)
      && (PaidAt(c, p, results[i].id, key) && reward > 0 ==> o in after && after[o] == TxOut(reward, P2pkh(key)))
      && (o in after ==> exists k :: PaidAt(c, p, results[i].id, k))
  {
    OwedAfter(c, p, utxos, results, e, i);
    SameIds(results, p.height, e);
    OwedIs(c, p, FinalRewards(results, p.height, e)[i], key);
  }

  lemma OwedIs(c: Crypto, p: Payday, r: PociResult, key: MinerId)
    ensures Owed(c, p, r).Some? ==> r.reward > 0 && exists k :: PaidAt(c, p, r.id, k)
    ensures PaidAt(c, p, r.id, key) && r.reward > 0 ==> Owed(c, p, r) == Some(TxOut(r.reward, P2pkh(key)))
  {
    if Owed(c, p, r).Some? {
      assert PaidAt(c, p, r.id, c.decodeAddress(PayoutAddress(p, r.id).value).value);
    }
  }
}
