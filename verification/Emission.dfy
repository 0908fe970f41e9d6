// Epoch rewards: the treasury cut, the miners' shares of the pool and their payment.

module Emission {
  import opened Bytes
  import opened Ledger
  import opened Poci
  import opened Records
  import opened Transactions
  import opened Wrappers

  const EPOCH_BLOCKS: nat := 1440
  const TREASURY_FRACTION_BPS: nat := 700
  const TREASURY_ADDRESS: string := "1JK3qmgjwQJJ3wsb5dtaaEUDX13cpF9wdD"

  // ---- How much an epoch may emit ----

  function EpochReward(height: nat): u64 {
    var year := height / (EPOCH_BLOCKS * 365) + 1;
    if year == 1 then 720_000_000
    else if year == 2 then 288_000_000
    else if year == 3 then 144_000_000
    else if year == 4 then 72_000_000
    else 7_200_000
  }

  function Available(emitted: nat): nat {
    if emitted >= MAX_SUPPLY_LYT then 0 else MAX_SUPPLY_LYT - emitted
  }

  function EffectiveReward(height: nat, emitted: nat): u64 {
    Min(EpochReward(height), Available(emitted))
  }

  function TreasuryCut(effective: nat): nat {
    effective * TREASURY_FRACTION_BPS / 10_000
  }

  // ---- Dividing the pool ----

  function PociSum(results: seq<PociResult>, n: nat): nat
    requires n <= |results|
  {
    if n == 0 then 0 else PociSum(results, n - 1) + results[n - 1].poci
  }

  function RewardSum(results: seq<PociResult>, n: nat): nat
    requires n <= |results|
  {
    if n == 0 then 0 else RewardSum(results, n - 1) + results[n - 1].reward
  }

  function Portion(poci: nat, pool: nat, total: nat): u64
    requires total > 0
  {
    Min(poci * pool / total, U64_LIMIT - 1)
  }

  // With no contribution at all nothing is handed out.
  function Divided(results: seq<PociResult>, pool: nat): (r: seq<PociResult>)
    ensures |r| == |results|
  {
    var total := PociSum(results, |results|);
    if total == 0 then results
    else seq(|results|, i requires 0 <= i < |results| => results[i].(reward := Portion(results[i].poci, pool, total)))
  }

  method Divide(results: seq<PociResult>, pool: nat) returns (r: seq<PociResult>)
    ensures r == Divided(results, pool)
  {
    var total := 0;
    for i := 0 to |results|
      invariant total == PociSum(results, i)
    {
      total := total + results[i].poci;
    }
    r := results;
    if total > 0 {
      for i := 0 to |results|
        invariant |r| == |results|
        invariant forall k :: 0 <= k < |results| ==> r[k] == (if k < i then Divided(results, pool)[k] else results[k])
      {
        r := r[i := r[i].(reward := Portion(r[i].poci, pool, total))];
      }
    }
  }

  function ScaledDown(reward: nat, available: nat, requested: nat): u64
    requires requested > 0
  {
    if available == 0 then 0 else reward * available / requested % U64_LIMIT
  }

  // Scaling down to what is left of the supply.
  function Trimmed(results: seq<PociResult>, emitted: nat): (r: seq<PociResult>)
    ensures |r| == |results|
  {
    var requested, available := RewardSum(results, |results|), Available(emitted);
    if requested <= available then results
    else seq(|results|, i requires 0 <= i < |results| =>
               results[i].(reward := ScaledDown(results[i].reward, available, requested)))
  }

  method Trim(results: seq<PociResult>, emitted: nat) returns (r: seq<PociResult>)
    ensures r == Trimmed(results, emitted)
  {
    var requested := 0;
    for i := 0 to |results|
      invariant requested == RewardSum(results, i)
    {
      requested := requested + results[i].reward;
    }
    var available := Available(emitted);
    if requested <= available {
      return results;
    }
    r := results;
    for i := 0 to |results|
      invariant |r| == |results|
      invariant forall k :: 0 <= k < |results| ==> r[k] == (if k < i then Trimmed(results, emitted)[k] else results[k])
    {
      r := r[i := r[i].(reward := ScaledDown(r[i].reward, available, requested))];
    }
  }

  // ---- Paying ----

  // What a payout depends on besides the results.
  datatype Payday = Payday(height: nat, epoch: u32, local: MinerId, wallet: Option<string>, miners: map<MinerId, Miner>)

  function PayoutAddress(p: Payday, id: MinerId): Option<string> {
    if id == p.local then p.wallet
    else if id in p.miners then p.miners[id].payout
    else None
  }

  function OutputTo(c: Crypto, address: Option<string>, value: u64): Option<TxOut> {
    if address.None? then None
    else
      match c.decodeAddress(address.value)
      case None => None
      case Some(hash) => Some(TxOut(value, P2pkh(hash)))
  }

  // "ACCUM-EPOCH-REWARD"
  const REWARD_TAG: seq<byte> := [65, 67, 67, 85, 77, 45, 69, 80, 79, 67, 72, 45, 82, 69, 87, 65, 82, 68]

  // "ACCUM-TREASURY"
  const TREASURY_TAG: seq<byte> := [65, 67, 67, 85, 77, 45, 84, 82, 69, 65, 83, 85, 82, 89]

  function RewardPreimage(p: Payday, id: MinerId): seq<byte> {
    REWARD_TAG + (LittleEndian(p.height, 8) + (LittleEndian(p.epoch, 4) + Raw(id)))
  }

  function RewardOutpoint(c: Crypto, p: Payday, id: MinerId): OutPoint {
    OutPoint(c.sha(RewardPreimage(p, id)), 0)
  }

  function TreasuryOutpoint(c: Crypto, epoch: u32): OutPoint {
    OutPoint(c.sha(TREASURY_TAG + LittleEndian(epoch, 4)), 0)
  }

  // A reward without a usable address is counted but creates nothing.
  function PaidOne(c: Crypto, p: Payday, utxos: Utxos, r: PociResult): Utxos {
    var out := OutputTo(c, PayoutAddress(p, r.id), r.reward);
    if r.reward == 0 || out.None? then utxos else utxos[RewardOutpoint(c, p, r.id) := out.value]
  }

  function Paid(c: Crypto, p: Payday, utxos: Utxos, results: seq<PociResult>, n: nat): Utxos
    requires n <= |results|
  {
    if n == 0 then utxos else PaidOne(c, p, Paid(c, p, utxos, results, n - 1), results[n - 1])
  }

  function TreasuryPaid(c: Crypto, epoch: u32, utxos: Utxos, cut: u64): Utxos {
    var out := OutputTo(c, Some(TREASURY_ADDRESS), cut);
    if cut == 0 || out.None? then utxos else utxos[TreasuryOutpoint(c, epoch) := out.value]
  }

  method PayRewards(c: Crypto, p: Payday, store: Store, results: seq<PociResult>) returns (total: u64)
    modifies store`utxos
    ensures store.utxos == Paid(c, p, old(store.utxos), results, |results|)
    ensures total == Min(RewardSum(results, |results|), U64_LIMIT - 1)
  {
    total := 0;
    for i := 0 to |results|
      invariant store.utxos == Paid(c, p, old(store.utxos), results, i)
      invariant total == Min(RewardSum(results, i), U64_LIMIT - 1)
    {
      var r := results[i];
      if r.reward != 0 {
        total := Min(total + r.reward, U64_LIMIT - 1);
        var out := OutputTo(c, PayoutAddress(p, r.id), r.reward);
        if out.Some? {
          store.utxos := store.utxos[RewardOutpoint(c, p, r.id) := out.value];
        }
      }
    }
  }

  method PayTreasury(c: Crypto, epoch: u32, store: Store, cut: u64)
    modifies store`utxos
    ensures store.utxos == TreasuryPaid(c, epoch, old(store.utxos), cut)
  {
    if cut > 0 {
      var out := OutputTo(c, Some(TREASURY_ADDRESS), cut);
      if out.Some? {
        store.utxos := store.utxos[TreasuryOutpoint(c, epoch) := out.value];
      }
    }
  }

  // ---- The whole emission step ----

  function FinalRewards(results: seq<PociResult>, height: nat, emitted: nat): (r: seq<PociResult>)
    ensures |r| == |results|
  {
    var effective := EffectiveReward(height, emitted);
    Trimmed(Divided(results, effective - TreasuryCut(effective)), emitted)
  }

  function Counted(emitted: u64, rewards: nat, cut: u64): u64 {
    Min(Min(emitted + Min(rewards, U64_LIMIT - 1), U64_LIMIT - 1) + cut, U64_LIMIT - 1)
  }

  function Emitted(results: seq<PociResult>, height: nat, emitted: u64): u64 {
    var r := FinalRewards(results, height, emitted);
    Counted(emitted, RewardSum(r, |r|), TreasuryCut(EffectiveReward(height, emitted)))
  }

  function UtxosAfterEpoch(c: Crypto, p: Payday, utxos: Utxos, results: seq<PociResult>, emitted: u64): Utxos {
    var r := FinalRewards(results, p.height, emitted);
    Paid(c, p, TreasuryPaid(c, p.epoch, utxos, TreasuryCut(EffectiveReward(p.height, emitted))), r, |r|)
  }

  method EmitEpoch(c: Crypto, p: Payday, store: Store, results: seq<PociResult>, emitted: u64)
    returns (emittedAfter: u64, rewards: seq<PociResult>)
    modifies store`utxos
    ensures store.utxos == UtxosAfterEpoch(c, p, old(store.utxos), results, emitted)
    ensures emittedAfter == Emitted(results, p.height, emitted)
    ensures rewards == FinalRewards(results, p.height, emitted)
  {
    var cut := TreasuryCut(EffectiveReward(p.height, emitted));
    PayTreasury(c, p.epoch, store, cut);
    rewards := FixRewards(results, p.height, emitted);
    var total := PayRewards(c, p, store, rewards);
    emittedAfter := Counted(emitted, total, cut);
  }

  method FixRewards(results: seq<PociResult>, height: nat, emitted: nat) returns (rewards: seq<PociResult>)
    ensures rewards == FinalRewards(results, height, emitted)
  {
    var effective := EffectiveReward(height, emitted);
    rewards := Divide(results, effective - TreasuryCut(effective));
    rewards := Trim(rewards, emitted);
  }

  // ---- Floors lose less than one unit each ----

  lemma FloorBounds(poci: nat, pool: nat, total: nat)
    requires total > 0 && poci <= total
    ensures poci * pool / total <= pool
    ensures poci * pool / total * total <= poci * pool <= poci * pool / total * total + total - 1
  {
    DivModOf(poci * pool, total);
    MulMono(poci, total, pool);
    var q := poci * pool / total;
    if q > pool {
      MulMono(pool + 1, q, total);
      MulDistrib(pool, 1, total);
    }
  }

  lemma {:induction false} PociWithin(results: seq<PociResult>, i: nat, n: nat)
    requires i < n <= |results|
    ensures results[i].poci <= PociSum(results, n)
    decreases n
  {
    if i < n - 1 {
      PociWithin(results, i, n - 1);
    }
  }

  lemma {:induction false} FloorSums(results: seq<PociResult>, pool: nat, n: nat)
    requires n <= |results| && PociSum(results, |results|) > 0 && pool < U64_LIMIT
    ensures var total, r := PociSum(results, |results|), RewardSum(Divided(results, pool), n);
      r * total <= PociSum(results, n) * pool <= r * total + n * (total - 1)
    decreases n
  {
    if n > 0 {
      var total := PociSum(results, |results|);
      var poci := results[n - 1].poci;
      var before, reward := RewardSum(Divided(results, pool), n - 1), poci * pool / total;
      FloorSums(results, pool, n - 1);
      PociWithin(results, n - 1, |results|);
      FloorBounds(poci, pool, total);
      assert Divided(results, pool)[n - 1].reward == reward;
      MulDistrib(before, reward, total);
      MulDistrib(PociSum(results, n - 1), poci, pool);
      MulDistrib(n - 1, 1, total - 1);
    }
  }

  // The rewards fit the pool and leave less than one unit per miner.
  lemma PoolDivided(results: seq<PociResult>, pool: nat)
    requires pool < U64_LIMIT && PociSum(results, |results|) > 0
    ensures var paid := RewardSum(Divided(results, pool), |results|);
      paid <= pool && pool - paid < |results|
  {
    var n, total := |results|, PociSum(results, |results|);
    FloorSums(results, pool, n);
    FloorsFit(RewardSum(Divided(results, pool), n), n, total, pool);
  }

  lemma FloorsFit(paid: nat, n: nat, total: nat, pool: nat)
    requires total > 0 && n > 0 && paid * total <= total * pool <= paid * total + n * (total - 1)
    ensures paid <= pool < paid + n
  {
    assert total * pool == pool * total && n * (total - 1) == n * total - n;
    if paid > pool {
      MulMono(pool + 1, paid, total);
      MulDistrib(pool, 1, total);
    } else if pool >= paid + n {
      MulMono(paid + n, pool, total);
      MulDistrib(paid, n, total);
    }
  }

  ghost predicate Unrewarded(results: seq<PociResult>) {
    forall i :: 0 <= i < |results| ==> results[i].reward == 0
  }

  lemma {:induction false} NoRewards(results: seq<PociResult>, n: nat)
    requires n <= |results| && Unrewarded(results)
    ensures RewardSum(results, n) == 0
    decreases n
  {
    if n > 0 { NoRewards(results, n - 1); }
  }

  // The trimming step never has anything to trim where it is called.
  lemma TrimIsNoOp(results: seq<PociResult>, height: nat, emitted: u64)
    requires Unrewarded(results)
    ensures var effective := EffectiveReward(height, emitted);
      var divided := Divided(results, effective - TreasuryCut(effective));
      && FinalRewards(results, height, emitted) == divided
      && RewardSum(divided, |divided|) + TreasuryCut(effective) <= effective
  {
    var effective := EffectiveReward(height, emitted);
    var pool := effective - TreasuryCut(effective);
    if PociSum(results, |results|) > 0 {
      PoolDivided(results, pool);
    } else {
      NoRewards(results, |results|);
    }
  }

  // ---- The treasury ----

  // The cut is seven per cent of the effective reward, rounded down, and with the miners' pool
  // it makes up the whole.
  lemma CutIsSevenPercent(height: nat, emitted: nat)
    ensures var effective := EffectiveReward(height, emitted);
      && 100 * TreasuryCut(effective) <= 7 * effective < 100 * (TreasuryCut(effective) + 1)
      && TreasuryCut(effective) <= effective
  {
    DivModOf(EffectiveReward(height, emitted) * 700, 10_000);
  }

  lemma TreasuryPreimagesDiffer(e: u32, f: u32)
    ensures TREASURY_TAG + LittleEndian(e, 4) == TREASURY_TAG + LittleEndian(f, 4) <==> e == f
  {
    if TREASURY_TAG + LittleEndian(e, 4) == TREASURY_TAG + LittleEndian(f, 4) {
      PowValues();
      SplitConcat(TREASURY_TAG, LittleEndian(e, 4), TREASURY_TAG, LittleEndian(f, 4));
      LittleEndianInjective(e, f, 4);
    }
  }

  // An epoch end leaves all other outputs alone and adds exactly the cut, when the address
  // decodes and no output of that epoch's id is there yet.
  lemma TreasuryGetsTheCut(c: Crypto, epoch: u32, utxos: Utxos, cut: u64)
    requires c.decodeAddress(TREASURY_ADDRESS).Some? && TreasuryOutpoint(c, epoch) !in utxos
    ensures var after, o := TreasuryPaid(c, epoch, utxos, cut), TreasuryOutpoint(c, epoch);
      && Total(after) == Total(utxos) + cut
      && after - {o} == utxos
      && (o in after <==> cut > 0)
      && (o in after ==> after[o] == TxOut(cut, P2pkh(c.decodeAddress(TREASURY_ADDRESS).value)))
  {
    var o := TreasuryOutpoint(c, epoch);
    assert utxos - {o} == utxos;
    if cut > 0 {
      TotalAdd(utxos, o, TxOut(cut, P2pkh(c.decodeAddress(TREASURY_ADDRESS).value)));
    }
  }

  // ---- Value created ----

  lemma {:induction false} PaidValue(c: Crypto, p: Payday, utxos: Utxos, results: seq<PociResult>, n: nat)
    requires n <= |results|
    ensures Total(Paid(c, p, utxos, results, n)) <= Total(utxos) + RewardSum(results, n)
    decreases n
  {
    if n > 0 {
      PaidValue(c, p, utxos, results, n - 1);
      var r, prev := results[n - 1], Paid(c, p, utxos, results, n - 1);
      var out := OutputTo(c, PayoutAddress(p, r.id), r.reward);
      if out.Some? {
        TotalAdd(prev, RewardOutpoint(c, p, r.id), out.value);
      }
    }
  }

  // Created value <= counted emission <= effective reward, and the counter never passes the
  // supply cap unless it was already past it; for any list of results, hence for any
  // iteration order of the miners.
  lemma EmissionConserves(c: Crypto, p: Payday, utxos: Utxos, results: seq<PociResult>, emitted: u64)
    requires Unrewarded(results)
    ensures var after, total := Emitted(results, p.height, emitted), Total(UtxosAfterEpoch(c, p, utxos, results, emitted));
      && emitted <= after <= emitted + EffectiveReward(p.height, emitted)
      && after <= Max(emitted, MAX_SUPPLY_LYT)
      && total <= Total(utxos) + (after - emitted)
  {
    TrimIsNoOp(results, p.height, emitted);
    var r := FinalRewards(results, p.height, emitted);
    var cut := TreasuryCut(EffectiveReward(p.height, emitted));
    var withTreasury := TreasuryPaid(c, p.epoch, utxos, cut);
    var out := OutputTo(c, Some(TREASURY_ADDRESS), cut);
    if out.Some? {
      TotalAdd(utxos, TreasuryOutpoint(c, p.epoch), out.value);
    }
    PaidValue(c, p, withTreasury, r, |r|);
  }
}
