// What an epoch end does to bonds, miners, loyalty, emission and the unspent outputs.

module Economies {
  import opened BlockValue
  import opened Bytes
  import opened Emission
  import opened Ledger
  import L = Loyalty
  import opened Poci
  import opened Records
  import opened Transactions
  import opened Wrappers

  datatype Economy = Economy(
    epoch: u32,
    utxos: Utxos,
    bonds: map<MinerId, Bond>,
    miners: map<MinerId, Miner>,
    loyalty: map<MinerId, L.State>,
    emitted: u64)

  // Who this node pays itself as.
  datatype Identity = Identity(local: MinerId, wallet: Option<string>)

  function LoyaltyOf(loyalty: map<MinerId, L.State>, id: MinerId): L.State {
    if id in loyalty then loyalty[id] else L.NEW
  }

  function LoyaltyValues(loyalty: map<MinerId, L.State>): map<MinerId, nat> {
    map id | id in loyalty :: loyalty[id].value
  }

  predicate Participated(results: seq<PociResult>, id: MinerId) {
    exists i :: 0 <= i < |results| && results[i].id == id && results[i].shares > 0
  }

  // Loyalty after the first n miners in turn were updated.
  function LoyaltyAfter(loyalty: map<MinerId, L.State>, epoch: nat, results: seq<PociResult>, order: seq<MinerId>, n: nat)
    : map<MinerId, L.State>
    requires n <= |order|
  {
    if n == 0 then loyalty
    else
      var before, id := LoyaltyAfter(loyalty, epoch, results, order, n - 1), order[n - 1];
      before[id := L.Updated(LoyaltyOf(before, id), epoch, Participated(results, id))]
  }

  function SharesReset(miners: map<MinerId, Miner>): map<MinerId, Miner> {
    map id | id in miners :: miners[id].(shares := 0)
  }

  // Slashed miners are gone before anything is paid.
  function Slashed(e: Economy, slashed: set<MinerId>): Economy {
    e.(bonds := e.bonds - slashed, miners := e.miners - slashed, loyalty := e.loyalty - slashed)
  }

  function PaydayOf(who: Identity, e: Economy, height: nat): Payday {
    Payday(height, e.epoch, who.local, who.wallet, e.miners)
  }

  ghost function ResultsOf(e: Economy, order: seq<MinerId>): seq<PociResult> {
    Results(e.miners, e.bonds, LoyaltyValues(e.loyalty), order)
  }

  // `order` is the order in which the map of remaining miners iterates.
  ghost function EpochClosed(c: Crypto, who: Identity, e: Economy, height: nat, slashed: set<MinerId>, order: seq<MinerId>): Economy {
    var left := Slashed(e, slashed);
    var results := ResultsOf(left, order);
    Economy(Min(e.epoch + 1, U32_LIMIT - 1),
            UtxosAfterEpoch(c, PaydayOf(who, left, height), e.utxos, results, e.emitted),
            left.bonds,
            SharesReset(left.miners),
            LoyaltyAfter(left.loyalty, e.epoch, results, order, |order|),
            Emitted(results, height, e.emitted))
  }

  method CloseEpoch(c: Crypto, who: Identity, store: Store, ghost e: Economy, epoch: u32, height: nat,
                    miners: map<MinerId, Miner>, loyalty: map<MinerId, L.State>, emitted: u64,
                    slashed: set<MinerId>, order: seq<MinerId>)
    returns (epochAfter: u32, minersAfter: map<MinerId, Miner>, loyaltyAfter: map<MinerId, L.State>, emittedAfter: u64)
    requires e == Economy(epoch, store.utxos, store.bonds, miners, loyalty, emitted)
    requires Enumerates(order, (miners - slashed).Keys) && RootsFit(miners - slashed, store.bonds)
    modifies store
    ensures Economy(epochAfter, store.utxos, store.bonds, minersAfter, loyaltyAfter, emittedAfter)
         == EpochClosed(c, who, e, height, slashed, order)
  {
    ghost var left := Slashed(e, slashed);
    store.bonds := store.bonds - slashed;
    minersAfter := miners - slashed;
    loyaltyAfter := loyalty - slashed;
    assert forall id :: id in minersAfter ==> BondAmount(store.bonds, id) == BondAmount(old(store.bonds), id);
    var results := CalculatePoci(minersAfter, store.bonds, LoyaltyValues(loyaltyAfter), order);
    assert results == ResultsOf(left, order);
    var rewards;
    emittedAfter, rewards := EmitEpoch(c, Payday(height, epoch, who.local, who.wallet, minersAfter), store, results, emitted);
    loyaltyAfter := UpdateLoyalty(loyaltyAfter, epoch, results, rewards, order, emitted, height);
    minersAfter := SharesReset(minersAfter);
    epochAfter := Min(epoch + 1, U32_LIMIT - 1);
  }

  method UpdateLoyalty(loyalty: map<MinerId, L.State>, epoch: u32, ghost results: seq<PociResult>, rewards: seq<PociResult>,
                       order: seq<MinerId>, ghost emitted: u64, ghost height: nat)
    returns (after: map<MinerId, L.State>)
    requires rewards == FinalRewards(results, height, emitted)
    ensures after == LoyaltyAfter(loyalty, epoch, results, order, |order|)
  {
    after := loyalty;
    for i := 0 to |order|
      invariant after == LoyaltyAfter(loyalty, epoch, results, order, i)
    {
      SameParticipation(results, height, emitted, order[i]);
      after := after[order[i] := L.Updated(LoyaltyOf(after, order[i]), epoch, Participated(rewards, order[i]))];
    }
  }

  // Rewarding changes neither ids nor share counts.
  lemma SameParticipation(results: seq<PociResult>, height: nat, emitted: nat, id: MinerId)
    ensures Participated(FinalRewards(results, height, emitted), id) <==> Participated(results, id)
  {
    var r := FinalRewards(results, height, emitted);
    assert forall i :: 0 <= i < |results| ==> r[i].id == results[i].id && r[i].shares == results[i].shares;
  }

  // ---- What it keeps ----

  lemma UnrewardedResults(e: Economy, order: seq<MinerId>)
    ensures Unrewarded(ResultsOf(e, order))
  {}

  // An epoch end adds at most the effective reward, and moves the emission counter by at
  // least what it adds and never past the cap.
  lemma EpochEndIsBounded(c: Crypto, who: Identity, e: Economy, height: nat, slashed: set<MinerId>, order: seq<MinerId>)
    ensures var after := EpochClosed(c, who, e, height, slashed, order);
      && e.emitted <= after.emitted <= Max(e.emitted, MAX_SUPPLY_LYT)
      && after.emitted - e.emitted <= EffectiveReward(height, e.emitted)
      && Total(after.utxos) <= Total(e.utxos) + (after.emitted - e.emitted)
  {
    var left := Slashed(e, slashed);
    UnrewardedResults(left, order);
    EmissionConserves(c, PaydayOf(who, left, height), e.utxos, ResultsOf(left, order), e.emitted);
  }

  lemma {:induction false} PaidIndexed(c: Crypto, p: Payday, utxos: Utxos, results: seq<PociResult>, n: nat)
    requires n <= |results| && Indexed(utxos)
    ensures Indexed(Paid(c, p, utxos, results, n))
    decreases n
  {
    if n > 0 {
      PaidIndexed(c, p, utxos, results, n - 1);
    }
  }

  lemma EpochEndIndexed(c: Crypto, who: Identity, e: Economy, height: nat, slashed: set<MinerId>, order: seq<MinerId>)
    requires Indexed(e.utxos)
    ensures Indexed(EpochClosed(c, who, e, height, slashed, order).utxos)
  {
    var left := Slashed(e, slashed);
    var p, results := PaydayOf(who, left, height), ResultsOf(left, order);
    var r := FinalRewards(results, height, e.emitted);
    var withTreasury := TreasuryPaid(c, e.epoch, e.utxos, TreasuryCut(EffectiveReward(height, e.emitted)));
    assert Indexed(withTreasury);
    PaidIndexed(c, p, withTreasury, r, |r|);
  }

  // Each remaining miner's loyalty moves by one update for the closed epoch.
  lemma {:induction false} LoyaltyMovesOnce(loyalty: map<MinerId, L.State>, epoch: nat, results: seq<PociResult>, order: seq<MinerId>,
                                            n: nat, id: MinerId)
    requires n <= |order| && forall i, j :: 0 <= i < j < |order| ==> order[i] != order[j]
    ensures LoyaltyOf(LoyaltyAfter(loyalty, epoch, results, order, n), id) ==
      if id in order[..n] then L.Updated(LoyaltyOf(loyalty, id), epoch, Participated(results, id)) else LoyaltyOf(loyalty, id)
    decreases n
  {
    if n > 0 {
      LoyaltyMovesOnce(loyalty, epoch, results, order, n - 1, id);
      assert order[..n] == order[..n - 1] + [order[n - 1]];
    }
  }
}
