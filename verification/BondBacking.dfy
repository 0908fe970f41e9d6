// Whether bonds are backed by unspent outputs.

module BondBacking {
  import opened BlockValue
  import opened Blocks
  import opened Bytes
  import opened Ledger
  import opened NodeExamples
  import opened NodeSpecs
  import opened NodeSupply
  import opened Origins
  import opened Records
  import opened Transactions
  import opened Wrappers

  predicate MakesBond(out: TxOut, id: MinerId) { CreatesBond(out) && BondMiner(out.script) == Some(id) }

  predicate Backs(utxos: Utxos, o: OutPoint, id: MinerId, amount: nat) {
    o in utxos && MakesBond(utxos[o], id) && utxos[o].value == amount
  }

  // Every bond stands for an unspent bond output of its miner and amount.
  ghost predicate AllBacked(utxos: Utxos, bonds: map<MinerId, Bond>) {
    forall id :: id in bonds ==> Backed(utxos, id, bonds[id].amount)
  }

  ghost predicate Backed(utxos: Utxos, id: MinerId, amount: nat) { exists o :: Backs(utxos, o, id, amount) }

  // ---- Which bonds a block renews ----

  ghost predicate RenewedBy(outs: seq<TxOut>, n: nat, id: MinerId)
    requires n <= |outs|
  {
    exists j :: 0 <= j < n && MakesBond(outs[j], id)
  }

  ghost predicate Renewed(txs: seq<Transaction>, n: nat, id: MinerId)
    requires n <= |txs|
  {
    exists i :: 0 <= i < n && RenewedBy(txs[i].outputs, |txs[i].outputs|, id)
  }

  ghost predicate BondFrom(outs: seq<TxOut>, height: nat, n: nat, id: MinerId, bond: Bond)
    requires n <= |outs|
  {
    exists j :: 0 <= j < n && MakesBond(outs[j], id) && bond == BondOf(outs[j], height)
  }

  lemma {:induction false} BondsOfOutputsAt(bonds: map<MinerId, Bond>, outs: seq<TxOut>, height: nat, n: nat, id: MinerId)
    requires n <= |outs|
    ensures var after := BondsOfOutputs(bonds, outs, height, n);
      if RenewedBy(outs, n, id) then id in after && BondFrom(outs, height, n, id, after[id])
      else (id in after <==> id in bonds) && (id in bonds ==> after[id] == bonds[id])
    decreases n
  {
    if n > 0 {
      BondsOfOutputsAt(bonds, outs, height, n - 1, id);
      if MakesBond(outs[n - 1], id) {
        assert BondFrom(outs, height, n, id, BondOf(outs[n - 1], height));
      }
    }
  }

  // The bond of a miner after a block: from an output of the block, if one makes it.
  lemma {:induction false} BondsAfterAt(bonds: map<MinerId, Bond>, txs: seq<Transaction>, height: nat, n: nat, id: MinerId)
    requires n <= |txs|
    ensures var after := BondsAfter(bonds, txs, height, n);
      if Renewed(txs, n, id)
      then id in after && exists i :: 0 <= i < n && BondFrom(txs[i].outputs, height, |txs[i].outputs|, id, after[id])
      else (id in after <==> id in bonds) && (id in bonds ==> after[id] == bonds[id])
    decreases n
  {
    if n > 0 {
      var outs := txs[n - 1].outputs;
      BondsAfterAt(bonds, txs, height, n - 1, id);
      BondsOfOutputsAt(BondsAfter(bonds, txs, height, n - 1), outs, height, |outs|, id);
    }
  }

  // Output j of transaction i makes a bond for the miner and nothing after it in the block does.
  ghost predicate LastMaker(txs: seq<Transaction>, i: nat, j: nat, id: MinerId) {
    && i < |txs| && j < |txs[i].outputs| && MakesBond(txs[i].outputs[j], id)
    && (forall k :: j < k < |txs[i].outputs| ==> !MakesBond(txs[i].outputs[k], id))
    && (forall m :: i < m < |txs| ==> !RenewedBy(txs[m].outputs, |txs[m].outputs|, id))
  }

  lemma {:induction false} LastOfOutputs(bonds: map<MinerId, Bond>, outs: seq<TxOut>, height: nat, j: nat, n: nat, id: MinerId)
    requires j < n <= |outs| && MakesBond(outs[j], id) && forall k :: j < k < n ==> !MakesBond(outs[k], id)
    ensures var after := BondsOfOutputs(bonds, outs, height, n); id in after && after[id] == BondOf(outs[j], height)
    decreases n
  {
    if j < n - 1 {
      LastOfOutputs(bonds, outs, height, j, n - 1, id);
      assert !MakesBond(outs[n - 1], id);
    }
  }

  lemma {:induction false} LastOfBlock(bonds: map<MinerId, Bond>, txs: seq<Transaction>, height: nat, i: nat, j: nat, n: nat, id: MinerId)
    requires i < n <= |txs| && LastMaker(txs, i, j, id)
    ensures var after := BondsAfter(bonds, txs, height, n); id in after && after[id] == BondOf(txs[i].outputs[j], height)
    decreases n
  {
    var outs := txs[n - 1].outputs;
    if i < n - 1 {
      LastOfBlock(bonds, txs, height, i, j, n - 1, id);
      BondsOfOutputsAt(BondsAfter(bonds, txs, height, n - 1), outs, height, |outs|, id);
    } else {
      LastOfOutputs(BondsAfter(bonds, txs, height, n - 1), outs, height, j, |outs|, id);
    }
  }

  // The last bond output of a block for a miner becomes its bond: of that value, from this
  // height on, and locked for 20160 blocks, whatever its bond was before.
  lemma LastBondCounts(bonds: map<MinerId, Bond>, txs: seq<Transaction>, height: nat, i: nat, j: nat, id: MinerId)
    requires LastMaker(txs, i, j, id) && height + 20_160 < U64_LIMIT
    ensures txs[i].outputs[j].value >= 10_000_000
    ensures var after := BondsAfter(bonds, txs, height, |txs|);
      id in after && after[id] == Bond(txs[i].outputs[j].value, height, height + 20_160)
  {
    LastOfBlock(bonds, txs, height, i, j, |txs|, id);
  }

  // So a block the node takes, or mines, binds its last bond output for a miner from the block's
  // own height on, unless the miner is slashed as the block ends an epoch.
  lemma TakenBlockBinds(env: Env, call: Call, n: Node, b: Block, i: nat, j: nat, id: MinerId)
    requires Accept(env, call, n, b).1.Ok? && LastMaker(b.txs, i, j, id) && id !in call.slashed
    requires n.chain.height + 20_161 < U64_LIMIT
    ensures var bonds := Accept(env, call, n, b).0.econ.bonds;
      id in bonds && bonds[id] == Bond(b.txs[i].outputs[j].value, n.chain.height + 1, n.chain.height + 20_161)
  {
    AcceptedEconomy(env, call, n, b);
    BlockBinds(env, call, n, b, HeaderHash(env.c, b.header), i, j, id);
  }

  lemma AcceptedEconomy(env: Env, call: Call, n: Node, b: Block)
    requires Accept(env, call, n, b).1.Ok?
    ensures Accept(env, call, n, b).0.econ == AfterEpoch(env, call, WithBlock(env, n, b, HeaderHash(env.c, b.header))).econ
  {
    AcceptForm(env, call, n, b);
  }

  lemma BlockBinds(env: Env, call: Call, n: Node, b: Block, hash: Hash32, i: nat, j: nat, id: MinerId)
    requires LastMaker(b.txs, i, j, id) && id !in call.slashed && n.chain.height + 20_161 < U64_LIMIT
    ensures var bonds := AfterEpoch(env, call, WithBlock(env, n, b, hash)).econ.bonds;
      id in bonds && bonds[id] == Bond(b.txs[i].outputs[j].value, n.chain.height + 1, n.chain.height + 20_161)
  {
    LastBondCounts(n.econ.bonds, b.txs, n.chain.height + 1, i, j, id);
    EpochKeepsBond(env, call, WithBlock(env, n, b, hash), id);
  }

  lemma EpochKeepsBond(env: Env, call: Call, n: Node, id: MinerId)
    requires id in n.econ.bonds && id !in call.slashed
    ensures id in AfterEpoch(env, call, n).econ.bonds && AfterEpoch(env, call, n).econ.bonds[id] == n.econ.bonds[id]
  {}

  lemma MinedBlockBinds(env: Env, call: Call, n: Node, job: Job, nonce: u64, hash: Hash32, i: nat, j: nat, id: MinerId)
    requires LastMaker(job.txs, i, j, id) && id !in call.slashed && n.chain.height + 20_161 < U64_LIMIT
    ensures var bonds := Committed(env, call, n, job, nonce, hash).econ.bonds;
      id in bonds && bonds[id] == Bond(job.txs[i].outputs[j].value, n.chain.height + 1, n.chain.height + 20_161)
  {
    LastBondCounts(n.econ.bonds, job.txs, n.chain.height + 1, i, j, id);
    MinedBonds(env, n, job, nonce, hash);
    EpochKeepsBond(env, call, MinedOnto(env, n, job, nonce, hash), id);
  }

  lemma MinedBonds(env: Env, n: Node, job: Job, nonce: u64, hash: Hash32)
    ensures MinedOnto(env, n, job, nonce, hash).econ.bonds == BondsAfter(n.econ.bonds, job.txs, n.chain.height + 1, |job.txs|)
  {}

  // ---- What a block with new ids leaves stored ----

  lemma {:induction false} SpentIsFrom(txs: seq<Transaction>, n: nat)
    requires n <= |txs|
    ensures SpentBy(txs, n) + SpentFrom(txs, n) == SpentFrom(txs, 0)
    decreases n
  {
    if n > 0 {
      SpentIsFrom(txs, n - 1);
    }
  }

  lemma {:induction false} SpentEarlier(txs: seq<Transaction>, m: nat, n: nat)
    requires m <= n <= |txs|
    ensures SpentBy(txs, m) <= SpentBy(txs, n)
    decreases n
  {
    if m < n {
      SpentEarlier(txs, m, n - 1);
    }
  }

  // Outputs of the block stay: nothing spends them and no other transaction writes there.
  lemma {:induction false} CreatedStays(c: Crypto, utxos: Utxos, txs: seq<Transaction>, i: nat, n: nat, o: OutPoint)
    requires i < n <= |txs| && o in CreatedKeys(c.txid(txs[i]), |txs[i].outputs|)
    requires Fresh(c, txs, utxos) && o !in SpentBy(txs, n)
    ensures o in Apply(c, utxos, txs, n) && Apply(c, utxos, txs, n)[o] == txs[i].outputs[o.index]
    decreases n
  {
    CreatedKey(c.txid(txs[i]), |txs[i].outputs|, o);
    CreatedKey(c.txid(txs[n - 1]), |txs[n - 1].outputs|, o);
    if i < n - 1 {
      CreatedStays(c, utxos, txs, i, n - 1, o);
    }
  }

  lemma {:induction false} OldStays(c: Crypto, utxos: Utxos, txs: seq<Transaction>, n: nat, o: OutPoint)
    requires n <= |txs| && o in utxos && Fresh(c, txs, utxos)
    ensures o in Apply(c, utxos, txs, n) <==> o !in SpentBy(txs, n)
    ensures o in Apply(c, utxos, txs, n) ==> Apply(c, utxos, txs, n)[o] == utxos[o]
    decreases n
  {
    if n > 0 {
      OldStays(c, utxos, txs, n - 1, o);
      CreatedKey(c.txid(txs[n - 1]), |txs[n - 1].outputs|, o);
      assert c.txid(txs[n - 1]) == TxIds(c, txs)[n - 1];
    }
  }

  lemma NewNotSpent(c: Crypto, utxos: Utxos, txs: seq<Transaction>, i: nat, o: OutPoint)
    requires Passes(txs, utxos) && Indexed(utxos) && Fresh(c, txs, utxos)
    requires i < |txs| && o in CreatedKeys(c.txid(txs[i]), |txs[i].outputs|)
    ensures o !in SpentBy(txs, |txs|)
  {
    CreatedKey(c.txid(txs[i]), |txs[i].outputs|, o);
    SpentIsFrom(txs, |txs|);
    SpentExist(txs, utxos, 0);
    assert c.txid(txs[i]) == TxIds(c, txs)[i];
  }

  // ---- When every bond is backed after a block ----

  // Some output behind the bond is not spent by the block.
  ghost predicate KeepsBacker(utxos: Utxos, txs: seq<Transaction>, id: MinerId, amount: nat) {
    exists o :: Backs(utxos, o, id, amount) && o !in SpentBy(txs, |txs|)
  }

  lemma RenewedIsBacked(c: Crypto, utxos: Utxos, bonds: map<MinerId, Bond>, txs: seq<Transaction>, height: nat, id: MinerId)
    requires Passes(txs, utxos) && Indexed(utxos) && Fresh(c, txs, utxos) && Renewed(txs, |txs|, id)
    ensures id in BondsAfter(bonds, txs, height, |txs|)
    ensures Backed(Apply(c, utxos, txs, |txs|), id, BondsAfter(bonds, txs, height, |txs|)[id].amount)
  {
    BondsAfterAt(bonds, txs, height, |txs|, id);
    var bond := BondsAfter(bonds, txs, height, |txs|)[id];
    var i :| 0 <= i < |txs| && BondFrom(txs[i].outputs, height, |txs[i].outputs|, id, bond);
    var j :| 0 <= j < |txs[i].outputs| && MakesBond(txs[i].outputs[j], id) && bond == BondOf(txs[i].outputs[j], height);
    var o := OutPoint(c.txid(txs[i]), j);
    CreatedKey(c.txid(txs[i]), |txs[i].outputs|, o);
    NewNotSpent(c, utxos, txs, i, o);
    CreatedStays(c, utxos, txs, i, |txs|, o);
    assert Backs(Apply(c, utxos, txs, |txs|), o, id, bond.amount);
  }

  lemma GivesRenewed(txs: seq<Transaction>, tx: Transaction, o: OutPoint, out: TxOut, id: MinerId)
    requires tx in txs && GivenBy(tx, o, out) && MakesBond(out, id)
    ensures Renewed(txs, |txs|, id)
  {
    var i :| 0 <= i < |txs| && txs[i] == tx;
    assert MakesBond(txs[i].outputs[o.index], id);
    assert RenewedBy(txs[i].outputs, |txs[i].outputs|, id);
  }

  lemma BackerFrom(c: Crypto, utxos: Utxos, txs: seq<Transaction>, id: MinerId, amount: nat, o: OutPoint)
    requires Backs(Apply(c, utxos, txs, |txs|), o, id, amount)
    ensures Renewed(txs, |txs|, id) || (o in utxos && Apply(c, utxos, txs, |txs|)[o] == utxos[o])
  {
    var out := Apply(c, utxos, txs, |txs|)[o];
    AppliedFrom(c, utxos, txs, |txs|, o);
    if tx :| tx in txs && c.txid(tx) == o.txid && GivenBy(tx, o, out) {
      GivesRenewed(txs, tx, o, out, id);
    }
  }

  lemma OldBackedExactly(c: Crypto, utxos: Utxos, txs: seq<Transaction>, id: MinerId, amount: nat)
    requires Fresh(c, txs, utxos) && !Renewed(txs, |txs|, id)
    ensures Backed(Apply(c, utxos, txs, |txs|), id, amount) <==> KeepsBacker(utxos, txs, id, amount)
  {
    var after := Apply(c, utxos, txs, |txs|);
    if o :| Backs(after, o, id, amount) {
      BackerFrom(c, utxos, txs, id, amount, o);
      OldStays(c, utxos, txs, |txs|, o);
      assert Backs(utxos, o, id, amount);
    }
    if o :| Backs(utxos, o, id, amount) && o !in SpentBy(txs, |txs|) {
      OldStays(c, utxos, txs, |txs|, o);
      assert Backs(after, o, id, amount);
    }
  }

  // Bonds are stored apart from the outputs and outlive them. After a block with new ids all
  // bonds are backed exactly when each old bond that the block does not renew keeps an output
  // behind it that the block does not spend.
  lemma BackedAfterBlockExactly(c: Crypto, utxos: Utxos, bonds: map<MinerId, Bond>, txs: seq<Transaction>, height: nat)
    requires Passes(txs, utxos) && Indexed(utxos) && Fresh(c, txs, utxos)
    ensures AllBacked(Apply(c, utxos, txs, |txs|), BondsAfter(bonds, txs, height, |txs|)) <==>
      forall id :: id in bonds && !Renewed(txs, |txs|, id) ==> KeepsBacker(utxos, txs, id, bonds[id].amount)
  {
    var after := BondsAfter(bonds, txs, height, |txs|);
    forall id: MinerId
      ensures Renewed(txs, |txs|, id) ==> id in after && Backed(Apply(c, utxos, txs, |txs|), id, after[id].amount)
      ensures !Renewed(txs, |txs|, id) ==> (id in after <==> id in bonds) && (id in bonds ==> after[id] == bonds[id])
      ensures !Renewed(txs, |txs|, id) && id in bonds ==>
        (Backed(Apply(c, utxos, txs, |txs|), id, bonds[id].amount) <==> KeepsBacker(utxos, txs, id, bonds[id].amount))
    {
      if Renewed(txs, |txs|, id) {
        RenewedIsBacked(c, utxos, bonds, txs, height, id);
      } else {
        BondsAfterAt(bonds, txs, height, |txs|, id);
        if id in bonds {
          OldBackedExactly(c, utxos, txs, id, bonds[id].amount);
        }
      }
    }
  }

  // ---- Two inputs ----

  // A bond with the one output behind it, and a block that moves this output.
  lemma BondOutlivesOutput(c: Crypto, o: OutPoint, id: MinerId, amount: u64, height: nat, pay: TxOut)
    requires o.index != NO_INDEX && amount >= MINIMUM_BOND_LYT && pay == TxOut(BLOCK_REWARD_LYT, [])
    requires var utxos: Utxos := map[o := BondOutput(amount, id)];
      Fresh(c, [Coinbase(pay), Unsigned(o, TxOut(amount, []))], utxos)
    ensures var utxos: Utxos := map[o := BondOutput(amount, id)];
      var bonds := map[id := BondOf(utxos[o], height)];
      var txs: seq<Transaction> := [Coinbase(pay), Unsigned(o, TxOut(amount, []))];
      && Passes(txs, utxos) && AllBacked(utxos, bonds)
      && !AllBacked(Apply(c, utxos, txs, 2), BondsAfter(bonds, txs, height + 1, 2))
  {
    var utxos: Utxos := map[o := BondOutput(amount, id)];
    var bonds := map[id := BondOf(utxos[o], height)];
    var txs: seq<Transaction> := [Coinbase(pay), Unsigned(o, TxOut(amount, []))];
    UnsignedSpendPasses(c, o, [], pay, utxos);
    BondOutputMakes(amount, id);
    assert Backs(utxos, o, id, amount);
    BackedAfterBlockExactly(c, utxos, bonds, txs, height + 1);
    assert o in SpentBy(txs, 2);
    NothingRenewed(txs, id);
    assert !KeepsBacker(utxos, txs, id, amount);
  }

  lemma NothingRenewed(txs: seq<Transaction>, id: MinerId)
    requires forall i :: 0 <= i < |txs| ==> |txs[i].outputs| == 1 && txs[i].outputs[0].script == []
    ensures !Renewed(txs, |txs|, id)
  {}

  function BondOutput(amount: u64, id: MinerId): TxOut { TxOut(amount, [OP_BOND] + Raw(id)) }

  lemma BondOutputMakes(amount: u64, id: MinerId)
    requires amount >= MINIMUM_BOND_LYT
    ensures MakesBond(BondOutput(amount, id), id)
  {
    assert ([OP_BOND] + Raw(id))[1..21] == id;
  }

  // Whoever pays a smaller bond output to a miner's bond script makes that its bond.
  lemma SmallerBondReplaces(bonds: map<MinerId, Bond>, id: MinerId, amount: u64, height: nat)
    requires id in bonds && MINIMUM_BOND_LYT <= amount < bonds[id].amount
    ensures var after := BondsOfOutputs(bonds, [BondOutput(amount, id)], height, 1);
      id in after && after[id].amount == amount < bonds[id].amount
  {
    BondOutputMakes(amount, id);
    BondsOfOutputsAt(bonds, [BondOutput(amount, id)], height, 1, id);
    assert RenewedBy([BondOutput(amount, id)], 1, id) by { assert MakesBond([BondOutput(amount, id)][0], id); }
  }
}
