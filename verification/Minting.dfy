// What a block built from the mempool adds to the value of all unspent outputs.

module Minting {
  import opened BlockValue
  import opened Blocks
  import opened Bytes
  import opened Emission
  import opened Ledger
  import opened MempoolPolicies
  import opened Mempools
  import opened NodeInvariants
  import opened NodeSpecs
  import opened NodeSupply
  import opened Transactions
  import opened Wrappers

  lemma {:induction false} MintedFronted(all: seq<Transaction>, txs: seq<Transaction>, n: nat)
    requires Fronts(all, txs) && n <= |txs|
    ensures Minted(all, n + 1) == ValueSum(all[0].outputs) + Minted(txs, n)
    decreases n
  {
    if n > 0 {
      MintedFronted(all, txs, n - 1);
      FrontedAt(all, txs, n);
    } else {
      assert Minted(all, 0) == 0;
    }
  }

  lemma {:induction false} FeesFronted(all: seq<Transaction>, txs: seq<Transaction>, utxos: Utxos, n: nat)
    requires Fronts(all, txs) && n <= |txs|
    ensures FeeSum(txs, FeeIn(utxos), n) == Min(FeeTotal(all, utxos, n + 1), U64_LIMIT - 1)
    decreases n
  {
    if n > 0 {
      FeesFronted(all, txs, utxos, n - 1);
      FrontedAt(all, txs, n);
    }
  }

  // Value and fees after the block against value and minted outputs before it.
  lemma {:induction false} TemplateBalance(c: Crypto, utxos: Utxos, all: seq<Transaction>, txs: seq<Transaction>)
    requires Passes(all, utxos) && Indexed(utxos) && Fresh(c, all, utxos) && Fronts(all, txs)
    requires ValueSum(all[0].outputs) == TemplateReward(txs, utxos) && BLOCK_REWARD_LYT + FeeTotal(all, utxos, |all|) < U64_LIMIT
    ensures Total(Apply(c, utxos, all, |all|)) == Total(utxos) + BLOCK_REWARD_LYT + Minted(txs, |txs|)
  {
    BlockConserves(c, all, utxos);
    MintedFronted(all, txs, |txs|);
    FeesFronted(all, txs, utxos, |txs|);
  }

  // Committing a prepared block whose ids are fresh raises the value, before the epoch may
  // end, by exactly the block reward and what the chosen transactions of coinbase form pay out.
  lemma CommitMints(env: Env, call: Call, n: Node, job: Job, nonce: u64, hash: Hash32)
    requires Inv(env, n) && Prepare(env, call, n).1 == Some(job)
    requires Fresh(env.c, job.txs, n.econ.utxos)
    requires BLOCK_REWARD_LYT + FeeTotal(job.txs, n.econ.utxos, |job.txs|) < U64_LIMIT
    ensures var chosen := Template(env.size, n.pool.txs, n.econ.utxos);
      Value(MinedOnto(env, n, job, nonce, hash)) == Value(n) + BLOCK_REWARD_LYT + Minted(chosen, |chosen|)
  {
    PrepareKeeps(env, call, n);
    var output := RewardOutput(env, n).value;
    TemplateFronts(env, n, output);
    TemplateBalance(env.c, n.econ.utxos, job.txs, Template(env.size, n.pool.txs, n.econ.utxos));
  }

  lemma {:induction false} MintedCovers(txs: seq<Transaction>, n: nat, i: nat)
    requires i < n <= |txs| && IsCoinbase(txs[i])
    ensures Minted(txs, n) >= ValueSum(txs[i].outputs)
    decreases n
  {
    if i < n - 1 {
      MintedCovers(txs, n - 1, i);
    }
  }

  // So a waiting transaction of coinbase form that the choice reaches pays itself out of nothing.
  lemma {:induction false} WaitingFormMints(env: Env, call: Call, n: Node, job: Job, nonce: u64, hash: Hash32, i: nat)
    requires Inv(env, n) && Prepare(env, call, n).1 == Some(job)
    requires Fresh(env.c, job.txs, n.econ.utxos)
    requires BLOCK_REWARD_LYT + FeeTotal(job.txs, n.econ.utxos, |job.txs|) < U64_LIMIT
    requires i < |n.pool.txs| && IsCoinbase(n.pool.txs[i]) && Reached(env.size, n.pool.txs, n.econ.utxos, i)
    ensures Value(MinedOnto(env, n, job, nonce, hash)) >= Value(n) + BLOCK_REWARD_LYT + ValueSum(n.pool.txs[i].outputs)
  {
    CommitMints(env, call, n, job, nonce, hash);
    var chosen := Template(env.size, n.pool.txs, n.econ.utxos);
    TakenExactly(env.c, env.size, n.pool.txs, n.econ.utxos, i);
    var k :| 0 <= k < |chosen| && chosen[k] == n.pool.txs[i];
    MintedCovers(chosen, |chosen|, k);
  }
}
