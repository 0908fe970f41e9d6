// What every operation of the node keeps, in every interleaving with in-flight mining jobs.

module NodeInvariants {
  import opened BlockValue
  import opened Blocks
  import opened Bytes
  import opened Chains
  import opened Economies
  import opened Ledger
  import opened Mempools
  import opened NodeSpecs
  import opened Transactions
  import opened Wrappers

  ghost predicate Inv(env: Env, n: Node) {
    && Linked(Hash(env), n.chain)
    && Indexed(n.econ.utxos)
    && PoolRight(env.c, n.pool.txs)
    && MemoRight(n.chain, n.memo)
  }

  // ---- One operation at a time ----

  lemma WithBlockKeeps(env: Env, n: Node, b: Block)
    requires Inv(env, n) && Extending(Hash(env), n.chain, b)
    ensures Inv(env, WithBlock(env, n, b, HeaderHash(env.c, b.header)))
  {
    PushedLinked(Hash(env), n.chain, b);
    IndexedPreserved(env.c, n.econ.utxos, b.txs, |b.txs|);
  }

  lemma AfterEpochKeeps(env: Env, call: Call, n: Node)
    requires Inv(env, n)
    ensures Inv(env, AfterEpoch(env, call, n))
  {
    EpochEndIndexed(env.c, env.who, n.econ, n.chain.height, call.slashed, call.order);
  }

  lemma AcceptKeeps(env: Env, call: Call, n: Node, b: Block)
    requires Inv(env, n)
    ensures Inv(env, Accept(env, call, n, b).0)
  {
    if AcceptCheck(env, call, n, b) == None {
      WithBlockKeeps(env, n, b);
      AfterEpochKeeps(env, call, WithBlock(env, n, b, HeaderHash(env.c, b.header)));
      WithoutRight(env.c, n.pool.txs, IncludedIds(env.c, b.txs));
    }
  }

  lemma {:induction false} UndoneIndexed(c: Crypto, utxos: Utxos, txs: seq<Transaction>, k: nat)
    requires k <= |txs| && Indexed(utxos)
    ensures Indexed(Undo(c, utxos, txs, k))
    decreases k
  {
    if k > 0 {
      UndoneIndexed(c, utxos, txs, k - 1);
    }
  }

  lemma UndoTipIndexed(c: Crypto, ch: Chain, utxos: Utxos)
    requires Indexed(utxos)
    ensures Indexed(UndoTip(c, ch, utxos))
  {
    if ch.height in ch.stored {
      UndoneIndexed(c, utxos, ch.stored[ch.height].txs, |ch.stored[ch.height].txs|);
    }
  }

  lemma {:induction false} UndoToIndexed(env: Env, ch: Chain, utxos: Utxos, target: nat)
    requires Indexed(utxos)
    ensures Indexed(UndoTo(env, ch, utxos, target))
    decreases ch.height
  {
    if ch.height > target {
      UndoTipIndexed(env.c, ch, utxos);
      UndoToIndexed(env, Popped(Hash(env), ch), UndoTip(env.c, ch, utxos), target);
    }
  }

  lemma RollBackKeeps(env: Env, n: Node, target: nat)
    requires Inv(env, n)
    ensures Inv(env, RollBack(env, n, target))
    ensures RollBack(env, n, target).chain.height == Min(n.chain.height, target)
  {
    PoppedToLinked(Hash(env), n.chain, target);
    UndoToIndexed(env, n.chain, n.econ.utxos, target);
  }

  lemma TipDroppedKeeps(env: Env, n: Node)
    requires Inv(env, n) && n.chain.height > 0
    ensures Inv(env, TipDropped(env, n))
  {
    PoppedLinked(Hash(env), n.chain);
    UndoTipIndexed(env.c, n.chain, n.econ.utxos);
  }

  lemma AcceptOnKeeps(env: Env, call: Call, n: Node, b: Block)
    requires Inv(env, n)
    ensures Inv(env, AcceptOn(env, call, n, b).0)
  {
    AcceptKeeps(env, call, n, b);
  }

  lemma StashedKeeps(env: Env, n: Node, b: Block)
    requires Inv(env, n)
    ensures Inv(env, Stashed(n, b))
  {}

  lemma MultiReorgKeeps(env: Env, call: Call, n: Node, b: Block)
    requires Inv(env, n)
    ensures Inv(env, MultiReorg(env, call, n, b).0)
    ensures MultiReorg(env, call, n, b).1 != Err(TipMissing)
  {
    StashedKeeps(env, n, b);
    if b.header.prevHash in n.chain.index {
      var fork := n.chain.index[b.header.prevHash];
      RollBackKeeps(env, n, fork);
      AcceptOnKeeps(env, call, RollBack(env, n, fork), b);
    }
  }

  // How a fork switch can end.
  ghost predicate ForkOutcome(env: Env, call: Call, n: Node, b: Block, out: (Node, Result<bool, ForkError>)) {
    || out == (n, Ok(false))
    || out == (Stashed(n, b), Ok(false))
    || out == MultiReorg(env, call, n, b)
    || (n.chain.height > 0 && out == AcceptOn(env, call, TipDropped(env, n), b))
    || (n.chain.height !in n.chain.stored && out == (n, Err(TipMissing)))
  }

  lemma ForkSwitchOutcome(env: Env, call: Call, n: Node, b: Block)
    ensures ForkOutcome(env, call, n, b, ForkSwitch(env, call, n, b))
  {}

  lemma OutcomeKeeps(env: Env, call: Call, n: Node, b: Block, out: (Node, Result<bool, ForkError>))
    requires Inv(env, n) && ForkOutcome(env, call, n, b, out)
    ensures Inv(env, out.0) && out.1 != Err(TipMissing)
  {
    StashedKeeps(env, n, b);
    MultiReorgKeeps(env, call, n, b);
    if n.chain.height > 0 {
      TipDroppedKeeps(env, n);
      AcceptOnKeeps(env, call, TipDropped(env, n), b);
    }
  }

  // Also when the switch fails after the old tip is gone; the tip is never found missing.
  lemma ForkSwitchKeeps(env: Env, call: Call, n: Node, b: Block)
    requires Inv(env, n)
    ensures Inv(env, ForkSwitch(env, call, n, b).0)
    ensures ForkSwitch(env, call, n, b).1 != Err(TipMissing)
  {
    ForkSwitchOutcome(env, call, n, b);
    OutcomeKeeps(env, call, n, b, ForkSwitch(env, call, n, b));
  }

  // ---- Jobs ----

  // What holds of a job for good, whatever happens to the node after it was handed out.
  ghost predicate JobRight(env: Env, job: Job) {
    && job.header.prevHash == job.prevHash
    && job.header.difficulty == job.difficulty
    && job.header.merkleRoot == BlockRoot(env.c, job.txs)
    && DistinctIds(env.c, job.txs) && NoDoubleSpend(job.txs)
  }

  lemma DistinctIdsOfFronted(c: Crypto, all: seq<Transaction>, txs: seq<Transaction>)
    requires Fronts(all, txs) && AllApart(c, txs)
    ensures DistinctIds(c, all)
  {
    forall i, j | 0 <= i < j < |all| && !IsCoinbase(all[i]) && !IsCoinbase(all[j])
      ensures c.txid(all[i]) != c.txid(all[j])
    {
      FrontedAt(all, txs, i);
      FrontedAt(all, txs, j);
      assert Apart(c, txs[i - 1], txs[j - 1]);
    }
  }

  lemma TemplateFronts(env: Env, n: Node, output: TxOut)
    requires |output.script| < U32_LIMIT
    ensures Fronts(TemplateTxs(env, n, output), Template(env.size, n.pool.txs, n.econ.utxos))
    ensures ValueSum(TemplateTxs(env, n, output)[0].outputs) == output.value
  {
    OneOutput(output);
  }

  // Every job is well formed, and its transactions pass both validators on the outputs of
  // the node that prepared it.
  lemma PrepareKeeps(env: Env, call: Call, n: Node)
    requires Inv(env, n)
    ensures Inv(env, Prepare(env, call, n).0)
    ensures Prepare(env, call, n).1.Some? ==>
      var job := Prepare(env, call, n).1.value;
      && JobRight(env, job) && Passes(job.txs, n.econ.utxos)
      && job.prevHash == TipHash(Hash(env), n.chain) && job.height == n.chain.height + 1
      && job.generation == n.generation && job.difficulty == NextDifficulty(n.chain)
  {
    MemoAgrees(n.chain, n.memo);
    var out := RewardOutput(env, n);
    if out.Some? {
      var txs, chosen := TemplateTxs(env, n, out.value), Template(env.size, n.pool.txs, n.econ.utxos);
      TemplateFronts(env, n, out.value);
      TemplatePasses(env.c, env.size, n.pool.txs, n.econ.utxos, txs);
      DistinctIdsOfFronted(env.c, txs, chosen);
    }
  }

  // A commit of a matching nonce and hash either leaves the chain alone or extends the tip
  // the job was built on; its two error results do not occur.
  lemma CommitKeeps(env: Env, call: Call, n: Node, job: Job, nonce: u64, found: bool)
    requires Inv(env, n) && JobRight(env, job)
    ensures var hash := HeaderHash(env.c, job.header.(nonce := nonce));
      var (m, r) := Commit(env, call, n, job, nonce, hash, found);
      && Inv(env, m) && r.Ok?
      && (m == n ||
           (m.chain == Pushed(n.chain, MinedBlock(env, job, nonce), hash)
            && job.prevHash == TipHash(Hash(env), n.chain) && job.generation == n.generation))
  {
    var hash := HeaderHash(env.c, job.header.(nonce := nonce));
    if !Stale(env, n, job, hash) && found {
      var b := MinedBlock(env, job, nonce);
      WithBlockKeeps(env, n, b);
      CommitPoolRight(env.c, n.pool, job.txs, n.chain.height + 1);
      AfterEpochKeeps(env, call, MinedOnto(env, n, job, nonce, hash));
    }
  }

  lemma CommitPoolRight(c: Crypto, p: TxPool, txs: seq<Transaction>, height: nat)
    requires PoolRight(c, p.txs)
    ensures PoolRight(c, AfterCommit(c, p, txs, height).txs)
  {
    WithoutRight(c, p.txs, IncludedIds(c, txs));
  }

  lemma AddKeeps(env: Env, n: Node, tx: Transaction)
    requires Inv(env, n)
    ensures Inv(env, AddTransaction(env, n, tx))
  {
    AddedTxRight(env.c, n.pool, tx, n.econ.utxos, n.chain.height, env.poolLimit);
  }
}
