// What a mining job asks for, and when committing it takes effect.

module Jobs {
  import opened BlockValue
  import opened Blocks
  import opened BondBacking
  import opened Bytes
  import opened Chains
  import HeaderTargets
  import opened Ledger
  import opened Mempools
  import opened NodeInvariants
  import opened NodeSpecs
  import opened Transactions
  import opened Wrappers

  // ---- The job ----

  // A child of the tip at the next height, timed by the clock of the call and carrying the
  // epoch, the computed target and the root of its transactions.
  ghost predicate NextHeader(env: Env, call: Call, n: Node, txs: seq<Transaction>, h: Header) {
    && h.version == 1 && h.prevHash == TipHash(Hash(env), n.chain) && h.merkleRoot == BlockRoot(env.c, txs)
    && h.timestamp == call.now && h.difficulty == NextDifficulty(n.chain) && h.epochIndex == n.econ.epoch
  }

  // One output for the block reward and the fees of the chosen transactions, to one key; the
  // height goes where a signature would.
  ghost predicate PaysKey(tx: Transaction, key: MinerId, height: nat, fees: nat) {
    && IsCoinbase(tx) && tx.inputs[0].scriptSig == LittleEndian(height, 8)
    && tx.outputs == [TxOut(Min(500_000 + fees, U64_LIMIT - 1), P2pkh(key))]
  }

  function FeesOf(txs: seq<Transaction>, utxos: Utxos): nat { FeeSum(txs, FeeIn(utxos), |txs|) }

  ghost predicate JobIs(env: Env, call: Call, n: Node, key: MinerId, job: Job) {
    var chosen := Template(env.size, n.pool.txs, n.econ.utxos);
    && NextHeader(env, call, n, job.txs, job.header)
    && job.height == n.chain.height + 1 && job.generation == n.generation
    && job.prevHash == job.header.prevHash && job.difficulty == job.header.difficulty
    && Fronts(job.txs, chosen) && PaysKey(job.txs[0], key, n.chain.height + 1, FeesOf(chosen, n.econ.utxos))
  }

  function WalletKey(env: Env): Option<MinerId> {
    if env.who.wallet.Some? then env.c.decodeAddress(env.who.wallet.value) else None
  }

  // There is a job exactly when the wallet's address decodes. It asks for the next header over
  // a coinbase to the wallet's key and the chosen transactions, and remembers where it belongs.
  lemma JobExactly(env: Env, call: Call, n: Node)
    requires Inv(env, n)
    ensures var job := Prepare(env, call, n).1;
      (job.Some? <==> WalletKey(env).Some?) && (job.Some? ==> JobIs(env, call, n, WalletKey(env).value, job.value))
  {
    MemoAgrees(n.chain, n.memo);
    JobParts(env, call, n);
  }

  lemma JobParts(env: Env, call: Call, n: Node)
    requires NextDifficultyMemo(n.chain, n.memo).0 == NextDifficulty(n.chain)
    ensures var job := Prepare(env, call, n).1;
      (job.Some? <==> WalletKey(env).Some?) && (job.Some? ==> JobIs(env, call, n, WalletKey(env).value, job.value))
  {}

  // Preparing changes nothing but the memo, and at a due height leaves the target remembered.
  lemma PreparedRemembers(env: Env, call: Call, n: Node)
    requires Inv(env, n) && Prepare(env, call, n).1.Some?
    ensures Prepare(env, call, n).0 == n.(memo := Prepare(env, call, n).0.memo)
    ensures n.chain.height % 120 == 119 ==> Prepare(env, call, n).0.memo == Some((n.chain.height, NextDifficulty(n.chain)))
  {
    MemoAgrees(n.chain, n.memo);
    HeaderTargets.DueAt(n.chain.height);
  }

  // Coinbases of different heights differ, so a wallet's rewards go to different transactions.
  lemma CoinbasesDiffer(out: TxOut, h: nat, k: nat)
    requires h < U64_LIMIT && k < U64_LIMIT && h != k
    ensures CoinbaseFor(out, h) != CoinbaseFor(out, k)
  {
    if CoinbaseFor(out, h) == CoinbaseFor(out, k) {
      assert CoinbaseFor(out, h).inputs[0].scriptSig == CoinbaseFor(out, k).inputs[0].scriptSig;
      PowValues();
      LittleEndianInjective(h, k, 8);
    }
  }

  // ---- The commit ----

  // The chain has not moved since the job was handed out, and the hash is new.
  ghost predicate Current(env: Env, n: Node, job: Job, hash: Hash32) {
    && job.generation == n.generation && job.height == n.chain.height + 1
    && job.prevHash == TipHash(Hash(env), n.chain) && hash !in n.chain.index
  }

  // No two of its ordinary transactions share an id.
  ghost predicate IdsDiffer(c: Crypto, txs: seq<Transaction>) {
    forall i, j :: 0 <= i < j < |txs| && !IsCoinbase(txs[i]) && !IsCoinbase(txs[j]) ==> c.txid(txs[i]) != c.txid(txs[j])
  }

  // The job's block under this nonce and hash is the new tip.
  ghost predicate Joins(n: Node, m: Node, job: Job, nonce: u64, hash: Hash32) {
    var height := n.chain.height + 1;
    && height in m.chain.stored && m.chain == Pushed(n.chain, m.chain.stored[height], hash)
    && m.chain.stored[height].header == job.header.(nonce := nonce) && m.chain.stored[height].txs == job.txs
  }

  // A commit adds the block exactly when the job is current, a block was found, and its
  // transactions share neither ids nor inputs. Otherwise nothing changes, and the answer says
  // why: discarded, only a share, or which of the two they share.
  lemma CommitsExactly(env: Env, call: Call, n: Node, job: Job, nonce: u64, hash: Hash32, found: bool)
    ensures var (m, r) := Commit(env, call, n, job, nonce, hash, found);
      if !Current(env, n, job, hash) then m == n && r == Ok(false)
      else if !found then m == n && r == Ok(true)
      else if !IdsDiffer(env.c, job.txs) then m == n && r == Err(DuplicateTransaction)
      else if !NoDoubleSpend(job.txs) then m == n && r == Err(DoubleSpend)
      else r == Ok(true) && Joins(n, m, job, nonce, hash)
  {}

  // Once it is committed the wallet's output is there to spend.
  lemma CommitPaysKey(env: Env, call: Call, n: Node, job: Job, nonce: u64, hash: Hash32, key: MinerId)
    requires Inv(env, n) && Prepare(env, call, n).1 == Some(job) && Fresh(env.c, job.txs, n.econ.utxos)
    requires WalletKey(env) == Some(key)
    ensures var utxos, o := MinedOnto(env, n, job, nonce, hash).econ.utxos, OutPoint(env.c.txid(job.txs[0]), 0);
      && o in utxos && utxos[o].script == P2pkh(key)
      && utxos[o].value == Min(500_000 + FeesOf(Template(env.size, n.pool.txs, n.econ.utxos), n.econ.utxos), U64_LIMIT - 1)
  {
    JobExactly(env, call, n);
    PrepareKeeps(env, call, n);
    var o := OutPoint(env.c.txid(job.txs[0]), 0);
    CreatedKey(env.c.txid(job.txs[0]), |job.txs[0].outputs|, o);
    NewNotSpent(env.c, n.econ.utxos, job.txs, 0, o);
    CreatedStays(env.c, n.econ.utxos, job.txs, 0, |job.txs|, o);
  }
}
