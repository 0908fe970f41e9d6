// The node as an object: every operation proved against its specification on values.

module Nodes {
  import opened Blocks
  import opened Bytes
  import opened Chains
  import opened Economies
  import opened Emission
  import opened Ledger
  import L = Loyalty
  import opened Mempools
  import M = Merkle
  import opened NodeSpecs
  import opened Poci
  import opened Records
  import opened StableSort
  import opened Targets
  import opened Transactions
  import opened Wrappers
  import opened Difficulty

  // What an epoch end needs of the outside: an order visiting each remaining miner once, and
  // roots that exist.
  ghost predicate Closable(call: Call, miners: map<MinerId, Miner>, bonds: map<MinerId, Bond>) {
    Enumerates(call.order, (miners - call.slashed).Keys) && RootsFit(miners - call.slashed, bonds)
  }

  // Only a block that ends an epoch asks for it.
  ghost predicate Ready(call: Call, n: Node, txs: seq<Transaction>) {
    (n.chain.height + 1) % EPOCH_BLOCKS == 0 ==>
      Closable(call, n.econ.miners, BondsAfter(n.econ.bonds, txs, n.chain.height + 1, |txs|))
  }

  class NodeState {
    const env: Env
    const store: Store
    var height: nat
    var epoch: u32
    var blocks: seq<Header>
    var blockHashes: map<Hash32, nat>
    var timestamps: seq<u64>
    var storedBlocks: map<nat, Block>
    var miners: map<MinerId, Miner>
    var loyalty: map<MinerId, L.State>
    var totalEmitted: u64
    var mempool: seq<Transaction>
    var processedTxids: map<Hash32, nat>
    var cachedDifficulty: Memo
    var chainGeneration: nat
    var forks: map<Hash32, seq<Block>>

    ghost function ChainAbs(): Chain
      reads this
    {
      Chain(height, blocks, blockHashes, timestamps, storedBlocks)
    }

    ghost function EconAbs(): Economy
      reads this, store
    {
      Economy(epoch, store.utxos, store.bonds, miners, loyalty, totalEmitted)
    }

    ghost function Abs(): Node
      reads this, store
    {
      Node(ChainAbs(), EconAbs(), TxPool(mempool, processedTxids), cachedDifficulty, chainGeneration, forks)
    }

    constructor (env: Env, genesis: Block)
      requires |genesis.txs| == 1 && genesis.txs[0].outputs != []
      ensures this.env == env && fresh(store) && Abs() == GenesisNode(env, genesis)
    {
      var s := new Store();
      s.utxos := s.utxos[OutPoint(env.c.txid(genesis.txs[0]), 0) := genesis.txs[0].outputs[0]];
      this.env, this.store := env, s;
      height, epoch := 0, 1;
      blocks, timestamps := [genesis.header], [genesis.header.timestamp];
      blockHashes := map[HeaderHash(env.c, genesis.header) := 0];
      storedBlocks := map[0 := genesis];
      miners, loyalty, totalEmitted := map[], map[], GENESIS_SUPPLY_LYT;
      mempool, processedTxids, cachedDifficulty, chainGeneration, forks := [], map[], None, 0, map[];
    }

    // ---- Reading ----

    function LastHash(): (h: Hash32)
      reads this
      ensures h == TipHash(Hash(env), ChainAbs())
    {
      if blocks == [] then ZERO_HASH else HeaderHash(env.c, blocks[|blocks| - 1])
    }

    method ComputeDifficultyForNextBlock() returns (t: Target)
      modifies this`cachedDifficulty
      ensures t == NextDifficultyMemo(ChainAbs(), old(cachedDifficulty)).0
      ensures cachedDifficulty == NextDifficultyMemo(ChainAbs(), old(cachedDifficulty)).1
    {
      var last := LastDifficulty(blocks);
      if !RetargetDue(height) {
        return last;
      }
      if cachedDifficulty.Some? && cachedDifficulty.value.0 == height {
        return cachedDifficulty.value.1;
      }
      if |timestamps| < DIFFICULTY_ADJUSTMENT_INTERVAL {
        return last;
      }
      t := Retargeted(timestamps, last);
      cachedDifficulty := Some((height, t));
    }

    // ---- accept_block ----

    method CheckHeader(call: Call, b: Block) returns (error: Option<AcceptError>)
      ensures error == AcceptCheck(env, call, Abs(), b)
        || (error == None && b.header.merkleRoot == BlockRoot(env.c, b.txs)
            && AcceptCheck(env, call, Abs(), b) == BodyCheck(b.txs, store.utxos))
    {
      var hash := HeaderHash(env.c, b.header);
      if hash in blockHashes {
        return Some(AlreadyKnown);
      }
      if b.header.prevHash != LastHash() {
        return Some(PrevHashMismatch);
      }
      var met := IsMetBy(b.header.difficulty, hash);
      if !met {
        return Some(BadPow);
      }
      if height + 1 in call.checkpoints && hash != call.checkpoints[height + 1] {
        return Some(BadPow);
      }
      if b.signature.None? || b.pubkey.None? || !env.c.ecdsa(b.pubkey.value, b.signature.value, hash) {
        return Some(BadSignature);
      }
      var prev := if height > 0 && blocks != [] then Some(blocks[|blocks| - 1].timestamp) else None;
      if !TimestampOk(b.header.timestamp, prev, Median(timestamps), call.now) {
        return Some(BadTimestamp);
      }
      var root := M.RootFromLeaves(env.c.sha, TxIds(env.c, b.txs));
      if b.header.merkleRoot != root {
        return Some(BadMerkle);
      }
      return None;
    }

    ghost function BodyCheck(txs: seq<Transaction>, utxos: Utxos): Option<AcceptError> {
      if CheckCoinbase(txs, utxos).Some? then Some(BadCoinbase(CheckCoinbase(txs, utxos).value))
      else if !NoDoubleSpend(txs) then Some(BadDoubleSpend)
      else None
    }

    method CheckBody(txs: seq<Transaction>) returns (error: Option<AcceptError>)
      ensures error == BodyCheck(txs, store.utxos)
    {
      var coinbase := ValidateCoinbase(txs, store.utxos);
      if coinbase.Some? {
        return Some(BadCoinbase(coinbase.value));
      }
      var ok := ValidateNoDoubleSpend(txs);
      if !ok {
        return Some(BadDoubleSpend);
      }
      return None;
    }

    method CheckBlock(call: Call, b: Block) returns (error: Option<AcceptError>)
      ensures error == AcceptCheck(env, call, Abs(), b)
    {
      error := CheckHeader(call, b);
      if error == None {
        error := CheckBody(b.txs);
      }
    }

    // Storage, headers, index, times and height; the memo is dropped and miners are told.
    method PushBlock(b: Block, hash: Hash32)
      modifies this`height, this`blocks, this`blockHashes, this`timestamps, this`storedBlocks, this`cachedDifficulty, this`chainGeneration
      ensures ChainAbs() == Pushed(old(ChainAbs()), b, hash)
      ensures cachedDifficulty == None && chainGeneration == old(chainGeneration) + 1
    {
      storedBlocks := storedBlocks[height + 1 := b];
      blocks := blocks + [b.header];
      blockHashes := blockHashes[hash := height + 1];
      timestamps := timestamps + [b.header.timestamp];
      height := height + 1;
      cachedDifficulty := None;
      chainGeneration := chainGeneration + 1;
    }

    method AppendBlock(b: Block, hash: Hash32)
      modifies this, store
      ensures Abs() == WithBlock(env, old(Abs()), b, hash)
    {
      PushBlock(b, hash);
      store.UpdateUtxoSet(env.c, b.txs, height);
    }

    method ProcessEpochEnd(call: Call)
      requires Closable(call, miners, store.bonds)
      modifies this`epoch, this`miners, this`loyalty, this`totalEmitted, store
      ensures EconAbs() == EpochClosed(env.c, env.who, old(EconAbs()), old(height), call.slashed, call.order)
      ensures Abs() == old(Abs()).(econ := EconAbs())
    {
      var e, m, l, t :=
        CloseEpoch(env.c, env.who, store, EconAbs(), epoch, height, miners, loyalty, totalEmitted, call.slashed, call.order);
      TakeEconomy(e, m, l, t);
    }

    method TakeEconomy(epoch: u32, miners: map<MinerId, Miner>, loyalty: map<MinerId, L.State>, emitted: u64)
      modifies this`epoch, this`miners, this`loyalty, this`totalEmitted
      ensures EconAbs() == Economy(epoch, store.utxos, store.bonds, miners, loyalty, emitted)
      ensures Abs() == old(Abs()).(econ := EconAbs())
    {
      this.epoch, this.miners, this.loyalty, totalEmitted := epoch, miners, loyalty, emitted;
    }

    method EndEpochIfDue(call: Call)
      requires height % EPOCH_BLOCKS == 0 ==> Closable(call, miners, store.bonds)
      modifies this, store
      ensures Abs() == AfterEpoch(env, call, old(Abs()))
    {
      if height % EPOCH_BLOCKS == 0 {
        ProcessEpochEnd(call);
      }
    }

    method PruneProcessedTxids()
      modifies this`processedTxids
      ensures TxPool(mempool, processedTxids) == Pruned(env.c, old(TxPool(mempool, processedTxids)), height)
    {
      var ids := PoolIds(env.c, mempool);
      processedTxids := map id | id in processedTxids && (processedTxids[id] > Max(height - PROCESSED_TXIDS_RETENTION, 0) || id in ids)
        :: processedTxids[id];
    }

    method FilterMempool(ids: set<Hash32>) returns (left: seq<Transaction>)
      ensures left == Without(env.c, mempool, ids)
    {
      left := [];
      for i := 0 to |mempool|
        invariant left == Without(env.c, mempool[..i], ids)
      {
        assert mempool[..i + 1][..i] == mempool[..i];
        if env.c.txid(mempool[i]) !in ids {
          left := left + [mempool[i]];
        }
      }
      assert mempool[..|mempool|] == mempool;
    }

    method SettleAfterAccept(txs: seq<Transaction>)
      modifies this`mempool, this`processedTxids
      ensures TxPool(mempool, processedTxids) == AfterAccept(env.c, old(TxPool(mempool, processedTxids)), txs, height)
    {
      PruneProcessedTxids();
      var ids := IncludedIds(env.c, txs);
      processedTxids := Recorded(processedTxids, ids, height);
      mempool := FilterMempool(ids);
    }

    method SettleAfterCommit(txs: seq<Transaction>)
      modifies this`mempool, this`processedTxids
      ensures TxPool(mempool, processedTxids) == AfterCommit(env.c, old(TxPool(mempool, processedTxids)), txs, height)
    {
      var ids := IncludedIds(env.c, txs);
      var left := FilterMempool(ids);
      processedTxids := Recorded(processedTxids, ids, height) - PoolIds(env.c, left);
      mempool := left;
      PruneProcessedTxids();
    }

    method AcceptBlock(call: Call, b: Block) returns (r: Result<(), AcceptError>)
      requires Ready(call, Abs(), b.txs)
      modifies this, store
      ensures (Abs(), r) == Accept(env, call, old(Abs()), b)
    {
      var error := CheckBlock(call, b);
      if error.Some? {
        return Err(error.value);
      }
      TakeBlock(call, b);
      return Ok(());
    }

    method TakeBlock(call: Call, b: Block)
      requires Ready(call, Abs(), b.txs)
      modifies this, store
      ensures Abs() == Accepted(env, call, old(Abs()), b)
    {
      AppendBlock(b, HeaderHash(env.c, b.header));
      EndEpochIfDue(call);
      SettleAfterAccept(b.txs);
    }

    // ---- rollback_to ----

    method PopTip()
      requires height > 0
      modifies this`height, this`blocks, this`blockHashes, this`timestamps, this`storedBlocks, store`utxos
      ensures ChainAbs() == Popped(Hash(env), old(ChainAbs()))
      ensures store.utxos == UndoTip(env.c, old(ChainAbs()), old(store.utxos))
    {
      if height in storedBlocks {
        var block := storedBlocks[height];
        store.RollbackUtxoSet(env.c, block.txs);
        blockHashes := blockHashes - {HeaderHash(env.c, block.header)};
      } else if blocks != [] {
        blockHashes := blockHashes - {HeaderHash(env.c, blocks[|blocks| - 1])};
      }
      storedBlocks := storedBlocks - {height};
      blocks := DropLast(blocks);
      timestamps := DropLast(timestamps);
      height := height - 1;
    }

    method PopDownTo(target: nat)
      requires target <= height
      modifies this`height, this`blocks, this`blockHashes, this`timestamps, this`storedBlocks, store`utxos
      ensures ChainAbs() == PoppedTo(Hash(env), old(ChainAbs()), target)
      ensures store.utxos == UndoTo(env, old(ChainAbs()), old(store.utxos), target)
    {
      while height > target
        invariant height >= target
        invariant PoppedTo(Hash(env), ChainAbs(), target) == PoppedTo(Hash(env), old(ChainAbs()), target)
        invariant UndoTo(env, ChainAbs(), store.utxos, target) == UndoTo(env, old(ChainAbs()), old(store.utxos), target)
        decreases height
      {
        PopTip();
      }
    }

    method RollbackBelow(target: nat)
      requires target < height
      modifies this`height, this`blocks, this`blockHashes, this`timestamps, this`storedBlocks,
               this`cachedDifficulty, this`chainGeneration, store`utxos
      ensures Abs() == RolledBack(env, old(Abs()), target)
    {
      PopDownTo(target);
      MarkMoved();
    }

    method MarkMoved()
      modifies this`cachedDifficulty, this`chainGeneration
      ensures Abs() == old(Abs()).(memo := None, generation := old(Abs()).generation + 1)
    {
      cachedDifficulty := None;
      chainGeneration := chainGeneration + 1;
    }

    method RollbackTo(target: nat)
      modifies this, store
      ensures Abs() == RollBack(env, old(Abs()), target)
    {
      if target >= height {
        return;
      }
      RollbackBelow(target);
    }

    // ---- try_fork_switch and try_multi_block_reorg ----

    method Stash(b: Block)
      modifies this`forks
      ensures Abs() == Stashed(old(Abs()), b)
    {
      var prev := b.header.prevHash;
      forks := forks[prev := (if prev in forks then forks[prev] else []) + [b]];
    }

    method DropTip()
      requires height > 0
      modifies this, store
      ensures Abs() == TipDropped(env, old(Abs()))
    {
      PopTip();
      cachedDifficulty := None;
    }

    method AcceptAfterRollback(call: Call, b: Block) returns (r: Result<bool, ForkError>)
      requires Ready(call, Abs(), b.txs)
      modifies this, store
      ensures (Abs(), r) == AcceptOn(env, call, old(Abs()), b)
    {
      var accepted := AcceptBlock(call, b);
      r := if accepted.Ok? then Ok(true) else Err(ReorgFailed(accepted.error));
    }

    method TryMultiBlockReorg(call: Call, b: Block) returns (r: Result<bool, ForkError>)
      requires MultiBase(env, Abs(), b).Some? ==> Ready(call, MultiBase(env, Abs(), b).value, b.txs)
      modifies this, store
      ensures (Abs(), r) == MultiReorg(env, call, old(Abs()), b)
    {
      if HeaderHash(env.c, b.header) in blockHashes {
        return Ok(false);
      }
      if b.header.prevHash !in blockHashes {
        Stash(b);
        return Ok(false);
      }
      var forkHeight := blockHashes[b.header.prevHash];
      if forkHeight >= height || forkHeight + 1 !in storedBlocks || !Heavier(env, b, storedBlocks[forkHeight + 1]) {
        return Ok(false);
      }
      RollbackTo(forkHeight);
      r := AcceptAfterRollback(call, b);
    }

    method TryForkSwitch(call: Call, b: Block) returns (r: Result<bool, ForkError>)
      requires ForkBase(env, Abs(), b).Some? ==> Ready(call, ForkBase(env, Abs(), b).value, b.txs)
      modifies this, store
      ensures (Abs(), r) == ForkSwitch(env, call, old(Abs()), b)
    {
      if HeaderHash(env.c, b.header) in blockHashes {
        return Ok(false);
      }
      if b.header.prevHash !in blockHashes {
        Stash(b);
        return Ok(false);
      }
      var forkHeight := blockHashes[b.header.prevHash];
      if forkHeight == height {
        return Ok(false);
      }
      if forkHeight + 1 != height {
        r := TryMultiBlockReorg(call, b);
        return;
      }
      if height !in storedBlocks {
        return Err(TipMissing);
      }
      if !Heavier(env, b, storedBlocks[height]) {
        return Ok(false);
      }
      DropTip();
      r := AcceptAfterRollback(call, b);
    }

    // ---- prepare_mining_job ----

    method PrepareMiningJob(call: Call) returns (job: Option<Job>)
      modifies this`cachedDifficulty
      ensures (Abs(), job) == Prepare(env, call, old(Abs()))
    {
      var chosen, fees := ChooseTransactions(env.size, mempool, store.utxos);
      var output := OutputTo(env.c, env.who.wallet, Min(BLOCK_REWARD_LYT + fees, U64_LIMIT - 1));
      assert output == RewardOutput(env, Abs());
      if output.None? {
        return None;
      }
      var txs: seq<Transaction> := [CoinbaseTx(output.value, height + 1)] + chosen;
      var built := BuildJob(call, txs);
      job := Some(built);
    }

    method BuildJob(call: Call, txs: seq<Transaction>) returns (job: Job)
      modifies this`cachedDifficulty
      ensures cachedDifficulty == NextDifficultyMemo(ChainAbs(), old(cachedDifficulty)).1
      ensures var prev, difficulty := TipHash(Hash(env), ChainAbs()), NextDifficultyMemo(ChainAbs(), old(cachedDifficulty)).0;
        job == Job(prev, height + 1, epoch, difficulty,
                   Header(1, prev, BlockRoot(env.c, txs), call.now, difficulty, 0, epoch), txs, chainGeneration)
    {
      var prev := LastHash();
      var difficulty := ComputeDifficultyForNextBlock();
      var root := M.RootFromLeaves(env.c.sha, TxIds(env.c, txs));
      job := Job(prev, height + 1, epoch, difficulty, Header(1, prev, root, call.now, difficulty, 0, epoch), txs, chainGeneration);
    }

    // ---- commit_mining_result ----

    method CheckDistinctIds(txs: seq<Transaction>) returns (ok: bool)
      ensures ok <==> DistinctIds(env.c, txs)
    {
      var seen: set<Hash32> := {};
      for i := 0 to |txs|
        invariant forall h :: h in seen <==> h in IncludedIds(env.c, txs[..i])
        invariant DistinctIds(env.c, txs[..i])
      {
        IncludedStep(env.c, txs, i);
        if !IsCoinbase(txs[i]) {
          var id := env.c.txid(txs[i]);
          if id in seen {
            RepeatedId(env.c, txs, i);
            return false;
          }
          seen := seen + {id};
        }
      }
      assert txs[..|txs|] == txs;
      return true;
    }

    method CommitMiningResult(call: Call, job: Job, nonce: u64, hash: Hash32, found: bool) returns (r: Result<bool, CommitError>)
      requires Ready(call, Abs(), job.txs)
      modifies this, store
      ensures (Abs(), r) == Commit(env, call, old(Abs()), job, nonce, hash, found)
    {
      if chainGeneration != job.generation || job.prevHash != LastHash() || job.height != height + 1 || hash in blockHashes {
        return Ok(false);
      }
      if !found {
        return Ok(true);
      }
      var distinct := CheckDistinctIds(job.txs);
      if !distinct {
        return Err(DuplicateTransaction);
      }
      var single := ValidateNoDoubleSpend(job.txs);
      if !single {
        return Err(DoubleSpend);
      }
      CommitBlock(call, job, nonce, hash);
      return Ok(true);
    }

    method CommitBlock(call: Call, job: Job, nonce: u64, hash: Hash32)
      requires Ready(call, Abs(), job.txs)
      modifies this, store
      ensures Abs() == Committed(env, call, old(Abs()), job, nonce, hash)
    {
      AppendMined(job, nonce, hash);
      EndEpochIfDue(call);
    }

    method AppendMined(job: Job, nonce: u64, hash: Hash32)
      modifies this, store
      ensures Abs() == MinedOnto(env, old(Abs()), job, nonce, hash)
    {
      AppendBlock(MinedBlock(env, job, nonce), hash);
      CountReward();
      SettleAfterCommit(job.txs);
    }

    method CountReward()
      modifies this`totalEmitted
      ensures Abs() == old(Abs()).(econ := old(Abs()).econ.(emitted := Min(old(Abs()).econ.emitted + BLOCK_REWARD_LYT, U64_LIMIT - 1)))
    {
      totalEmitted := Min(totalEmitted + BLOCK_REWARD_LYT, U64_LIMIT - 1);
    }

    // ---- add_transaction_to_mempool ----

    method CheckNew(tx: Transaction) returns (error: Option<PoolError>)
      ensures error == AddError(env.c, TxPool(mempool, processedTxids), tx, store.utxos)
    {
      var valid := Validate(env.c, tx, store.utxos);
      if valid.Err? {
        return Some(Invalid(valid.error));
      }
      var txid := env.c.txid(tx);
      if txid in processedTxids {
        return Some(AlreadyProcessed);
      }
      if txid in PoolIds(env.c, mempool) {
        return Some(AlreadyInMempool);
      }
      var clash := UsesAny(tx.inputs, PoolSpends(mempool));
      if clash {
        return Some(InputAlreadyUsed);
      }
      return None;
    }

    static method UsesAny(inputs: seq<TxIn>, used: set<OutPoint>) returns (clash: bool)
      ensures clash <==> !(Spends(inputs) !! used)
    {
      for i := 0 to |inputs|
        invariant Spends(inputs[..i]) !! used
      {
        SpendsStep(inputs, i);
        if !IsCoinbaseInput(inputs[i]) && inputs[i].outpoint in used {
          assert inputs[i].outpoint in Spends(inputs);
          return true;
        }
      }
      assert inputs[..|inputs|] == inputs;
      return false;
    }

    method TrimMempool()
      modifies this`mempool, this`processedTxids
      ensures TxPool(mempool, processedTxids) == CutTo(env.c, old(TxPool(mempool, processedTxids)), env.poolLimit)
    {
      while |mempool| > env.poolLimit
        invariant CutTo(env.c, TxPool(mempool, processedTxids), env.poolLimit)
               == CutTo(env.c, old(TxPool(mempool, processedTxids)), env.poolLimit)
        decreases |mempool|
      {
        var n := |mempool| - 1;
        processedTxids := processedTxids - {env.c.txid(mempool[n])};
        mempool := mempool[..n];
      }
    }

    method InsertTransaction(tx: Transaction)
      modifies this`mempool, this`processedTxids
      ensures TxPool(mempool, processedTxids) == Inserted(env.c, old(TxPool(mempool, processedTxids)), tx, store.utxos, height, env.poolLimit)
    {
      Enqueue(tx);
      TrimMempool();
    }

    method Enqueue(tx: Transaction)
      modifies this`mempool, this`processedTxids
      ensures TxPool(mempool, processedTxids) == Enqueued(env.c, old(TxPool(mempool, processedTxids)), tx, store.utxos, height)
    {
      processedTxids := processedTxids[env.c.txid(tx) := height];
      mempool := Sort(Dearer(FeeIn(store.utxos)), mempool + [tx]);
    }

    method AddTransactionToMempool(tx: Transaction) returns (error: Option<PoolError>)
      modifies this`mempool, this`processedTxids
      ensures error == AddError(env.c, old(TxPool(mempool, processedTxids)), tx, store.utxos)
      ensures Abs() == AddTransaction(env, old(Abs()), tx)
    {
      error := CheckNew(tx);
      if error == None {
        InsertTransaction(tx);
      }
    }
  }

  lemma {:induction false} IncludedStep(c: Crypto, txs: seq<Transaction>, i: nat)
    requires i < |txs|
    ensures IncludedIds(c, txs[..i + 1]) == IncludedIds(c, txs[..i]) + if IsCoinbase(txs[i]) then {} else {c.txid(txs[i])}
    ensures DistinctIds(c, txs[..i + 1]) <==>
      DistinctIds(c, txs[..i]) && (IsCoinbase(txs[i]) || c.txid(txs[i]) !in IncludedIds(c, txs[..i]))
  {
    var before, after := txs[..i], txs[..i + 1];
    assert forall k :: 0 <= k < i ==> after[k] == before[k];
    assert after[i] == txs[i];
    if DistinctIds(c, before) && (IsCoinbase(txs[i]) || c.txid(txs[i]) !in IncludedIds(c, before)) {
      forall a, b | 0 <= a < b < |after| && !IsCoinbase(after[a]) && !IsCoinbase(after[b])
        ensures c.txid(after[a]) != c.txid(after[b])
      {
        if b == i {
          assert c.txid(before[a]) in IncludedIds(c, before);
        } else {
          assert c.txid(before[a]) != c.txid(before[b]);
        }
      }
    }
  }

  lemma {:induction false} RepeatedId(c: Crypto, txs: seq<Transaction>, i: nat)
    requires i < |txs| && !IsCoinbase(txs[i]) && c.txid(txs[i]) in IncludedIds(c, txs[..i])
    ensures !DistinctIds(c, txs)
  {
    var k :| 0 <= k < i && !IsCoinbase(txs[..i][k]) && c.txid(txs[..i][k]) == c.txid(txs[i]);
    assert txs[k] == txs[..i][k];
  }
}
