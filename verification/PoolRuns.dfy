// The mempool over whole runs of the node, and what each change to it does exactly.

module PoolRuns {
  import opened BlockValue
  import opened Blocks
  import opened Bytes
  import opened Ledger
  import opened MempoolPolicies
  import opened Mempools
  import NodeRuns
  import opened NodeSpecs
  import opened NodeSupply
  import opened Transactions
  import opened Wrappers

  // ---- Admission ----

  // A transaction is admitted exactly when it validates, its id is neither recorded nor waiting,
  // and no waiting transaction spends an output it spends.
  lemma AdmittedExactly(c: Crypto, p: TxPool, tx: Transaction, utxos: Utxos)
    ensures AddError(c, p, tx, utxos) == None <==>
      && Validation(c, tx, utxos).Ok? && c.txid(tx) !in p.processed
      && forall i :: 0 <= i < |p.txs| ==> c.txid(p.txs[i]) != c.txid(tx) && Spends(p.txs[i].inputs) !! Spends(tx.inputs)
  {
    if forall i :: 0 <= i < |p.txs| ==> c.txid(p.txs[i]) != c.txid(tx) && Spends(p.txs[i].inputs) !! Spends(tx.inputs) {
      forall o | o in PoolSpends(p.txs)
        ensures o !in Spends(tx.inputs)
      {
        var i :| 0 <= i < |p.txs| && o in Spends(p.txs[i].inputs);
      }
    }
    if AddError(c, p, tx, utxos) == None {
      NewIsApart(c, p, tx);
    }
  }

  // ---- The cut ----

  function IdsFrom(c: Crypto, txs: seq<Transaction>, n: nat): set<Hash32>
    requires n <= |txs|
  {
    PoolIds(c, txs[n..])
  }

  // What is cut is the end of the list, and its ids are forgotten.
  lemma {:induction false} CutExactly(c: Crypto, p: TxPool, limit: nat)
    ensures CutTo(c, p, limit).txs == p.txs[..Min(limit, |p.txs|)]
    ensures CutTo(c, p, limit).processed == p.processed - IdsFrom(c, p.txs, Min(limit, |p.txs|))
    decreases |p.txs|
  {
    if |p.txs| > limit {
      var n := |p.txs| - 1;
      CutExactly(c, TxPool(p.txs[..n], p.processed - {c.txid(p.txs[n])}), limit);
      assert p.txs[..n][..limit] == p.txs[..limit];
      IdsSnoc(c, p.txs[..n], p.txs[n], limit);
      assert p.txs[..n] + [p.txs[n]] == p.txs;
    } else {
      assert p.txs[..|p.txs|] == p.txs && p.txs[|p.txs|..] == [];
    }
  }

  lemma IdsSnoc(c: Crypto, txs: seq<Transaction>, tx: Transaction, n: nat)
    requires n <= |txs|
    ensures IdsFrom(c, txs + [tx], n) == IdsFrom(c, txs, n) + {c.txid(tx)}
  {
    var s := txs[n..];
    assert (txs + [tx])[n..] == s + [tx];
    assert forall i :: 0 <= i < |s| ==> (s + [tx])[i] == s[i];
    assert (s + [tx])[|s|] == tx;
  }

  // An admitted transaction takes its place by fee, its id is recorded, and whatever is then
  // beyond the limit is dropped and forgotten.
  lemma {:induction false} AdmissionExactly(c: Crypto, p: TxPool, tx: Transaction, utxos: Utxos, height: nat, limit: nat)
    requires AddError(c, p, tx, utxos) == None
    ensures var after, sorted := AddedTx(c, p, tx, utxos, height, limit), SortedByFee(p.txs + [tx], utxos);
      && |sorted| == |p.txs| + 1 && multiset(sorted) == multiset(p.txs + [tx])
      && after.txs == sorted[..Min(limit, |sorted|)]
      && after.processed == p.processed[c.txid(tx) := height] - IdsFrom(c, sorted, Min(limit, |sorted|))
  {
    SortedByFeeOrder(p.txs + [tx], utxos);
    SameSize(SortedByFee(p.txs + [tx], utxos), p.txs + [tx]);
    CutExactly(c, Enqueued(c, p, tx, utxos, height), limit);
  }

  // So of an overfull mempool nothing that is dropped pays more than anything that stays, and
  // all that is dropped can be offered again.
  lemma {:induction false} CutDropsCheapest(c: Crypto, p: TxPool, tx: Transaction, utxos: Utxos, height: nat, limit: nat, i: nat, j: nat)
    requires AddError(c, p, tx, utxos) == None
    requires i < |AddedTx(c, p, tx, utxos, height, limit).txs| <= j < |SortedByFee(p.txs + [tx], utxos)|
    ensures var after, sorted := AddedTx(c, p, tx, utxos, height, limit), SortedByFee(p.txs + [tx], utxos);
      && FeeOrZero(after.txs[i], utxos) >= FeeOrZero(sorted[j], utxos)
      && c.txid(sorted[j]) !in after.processed
  {
    AdmissionExactly(c, p, tx, utxos, height, limit);
    SortedByFeeOrder(p.txs + [tx], utxos);
    DroppedId(c, SortedByFee(p.txs + [tx], utxos), limit, j);
  }

  lemma DroppedId(c: Crypto, txs: seq<Transaction>, n: nat, j: nat)
    requires n <= j < |txs|
    ensures c.txid(txs[j]) in IdsFrom(c, txs, n)
  {
    assert txs[n..][j - n] == txs[j];
  }

  lemma SameSize<T>(a: seq<T>, b: seq<T>)
    requires multiset(a) == multiset(b)
    ensures |a| == |b|
  {
    assert |multiset(a)| == |multiset(b)|;
  }

  // ---- After a block ----

  // An ordinary transaction of the block has this id.
  ghost predicate Includes(c: Crypto, txs: seq<Transaction>, id: Hash32) {
    exists i :: 0 <= i < |txs| && !IsCoinbase(txs[i]) && c.txid(txs[i]) == id
  }

  ghost predicate Waits(c: Crypto, txs: seq<Transaction>, id: Hash32) {
    exists i :: 0 <= i < |txs| && c.txid(txs[i]) == id
  }

  ghost predicate StaysExactly(c: Crypto, before: seq<Transaction>, block: seq<Transaction>, after: seq<Transaction>, tx: Transaction) {
    tx in after <==> tx in before && !Includes(c, block, c.txid(tx))
  }

  // Recorded lately: at one of the last thousand heights, and not at genesis.
  predicate Lately(processed: map<Hash32, nat>, id: Hash32, height: nat) {
    id in processed && processed[id] > 0 && processed[id] + 1000 > height
  }

  // A network block: its ids are recorded, and of the others those recorded lately or waiting.
  ghost predicate RecordedExactly(c: Crypto, before: TxPool, block: seq<Transaction>, height: nat, after: TxPool, id: Hash32) {
    && (id in after.processed <==>
          Includes(c, block, id) || Lately(before.processed, id, height) || (id in before.processed && Waits(c, before.txs, id)))
    && (id in after.processed ==> after.processed[id] == if Includes(c, block, id) then height else before.processed[id])
  }

  // A block of our own: whatever still waits is forgotten.
  ghost predicate ForgottenExactly(c: Crypto, before: TxPool, block: seq<Transaction>, height: nat, after: TxPool, id: Hash32) {
    && (id in after.processed <==>
          (Includes(c, block, id) || Lately(before.processed, id, height)) && !Waits(c, after.txs, id))
    && (id in after.processed ==> after.processed[id] == if Includes(c, block, id) then height else before.processed[id])
  }

  lemma IncludesIds(c: Crypto, txs: seq<Transaction>, id: Hash32)
    ensures id in IncludedIds(c, txs) <==> Includes(c, txs, id)
  {}

  lemma WaitsIds(c: Crypto, txs: seq<Transaction>, id: Hash32)
    ensures id in PoolIds(c, txs) <==> Waits(c, txs, id)
  {}

  lemma {:induction false} WithoutExactly(c: Crypto, txs: seq<Transaction>, ids: set<Hash32>, tx: Transaction)
    ensures tx in Without(c, txs, ids) <==> tx in txs && c.txid(tx) !in ids
  {
    if txs != [] {
      var n := |txs| - 1;
      WithoutExactly(c, txs[..n], ids, tx);
      assert txs == txs[..n] + [txs[n]];
    }
  }

  // What stays keeps its order: whatever holds of earlier against later ones still does.
  lemma {:induction false} WithoutKeepsOrder(c: Crypto, txs: seq<Transaction>, ids: set<Hash32>, r: (Transaction, Transaction) -> bool)
    requires forall i, j :: 0 <= i < j < |txs| ==> r(txs[i], txs[j])
    ensures var left := Without(c, txs, ids); forall i, j :: 0 <= i < j < |left| ==> r(left[i], left[j])
  {
    if txs != [] {
      var n := |txs| - 1;
      WithoutKeepsOrder(c, txs[..n], ids, r);
      var before := Without(c, txs[..n], ids);
      forall i | 0 <= i < |before|
        ensures r(before[i], txs[n])
      {
        WithoutExactly(c, txs[..n], ids, before[i]);
        var k :| 0 <= k < n && txs[..n][k] == before[i];
        assert r(txs[k], txs[n]);
      }
    }
  }

  lemma {:induction false} AcceptSettles(c: Crypto, p: TxPool, block: seq<Transaction>, height: nat, tx: Transaction, id: Hash32)
    requires height > 0
    ensures StaysExactly(c, p.txs, block, AfterAccept(c, p, block, height).txs, tx)
    ensures RecordedExactly(c, p, block, height, AfterAccept(c, p, block, height), id)
  {
    WithoutExactly(c, p.txs, IncludedIds(c, block), tx);
    IncludesIds(c, block, c.txid(tx));
    IncludesIds(c, block, id);
    WaitsIds(c, p.txs, id);
  }

  lemma {:induction false} CommitSettles(c: Crypto, p: TxPool, block: seq<Transaction>, height: nat, tx: Transaction, id: Hash32)
    requires height > 0
    ensures StaysExactly(c, p.txs, block, AfterCommit(c, p, block, height).txs, tx)
    ensures ForgottenExactly(c, p, block, height, AfterCommit(c, p, block, height), id)
  {
    WithoutExactly(c, p.txs, IncludedIds(c, block), tx);
    IncludesIds(c, block, c.txid(tx));
    IncludesIds(c, block, id);
    WaitsIds(c, Without(c, p.txs, IncludedIds(c, block)), id);
  }

  // What an accepted block leaves of the node's mempool.
  lemma {:induction false} AcceptedSettles(env: Env, call: Call, n: Node, b: Block, tx: Transaction, id: Hash32)
    requires Accept(env, call, n, b).1.Ok?
    ensures var after := Accept(env, call, n, b).0.pool;
      StaysExactly(env.c, n.pool.txs, b.txs, after.txs, tx) && RecordedExactly(env.c, n.pool, b.txs, n.chain.height + 1, after, id)
  {
    AcceptSettles(env.c, n.pool, b.txs, n.chain.height + 1, tx, id);
    AcceptPool(env, call, n, b);
  }

  lemma AcceptPool(env: Env, call: Call, n: Node, b: Block)
    requires Accept(env, call, n, b).1.Ok?
    ensures Accept(env, call, n, b).0.pool == AfterAccept(env.c, n.pool, b.txs, n.chain.height + 1)
  {}

  // And what a block of our own leaves of it.
  lemma {:induction false} CommittedSettles(env: Env, call: Call, n: Node, job: Job, nonce: u64, hash: Hash32, tx: Transaction, id: Hash32)
    ensures var after := Committed(env, call, n, job, nonce, hash).pool;
      StaysExactly(env.c, n.pool.txs, job.txs, after.txs, tx) && ForgottenExactly(env.c, n.pool, job.txs, n.chain.height + 1, after, id)
  {
    CommitSettles(env.c, n.pool, job.txs, n.chain.height + 1, tx, id);
    CommitPool(env, call, n, job, nonce, hash);
  }

  lemma EpochKeepsPool(env: Env, call: Call, n: Node)
    ensures AfterEpoch(env, call, n).pool == n.pool && AfterEpoch(env, call, n).chain == n.chain
  {}

  lemma MinedPool(env: Env, n: Node, job: Job, nonce: u64, hash: Hash32)
    ensures MinedOnto(env, n, job, nonce, hash).chain.height == n.chain.height + 1
    ensures MinedOnto(env, n, job, nonce, hash).pool == AfterCommit(env.c, n.pool, job.txs, n.chain.height + 1)
  {
    var m := WithBlock(env, n, MinedBlock(env, job, nonce), hash);
    assert m.chain.height == n.chain.height + 1;
  }

  lemma CommitPool(env: Env, call: Call, n: Node, job: Job, nonce: u64, hash: Hash32)
    ensures Committed(env, call, n, job, nonce, hash).pool == AfterCommit(env.c, n.pool, job.txs, n.chain.height + 1)
    ensures Committed(env, call, n, job, nonce, hash).chain.height == n.chain.height + 1
  {
    EpochKeepsPool(env, call, MinedOnto(env, n, job, nonce, hash));
    MinedPool(env, n, job, nonce, hash);
  }

  // ---- Over whole runs: the limit ----

  ghost predicate Bounded(env: Env, n: Node) { |n.pool.txs| <= env.poolLimit }

  lemma {:induction false} WithoutShrinks(c: Crypto, txs: seq<Transaction>, ids: set<Hash32>)
    ensures |Without(c, txs, ids)| <= |txs|
  {
    if txs != [] {
      WithoutShrinks(c, txs[..|txs| - 1], ids);
    }
  }

  lemma AcceptBounded(env: Env, call: Call, n: Node, b: Block)
    requires Bounded(env, n)
    ensures Bounded(env, Accept(env, call, n, b).0)
  {
    if Accept(env, call, n, b).1.Ok? {
      AcceptPool(env, call, n, b);
      WithoutShrinks(env.c, n.pool.txs, IncludedIds(env.c, b.txs));
    } else {
      AcceptForm(env, call, n, b);
    }
  }

  lemma ForkBounded(env: Env, call: Call, n: Node, b: Block)
    requires Bounded(env, n)
    ensures Bounded(env, ForkSwitch(env, call, n, b).0)
  {
    ForkPool(env, call, n, b);
    if ForkBase(env, n, b).Some? {
      AcceptBounded(env, call, ForkBase(env, n, b).value, b);
    }
  }

  lemma ForkPool(env: Env, call: Call, n: Node, b: Block)
    ensures match ForkBase(env, n, b)
      case None => ForkSwitch(env, call, n, b).0.pool == n.pool
      case Some(base) => base.pool == n.pool && ForkSwitch(env, call, n, b).0 == Accept(env, call, base, b).0
  {}

  lemma CommitBounded(env: Env, call: Call, n: Node, job: Job, nonce: u64, hash: Hash32, found: bool)
    requires Bounded(env, n)
    ensures Bounded(env, Commit(env, call, n, job, nonce, hash, found).0)
  {
    CommitForm(env, call, n, job, nonce, hash, found);
    CommitPool(env, call, n, job, nonce, hash);
    WithoutShrinks(env.c, n.pool.txs, IncludedIds(env.c, job.txs));
  }

  lemma AddBounded(env: Env, n: Node, tx: Transaction)
    requires Bounded(env, n)
    ensures Bounded(env, AddTransaction(env, n, tx))
  {
    if AddError(env.c, n.pool, tx, n.econ.utxos) == None {
      AdmissionExactly(env.c, n.pool, tx, n.econ.utxos, n.chain.height, env.poolLimit);
    }
  }

  lemma StepBounded(env: Env, s: NodeRuns.Sys, step: NodeRuns.Step)
    requires Bounded(env, s.node)
    ensures Bounded(env, NodeRuns.NextNode(env, s, step))
  {
    match step
    case AcceptBlock(call, b) => AcceptBounded(env, call, s.node, b);
    case RollbackTo(target) =>
    case SwitchFork(call, b) => ForkBounded(env, call, s.node, b);
    case PrepareJob(call) =>
    case CommitJob(call, k, nonce, found) =>
      if k < |s.issued| {
        var job := s.issued[k].job;
        CommitBounded(env, call, s.node, job, nonce, HeaderHash(env.c, job.header.(nonce := nonce)), found);
      }
    case AddTx(tx) => AddBounded(env, s.node, tx);
    case SetRegister(register) =>
  }

  // However transactions and blocks arrive, the mempool never holds more than its limit.
  lemma {:induction false} PoolStaysBounded(env: Env, s: NodeRuns.Sys, steps: seq<NodeRuns.Step>)
    requires Bounded(env, s.node)
    ensures Bounded(env, NodeRuns.Run(env, s, steps).node)
  {
    if steps != [] {
      PoolStaysBounded(env, s, steps[..|steps| - 1]);
      StepBounded(env, NodeRuns.Run(env, s, steps[..|steps| - 1]), steps[|steps| - 1]);
    }
  }

  // ---- Over whole runs: an included transaction stays out ----

  // The height is neither below that of the inclusion nor a thousand above it.
  predicate Near(n: Node, since: nat) { since <= n.chain.height < since + 1000 }

  lemma AcceptKeepsOut(env: Env, call: Call, n: Node, b: Block, id: Hash32, since: nat)
    requires KeptOut(env.c, n.pool, id, since) && since > 0 && Near(Accept(env, call, n, b).0, since)
    ensures KeptOut(env.c, Accept(env, call, n, b).0.pool, id, since)
  {
    if Accept(env, call, n, b).1.Ok? {
      AcceptPool(env, call, n, b);
      NodeRuns.AcceptedChain(env, call, n, b);
      BlockKeepsOut(env.c, n.pool, b.txs, n.chain.height + 1, id, since);
    } else {
      AcceptForm(env, call, n, b);
    }
  }

  lemma ForkKeepsOut(env: Env, call: Call, n: Node, b: Block, id: Hash32, since: nat)
    requires KeptOut(env.c, n.pool, id, since) && since > 0 && Near(ForkSwitch(env, call, n, b).0, since)
    ensures KeptOut(env.c, ForkSwitch(env, call, n, b).0.pool, id, since)
  {
    ForkPool(env, call, n, b);
    if ForkBase(env, n, b).Some? {
      AcceptKeepsOut(env, call, ForkBase(env, n, b).value, b, id, since);
    }
  }

  lemma CommitKeepsOut(env: Env, call: Call, n: Node, job: Job, nonce: u64, hash: Hash32, found: bool, id: Hash32, since: nat)
    requires KeptOut(env.c, n.pool, id, since) && since > 0 && Near(Commit(env, call, n, job, nonce, hash, found).0, since)
    ensures KeptOut(env.c, Commit(env, call, n, job, nonce, hash, found).0.pool, id, since)
  {
    CommitForm(env, call, n, job, nonce, hash, found);
    CommitPool(env, call, n, job, nonce, hash);
    if Near(Committed(env, call, n, job, nonce, hash), since) {
      BlockKeepsOut(env.c, n.pool, job.txs, n.chain.height + 1, id, since);
    }
  }

  lemma StepKeepsOut(env: Env, s: NodeRuns.Sys, step: NodeRuns.Step, id: Hash32, since: nat)
    requires KeptOut(env.c, s.node.pool, id, since) && since > 0 && Near(NodeRuns.NextNode(env, s, step), since)
    ensures KeptOut(env.c, NodeRuns.NextNode(env, s, step).pool, id, since)
  {
    match step
    case AcceptBlock(call, b) => AcceptKeepsOut(env, call, s.node, b, id, since);
    case RollbackTo(target) =>
    case SwitchFork(call, b) => ForkKeepsOut(env, call, s.node, b, id, since);
    case PrepareJob(call) =>
    case CommitJob(call, k, nonce, found) =>
      if k < |s.issued| {
        var job := s.issued[k].job;
        CommitKeepsOut(env, call, s.node, job, nonce, HeaderHash(env.c, job.header.(nonce := nonce)), found, id, since);
      }
    case AddTx(tx) => ArrivalKeepsOut(env.c, s.node.pool, tx, s.node.econ.utxos, s.node.chain.height, env.poolLimit, id, since);
    case SetRegister(register) =>
  }

  ghost predicate NearAt(env: Env, s: NodeRuns.Sys, steps: seq<NodeRuns.Step>, k: nat, since: nat)
    requires k <= |steps|
  {
    Near(NodeRuns.Run(env, s, steps[..k]).node, since)
  }

  ghost predicate AllNear(env: Env, s: NodeRuns.Sys, steps: seq<NodeRuns.Step>, since: nat) {
    forall k :: 0 <= k <= |steps| ==> NearAt(env, s, steps, k, since)
  }

  lemma {:induction false} RunKeepsOut(env: Env, s: NodeRuns.Sys, steps: seq<NodeRuns.Step>, id: Hash32, since: nat)
    requires KeptOut(env.c, s.node.pool, id, since) && since > 0
    requires AllNear(env, s, steps, since)
    ensures KeptOut(env.c, NodeRuns.Run(env, s, steps).node.pool, id, since)
  {
    if steps != [] {
      var n := |steps| - 1;
      forall k | 0 <= k <= n
        ensures NearAt(env, s, steps[..n], k, since)
      {
        assert NearAt(env, s, steps, k, since) && steps[..n][..k] == steps[..k];
      }
      RunKeepsOut(env, s, steps[..n], id, since);
      assert NearAt(env, s, steps, n + 1, since) && steps[..n + 1] == steps;
      StepKeepsOut(env, NodeRuns.Run(env, s, steps[..n]), steps[n], id, since);
    }
  }

  // In every run that starts with taking a block, each ordinary transaction of it is refused as
  // long as the chain neither falls back below the block nor gets a thousand blocks past it.
  lemma {:induction false} TakenStaysOut(env: Env, s: NodeRuns.Sys, call: Call, b: Block, i: nat, steps: seq<NodeRuns.Step>, tx: Transaction, utxos: Utxos)
    requires Accept(env, call, s.node, b).1.Ok? && i < |b.txs| && !IsCoinbase(b.txs[i]) && env.c.txid(tx) == env.c.txid(b.txs[i])
    requires AllNear(env, NodeRuns.Next(env, s, NodeRuns.AcceptBlock(call, b)), steps, s.node.chain.height + 1)
    ensures var t := NodeRuns.Next(env, s, NodeRuns.AcceptBlock(call, b));
      AddError(env.c, NodeRuns.Run(env, t, steps).node.pool, tx, utxos).Some?
  {
    var t := NodeRuns.Next(env, s, NodeRuns.AcceptBlock(call, b));
    AcceptPool(env, call, s.node, b);
    IncludedIsKeptOut(env.c, s.node.pool, b.txs, s.node.chain.height + 1, i);
    RunKeepsOut(env, t, steps, env.c.txid(tx), s.node.chain.height + 1);
  }
}
