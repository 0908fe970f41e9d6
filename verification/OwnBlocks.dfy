// What a node mines itself spends outputs only with their owners' signatures.

module OwnBlocks {
  import opened Blocks
  import opened Bytes
  import opened MempoolPolicies
  import opened Mempools
  import opened NodeInvariants
  import NodeRuns
  import opened NodeSpecs
  import opened NodeSupply
  import opened Ownership
  import opened Transactions
  import opened Wrappers

  // ---- Every waiting transaction was checked once ----

  ghost function UtxosAt(env: Env, s: NodeRuns.Sys, steps: seq<NodeRuns.Step>, j: nat): Utxos
    requires j <= |steps|
  {
    NodeRuns.Run(env, s, steps[..j]).node.econ.utxos
  }

  ghost predicate ValidAt(env: Env, s: NodeRuns.Sys, steps: seq<NodeRuns.Step>, j: nat, tx: Transaction)
    requires j <= |steps|
  {
    Validation(env.c, tx, UtxosAt(env, s, steps, j)).Ok?
  }

  // It was valid on the outputs of some earlier state.
  ghost predicate Vouched(env: Env, s: NodeRuns.Sys, steps: seq<NodeRuns.Step>, tx: Transaction) {
    exists j :: 0 <= j <= |steps| && ValidAt(env, s, steps, j, tx)
  }

  lemma {:induction false} VouchedLater(env: Env, s: NodeRuns.Sys, steps: seq<NodeRuns.Step>, n: nat, tx: Transaction)
    requires n <= |steps| && Vouched(env, s, steps[..n], tx)
    ensures Vouched(env, s, steps, tx)
  {
    var j :| 0 <= j <= n && ValidAt(env, s, steps[..n], j, tx);
    assert steps[..n][..j] == steps[..j];
    assert ValidAt(env, s, steps, j, tx);
  }

  ghost predicate NothingNew(p: TxPool, q: TxPool) {
    forall tx :: tx in q.txs ==> tx in p.txs
  }

  lemma AcceptBringsNothing(env: Env, call: Call, n: Node, b: Block)
    ensures NothingNew(n.pool, Accept(env, call, n, b).0.pool)
  {
    WithoutElements(env.c, n.pool.txs, IncludedIds(env.c, b.txs));
  }

  lemma ForkBringsNothing(env: Env, call: Call, n: Node, b: Block)
    ensures NothingNew(n.pool, ForkSwitch(env, call, n, b).0.pool)
  {
    if ForkBase(env, n, b).Some? {
      ForkSwitchByBase(env, call, n, b);
      AcceptBringsNothing(env, call, ForkBase(env, n, b).value, b);
    }
  }

  lemma CommitBringsNothing(env: Env, call: Call, n: Node, job: Job, nonce: u64, found: bool)
    ensures NothingNew(n.pool, NodeRuns.CommitIssued(env, call, n, job, nonce, found).0.pool)
  {
    WithoutElements(env.c, n.pool.txs, IncludedIds(env.c, job.txs));
  }

  lemma {:induction false} CutBringsNothing(c: Crypto, p: TxPool, limit: nat)
    ensures NothingNew(p, CutTo(c, p, limit))
    decreases |p.txs|
  {
    if |p.txs| > limit {
      var n := |p.txs| - 1;
      CutBringsNothing(c, TxPool(p.txs[..n], p.processed - {c.txid(p.txs[n])}), limit);
    }
  }

  // The only transaction that can be new is the one added, and that one was checked.
  lemma AddBringsChecked(c: Crypto, p: TxPool, tx: Transaction, utxos: Utxos, height: nat, limit: nat, x: Transaction)
    requires x in AddedTx(c, p, tx, utxos, height, limit).txs
    ensures x in p.txs || (x == tx && Validation(c, tx, utxos).Ok?)
  {
    if AddError(c, p, tx, utxos) == None {
      CutBringsNothing(c, Enqueued(c, p, tx, utxos, height), limit);
      SortedHas(p.txs + [tx], utxos, x);
    }
  }

  lemma StepBringsChecked(env: Env, s: NodeRuns.Sys, step: NodeRuns.Step, x: Transaction)
    requires x in NodeRuns.NextNode(env, s, step).pool.txs
    ensures x in s.node.pool.txs || Validation(env.c, x, s.node.econ.utxos).Ok?
  {
    match step
    case AcceptBlock(call, b) => AcceptBringsNothing(env, call, s.node, b);
    case RollbackTo(target) =>
    case SwitchFork(call, b) => ForkBringsNothing(env, call, s.node, b);
    case PrepareJob(call) =>
    case CommitJob(call, k, nonce, found) =>
      if k < |s.issued| { CommitBringsNothing(env, call, s.node, s.issued[k].job, nonce, found); }
    case AddTx(tx) => AddBringsChecked(env.c, s.node.pool, tx, s.node.econ.utxos, s.node.chain.height, env.poolLimit, x);
    case SetRegister(register) =>
  }

  // Over every interleaving, starting with an empty mempool.
  lemma {:induction false} WaitingWasChecked(env: Env, s: NodeRuns.Sys, steps: seq<NodeRuns.Step>, tx: Transaction)
    requires s.node.pool.txs == [] && tx in NodeRuns.Run(env, s, steps).node.pool.txs
    ensures Vouched(env, s, steps, tx)
  {
    if steps != [] {
      var n := |steps| - 1;
      var before := NodeRuns.Run(env, s, steps[..n]);
      StepBringsChecked(env, before, steps[n], tx);
      if tx in before.node.pool.txs {
        WaitingWasChecked(env, s, steps[..n], tx);
        VouchedLater(env, s, steps, n, tx);
      } else {
        assert ValidAt(env, s, steps, n, tx);
      }
    }
  }

  // ---- A check outlasts its state ----

  // No output held at the end had other content under its outpoint before, as is the case
  // while transaction ids do not collide.
  ghost predicate Stable(env: Env, s: NodeRuns.Sys, steps: seq<NodeRuns.Step>) {
    forall j :: 0 <= j <= |steps| ==> Agree(UtxosAt(env, s, steps, j), UtxosAt(env, s, steps, |steps|))
  }

  ghost predicate Agree(before: Utxos, after: Utxos) {
    forall o :: o in before && o in after ==> before[o] == after[o]
  }

  lemma {:induction false} CheckedAreSigned(c: Crypto, tx: RawTx, utxos: Utxos, n: nat)
    requires n <= |tx.inputs| && CheckInputs(c, tx, utxos, n).Ok?
    ensures InputsSigned(c, tx, utxos, n)
  {
    if n > 0 {
      CheckedAreSigned(c, tx, utxos, n - 1);
    }
  }

  lemma {:induction false} StaysSigned(c: Crypto, tx: RawTx, before: Utxos, after: Utxos)
    requires InputsSigned(c, tx, before, |tx.inputs|) && Agree(before, after) && AllExist(tx.inputs, after)
    ensures InputsSigned(c, tx, after, |tx.inputs|)
  {
    forall k | 0 <= k < |tx.inputs|
      ensures SignedAt(c, tx, after, k)
    {
      assert SignedAt(c, tx, before, k);
    }
  }

  lemma VouchedIsSigned(env: Env, s: NodeRuns.Sys, steps: seq<NodeRuns.Step>, tx: Transaction)
    requires Stable(env, s, steps) && Vouched(env, s, steps, tx) && !IsCoinbase(tx)
    requires AllExist(tx.inputs, UtxosAt(env, s, steps, |steps|))
    ensures InputsSigned(env.c, tx, UtxosAt(env, s, steps, |steps|), |tx.inputs|)
  {
    var j :| 0 <= j <= |steps| && ValidAt(env, s, steps, j, tx);
    CheckedAreSigned(env.c, tx, UtxosAt(env, s, steps, j), |tx.inputs|);
    StaysSigned(env.c, tx, UtxosAt(env, s, steps, j), UtxosAt(env, s, steps, |steps|));
  }

  // ---- Templates and own blocks ----

  ghost predicate AllSigned(c: Crypto, txs: seq<Transaction>, utxos: Utxos) {
    forall tx :: tx in txs && !IsCoinbase(tx) ==> InputsSigned(c, tx, utxos, |tx.inputs|)
  }

  lemma {:induction false} ChosenWaitsWithFee(size: Transaction -> nat, txs: seq<Transaction>, utxos: Utxos, tx: Transaction)
    requires tx in Template(size, txs, utxos)
    ensures tx in txs && (!IsCoinbase(tx) ==> AllExist(tx.inputs, utxos))
  {
    ChosenUpToStop(size, txs, utxos, 0, 0, []);
    PayingOnesHas(txs, utxos, StopAt(size, txs, utxos, 0), tx);
    InputSumMeaning(tx.inputs, utxos);
  }

  // Whatever happened before, in a state reached with stable ids all transactions chosen for a
  // template on the outputs then held are signed for those outputs.
  lemma {:induction false} TemplateIsSigned(env: Env, s: NodeRuns.Sys, steps: seq<NodeRuns.Step>, txs: seq<Transaction>)
    requires Stable(env, s, steps)
    requires forall tx :: tx in txs ==> Vouched(env, s, steps, tx)
    ensures AllSigned(env.c, Template(env.size, txs, UtxosAt(env, s, steps, |steps|)), UtxosAt(env, s, steps, |steps|))
  {
    var utxos := UtxosAt(env, s, steps, |steps|);
    forall tx | tx in Template(env.size, txs, utxos) && !IsCoinbase(tx)
      ensures InputsSigned(env.c, tx, utxos, |tx.inputs|)
    {
      ChosenWaitsWithFee(env.size, txs, utxos, tx);
      VouchedIsSigned(env, s, steps, tx);
    }
  }

  // The state and call every job in flight was prepared with.
  lemma {:induction false} IssuedWhen(env: Env, s: NodeRuns.Sys, steps: seq<NodeRuns.Step>, k: nat) returns (j: nat, call: Call)
    requires s.issued == [] && k < |NodeRuns.Run(env, s, steps).issued|
    ensures j <= |steps|
    ensures var i := NodeRuns.Run(env, s, steps).issued[k];
      i.at == NodeRuns.Run(env, s, steps[..j]).node && Prepare(env, call, i.at).1 == Some(i.job)
  {
    var n := |steps| - 1;
    var before := NodeRuns.Run(env, s, steps[..n]);
    if k < |before.issued| {
      j, call := IssuedWhen(env, s, steps[..n], k);
      assert steps[..n][..j] == steps[..j];
    } else {
      j, call := n, steps[n].call;
    }
  }

  lemma JobIsTemplate(env: Env, call: Call, at: Node, job: Job)
    requires Prepare(env, call, at).1 == Some(job)
    ensures Fronts(job.txs, Template(env.size, at.pool.txs, at.econ.utxos))
  {
    TemplateFronts(env, at, RewardOutput(env, at).value);
  }

  lemma FrontedSigned(c: Crypto, all: seq<Transaction>, txs: seq<Transaction>, utxos: Utxos)
    requires Fronts(all, txs) && AllSigned(c, txs, utxos)
    ensures AllSigned(c, all, utxos)
  {
    forall tx | tx in all && !IsCoinbase(tx)
      ensures tx in txs
    {
      var i :| 0 <= i < |all| && all[i] == tx;
      FrontedAt(all, txs, i);
    }
  }

  // Over every interleaving from genesis: a commit of any job ever issued that changes the
  // node spends, on the outputs the node holds at that moment, only with signatures.
  lemma {:induction false} OwnBlocksAreSigned(env: Env, genesis: Block, steps: seq<NodeRuns.Step>, call: Call, k: nat, nonce: u64, found: bool)
    requires |genesis.txs| == 1 && genesis.txs[0].outputs != []
    requires k < |NodeRuns.Run(env, NodeRuns.Sys(GenesisNode(env, genesis), []), steps).issued|
    requires Stable(env, NodeRuns.Sys(GenesisNode(env, genesis), []), steps)
    ensures var s := NodeRuns.Run(env, NodeRuns.Sys(GenesisNode(env, genesis), []), steps);
      NodeRuns.CommitIssued(env, call, s.node, s.issued[k].job, nonce, found).0 != s.node ==>
        AllSigned(env.c, s.issued[k].job.txs, s.node.econ.utxos)
  {
    var start := NodeRuns.Sys(GenesisNode(env, genesis), []);
    var s := NodeRuns.Run(env, start, steps);
    NodeRuns.CommitIsSafe(env, genesis, steps, call, k, nonce, found);
    if NodeRuns.CommitIssued(env, call, s.node, s.issued[k].job, nonce, found).0 != s.node {
      IssuedJobIsSigned(env, start, steps, k);
    }
  }

  lemma {:induction false} IssuedJobIsSigned(env: Env, start: NodeRuns.Sys, steps: seq<NodeRuns.Step>, k: nat)
    requires start.issued == [] && start.node.pool.txs == [] && Stable(env, start, steps)
    requires k < |NodeRuns.Run(env, start, steps).issued|
    requires NodeRuns.Run(env, start, steps).issued[k].at.econ.utxos == NodeRuns.Run(env, start, steps).node.econ.utxos
    ensures var s := NodeRuns.Run(env, start, steps); AllSigned(env.c, s.issued[k].job.txs, s.node.econ.utxos)
  {
    var i := NodeRuns.Run(env, start, steps).issued[k];
    var j, prepared := IssuedWhen(env, start, steps, k);
    forall tx | tx in i.at.pool.txs
      ensures Vouched(env, start, steps, tx)
    {
      WaitingWasChecked(env, start, steps[..j], tx);
      VouchedLater(env, start, steps, j, tx);
    }
    assert steps[..|steps|] == steps;
    TemplateIsSigned(env, start, steps, i.at.pool.txs);
    JobIsTemplate(env, prepared, i.at, i.job);
    FrontedSigned(env.c, i.job.txs, Template(env.size, i.at.pool.txs, i.at.econ.utxos), i.at.econ.utxos);
  }
}
