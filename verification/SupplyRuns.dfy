// Value and the emission counter over every interleaving, commits included.

module SupplyRuns {
  import opened BlockValue
  import opened Blocks
  import opened Bytes
  import opened NodeInvariants
  import opened NodeRuns
  import opened NodeSpecs
  import opened NodeSupply
  import opened Transactions

  // ---- Value beyond the counter ----

  // How much of a block reward a commit adds to the counter: all of it, within the word.
  function Counting(emitted: u64): nat { Min(emitted + BLOCK_REWARD_LYT, U64_LIMIT - 1) - emitted }

  function ExcessOf(txs: seq<Transaction>): nat { if txs != [] && IsCoinbase(txs[0]) then Excess(txs) else 0 }

  ghost function AcceptSurplus(env: Env, call: Call, n: Node, b: Block): nat {
    if Accept(env, call, n, b).1.Ok? then BLOCK_REWARD_LYT + ExcessOf(b.txs) else 0
  }

  // What a step may add to the value beyond what it counts: the reward and the excess of a
  // block that is taken, the excess alone of one that is committed.
  ghost function Surplus(env: Env, s: Sys, step: Step): nat {
    match step
    case AcceptBlock(call, b) => AcceptSurplus(env, call, s.node, b)
    case SwitchFork(call, b) =>
      var base := ForkBase(env, s.node, b);
      if base.Some? then AcceptSurplus(env, call, base.value, b) else 0
    case CommitJob(call, k, nonce, found) =>
      if Effective(env, s, step) then ExcessOf(s.issued[k].job.txs) + (BLOCK_REWARD_LYT - Counting(s.node.econ.emitted)) else 0
    case _ => 0
  }

  // A commit that changes the node.
  ghost predicate Effective(env: Env, s: Sys, step: Step) {
    step.CommitJob? && step.k < |s.issued|
    && CommitIssued(env, step.call, s.node, s.issued[step.k].job, step.nonce, step.found).0 != s.node
  }

  // From n to m value grows by at most `extra` beyond the counter, which never falls.
  ghost predicate Covered(n: Node, m: Node, extra: nat) {
    && n.econ.emitted <= m.econ.emitted
    && Value(m) + n.econ.emitted <= Value(n) + m.econ.emitted + extra
  }

  lemma AcceptCovered(env: Env, call: Call, n: Node, b: Block)
    requires Inv(env, n)
    ensures Covered(n, Accept(env, call, n, b).0, AcceptSurplus(env, call, n, b))
  {
    if Accept(env, call, n, b).1.Ok? {
      AcceptGrowth(env, call, n, b);
    } else {
      AcceptForm(env, call, n, b);
    }
  }

  lemma ForkCovered(env: Env, call: Call, s: Sys, b: Block)
    requires SysInv(env, s)
    ensures Covered(s.node, ForkSwitch(env, call, s.node, b).0, Surplus(env, s, SwitchFork(call, b)))
  {
    ForkSwitchByBase(env, call, s.node, b);
    if ForkBase(env, s.node, b).Some? {
      ForkBaseShrinks(env, s.node, b);
      BaseCounter(env, s.node, b);
      AcceptCovered(env, call, ForkBase(env, s.node, b).value, b);
    }
  }

  lemma BaseCounter(env: Env, n: Node, b: Block)
    requires ForkBase(env, n, b).Some?
    ensures ForkBase(env, n, b).value.econ.emitted == n.econ.emitted
  {}

  // A commit: the block, the reward counted, and the end of an epoch.
  lemma CommittedCovered(env: Env, call: Call, n: Node, job: Job, nonce: u64, hash: Hash32)
    requires Passes(job.txs, n.econ.utxos) && Indexed(n.econ.utxos)
    ensures Covered(n, Committed(env, call, n, job, nonce, hash), ExcessOf(job.txs) + (BLOCK_REWARD_LYT - Counting(n.econ.emitted)))
    ensures Counts(n, Committed(env, call, n, job, nonce, hash))
  {
    MinedOntoGrowth(env, n, job, nonce, hash);
    MinedCounter(env, n, job, nonce, hash);
    AfterEpochGrowth(env, call, MinedOnto(env, n, job, nonce, hash));
  }

  lemma MinedCounter(env: Env, n: Node, job: Job, nonce: u64, hash: Hash32)
    ensures MinedOnto(env, n, job, nonce, hash).econ.emitted == n.econ.emitted + Counting(n.econ.emitted)
  {}

  // The counter after a commit: past the cap exactly when the reward alone takes it there.
  ghost predicate Counts(n: Node, m: Node) {
    m.econ.emitted > MAX_SUPPLY_LYT <==> n.econ.emitted + BLOCK_REWARD_LYT > MAX_SUPPLY_LYT
  }

  lemma CommitCovered(env: Env, s: Sys, step: Step)
    requires SysInv(env, s) && Effective(env, s, step)
    ensures Covered(s.node, NextNode(env, s, step), Surplus(env, s, step)) && Counts(s.node, NextNode(env, s, step))
  {
    var i := s.issued[step.k];
    var hash := HeaderHash(env.c, i.job.header.(nonce := step.nonce));
    assert JobFits(env, s.node, i);
    FitMakesSafe(env, step.call, s.node, i, step.nonce, step.found);
    CommitForm(env, step.call, s.node, i.job, step.nonce, hash, step.found);
    CommittedCovered(env, step.call, s.node, i.job, step.nonce, hash);
  }

  lemma StepCovered(env: Env, s: Sys, step: Step)
    requires SysInv(env, s)
    ensures Covered(s.node, NextNode(env, s, step), Surplus(env, s, step))
  {
    match step
    case AcceptBlock(call, b) => AcceptCovered(env, call, s.node, b);
    case RollbackTo(target) => RollBackShrinks(env, s.node, target);
    case SwitchFork(call, b) => ForkCovered(env, call, s, b);
    case PrepareJob(call) =>
    case CommitJob(call, k, nonce, found) => if Effective(env, s, step) { CommitCovered(env, s, step); }
    case AddTx(tx) =>
    case SetRegister(register) =>
  }

  ghost function Surpluses(env: Env, s: Sys, steps: seq<Step>): nat {
    if steps == [] then 0
    else
      var before := steps[..|steps| - 1];
      Surpluses(env, s, before) + Surplus(env, Run(env, s, before), steps[|steps| - 1])
  }

  lemma CoveredAddsUp(n: Node, m: Node, p: Node, e: nat, f: nat)
    requires Covered(n, m, e) && Covered(m, p, f)
    ensures Covered(n, p, e + f)
  {}

  // Over every interleaving value stays covered by the counter and the surplus of the blocks
  // taken in: one reward for each block of others, and any excess.
  lemma {:induction false} RunCovered(env: Env, s: Sys, steps: seq<Step>)
    requires SysInv(env, s)
    ensures Covered(s.node, Run(env, s, steps).node, Surpluses(env, s, steps))
  {
    if steps != [] {
      var before := steps[..|steps| - 1];
      RunCovered(env, s, before);
      RunKeeps(env, s, before);
      StepCovered(env, Run(env, s, before), steps[|steps| - 1]);
      CoveredAddsUp(s.node, Run(env, s, before).node, Run(env, s, steps).node, Surpluses(env, s, before),
                    Surplus(env, Run(env, s, before), steps[|steps| - 1]));
    }
  }

  // From genesis: the counter and the surplus cover everything.
  lemma {:induction false} ValueWithinCounter(env: Env, genesis: Block, steps: seq<Step>)
    requires |genesis.txs| == 1 && genesis.txs[0].outputs != [] && genesis.txs[0].outputs[0].value == GENESIS_SUPPLY_LYT
    ensures var start := Sys(GenesisNode(env, genesis), []);
      Value(Run(env, start, steps).node) <= Run(env, start, steps).node.econ.emitted + Surpluses(env, start, steps)
  {
    GenesisInv(env, genesis);
    GenesisValue(env, genesis);
    RunCovered(env, Sys(GenesisNode(env, genesis), []), steps);
  }

  // ---- When the counter passes the cap ----

  // A commit that changes the node while less than a block reward is left below the cap.
  ghost predicate Overshoots(env: Env, s: Sys, step: Step) {
    Effective(env, s, step) && s.node.econ.emitted + BLOCK_REWARD_LYT > MAX_SUPPLY_LYT
  }

  lemma AcceptStaysWithin(env: Env, call: Call, n: Node, b: Block)
    requires Inv(env, n) && n.econ.emitted <= MAX_SUPPLY_LYT
    ensures Accept(env, call, n, b).0.econ.emitted <= MAX_SUPPLY_LYT
  {
    if Accept(env, call, n, b).1.Ok? {
      AcceptGrowth(env, call, n, b);
    } else {
      AcceptForm(env, call, n, b);
    }
  }

  lemma ForkStaysWithin(env: Env, call: Call, n: Node, b: Block)
    requires Inv(env, n) && n.econ.emitted <= MAX_SUPPLY_LYT
    ensures ForkSwitch(env, call, n, b).0.econ.emitted <= MAX_SUPPLY_LYT
  {
    ForkSwitchByBase(env, call, n, b);
    if ForkBase(env, n, b).Some? {
      ForkBaseShrinks(env, n, b);
      BaseCounter(env, n, b);
      AcceptStaysWithin(env, call, ForkBase(env, n, b).value, b);
    }
  }

  // From below the cap no other step gets past it.
  lemma StepPassesExactly(env: Env, s: Sys, step: Step)
    requires SysInv(env, s) && s.node.econ.emitted <= MAX_SUPPLY_LYT
    ensures NextNode(env, s, step).econ.emitted > MAX_SUPPLY_LYT <==> Overshoots(env, s, step)
  {
    match step
    case AcceptBlock(call, b) => AcceptStaysWithin(env, call, s.node, b);
    case RollbackTo(target) =>
    case SwitchFork(call, b) => ForkStaysWithin(env, call, s.node, b);
    case PrepareJob(call) =>
    case CommitJob(call, k, nonce, found) => if Effective(env, s, step) { CommitCovered(env, s, step); }
    case AddTx(tx) =>
    case SetRegister(register) =>
  }

  // Some step of the run does.
  ghost predicate OvershootsSometime(env: Env, s: Sys, steps: seq<Step>) {
    steps != []
    && (OvershootsSometime(env, s, steps[..|steps| - 1]) || Overshoots(env, Run(env, s, steps[..|steps| - 1]), steps[|steps| - 1]))
  }

  // Over every interleaving that starts within the cap, the counter ends past it exactly when
  // some commit took it there; rollbacks do not bring it back.
  lemma {:induction false} CounterPassesExactly(env: Env, s: Sys, steps: seq<Step>)
    requires SysInv(env, s) && s.node.econ.emitted <= MAX_SUPPLY_LYT
    ensures Run(env, s, steps).node.econ.emitted > MAX_SUPPLY_LYT <==> OvershootsSometime(env, s, steps)
  {
    if steps != [] {
      CounterPassesExactly(env, s, steps[..|steps| - 1]);
      RunKeeps(env, s, steps[..|steps| - 1]);
      PassesAtLast(env, s, steps);
    }
  }

  lemma PassesAtLast(env: Env, s: Sys, steps: seq<Step>)
    requires steps != [] && SysInv(env, Run(env, s, steps[..|steps| - 1]))
    ensures Run(env, s, steps[..|steps| - 1]).node.econ.emitted <= MAX_SUPPLY_LYT ==>
      (Run(env, s, steps).node.econ.emitted > MAX_SUPPLY_LYT <==> Overshoots(env, Run(env, s, steps[..|steps| - 1]), steps[|steps| - 1]))
    ensures Run(env, s, steps[..|steps| - 1]).node.econ.emitted <= Run(env, s, steps).node.econ.emitted
  {
    var m := Run(env, s, steps[..|steps| - 1]);
    StepCovered(env, m, steps[|steps| - 1]);
    if m.node.econ.emitted <= MAX_SUPPLY_LYT {
      StepPassesExactly(env, m, steps[|steps| - 1]);
    }
  }
}
