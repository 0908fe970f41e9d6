// Bounds on the value of all unspent outputs over whole runs.

module NodeSupply {
  import opened BlockValue
  import opened Blocks
  import opened Bytes
  import opened Chains
  import opened Economies
  import opened Emission
  import opened Ledger
  import opened NodeInvariants
  import opened NodeRuns
  import opened NodeSpecs
  import opened Transactions
  import opened Wrappers

  lemma {:induction false} TotalShrinks(m: Utxos, s: set<OutPoint>)
    ensures Total(m - s) <= Total(m)
    decreases |m|
  {
    if o :| o in m && o in s {
      TotalRemove(m, o);
      TotalShrinks(m - {o}, s);
      RemoveFirst(m, s, o);
    } else {
      assert m - s == m;
    }
  }

  lemma RemoveFirst(m: Utxos, s: set<OutPoint>, o: OutPoint)
    requires o in s
    ensures m - {o} - s == m - s
  {}

  // ---- Appending a block ----

  ghost function Value(n: Node): nat { Total(n.econ.utxos) }

  // The epoch reward due when a block of this height closes an epoch.
  function EpochGrant(height: nat, emitted: nat): nat {
    if height % EPOCH_BLOCKS == 0 then EffectiveReward(height, emitted) else 0
  }

  lemma AfterEpochGrowth(env: Env, call: Call, n: Node)
    ensures var m := AfterEpoch(env, call, n);
      && Value(m) <= Value(n) + (m.econ.emitted - n.econ.emitted)
      && n.econ.emitted <= m.econ.emitted <= Max(n.econ.emitted, MAX_SUPPLY_LYT)
      && m.econ.emitted - n.econ.emitted <= EpochGrant(n.chain.height, n.econ.emitted)
      && m.chain == n.chain && m.generation == n.generation
  {
    EpochEndIsBounded(env.c, env.who, n.econ, n.chain.height, call.slashed, call.order);
  }

  lemma WithBlockGrowth(env: Env, n: Node, b: Block, id: Hash32)
    requires Passes(b.txs, n.econ.utxos) && Indexed(n.econ.utxos)
    ensures Value(WithBlock(env, n, b, id)) <= Value(n) + BLOCK_REWARD_LYT + Excess(b.txs)
  {
    BlockGrowth(env.c, b.txs, n.econ.utxos);
  }

  lemma AcceptForm(env: Env, call: Call, n: Node, b: Block)
    ensures Accept(env, call, n, b).1.Ok? ==> Passes(b.txs, n.econ.utxos)
    ensures Accept(env, call, n, b).1.Ok? ==>
      var m := AfterEpoch(env, call, WithBlock(env, n, b, HeaderHash(env.c, b.header)));
      Accept(env, call, n, b).0.econ == m.econ && Accept(env, call, n, b).0.chain == m.chain
    ensures Accept(env, call, n, b).1.Err? ==> Accept(env, call, n, b).0 == n
  {}

  // m was reached from n with `excess` value beyond rewards and at most `rewards` emitted.
  ghost predicate Within(n: Node, m: Node, excess: nat, rewards: nat) {
    && m.chain.height >= n.chain.height
    && Value(m) <= Value(n) + BLOCK_REWARD_LYT * (m.chain.height - n.chain.height) + excess + (m.econ.emitted - n.econ.emitted)
    && n.econ.emitted <= m.econ.emitted <= Max(n.econ.emitted, MAX_SUPPLY_LYT)
    && m.econ.emitted - n.econ.emitted <= rewards
  }

  lemma WithinStep(n: Node, m: Node, p: Node, e: nat, f: nat, r: nat, s: nat)
    requires Within(n, m, e, r) && Within(m, p, f, s)
    ensures Within(n, p, e + f, r + s)
  {}

  // One accepted block adds its reward, its excess and what the epoch end emits, and the
  // emission counter moves by no more than the effective reward and not past the cap.
  lemma AcceptGrowth(env: Env, call: Call, n: Node, b: Block)
    requires Inv(env, n) && Accept(env, call, n, b).1.Ok?
    ensures Passes(b.txs, n.econ.utxos)
    ensures Accept(env, call, n, b).0.chain.height == n.chain.height + 1
    ensures Within(n, Accept(env, call, n, b).0, Excess(b.txs), EpochGrant(n.chain.height + 1, n.econ.emitted))
  {
    AcceptForm(env, call, n, b);
    var id := HeaderHash(env.c, b.header);
    WithBlockGrowth(env, n, b, id);
    AfterEpochGrowth(env, call, WithBlock(env, n, b, id));
  }

  // ---- Runs of accepted blocks ----

  datatype Offer = Offer(call: Call, block: Block)

  // Before block i is offered, miners, bonds and loyalty may have become anything; trace[i + 1]
  // is what offering it leaves, whether it is taken or refused.
  ghost predicate OfferedAt(env: Env, trace: seq<Node>, offers: seq<Offer>, registers: seq<Register>, i: nat)
    requires i < |offers| < |trace| && i < |registers|
  {
    trace[i + 1] == Accept(env, offers[i].call, WithRegister(trace[i], registers[i]), offers[i].block).0
  }

  ghost predicate Offered(env: Env, trace: seq<Node>, offers: seq<Offer>, registers: seq<Register>) {
    && |trace| == |offers| + 1 && |registers| == |offers|
    && forall i :: 0 <= i < |offers| ==> OfferedAt(env, trace, offers, registers, i)
  }

  // The effective reward of the step from n to m, due when it took a block that closes an epoch.
  function StepReward(n: Node, m: Node): nat {
    if m.chain.height > n.chain.height then EpochGrant(m.chain.height, n.econ.emitted) else 0
  }

  // The effective epoch rewards of the first k steps.
  function EpochRewards(trace: seq<Node>, k: nat): nat
    requires k < |trace|
  {
    if k == 0 then 0 else EpochRewards(trace, k - 1) + StepReward(trace[k - 1], trace[k])
  }

  ghost predicate Honest(offers: seq<Offer>) {
    forall k :: 0 <= k < |offers| ==> SoleCoinbase(offers[k].block.txs)
  }

  // Value never exceeds what was there, plus one block reward per unit of height gained,
  // plus what the emission counter gained, which is at most the effective epoch rewards,
  // however miners register, shares arrive and bonds move in between. No assumption on hashes.
  lemma {:induction false} SupplyBound(env: Env, trace: seq<Node>, offers: seq<Offer>, registers: seq<Register>, k: nat)
    requires k <= |offers| && Offered(env, trace, offers, registers) && Inv(env, trace[0]) && Honest(offers)
    ensures Inv(env, trace[k])
    ensures Within(trace[0], trace[k], 0, EpochRewards(trace, k))
    decreases k
  {
    if k > 0 {
      SupplyBound(env, trace, offers, registers, k - 1);
      assert OfferedAt(env, trace, offers, registers, k - 1);
      RecordedStep(env, trace[k - 1], registers[k - 1], offers[k - 1]);
      WithinStep(trace[0], trace[k - 1], trace[k], 0, 0, EpochRewards(trace, k - 1), StepReward(trace[k - 1], trace[k]));
    } else {
      WithinNothing(trace[0]);
    }
  }

  lemma RecordedStep(env: Env, n: Node, register: Register, offer: Offer)
    requires Inv(env, n) && SoleCoinbase(offer.block.txs)
    ensures Inv(env, Accept(env, offer.call, WithRegister(n, register), offer.block).0)
    ensures var m := Accept(env, offer.call, WithRegister(n, register), offer.block).0; Within(n, m, 0, StepReward(n, m))
  {
    SupplyStep(env, WithRegister(n, register), offer);
    SameWithin(n, WithRegister(n, register), Accept(env, offer.call, WithRegister(n, register), offer.block).0);
  }

  lemma SameWithin(n: Node, w: Node, m: Node)
    requires w.chain == n.chain && w.econ.utxos == n.econ.utxos && w.econ.emitted == n.econ.emitted
    requires Within(w, m, 0, StepReward(w, m))
    ensures Within(n, m, 0, StepReward(n, m))
  {}

  lemma SupplyStep(env: Env, n: Node, offer: Offer)
    requires Inv(env, n) && SoleCoinbase(offer.block.txs)
    ensures Inv(env, Accept(env, offer.call, n, offer.block).0)
    ensures var m := Accept(env, offer.call, n, offer.block).0; Within(n, m, 0, StepReward(n, m))
  {
    AcceptKeeps(env, offer.call, n, offer.block);
    SupplyOfStep(env, n, offer);
  }

  lemma SupplyOfStep(env: Env, n: Node, offer: Offer)
    requires Inv(env, n) && SoleCoinbase(offer.block.txs)
    ensures var m := Accept(env, offer.call, n, offer.block).0; Within(n, m, 0, StepReward(n, m))
  {
    if Accept(env, offer.call, n, offer.block).1.Ok? {
      AcceptGrowth(env, offer.call, n, offer.block);
      NoExcess(offer.block.txs);
    } else {
      AcceptForm(env, offer.call, n, offer.block);
      WithinNothing(n);
    }
  }

  lemma WithinNothing(n: Node)
    ensures Within(n, n, 0, 0)
  {}

  // From genesis: one reward per block of height and the counted emission cover everything.
  lemma {:induction false} SupplyFromGenesis(env: Env, genesis: Block, trace: seq<Node>, offers: seq<Offer>, registers: seq<Register>)
    requires |genesis.txs| == 1 && genesis.txs[0].outputs != [] && genesis.txs[0].outputs[0].value == GENESIS_SUPPLY_LYT
    requires Offered(env, trace, offers, registers) && trace[0] == GenesisNode(env, genesis) && Honest(offers)
    ensures var m := trace[|offers|];
      && Value(m) <= BLOCK_REWARD_LYT * m.chain.height + m.econ.emitted
      && m.econ.emitted <= MAX_SUPPLY_LYT
      && Value(m) <= GENESIS_SUPPLY_LYT + BLOCK_REWARD_LYT * m.chain.height + EpochRewards(trace, |offers|)
  {
    GenesisInv(env, genesis);
    GenesisValue(env, genesis);
    SupplyBound(env, trace, offers, registers, |offers|);
  }

  lemma GenesisValue(env: Env, genesis: Block)
    requires |genesis.txs| == 1 && genesis.txs[0].outputs != []
    ensures Value(GenesisNode(env, genesis)) == genesis.txs[0].outputs[0].value
  {
    var o, out := OutPoint(env.c.txid(genesis.txs[0]), 0), genesis.txs[0].outputs[0];
    TotalAdd(map[], o, out);
    assert map[][o := out] == GenesisNode(env, genesis).econ.utxos;
  }

  // ---- Every step of the system ----

  lemma ForkSwitchByBase(env: Env, call: Call, n: Node, b: Block)
    ensures match ForkBase(env, n, b)
      case None =>
        var m := ForkSwitch(env, call, n, b).0;
        m.econ == n.econ && m.chain == n.chain
      case Some(base) => ForkSwitch(env, call, n, b) == AcceptOn(env, call, base, b)
  {}

  lemma {:induction false} UndoShrinks(c: Crypto, utxos: Utxos, txs: seq<Transaction>, k: nat)
    requires k <= |txs|
    ensures Total(Undo(c, utxos, txs, k)) <= Total(utxos)
    decreases k
  {
    if k > 0 {
      UndoShrinks(c, utxos, txs, k - 1);
      TotalShrinks(Undo(c, utxos, txs, k - 1), CreatedKeys(c.txid(txs[k - 1]), |txs[k - 1].outputs|));
    }
  }

  lemma UndoTipShrinks(c: Crypto, ch: Chain, utxos: Utxos)
    ensures Total(UndoTip(c, ch, utxos)) <= Total(utxos)
  {
    if ch.height in ch.stored {
      UndoShrinks(c, utxos, ch.stored[ch.height].txs, |ch.stored[ch.height].txs|);
    }
  }

  lemma {:induction false} UndoToShrinks(env: Env, ch: Chain, utxos: Utxos, target: nat)
    ensures Total(UndoTo(env, ch, utxos, target)) <= Total(utxos)
    decreases ch.height
  {
    if ch.height > target {
      UndoTipShrinks(env.c, ch, utxos);
      UndoToShrinks(env, Popped(Hash(env), ch), UndoTip(env.c, ch, utxos), target);
    }
  }

  lemma RollBackShrinks(env: Env, n: Node, target: nat)
    ensures Value(RollBack(env, n, target)) <= Value(n)
  {
    UndoToShrinks(env, n.chain, n.econ.utxos, target);
  }

  lemma ForkBaseShrinks(env: Env, n: Node, b: Block)
    requires Inv(env, n) && ForkBase(env, n, b).Some?
    ensures Inv(env, ForkBase(env, n, b).value) && Value(ForkBase(env, n, b).value) <= Value(n)
  {
    var fork := n.chain.index[b.header.prevHash];
    if fork + 1 == n.chain.height {
      TipDroppedKeeps(env, n);
      UndoTipShrinks(env.c, n.chain, n.econ.utxos);
    } else {
      RollBackKeeps(env, n, fork);
      RollBackShrinks(env, n, fork);
    }
  }

  // What a block may add on top of a node: its reward, its excess and an epoch reward.
  function BlockGrant(n: Node, txs: seq<Transaction>): nat
    requires txs != [] && IsCoinbase(txs[0])
  {
    BLOCK_REWARD_LYT + Excess(txs) + EpochCap(n.chain.height + 1)
  }

  function EpochCap(height: nat): nat {
    if height % EPOCH_BLOCKS == 0 then EpochReward(height) else 0
  }

  lemma GrantWithinCap(height: nat, emitted: nat)
    ensures EpochGrant(height, emitted) <= EpochCap(height)
  {}

  ghost function AcceptGrant(env: Env, call: Call, n: Node, b: Block): nat {
    if AcceptCheck(env, call, n, b) == None then BlockGrant(n, b.txs) else 0
  }

  // What a step may add: a grant for the block it appends, and nothing otherwise.
  ghost function Grant(env: Env, s: Sys, step: Step): nat
    requires SysInv(env, s)
  {
    match step
    case AcceptBlock(call, b) => AcceptGrant(env, call, s.node, b)
    case SwitchFork(call, b) =>
      var base := ForkBase(env, s.node, b);
      if base.Some? then AcceptGrant(env, call, base.value, b) else 0
    case CommitJob(call, k, nonce, found) =>
      if k < |s.issued| && CommitIssued(env, call, s.node, s.issued[k].job, nonce, found).0 != s.node then
        assert JobFits(env, s.node, s.issued[k]);
        BlockGrant(s.node, s.issued[k].job.txs)
      else 0
    case _ => 0
  }

  lemma AcceptWithinGrant(env: Env, call: Call, n: Node, b: Block)
    requires Inv(env, n)
    ensures Value(Accept(env, call, n, b).0) <= Value(n) + AcceptGrant(env, call, n, b)
  {
    if AcceptCheck(env, call, n, b) == None {
      AcceptGrowth(env, call, n, b);
      GrantWithinCap(n.chain.height + 1, n.econ.emitted);
    }
  }

  lemma ForkWithinGrant(env: Env, call: Call, s: Sys, b: Block)
    requires SysInv(env, s)
    ensures Value(ForkSwitch(env, call, s.node, b).0) <= Value(s.node) + Grant(env, s, SwitchFork(call, b))
  {
    ForkSwitchByBase(env, call, s.node, b);
    var base := ForkBase(env, s.node, b);
    if base.Some? {
      ForkBaseShrinks(env, s.node, b);
      AcceptWithinGrant(env, call, base.value, b);
    }
  }

  lemma CommitForm(env: Env, call: Call, n: Node, job: Job, nonce: u64, hash: Hash32, found: bool)
    ensures Commit(env, call, n, job, nonce, hash, found).0 in {n, Committed(env, call, n, job, nonce, hash)}
  {}

  lemma AfterEpochCapped(env: Env, call: Call, m: Node)
    ensures Value(AfterEpoch(env, call, m)) <= Value(m) + EpochCap(m.chain.height)
  {
    AfterEpochGrowth(env, call, m);
    GrantWithinCap(m.chain.height, m.econ.emitted);
  }

  // From n a block of these transactions led to m, and an epoch end from m to p.
  ghost predicate Grows(n: Node, m: Node, p: Node, txs: seq<Transaction>)
    requires txs != [] && IsCoinbase(txs[0])
  {
    && Value(m) <= Value(n) + BLOCK_REWARD_LYT + Excess(txs)
    && m.chain.height == n.chain.height + 1
    && Value(p) <= Value(m) + EpochCap(m.chain.height)
  }

  lemma GrowthAddsUp(n: Node, m: Node, p: Node, txs: seq<Transaction>)
    requires txs != [] && IsCoinbase(txs[0]) && Grows(n, m, p, txs)
    ensures Value(p) <= Value(n) + BlockGrant(n, txs)
  {}

  // The reward counted by a commit is not part of what the epoch end adds.
  lemma CommittedGrows(env: Env, call: Call, n: Node, job: Job, nonce: u64, hash: Hash32)
    requires Passes(job.txs, n.econ.utxos) && Indexed(n.econ.utxos)
    ensures Grows(n, MinedOnto(env, n, job, nonce, hash), AfterEpoch(env, call, MinedOnto(env, n, job, nonce, hash)), job.txs)
  {
    MinedOntoGrowth(env, n, job, nonce, hash);
    AfterEpochCapped(env, call, MinedOnto(env, n, job, nonce, hash));
  }

  lemma CommittedGrowth(env: Env, call: Call, n: Node, job: Job, nonce: u64, hash: Hash32)
    requires Passes(job.txs, n.econ.utxos) && Indexed(n.econ.utxos)
    ensures Value(Committed(env, call, n, job, nonce, hash)) <= Value(n) + BlockGrant(n, job.txs)
  {
    CommittedGrows(env, call, n, job, nonce, hash);
    GrowthAddsUp(n, MinedOnto(env, n, job, nonce, hash), Committed(env, call, n, job, nonce, hash), job.txs);
  }

  lemma MinedOntoGrowth(env: Env, n: Node, job: Job, nonce: u64, hash: Hash32)
    requires Passes(job.txs, n.econ.utxos) && Indexed(n.econ.utxos)
    ensures Value(MinedOnto(env, n, job, nonce, hash)) <= Value(n) + BLOCK_REWARD_LYT + Excess(job.txs)
    ensures MinedOnto(env, n, job, nonce, hash).chain.height == n.chain.height + 1
  {
    WithBlockGrowth(env, n, MinedBlock(env, job, nonce), hash);
  }

  lemma CommitWithinGrant(env: Env, call: Call, n: Node, i: Issue, nonce: u64, found: bool)
    requires Inv(env, n) && JobFits(env, n, i)
    ensures IsCoinbase(i.job.txs[0])
    ensures CommitIssued(env, call, n, i.job, nonce, found).0 != n ==>
      Value(CommitIssued(env, call, n, i.job, nonce, found).0) <= Value(n) + BlockGrant(n, i.job.txs)
  {
    var hash := HeaderHash(env.c, i.job.header.(nonce := nonce));
    FitMakesSafe(env, call, n, i, nonce, found);
    CommitForm(env, call, n, i.job, nonce, hash, found);
    if CommitIssued(env, call, n, i.job, nonce, found).0 != n {
      CommittedGrowth(env, call, n, i.job, nonce, hash);
    }
  }

  lemma StepWithinGrant(env: Env, s: Sys, step: Step)
    requires SysInv(env, s)
    ensures Value(Next(env, s, step).node) <= Value(s.node) + Grant(env, s, step)
  {
    match step
    case AcceptBlock(call, b) => AcceptWithinGrant(env, call, s.node, b);
    case RollbackTo(target) => RollBackShrinks(env, s.node, target);
    case SwitchFork(call, b) => ForkWithinGrant(env, call, s, b);
    case PrepareJob(call) =>
    case CommitJob(call, k, nonce, found) =>
      if k < |s.issued| {
        assert JobFits(env, s.node, s.issued[k]);
        CommitWithinGrant(env, call, s.node, s.issued[k], nonce, found);
      }
    case AddTx(tx) =>
    case SetRegister(register) =>
  }

  ghost function Grants(env: Env, s: Sys, steps: seq<Step>): nat
    requires SysInv(env, s)
  {
    if steps == [] then 0
    else
      var before := steps[..|steps| - 1];
      RunKeeps(env, s, before);
      Grants(env, s, before) + Grant(env, Run(env, s, before), steps[|steps| - 1])
  }

  // Over every interleaving, failed forks and commits of own blocks included, value grows by
  // at most the grants of the blocks appended; rollbacks never add value.
  lemma {:induction false} ValueWithinGrants(env: Env, s: Sys, steps: seq<Step>)
    requires SysInv(env, s)
    ensures Value(Run(env, s, steps).node) <= Value(s.node) + Grants(env, s, steps)
  {
    if steps != [] {
      var before := steps[..|steps| - 1];
      RunKeeps(env, s, before);
      ValueWithinGrants(env, s, before);
      StepWithinGrant(env, Run(env, s, before), steps[|steps| - 1]);
    }
  }
}
