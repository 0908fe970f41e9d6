// Whole runs of the node: network blocks, rollbacks, forks, mempool additions and mining
// jobs prepared and committed at any later time.

module NodeRuns {
  import opened BlockValue
  import opened Blocks
  import opened Bytes
  import opened Chains
  import opened NodeInvariants
  import opened NodeSpecs
  import opened Transactions
  import opened Wrappers

  // A job together with the node as it was when the job was handed out.
  datatype Issue = Issue(job: Job, at: Node)

  datatype Sys = Sys(node: Node, issued: seq<Issue>)

  // A commit names any job ever issued and brings a nonce with the hash of its header.
  datatype Step =
    | AcceptBlock(call: Call, block: Block)
    | RollbackTo(target: nat)
    | SwitchFork(call: Call, block: Block)
    | PrepareJob(call: Call)
    | CommitJob(call: Call, k: nat, nonce: u64, found: bool)
    | AddTx(tx: Transaction)
    | SetRegister(register: Register)

  ghost function NextNode(env: Env, s: Sys, step: Step): Node {
    match step
    case AcceptBlock(call, b) => Accept(env, call, s.node, b).0
    case RollbackTo(target) => RollBack(env, s.node, target)
    case SwitchFork(call, b) => ForkSwitch(env, call, s.node, b).0
    case PrepareJob(call) => Prepare(env, call, s.node).0
    case CommitJob(call, k, nonce, found) =>
      if k < |s.issued| then CommitIssued(env, call, s.node, s.issued[k].job, nonce, found).0 else s.node
    case AddTx(tx) => AddTransaction(env, s.node, tx)
    case SetRegister(register) => WithRegister(s.node, register)
  }

  ghost function CommitIssued(env: Env, call: Call, n: Node, job: Job, nonce: u64, found: bool): (Node, Result<bool, CommitError>) {
    Commit(env, call, n, job, nonce, HeaderHash(env.c, job.header.(nonce := nonce)), found)
  }

  ghost function Next(env: Env, s: Sys, step: Step): Sys {
    var job := if step.PrepareJob? then Prepare(env, step.call, s.node).1 else None;
    Sys(NextNode(env, s, step), if job.Some? then s.issued + [Issue(job.value, s.node)] else s.issued)
  }

  ghost function Run(env: Env, s: Sys, steps: seq<Step>): Sys {
    if steps == [] then s else Next(env, Run(env, s, steps[..|steps| - 1]), steps[|steps| - 1])
  }

  lemma GenesisInv(env: Env, b: Block)
    requires |b.txs| == 1 && b.txs[0].outputs != []
    ensures Inv(env, GenesisNode(env, b)) && Rising(GenesisNode(env, b).chain.times)
  {
    SingleLinked(Hash(env), b);
  }

  // ---- Jobs in flight ----

  // How chain and outputs can move in a step: the generation is raised, or nothing moved, or
  // (after a failed fork switch) the tip was lost.
  ghost predicate Moves(n: Node, m: Node) {
    || m.generation > n.generation
    || (m.generation == n.generation && m.chain == n.chain && m.econ.utxos == n.econ.utxos)
    || (m.generation == n.generation && m.chain.height < n.chain.height)
  }

  // A job that would still be committed finds the chain and the outputs it was built on.
  ghost predicate JobFits(env: Env, n: Node, i: Issue) {
    && JobRight(env, i.job) && Passes(i.job.txs, i.at.econ.utxos)
    && i.job.prevHash == TipHash(Hash(env), i.at.chain) && i.job.height == i.at.chain.height + 1
    && i.job.difficulty == NextDifficulty(i.at.chain)
    && i.job.generation <= n.generation
    && (i.job.generation == n.generation ==> n.chain.height <= i.at.chain.height)
    && (i.job.generation == n.generation && n.chain.height == i.at.chain.height ==>
          n.chain == i.at.chain && n.econ.utxos == i.at.econ.utxos)
  }

  lemma FitsKept(env: Env, n: Node, m: Node, i: Issue)
    requires JobFits(env, n, i) && Moves(n, m)
    ensures JobFits(env, m, i)
  {}

  lemma AcceptMoves(env: Env, call: Call, n: Node, b: Block)
    ensures Accept(env, call, n, b).0 == n || Accept(env, call, n, b).0.generation > n.generation
  {}

  lemma AcceptOnMoves(env: Env, call: Call, n: Node, base: Node, b: Block)
    requires base.generation > n.generation || (base.generation == n.generation && base.chain.height < n.chain.height)
    ensures Moves(n, AcceptOn(env, call, base, b).0)
  {
    AcceptMoves(env, call, base, b);
  }

  lemma MultiReorgMoves(env: Env, call: Call, n: Node, b: Block)
    ensures Moves(n, MultiReorg(env, call, n, b).0)
  {
    if b.header.prevHash in n.chain.index && n.chain.index[b.header.prevHash] < n.chain.height {
      AcceptOnMoves(env, call, n, RollBack(env, n, n.chain.index[b.header.prevHash]), b);
    }
  }

  lemma OutcomeMoves(env: Env, call: Call, n: Node, b: Block, out: (Node, Result<bool, ForkError>))
    requires ForkOutcome(env, call, n, b, out)
    ensures Moves(n, out.0)
  {
    MultiReorgMoves(env, call, n, b);
    if n.chain.height > 0 {
      AcceptOnMoves(env, call, n, TipDropped(env, n), b);
    }
  }

  lemma CommitMoves(env: Env, call: Call, n: Node, job: Job, nonce: u64, found: bool)
    ensures Moves(n, CommitIssued(env, call, n, job, nonce, found).0)
  {}

  lemma StepMoves(env: Env, s: Sys, step: Step)
    ensures Moves(s.node, NextNode(env, s, step))
  {
    match step
    case AcceptBlock(call, b) => AcceptMoves(env, call, s.node, b);
    case RollbackTo(target) =>
    case SwitchFork(call, b) =>
      ForkSwitchOutcome(env, call, s.node, b);
      OutcomeMoves(env, call, s.node, b, ForkSwitch(env, call, s.node, b));
    case PrepareJob(call) =>
    case CommitJob(call, k, nonce, found) =>
      if k < |s.issued| { CommitMoves(env, call, s.node, s.issued[k].job, nonce, found); }
    case AddTx(tx) =>
    case SetRegister(register) =>
  }

  // ---- The invariant of the whole system ----

  ghost predicate SysInv(env: Env, s: Sys) {
    Inv(env, s.node) && forall k :: 0 <= k < |s.issued| ==> JobFits(env, s.node, s.issued[k])
  }

  lemma StepKeepsInv(env: Env, s: Sys, step: Step)
    requires SysInv(env, s)
    ensures Inv(env, NextNode(env, s, step))
  {
    match step
    case AcceptBlock(call, b) => AcceptKeeps(env, call, s.node, b);
    case RollbackTo(target) => RollBackKeeps(env, s.node, target);
    case SwitchFork(call, b) => ForkSwitchKeeps(env, call, s.node, b);
    case PrepareJob(call) => PrepareKeeps(env, call, s.node);
    case CommitJob(call, k, nonce, found) =>
      if k < |s.issued| {
        assert JobFits(env, s.node, s.issued[k]);
        CommitKeeps(env, call, s.node, s.issued[k].job, nonce, found);
      }
    case AddTx(tx) => AddKeeps(env, s.node, tx);
    case SetRegister(register) =>
  }

  lemma NewJobFits(env: Env, call: Call, n: Node)
    requires Inv(env, n) && Prepare(env, call, n).1.Some?
    ensures JobFits(env, n, Issue(Prepare(env, call, n).1.value, n))
  {
    PrepareKeeps(env, call, n);
  }

  lemma StepKeeps(env: Env, s: Sys, step: Step)
    requires SysInv(env, s)
    ensures SysInv(env, Next(env, s, step))
  {
    var t := Next(env, s, step);
    StepKeepsInv(env, s, step);
    StepMoves(env, s, step);
    forall k | 0 <= k < |t.issued|
      ensures JobFits(env, t.node, t.issued[k])
    {
      IssueFits(env, s, step, k);
      FitsKept(env, s.node, t.node, t.issued[k]);
    }
  }

  lemma IssueFits(env: Env, s: Sys, step: Step, k: nat)
    requires SysInv(env, s) && k < |Next(env, s, step).issued|
    ensures JobFits(env, s.node, Next(env, s, step).issued[k])
  {
    if k < |s.issued| {
      assert JobFits(env, s.node, s.issued[k]);
    } else {
      NewJobFits(env, step.call, s.node);
    }
  }

  // Every interleaving, failed fork switches included, keeps the five chain structures in
  // agreement, the mempool free of shared ids and inputs, and the memo right.
  lemma {:induction false} RunKeeps(env: Env, s: Sys, steps: seq<Step>)
    requires SysInv(env, s)
    ensures SysInv(env, Run(env, s, steps))
  {
    if steps != [] {
      RunKeeps(env, s, steps[..|steps| - 1]);
      StepKeeps(env, Run(env, s, steps[..|steps| - 1]), steps[|steps| - 1]);
    }
  }

  lemma {:induction false} ReachableInv(env: Env, genesis: Block, steps: seq<Step>)
    requires |genesis.txs| == 1 && genesis.txs[0].outputs != []
    ensures SysInv(env, Run(env, Sys(GenesisNode(env, genesis), []), steps))
  {
    GenesisInv(env, genesis);
    RunKeeps(env, Sys(GenesisNode(env, genesis), []), steps);
  }

  // In every reachable state a template passes both validators on the stored outputs, its
  // root is the block root, and its retarget is the fresh one.
  lemma {:induction false} ReachableTemplatePasses(env: Env, genesis: Block, steps: seq<Step>, call: Call)
    requires |genesis.txs| == 1 && genesis.txs[0].outputs != []
    ensures var n := Run(env, Sys(GenesisNode(env, genesis), []), steps).node;
      Prepare(env, call, n).1.Some? ==>
        var job := Prepare(env, call, n).1.value;
        && Passes(job.txs, n.econ.utxos)
        && job.header.merkleRoot == BlockRoot(env.c, job.txs)
        && job.difficulty == NextDifficulty(n.chain)
  {
    ReachableInv(env, genesis, steps);
    PrepareKeeps(env, call, Run(env, Sys(GenesisNode(env, genesis), []), steps).node);
  }

  // The three-phase mining protocol: in every reachable state a commit of any job ever
  // issued, with a matching nonce and hash, never fails, and changes the chain only by
  // extending the very chain and outputs the job was built on, which its block validates on.
  lemma {:induction false} CommitIsSafe(env: Env, genesis: Block, steps: seq<Step>, call: Call, k: nat, nonce: u64, found: bool)
    requires |genesis.txs| == 1 && genesis.txs[0].outputs != []
    requires k < |Run(env, Sys(GenesisNode(env, genesis), []), steps).issued|
    ensures var s := Run(env, Sys(GenesisNode(env, genesis), []), steps);
      SafeCommit(env, call, s.node, s.issued[k], nonce, found)
  {
    ReachableInv(env, genesis, steps);
    var s := Run(env, Sys(GenesisNode(env, genesis), []), steps);
    FitMakesSafe(env, call, s.node, s.issued[k], nonce, found);
  }

  ghost predicate SafeCommit(env: Env, call: Call, n: Node, i: Issue, nonce: u64, found: bool) {
    var (m, r) := CommitIssued(env, call, n, i.job, nonce, found);
    && r.Ok?
    && (m != n ==>
          && n.chain == i.at.chain && n.econ.utxos == i.at.econ.utxos
          && Passes(i.job.txs, n.econ.utxos)
          && i.job.header.merkleRoot == BlockRoot(env.c, i.job.txs)
          && m.chain == Pushed(i.at.chain, MinedBlock(env, i.job, nonce), HeaderHash(env.c, i.job.header.(nonce := nonce)))
          && Extending(Hash(env), i.at.chain, MinedBlock(env, i.job, nonce)))
  }

  lemma FitMakesSafe(env: Env, call: Call, n: Node, i: Issue, nonce: u64, found: bool)
    requires Inv(env, n) && JobFits(env, n, i)
    ensures SafeCommit(env, call, n, i, nonce, found)
  {
    CommitKeeps(env, call, n, i.job, nonce, found);
  }

  // ---- The difficulty memo ----

  // In every reachable state the memoised difficulty is the one computed afresh.
  lemma {:induction false} MemoIsTransparent(env: Env, genesis: Block, steps: seq<Step>)
    requires |genesis.txs| == 1 && genesis.txs[0].outputs != []
    ensures var n := Run(env, Sys(GenesisNode(env, genesis), []), steps).node;
      NextDifficultyMemo(n.chain, n.memo).0 == NextDifficulty(n.chain) == NextDifficultyMemo(n.chain, None).0
  {
    ReachableInv(env, genesis, steps);
    var n := Run(env, Sys(GenesisNode(env, genesis), []), steps).node;
    MemoAgrees(n.chain, n.memo);
    MemoAgrees(n.chain, None);
  }

  // ---- Timestamps ----

  // Committing is the one step that does not check the time of its block.
  ghost predicate Checked(steps: seq<Step>) {
    forall k :: 0 <= k < |steps| ==> !steps[k].CommitJob?
  }

  lemma AcceptedChain(env: Env, call: Call, n: Node, b: Block)
    requires AcceptCheck(env, call, n, b) == None
    ensures Accept(env, call, n, b).0.chain == Pushed(n.chain, b, HeaderHash(env.c, b.header))
    ensures TimeOk(n.chain, b.header.timestamp, call.now)
  {}

  lemma AcceptRises(env: Env, call: Call, n: Node, b: Block)
    requires Linked(Hash(env), n.chain) && Rising(n.chain.times)
    ensures Rising(Accept(env, call, n, b).0.chain.times)
  {
    if AcceptCheck(env, call, n, b) == None {
      AcceptedChain(env, call, n, b);
      RisingKept(Hash(env), n.chain, b.header.timestamp, call.now);
    }
  }

  lemma {:induction false} PopsRise(hash: HeaderHasher, ch: Chain, target: nat)
    requires Rising(ch.times)
    ensures Rising(PoppedTo(hash, ch, target).times)
    decreases ch.height
  {
    if ch.height > target {
      PopsRise(hash, Popped(hash, ch), target);
    }
  }

  lemma AcceptOnRises(env: Env, call: Call, n: Node, b: Block)
    requires Linked(Hash(env), n.chain) && Rising(n.chain.times)
    ensures Rising(AcceptOn(env, call, n, b).0.chain.times)
  {
    AcceptRises(env, call, n, b);
  }

  lemma MultiReorgRises(env: Env, call: Call, n: Node, b: Block)
    requires Inv(env, n) && Rising(n.chain.times)
    ensures Rising(MultiReorg(env, call, n, b).0.chain.times)
  {
    if b.header.prevHash in n.chain.index {
      var fork := n.chain.index[b.header.prevHash];
      PopsRise(Hash(env), n.chain, fork);
      RollBackKeeps(env, n, fork);
      AcceptOnRises(env, call, RollBack(env, n, fork), b);
    }
  }

  lemma ForkRises(env: Env, call: Call, n: Node, b: Block, out: (Node, Result<bool, ForkError>))
    requires Inv(env, n) && Rising(n.chain.times) && ForkOutcome(env, call, n, b, out)
    ensures Rising(out.0.chain.times)
  {
    MultiReorgRises(env, call, n, b);
    if n.chain.height > 0 {
      TipDroppedKeeps(env, n);
      AcceptOnRises(env, call, TipDropped(env, n), b);
    }
  }

  lemma SwitchRises(env: Env, call: Call, n: Node, b: Block)
    requires Inv(env, n) && Rising(n.chain.times)
    ensures Rising(ForkSwitch(env, call, n, b).0.chain.times)
  {
    ForkSwitchOutcome(env, call, n, b);
    ForkRises(env, call, n, b, ForkSwitch(env, call, n, b));
  }

  lemma StepRises(env: Env, s: Sys, step: Step)
    requires Inv(env, s.node) && Rising(s.node.chain.times) && !step.CommitJob?
    ensures Rising(NextNode(env, s, step).chain.times)
  {
    match step
    case AcceptBlock(call, b) => AcceptRises(env, call, s.node, b);
    case RollbackTo(target) => RollBackRises(env, s.node, target);
    case SwitchFork(call, b) => SwitchRises(env, call, s.node, b);
    case _ => QuietStep(env, s, step);
  }

  lemma RollBackRises(env: Env, n: Node, target: nat)
    requires Rising(n.chain.times)
    ensures Rising(RollBack(env, n, target).chain.times)
  {
    PopsRise(Hash(env), n.chain, target);
  }

  // Preparing a job, a new transaction and the register leave the chain alone.
  lemma QuietStep(env: Env, s: Sys, step: Step)
    requires step.PrepareJob? || step.AddTx? || step.SetRegister?
    ensures NextNode(env, s, step).chain == s.node.chain
  {}

  // In every state reached without commits, timestamps after genesis increase strictly, so
  // the median test is implied by the parent test for every candidate time.
  lemma {:induction false} TimesRise(env: Env, genesis: Block, steps: seq<Step>)
    requires |genesis.txs| == 1 && genesis.txs[0].outputs != [] && Checked(steps)
    ensures Rising(Run(env, Sys(GenesisNode(env, genesis), []), steps).node.chain.times)
  {
    if steps == [] {
      GenesisInv(env, genesis);
    } else {
      var before := steps[..|steps| - 1];
      TimesRise(env, genesis, before);
      ReachableInv(env, genesis, before);
      StepRises(env, Run(env, Sys(GenesisNode(env, genesis), []), before), steps[|steps| - 1]);
    }
  }

  // A commit keeps the times rising exactly when the time of its job, which it does not
  // check, lies after the tip.
  lemma CommitRisesExactly(env: Env, call: Call, n: Node, job: Job, nonce: u64, hash: Hash32)
    requires Linked(Hash(env), n.chain) && Rising(n.chain.times)
    ensures Rising(Committed(env, call, n, job, nonce, hash).chain.times)
       <==> (n.chain.height > 0 ==> job.header.timestamp > n.chain.times[n.chain.height])
  {
    CommittedTimes(env, call, n, job, nonce, hash);
    RisesExactly(n.chain.times, job.header.timestamp);
  }

  // A job carries the clock of its preparation. Whenever it is committed with a matching pair
  // later, the times keep rising exactly when that clock had passed the tip's time.
  lemma PreparedCommitRisesExactly(env: Env, prepared: Call, at: Node, job: Job, call: Call, n: Node, nonce: u64, found: bool)
    requires Prepare(env, prepared, at).1 == Some(job) && Inv(env, n) && JobFits(env, n, Issue(job, at))
    requires CommitIssued(env, call, n, job, nonce, found).0 != n && Rising(n.chain.times)
    ensures Rising(CommitIssued(env, call, n, job, nonce, found).0.chain.times)
       <==> (at.chain.height > 0 ==> prepared.now > at.chain.times[at.chain.height])
  {
    FitMakesSafe(env, call, n, Issue(job, at), nonce, found);
    RisesExactly(n.chain.times, job.header.timestamp);
  }

  lemma CommittedTimes(env: Env, call: Call, n: Node, job: Job, nonce: u64, hash: Hash32)
    ensures Committed(env, call, n, job, nonce, hash).chain.times == n.chain.times + [job.header.timestamp]
  {}

  lemma RisesExactly(times: seq<u64>, timestamp: u64)
    requires Rising(times) && times != []
    ensures Rising(times + [timestamp]) <==> (|times| > 1 ==> timestamp > times[|times| - 1])
  {
    if |times| > 1 && timestamp <= times[|times| - 1] {
      assert (times + [timestamp])[|times| - 1] >= (times + [timestamp])[|times|];
    } else {
      RisingSnoc(times, timestamp);
    }
  }

  lemma {:induction false} MedianIsRedundant(env: Env, genesis: Block, steps: seq<Step>, timestamp: u64, now: u64)
    requires |genesis.txs| == 1 && genesis.txs[0].outputs != [] && Checked(steps)
    ensures var ch := Run(env, Sys(GenesisNode(env, genesis), []), steps).node.chain;
      TimeOk(ch, timestamp, now) <==> TimestampOk(timestamp, ParentTime(ch), None, now)
  {
    TimesRise(env, genesis, steps);
    ReachableInv(env, genesis, steps);
    MedianTestIsImplied(Hash(env), Run(env, Sys(GenesisNode(env, genesis), []), steps).node.chain, timestamp, now);
  }
}
