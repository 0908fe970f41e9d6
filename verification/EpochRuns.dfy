// What an epoch end leaves behind, and what the next one then finds.

module EpochRuns {
  import opened Agreement
  import opened Blocks
  import opened Bytes
  import opened Economies
  import opened Emission
  import L = Loyalty
  import NodeRuns
  import opened NodeSpecs
  import opened NodeSupply
  import opened Poci
  import opened Records
  import opened Transactions

  // ---- One epoch end ----

  lemma TakesPartExactly(e: Economy, order: seq<MinerId>, id: MinerId)
    requires id in order && forall k :: k in order ==> k in e.miners
    ensures Participated(ResultsOf(e, order), id) <==> e.miners[id].shares > 0
  {
    var r := ResultsOf(e, order);
    forall i | 0 <= i < |order| && order[i] == id
      ensures r[i].id == id && r[i].shares == e.miners[id].shares
    {}
    var k :| 0 <= k < |order| && order[k] == id;
    assert r[k].id == id;
  }

  // Every miner left has one result, by its own shares, loyalty and bond, and no other has any.
  ghost predicate PaidByRecord(e: Economy, slashed: set<MinerId>, r: PociResult) {
    && r.id in e.miners && r.id !in slashed && r.shares == e.miners[r.id].shares && r.reward == 0
    && r.poci == PociOf(e.miners[r.id].shares, LoyaltyOf(e.loyalty, r.id).value, BondAmount(e.bonds, r.id))
  }

  lemma ResultsByRecord(e: Economy, slashed: set<MinerId>, order: seq<MinerId>)
    requires Enumerates(order, (e.miners - slashed).Keys)
    ensures var results := ResultsOf(Slashed(e, slashed), order);
      && (forall i :: 0 <= i < |results| ==> PaidByRecord(e, slashed, results[i]))
      && (forall i, j :: 0 <= i < j < |results| ==> results[i].id != results[j].id)
      && (forall id :: id in e.miners && id !in slashed ==> exists i :: 0 <= i < |results| && results[i].id == id)
  {
    var left := Slashed(e, slashed);
    var results := ResultsOf(left, order);
    forall i | 0 <= i < |results|
      ensures PaidByRecord(e, slashed, results[i])
    {
      var id := order[i];
      assert id in order && id in left.miners;
      assert results[i] == ResultOf(id, left.miners[id], left.bonds, LoyaltyValues(left.loyalty));
      assert LoyaltyValue(LoyaltyValues(left.loyalty), id) == LoyaltyOf(e.loyalty, id).value;
      assert BondAmount(left.bonds, id) == BondAmount(e.bonds, id);
    }
    forall id | id in e.miners && id !in slashed
      ensures exists i :: 0 <= i < |results| && results[i].id == id
    {
      assert id in left.miners && id in order;
      var i :| 0 <= i < |order| && order[i] == id;
      assert results[i].id == id;
    }
  }

  // The miners left: those not slashed, at their addresses, with no share counted any more.
  predicate ResetFrom(before: map<MinerId, Miner>, slashed: set<MinerId>, after: map<MinerId, Miner>) {
    && after.Keys == before.Keys - slashed
    && forall id :: id in after ==> after[id].shares == 0 && after[id].payout == before[id].payout
  }

  // The bonds left: those of the others, as they were.
  predicate TakenFrom(before: map<MinerId, Bond>, slashed: set<MinerId>, after: map<MinerId, Bond>) {
    after.Keys == before.Keys - slashed && forall id :: id in after ==> after[id] == before[id]
  }

  // Whoever is left moves by one update, which counts as participation exactly with a share in
  // hand; the slashed start afresh, and nobody else moves.
  ghost predicate LoyaltyMoved(before: Economy, slashed: set<MinerId>, after: Economy, id: MinerId) {
    LoyaltyOf(after.loyalty, id) ==
      if id in slashed then L.NEW
      else if id in before.miners then L.Updated(LoyaltyOf(before.loyalty, id), before.epoch, before.miners[id].shares > 0)
      else LoyaltyOf(before.loyalty, id)
  }

  lemma MinersLeft(c: Crypto, who: Identity, e: Economy, height: nat, slashed: set<MinerId>, order: seq<MinerId>)
    ensures var after := EpochClosed(c, who, e, height, slashed, order);
      ResetFrom(e.miners, slashed, after.miners) && TakenFrom(e.bonds, slashed, after.bonds)
  {}

  lemma LoyaltyLeft(c: Crypto, who: Identity, e: Economy, height: nat, slashed: set<MinerId>, order: seq<MinerId>, id: MinerId)
    requires Enumerates(order, (e.miners - slashed).Keys)
    ensures LoyaltyMoved(e, slashed, EpochClosed(c, who, e, height, slashed, order), id)
  {
    var left := Slashed(e, slashed);
    LoyaltyMovesOnce(left.loyalty, e.epoch, ResultsOf(left, order), order, |order|, id);
    assert order[..|order|] == order;
    if id in order {
      TakesPartExactly(left, order, id);
    }
  }

  // The epoch number, the miners, the bonds and every miner's loyalty after an epoch end.
  lemma EpochEndLeaves(c: Crypto, who: Identity, e: Economy, height: nat, slashed: set<MinerId>, order: seq<MinerId>)
    requires Enumerates(order, (e.miners - slashed).Keys)
    ensures var after := EpochClosed(c, who, e, height, slashed, order);
      && after.epoch == (if e.epoch < U32_LIMIT - 1 then e.epoch + 1 else e.epoch)
      && ResetFrom(e.miners, slashed, after.miners) && TakenFrom(e.bonds, slashed, after.bonds)
      && forall id :: LoyaltyMoved(e, slashed, after, id)
  {
    MinersLeft(c, who, e, height, slashed, order);
    forall id
      ensures LoyaltyMoved(e, slashed, EpochClosed(c, who, e, height, slashed, order), id)
    {
      LoyaltyLeft(c, who, e, height, slashed, order, id);
    }
  }

  // ---- From one epoch end to the next ----

  ghost predicate NoShares(n: Node) {
    forall id :: id in n.econ.miners ==> n.econ.miners[id].shares == 0
  }

  // At the end of an epoch, after which no share is counted.
  lemma EndLeavesNoShares(env: Env, call: Call, n: Node)
    requires n.chain.height % EPOCH_BLOCKS == 0
    ensures NoShares(AfterEpoch(env, call, n))
  {
    MinersLeft(env.c, env.who, n.econ, n.chain.height, call.slashed, call.order);
  }

  lemma EndKeepsNoShares(env: Env, call: Call, n: Node)
    requires NoShares(n)
    ensures NoShares(AfterEpoch(env, call, n))
  {
    if n.chain.height % EPOCH_BLOCKS == 0 {
      EndLeavesNoShares(env, call, n);
    }
  }

  lemma AcceptKeepsNoShares(env: Env, call: Call, n: Node, b: Block)
    requires NoShares(n)
    ensures NoShares(Accept(env, call, n, b).0)
  {
    AcceptForm(env, call, n, b);
    EndKeepsNoShares(env, call, WithBlock(env, n, b, HeaderHash(env.c, b.header)));
  }

  lemma ForkKeepsNoShares(env: Env, call: Call, n: Node, b: Block)
    requires NoShares(n)
    ensures NoShares(ForkSwitch(env, call, n, b).0)
  {
    ForkSwitchByBase(env, call, n, b);
    if ForkBase(env, n, b).Some? {
      AcceptKeepsNoShares(env, call, ForkBase(env, n, b).value, b);
    }
  }

  lemma CommitKeepsNoShares(env: Env, call: Call, n: Node, job: Job, nonce: u64, found: bool)
    requires NoShares(n)
    ensures NoShares(NodeRuns.CommitIssued(env, call, n, job, nonce, found).0)
  {
    var hash := HeaderHash(env.c, job.header.(nonce := nonce));
    CommitForm(env, call, n, job, nonce, hash, found);
    EndKeepsNoShares(env, call, MinedOnto(env, n, job, nonce, hash));
  }

  lemma StepKeepsNoShares(env: Env, s: NodeRuns.Sys, step: NodeRuns.Step)
    requires NoShares(s.node) && !step.SetRegister?
    ensures NoShares(NodeRuns.NextNode(env, s, step))
  {
    match step
    case AcceptBlock(call, b) => AcceptKeepsNoShares(env, call, s.node, b);
    case RollbackTo(target) =>
    case SwitchFork(call, b) => ForkKeepsNoShares(env, call, s.node, b);
    case PrepareJob(call) =>
    case CommitJob(call, k, nonce, found) =>
      if k < |s.issued| { CommitKeepsNoShares(env, call, s.node, s.issued[k].job, nonce, found); }
    case AddTx(tx) =>
  }

  // No message or share reaches the miners' records.
  ghost predicate Unattended(steps: seq<NodeRuns.Step>) {
    forall k :: 0 <= k < |steps| ==> !steps[k].SetRegister?
  }

  lemma {:induction false} RunKeepsNoShares(env: Env, s: NodeRuns.Sys, steps: seq<NodeRuns.Step>)
    requires NoShares(s.node) && Unattended(steps)
    ensures NoShares(NodeRuns.Run(env, s, steps).node)
  {
    if steps != [] {
      var n := |steps| - 1;
      RunKeepsNoShares(env, s, steps[..n]);
      StepKeepsNoShares(env, NodeRuns.Run(env, s, steps[..n]), steps[n]);
    }
  }

  // Paid by loyalty and bond alone, and not counted as taking part.
  ghost predicate Idle(e: Economy, slashed: set<MinerId>, r: PociResult) {
    && r.shares == 0 && r.id in e.miners && r.id !in slashed
    && r.poci == PociOf(0, LoyaltyOf(e.loyalty, r.id).value, BondAmount(e.bonds, r.id))
  }

  lemma IdleResults(e: Economy, slashed: set<MinerId>, order: seq<MinerId>)
    requires Enumerates(order, (e.miners - slashed).Keys) && forall id :: id in e.miners ==> e.miners[id].shares == 0
    ensures var results := ResultsOf(Slashed(e, slashed), order);
      && (forall i :: 0 <= i < |results| ==> Idle(e, slashed, results[i]))
      && forall id :: !Participated(results, id)
  {
    ResultsByRecord(e, slashed, order);
    var results := ResultsOf(Slashed(e, slashed), order);
    forall i | 0 <= i < |results|
      ensures Idle(e, slashed, results[i])
    {
      assert PaidByRecord(e, slashed, results[i]);
    }
  }

  // m is r with one block more, taken or mined; its epoch may be about to end.
  ghost predicate OneBlockOn(env: Env, r: Node, m: Node) {
    || (exists b, id {:trigger WithBlock(env, r, b, id)} :: m == WithBlock(env, r, b, id))
    || (exists job, nonce, id {:trigger MinedOnto(env, r, job, nonce, id)} :: m == MinedOnto(env, r, job, nonce, id))
  }

  // From the end of one epoch on, whatever blocks, forks and commits follow, as long as nothing
  // reaches the miners' records: the next epoch end pays each miner by loyalty and bond alone,
  // counts nobody as taking part, and so lets the loyalty of all who are left decay.
  lemma {:induction false} NextEpochFindsNoShares(env: Env, ended: Call, n: Node, issued: seq<NodeRuns.Issue>, steps: seq<NodeRuns.Step>,
                                                  m: Node, call: Call, id: MinerId)
    requires n.chain.height % EPOCH_BLOCKS == 0 && Unattended(steps)
    requires OneBlockOn(env, NodeRuns.Run(env, NodeRuns.Sys(AfterEpoch(env, ended, n), issued), steps).node, m)
    requires m.chain.height % EPOCH_BLOCKS == 0 && Enumerates(call.order, (m.econ.miners - call.slashed).Keys)
    ensures forall i :: 0 <= i < |ResultsAt(env, call, m)| ==> Idle(m.econ, call.slashed, ResultsAt(env, call, m)[i])
    ensures forall x :: !Participated(ResultsAt(env, call, m), x)
    ensures id in m.econ.miners && id !in call.slashed ==>
      LoyaltyOf(AfterEpoch(env, call, m).econ.loyalty, id) == L.Updated(LoyaltyOf(m.econ.loyalty, id), m.econ.epoch, false)
  {
    EndLeavesNoShares(env, ended, n);
    RunKeepsNoShares(env, NodeRuns.Sys(AfterEpoch(env, ended, n), issued), steps);
    OneBlockKeepsMiners(env, NodeRuns.Run(env, NodeRuns.Sys(AfterEpoch(env, ended, n), issued), steps).node, m);
    IdleResults(m.econ, call.slashed, call.order);
    LoyaltyLeft(env.c, env.who, m.econ, m.chain.height, call.slashed, call.order, id);
  }

  lemma OneBlockKeepsMiners(env: Env, r: Node, m: Node)
    requires OneBlockOn(env, r, m)
    ensures m.econ.miners == r.econ.miners
  {}
}
