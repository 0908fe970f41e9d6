// Miner and peer at an epoch end of a run whose ids do not collide.

module AgreementRuns {
  import opened Agreement
  import opened Blocks
  import opened Bytes
  import opened Economies
  import opened Emission
  import opened EpochOrders
  import opened Ledger
  import opened Merkle
  import NodeRuns
  import opened NodeSpecs
  import opened Origins
  import opened Poci
  import opened Transactions
  import opened Wrappers

  // ---- The payments of the last step are new ----

  // The last step of a run brings in e, which ends an epoch.
  ghost predicate EndsWith(env: Env, g: Block, steps: seq<NodeRuns.Step>, e: Entry) {
    && |g.txs| == 1 && g.txs[0].outputs != [] && steps != []
    && EntryAt(env, g, steps, |steps| - 1) == Some(e) && e.m.chain.height % EPOCH_BLOCKS == 0
    && IdsApart(env, g, steps) && EconAfter(env, g, steps, |steps| - 1).epoch < U32_LIMIT - 1
  }

  lemma PaymentIsSource(env: Env, g: Block, steps: seq<NodeRuns.Step>, e: Entry, preimage: seq<byte>)
    requires EndsWith(env, g, steps, e) && Pays(e.call, e.m, preimage)
    ensures SourceAt(env, g, steps, |steps|, FromPayment(preimage))
  {}

  // Different preimages have different ids.
  lemma PaymentsDiffer(env: Env, g: Block, steps: seq<NodeRuns.Step>, e: Entry, a: seq<byte>, b: seq<byte>)
    requires EndsWith(env, g, steps, e) && Pays(e.call, e.m, a) && Pays(e.call, e.m, b) && env.c.sha(a) == env.c.sha(b)
    ensures a == b
  {
    PaymentIsSource(env, g, steps, e, a);
    PaymentIsSource(env, g, steps, e, b);
    UseIdsApart(env, g, steps, |steps|, FromPayment(a), |steps|, FromPayment(b));
  }

  // Before the last step nothing was paid from one of its preimages.
  lemma PaidLast(env: Env, g: Block, steps: seq<NodeRuns.Step>, e: Entry, preimage: seq<byte>, k: nat)
    requires EndsWith(env, g, steps, e) && Pays(e.call, e.m, preimage)
    requires k <= |steps| && SourceAt(env, g, steps, k, FromPayment(preimage))
    ensures k == |steps|
  {
    PaymentIsSource(env, g, steps, e, preimage);
    var last := |steps| - 1;
    assert EconAfter(env, g, steps, last).epoch < U32_LIMIT - 1;
    PaidOnce(env, g, steps, last, k, |steps|, preimage);
    assert k == |steps|;
  }

  // What the node holds before its epoch ends comes from this block or from earlier steps.
  lemma SourceOfHeld(env: Env, g: Block, steps: seq<NodeRuns.Step>, e: Entry, o: OutPoint) returns (k: nat, src: Source)
    requires EndsWith(env, g, steps, e) && o in e.m.econ.utxos
    ensures k <= |steps| && SourceAt(env, g, steps, k, src) && IdOf(env.c, src) == o.txid && (k == |steps| ==> src.FromTx?)
  {
    var n := |steps| - 1;
    StepMovesBy(env, After(env, g, steps, n), steps[n]);
    var before := EconAfter(env, g, steps, n).utxos;
    var base :| Part(base, before) && e.m.econ.utxos == Apply(env.c, base, e.txs, |e.txs|);
    AppliedFrom(env.c, base, e.txs, |e.txs|, o);
    if tx :| tx in e.txs && env.c.txid(tx) == o.txid {
      k, src := |steps|, FromTx(tx);
    } else {
      k, src := EarlierSource(env, g, steps, n, o);
    }
  }

  lemma EarlierSource(env: Env, g: Block, steps: seq<NodeRuns.Step>, n: nat, o: OutPoint) returns (k: nat, src: Source)
    requires |g.txs| == 1 && g.txs[0].outputs != [] && n <= |steps| && o in EconAfter(env, g, steps, n).utxos
    ensures k <= n && SourceAt(env, g, steps, k, src) && IdOf(env.c, src) == o.txid
  {
    EntryLater(env, g, steps, n, n);
    AllKnown(env, g, steps[..n], o);
    var out := EconAfter(env, g, steps, n).utxos[o];
    var j: nat, a :| j <= n && Gives(env, g, steps[..n], j, a, o, out);
    GivesLater(env, g, steps, n, j, a, o, out);
    k, src := j, a;
  }

  lemma NewPayment(env: Env, g: Block, steps: seq<NodeRuns.Step>, e: Entry, preimage: seq<byte>, o: OutPoint)
    requires EndsWith(env, g, steps, e) && Pays(e.call, e.m, preimage) && o in e.m.econ.utxos
    ensures o.txid != env.c.sha(preimage)
  {
    PaymentIsSource(env, g, steps, e, preimage);
    var k, src := SourceOfHeld(env, g, steps, e, o);
    if o.txid == env.c.sha(preimage) {
      UseIdsApart(env, g, steps, k, src, |steps|, FromPayment(preimage));
      PaidLast(env, g, steps, e, preimage, k);
    }
  }

  // ---- So all of them go to new outpoints ----

  lemma SamePreimages(env: Env, e: Entry, id: MinerId)
    ensures RewardPreimage(PaydayAt(env, e.call, e.m), id) == RewardBytes(e.m, id)
    ensures TreasuryOutpoint(env.c, PaydayAt(env, e.call, e.m).epoch).txid == env.c.sha(TreasuryPreimage(e.m.econ.epoch))
  {}

  lemma RewardIsApart(env: Env, g: Block, steps: seq<NodeRuns.Step>, e: Entry, id: MinerId)
    requires EndsWith(env, g, steps, e) && id in e.call.order
    ensures RewardApart(env.c, PaydayAt(env, e.call, e.m), e.m.econ.utxos, id)
  {
    var p, reward, treasury := PaydayAt(env, e.call, e.m), RewardBytes(e.m, id), TreasuryPreimage(e.m.econ.epoch);
    SamePreimages(env, e, id);
    if RewardOutpoint(env.c, p, id) in e.m.econ.utxos {
      NewPayment(env, g, steps, e, reward, RewardOutpoint(env.c, p, id));
    }
    NoRewardIsTreasury(e.m, id, e.m.econ.epoch);
    if env.c.sha(reward) == env.c.sha(treasury) {
      PaymentsDiffer(env, g, steps, e, reward, treasury);
    }
  }

  lemma RewardsDiffer(env: Env, g: Block, steps: seq<NodeRuns.Step>, e: Entry, a: MinerId, b: MinerId)
    requires EndsWith(env, g, steps, e) && a in e.call.order && b in e.call.order && a != b
    ensures RewardOutpoint(env.c, PaydayAt(env, e.call, e.m), a) != RewardOutpoint(env.c, PaydayAt(env, e.call, e.m), b)
  {
    SamePreimages(env, e, a);
    SamePreimages(env, e, b);
    if env.c.sha(RewardBytes(e.m, a)) == env.c.sha(RewardBytes(e.m, b)) {
      PaymentsDiffer(env, g, steps, e, RewardBytes(e.m, a), RewardBytes(e.m, b));
      RewardBytesTell(e.m, a, e.m, b);
    }
  }

  lemma PaymentsAreApart(env: Env, g: Block, steps: seq<NodeRuns.Step>, e: Entry)
    requires EndsWith(env, g, steps, e) && forall i, j :: 0 <= i < j < |e.call.order| ==> e.call.order[i] != e.call.order[j]
    ensures ApartAt(env, e.call, e.m)
  {
    var p, results, order := PaydayAt(env, e.call, e.m), ResultsAt(env, e.call, e.m), e.call.order;
    assert |results| == |order| && forall i :: 0 <= i < |order| ==> results[i].id == order[i];
    var o := TreasuryOutpoint(env.c, p.epoch);
    if o in e.m.econ.utxos {
      NewPayment(env, g, steps, e, TreasuryPreimage(e.m.econ.epoch), o);
    }
    forall i | 0 <= i < |results|
      ensures RewardApart(env.c, p, e.m.econ.utxos, results[i].id)
    {
      RewardIsApart(env, g, steps, e, order[i]);
    }
    forall i, j | 0 <= i < j < |results|
      ensures RewardOutpoint(env.c, p, results[i].id) != RewardOutpoint(env.c, p, results[j].id)
    {
      RewardsDiffer(env, g, steps, e, order[i], order[j]);
    }
  }

  // ---- Miner and peer ----

  function Committing(steps: seq<NodeRuns.Step>, call: Call, k: nat, nonce: u64): seq<NodeRuns.Step> {
    steps + [NodeRuns.CommitJob(call, k, nonce, true)]
  }

  ghost function NodeAfter(env: Env, g: Block, steps: seq<NodeRuns.Step>): Node
    requires |g.txs| == 1 && g.txs[0].outputs != []
  {
    NodeRuns.Run(env, StartOf(env, g), steps).node
  }

  ghost function JobOf(env: Env, g: Block, steps: seq<NodeRuns.Step>, k: nat): Job
    requires |g.txs| == 1 && g.txs[0].outputs != [] && k < |NodeRuns.Run(env, StartOf(env, g), steps).issued|
  {
    NodeRuns.Run(env, StartOf(env, g), steps).issued[k].job
  }

  // After this run the commit of job k changes the node and ends an epoch.
  ghost predicate EndsEpoch(env: Env, g: Block, steps: seq<NodeRuns.Step>, call: Call, k: nat, nonce: u64) {
    && |g.txs| == 1 && g.txs[0].outputs != [] && k < |NodeRuns.Run(env, StartOf(env, g), steps).issued|
    && (NodeAfter(env, g, steps).chain.height + 1) % EPOCH_BLOCKS == 0
    && NodeRuns.CommitIssued(env, call, NodeAfter(env, g, steps), JobOf(env, g, steps, k), nonce, true).0 != NodeAfter(env, g, steps)
    && IdsApart(env, g, Committing(steps, call, k, nonce)) && NodeAfter(env, g, steps).econ.epoch < U32_LIMIT - 1
  }

  lemma CommitIsEntry(env: Env, g: Block, steps: seq<NodeRuns.Step>, call: Call, k: nat, nonce: u64) returns (e: Entry)
    requires EndsEpoch(env, g, steps, call, k, nonce)
    ensures EndsWith(env, g, Committing(steps, call, k, nonce), e)
    ensures var n, job := NodeAfter(env, g, steps), JobOf(env, g, steps, k);
      e == Entry(job.txs, call, MinedOnto(env, n, job, nonce, HeaderHash(env.c, job.header.(nonce := nonce))))
  {
    e := LastEntry(env, g, steps, call, k, nonce);
    var n, job := NodeAfter(env, g, steps), JobOf(env, g, steps, k);
    MinedHeight(env, n, job, nonce, HeaderHash(env.c, job.header.(nonce := nonce)));
    assert Committing(steps, call, k, nonce)[..|steps|] == steps;
  }

  lemma LastEntry(env: Env, g: Block, steps: seq<NodeRuns.Step>, call: Call, k: nat, nonce: u64) returns (e: Entry)
    requires EndsEpoch(env, g, steps, call, k, nonce)
    ensures EntryAt(env, g, Committing(steps, call, k, nonce), |steps|) == Some(e)
    ensures var n, job := NodeAfter(env, g, steps), JobOf(env, g, steps, k);
      e == Entry(job.txs, call, MinedOnto(env, n, job, nonce, HeaderHash(env.c, job.header.(nonce := nonce))))
  {
    var more := Committing(steps, call, k, nonce);
    assert more[..|steps|] == steps;
    e := EntryAt(env, g, more, |steps|).value;
  }

  lemma MinedHeight(env: Env, n: Node, job: Job, nonce: u64, hash: Hash32)
    ensures MinedOnto(env, n, job, nonce, hash).chain.height == n.chain.height + 1
  {}

  // Whether the payments are apart does not depend on the counter.
  lemma ApartWithoutReward(env: Env, call: Call, n: Node, job: Job, nonce: u64)
    requires ApartAt(env, call, MinedOnto(env, n, job, nonce, HeaderHash(env.c, job.header.(nonce := nonce))))
    ensures ApartAt(env, call, Joined(env, n, job, nonce))
  {
    var hash := HeaderHash(env.c, job.header.(nonce := nonce));
    SameBeforeEpoch(env, n, job, nonce, hash);
    SameToPay(env, call, MinedOnto(env, n, job, nonce, hash), Joined(env, n, job, nonce));
  }

  lemma {:induction false} RewardsCollideNowhere(env: Env, g: Block, steps: seq<NodeRuns.Step>, e: Entry, p: Payday, ids: set<MinerId>)
    requires EndsWith(env, g, steps, e) && (forall id :: id in ids ==> id in e.call.order)
    requires p.height == e.m.chain.height && p.epoch == e.m.econ.epoch
    ensures CollisionFree(env.c.sha, RewardPreimages(p, ids))
  {
    forall a, b | a in RewardPreimages(p, ids) && b in RewardPreimages(p, ids)
      ensures NoCollision(env.c.sha, a, b)
    {
      var x :| x in ids && a == RewardPreimage(p, x);
      var y :| y in ids && b == RewardPreimage(p, y);
      assert a == RewardBytes(e.m, x) && b == RewardBytes(e.m, y);
      if env.c.sha(a) == env.c.sha(b) {
        PaymentsDiffer(env, g, steps, e, a, b);
      }
    }
  }

  // The peer visits the miners in its own order.
  ghost predicate SameMiners(n: Node, call: Call, theirs: Call) {
    && theirs.slashed == call.slashed
    && Enumerates(call.order, (n.econ.miners - call.slashed).Keys) && Enumerates(theirs.order, (n.econ.miners - call.slashed).Keys)
  }

  lemma OrdersExchange(env: Env, who: Identity, g: Block, steps: seq<NodeRuns.Step>, e: Entry, n: Node, theirs: Call)
    requires EndsWith(env, g, steps, e) && SameMiners(n, e.call, theirs)
    requires e.m.chain.height == n.chain.height + 1 && e.m.econ.epoch == n.econ.epoch
    ensures Exchangeable(Peer(env, who), n, theirs, e.call.order)
  {
    var p := PaydayOf(who, Slashed(n.econ, theirs.slashed), n.chain.height + 1);
    RewardsCollideNowhere(env, g, steps, e, p, (n.econ.miners - theirs.slashed).Keys);
  }

  lemma IssuedEnds(env: Env, call: Call, n: Node, job: Job, nonce: u64)
    requires NodeRuns.CommitIssued(env, call, n, job, nonce, true).0 != n
    ensures NodeRuns.CommitIssued(env, call, n, job, nonce, true).0.econ.utxos == MinerOutputs(env, call, n, job, nonce)
  {}

  // The commit and the peer end with the same outputs exactly when they owe the same.
  ghost predicate AgreesExactly(env: Env, who: Identity, call: Call, theirs: Call, n: Node, job: Job, nonce: u64) {
    NodeRuns.CommitIssued(env, call, n, job, nonce, true).0.econ.utxos == PeerOutputs(env, who, theirs, n, job, nonce)
    <==> AlikeAt(env, who, call, Joined(env, n, job, nonce))
  }

  // In every run whose ids do not collide, a miner whose commit ends an epoch and a peer in
  // the same state that takes the block end with the same outputs exactly when, with the block
  // reward counted and without it, they owe the treasury and every miner the same.
  lemma {:induction false} RunAgreesExactly(env: Env, who: Identity, g: Block, steps: seq<NodeRuns.Step>, call: Call, theirs: Call, k: nat, nonce: u64)
    requires EndsEpoch(env, g, steps, call, k, nonce) && SameMiners(NodeAfter(env, g, steps), call, theirs)
    requires PeerTakes(env, who, theirs, NodeAfter(env, g, steps), JobOf(env, g, steps, k), nonce)
    ensures AgreesExactly(env, who, call, theirs, NodeAfter(env, g, steps), JobOf(env, g, steps, k), nonce)
  {
    var n, job := NodeAfter(env, g, steps), JobOf(env, g, steps, k);
    PaymentsFit(env, who, g, steps, call, theirs, k, nonce, n, job);
    NodesAgree(env, who, call, theirs, n, job, nonce);
  }

  lemma PaymentsFit(env: Env, who: Identity, g: Block, steps: seq<NodeRuns.Step>, call: Call, theirs: Call, k: nat, nonce: u64, n: Node, job: Job)
    requires EndsEpoch(env, g, steps, call, k, nonce) && SameMiners(n, call, theirs)
    requires n == NodeAfter(env, g, steps) && job == JobOf(env, g, steps, k)
    ensures ApartAt(env, call, Joined(env, n, job, nonce)) && Exchangeable(Peer(env, who), n, theirs, call.order)
    ensures (n.chain.height + 1) % EPOCH_BLOCKS == 0
  {
    var e := CommitIsEntry(env, g, steps, call, k, nonce);
    MinedHeight(env, n, job, nonce, HeaderHash(env.c, job.header.(nonce := nonce)));
    PaymentsAreApart(env, g, Committing(steps, call, k, nonce), e);
    ApartWithoutReward(env, e.call, n, job, nonce);
    OrdersExchange(env, who, g, Committing(steps, call, k, nonce), e, n, theirs);
  }

  lemma NodesAgree(env: Env, who: Identity, call: Call, theirs: Call, n: Node, job: Job, nonce: u64)
    requires (n.chain.height + 1) % EPOCH_BLOCKS == 0 && SameMiners(n, call, theirs)
    requires PeerTakes(env, who, theirs, n, job, nonce) && NodeRuns.CommitIssued(env, call, n, job, nonce, true).0 != n
    requires ApartAt(env, call, Joined(env, n, job, nonce)) && Exchangeable(Peer(env, who), n, theirs, call.order)
    ensures AgreesExactly(env, who, call, theirs, n, job, nonce)
  {
    MinerAgreesWithPeerExactly(env, who, call, theirs, n, job, nonce);
    IssuedEnds(env, call, n, job, nonce);
  }
}
