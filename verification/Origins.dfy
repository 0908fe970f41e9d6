// Where stored outputs come from, and what follows as long as ids do not collide.

module Origins {
  import opened Blocks
  import opened Bytes
  import opened Chains
  import opened Economies
  import opened Emission
  import opened Ledger
  import NodeRuns
  import opened NodeSpecs
  import opened NodeSupply
  import opened OwnBlocks
  import opened Poci
  import opened Transactions
  import opened Wrappers

  // ---- What ids are taken of ----

  datatype Source = FromTx(tx: RawTx) | FromPayment(preimage: seq<byte>)

  function IdOf(c: Crypto, s: Source): Hash32 {
    match s
    case FromTx(tx) => c.txid(tx)
    case FromPayment(preimage) => c.sha(preimage)
  }

  function TreasuryPreimage(epoch: u32): seq<byte> { TREASURY_TAG + LittleEndian(epoch, 4) }

  // What is hashed to pay the miners visited at height and epoch of m, and the treasury.
  ghost predicate Pays(call: Call, m: Node, preimage: seq<byte>) {
    preimage == TreasuryPreimage(m.econ.epoch) || exists id :: id in call.order && preimage == RewardBytes(m, id)
  }

  function RewardBytes(m: Node, id: MinerId): seq<byte> {
    REWARD_TAG + (LittleEndian(m.chain.height, 8) + (LittleEndian(m.econ.epoch, 4) + Raw(id)))
  }

  // Reward preimages tell height, epoch and miner apart and are no treasury preimages.
  lemma RewardBytesTell(m: Node, id: MinerId, n: Node, other: MinerId)
    requires RewardBytes(m, id) == RewardBytes(n, other)
    ensures m.econ.epoch == n.econ.epoch && id == other
  {
    var a, b := LittleEndian(m.chain.height, 8), LittleEndian(n.chain.height, 8);
    var e, f := LittleEndian(m.econ.epoch, 4), LittleEndian(n.econ.epoch, 4);
    SplitConcat(REWARD_TAG, a + (e + Raw(id)), REWARD_TAG, b + (f + Raw(other)));
    SplitConcat(a, e + Raw(id), b, f + Raw(other));
    SplitConcat(e, Raw(id), f, Raw(other));
    PowValues();
    LittleEndianInjective(m.econ.epoch, n.econ.epoch, 4);
  }

  lemma NoRewardIsTreasury(m: Node, id: MinerId, epoch: u32)
    ensures RewardBytes(m, id) != TreasuryPreimage(epoch)
  {
    assert RewardBytes(m, id)[6] == 69 && TreasuryPreimage(epoch)[6] == 84;
  }

  // So a preimage tells the epoch it pays for.
  lemma PaysTells(call: Call, m: Node, other: Call, n: Node, preimage: seq<byte>)
    requires Pays(call, m, preimage) && Pays(other, n, preimage)
    ensures m.econ.epoch == n.econ.epoch
  {
    TreasuryPreimagesDiffer(m.econ.epoch, n.econ.epoch);
    forall id: MinerId
      ensures RewardBytes(n, id) != TreasuryPreimage(m.econ.epoch) && RewardBytes(m, id) != TreasuryPreimage(n.econ.epoch)
    {
      NoRewardIsTreasury(n, id, m.econ.epoch);
      NoRewardIsTreasury(m, id, n.econ.epoch);
    }
    forall id: MinerId, that: MinerId | RewardBytes(m, id) == RewardBytes(n, that)
      ensures m.econ.epoch == n.econ.epoch
    {
      RewardBytesTell(m, id, n, that);
    }
  }

  // ---- Where the outputs of one block come from ----

  ghost predicate Part(u: Utxos, v: Utxos) { forall o :: o in u ==> o in v && u[o] == v[o] }

  predicate GivenBy(tx: RawTx, o: OutPoint, out: TxOut) { o.index < |tx.outputs| && out == tx.outputs[o.index] }

  lemma {:induction false} AppliedFrom(c: Crypto, utxos: Utxos, txs: seq<Transaction>, n: nat, o: OutPoint)
    requires n <= |txs| && o in Apply(c, utxos, txs, n)
    ensures (o in utxos && Apply(c, utxos, txs, n)[o] == utxos[o])
      || exists tx :: tx in txs && c.txid(tx) == o.txid && GivenBy(tx, o, Apply(c, utxos, txs, n)[o])
    decreases n
  {
    if n > 0 {
      var tx := txs[n - 1];
      CreatedKey(c.txid(tx), |tx.outputs|, o);
      if o in Created(c.txid(tx), tx.outputs, |tx.outputs|) {
        assert GivenBy(tx, o, Apply(c, utxos, txs, n)[o]);
      } else {
        AppliedFrom(c, utxos, txs, n - 1, o);
      }
    }
  }

  lemma {:induction false} PaidFrom(c: Crypto, p: Payday, utxos: Utxos, results: seq<PociResult>, n: nat, o: OutPoint)
    requires n <= |results| && o in Paid(c, p, utxos, results, n)
    ensures (o in utxos && Paid(c, p, utxos, results, n)[o] == utxos[o])
      || exists i :: 0 <= i < n && o == RewardOutpoint(c, p, results[i].id)
    decreases n
  {
    if n > 0 && o != RewardOutpoint(c, p, results[n - 1].id) {
      PaidFrom(c, p, utxos, results, n - 1, o);
    }
  }

  // An epoch end keeps what is there or pays.
  lemma EpochFrom(env: Env, call: Call, m: Node, o: OutPoint)
    requires o in AfterEpoch(env, call, m).econ.utxos
    ensures (o in m.econ.utxos && AfterEpoch(env, call, m).econ.utxos[o] == m.econ.utxos[o])
      || (m.chain.height % EPOCH_BLOCKS == 0 && exists b :: Pays(call, m, b) && env.c.sha(b) == o.txid)
  {
    if m.chain.height % EPOCH_BLOCKS == 0 {
      var left := Slashed(m.econ, call.slashed);
      var p, results := PaydayOf(env.who, left, m.chain.height), ResultsOf(left, call.order);
      var cut := TreasuryCut(EffectiveReward(m.chain.height, m.econ.emitted));
      PaymentFrom(env.c, p, m.econ.utxos, results, call.order, m.econ.emitted, o);
      if o == TreasuryOutpoint(env.c, p.epoch) {
        assert Pays(call, m, TreasuryPreimage(m.econ.epoch));
      } else if i :| 0 <= i < |call.order| && o == RewardOutpoint(env.c, p, call.order[i]) {
        assert Pays(call, m, RewardBytes(m, call.order[i]));
      }
    }
  }

  lemma PaymentFrom(c: Crypto, p: Payday, utxos: Utxos, results: seq<PociResult>, order: seq<MinerId>, emitted: u64, o: OutPoint)
    requires |results| == |order| && forall i :: 0 <= i < |order| ==> results[i].id == order[i]
    requires o in UtxosAfterEpoch(c, p, utxos, results, emitted)
    ensures (o in utxos && UtxosAfterEpoch(c, p, utxos, results, emitted)[o] == utxos[o])
      || o == TreasuryOutpoint(c, p.epoch) || exists i :: 0 <= i < |order| && o == RewardOutpoint(c, p, order[i])
  {
    var r := FinalRewards(results, p.height, emitted);
    assert forall i :: 0 <= i < |r| ==> r[i].id == order[i];
    PaidFrom(c, p, TreasuryPaid(c, p.epoch, utxos, TreasuryCut(EffectiveReward(p.height, emitted))), r, |r|, o);
  }

  // ---- Where a step gets its outputs ----

  // A step that brings in a block: its transactions, and the node before its epoch may end.
  datatype Entry = Entry(txs: seq<Transaction>, call: Call, m: Node)

  ghost function TakenOn(env: Env, call: Call, base: Node, b: Block): Option<Entry> {
    if Accept(env, call, base, b).1.Ok?
    then Some(Entry(b.txs, call, WithBlock(env, base, b, HeaderHash(env.c, b.header))))
    else None
  }

  ghost function CommittedOn(env: Env, call: Call, n: Node, job: Job, nonce: u64, found: bool): Option<Entry> {
    var hash := HeaderHash(env.c, job.header.(nonce := nonce));
    if NodeRuns.CommitIssued(env, call, n, job, nonce, found).0 != n
    then Some(Entry(job.txs, call, MinedOnto(env, n, job, nonce, hash)))
    else None
  }

  ghost function EntryOf(env: Env, s: NodeRuns.Sys, step: NodeRuns.Step): Option<Entry> {
    match step
    case AcceptBlock(call, b) => TakenOn(env, call, s.node, b)
    case SwitchFork(call, b) =>
      if ForkBase(env, s.node, b).Some? then TakenOn(env, call, ForkBase(env, s.node, b).value, b) else None
    case CommitJob(call, k, nonce, found) =>
      if k < |s.issued| then CommittedOn(env, call, s.node, s.issued[k].job, nonce, found) else None
    case _ => None
  }

  // How the economy moves: without a block outputs can only go; with one its transactions are
  // applied to what is left and the epoch may end.
  ghost predicate MovesBy(env: Env, before: Economy, entry: Option<Entry>, after: Economy) {
    match entry
    case None => Part(after.utxos, before.utxos) && after.epoch == before.epoch
    case Some(e) =>
      && e.m.econ.epoch == before.epoch && after == AfterEpoch(env, e.call, e.m).econ
      && exists base :: Part(base, before.utxos) && e.m.econ.utxos == Apply(env.c, base, e.txs, |e.txs|)
  }

  lemma UndoIsPart(c: Crypto, ch: Chain, utxos: Utxos)
    ensures Part(UndoTip(c, ch, utxos), utxos)
  {
    if ch.height in ch.stored {
      UndoRemoves(c, utxos, ch.stored[ch.height].txs, |ch.stored[ch.height].txs|);
    }
  }

  lemma {:induction false} UndoToIsPart(env: Env, ch: Chain, utxos: Utxos, target: nat)
    ensures Part(UndoTo(env, ch, utxos, target), utxos)
    decreases ch.height
  {
    if ch.height > target {
      UndoIsPart(env.c, ch, utxos);
      UndoToIsPart(env, Popped(Hash(env), ch), UndoTip(env.c, ch, utxos), target);
    }
  }

  lemma ForkBaseIsPart(env: Env, n: Node, b: Block)
    requires ForkBase(env, n, b).Some?
    ensures var base := ForkBase(env, n, b).value.econ; Part(base.utxos, n.econ.utxos) && base.epoch == n.econ.epoch
  {
    UndoIsPart(env.c, n.chain, n.econ.utxos);
    if b.header.prevHash in n.chain.index {
      UndoToIsPart(env, n.chain, n.econ.utxos, n.chain.index[b.header.prevHash]);
    }
  }

  lemma AcceptMovesBy(env: Env, call: Call, n: Node, base: Node, b: Block)
    requires Part(base.econ.utxos, n.econ.utxos) && base.econ.epoch == n.econ.epoch
    ensures MovesBy(env, n.econ, TakenOn(env, call, base, b), Accept(env, call, base, b).0.econ)
  {
    AcceptForm(env, call, base, b);
  }

  lemma CommitMovesBy(env: Env, call: Call, n: Node, job: Job, nonce: u64, found: bool)
    ensures MovesBy(env, n.econ, CommittedOn(env, call, n, job, nonce, found), NodeRuns.CommitIssued(env, call, n, job, nonce, found).0.econ)
  {
    if NodeRuns.CommitIssued(env, call, n, job, nonce, found).0 != n {
      var m := MinedOnto(env, n, job, nonce, HeaderHash(env.c, job.header.(nonce := nonce)));
      assert m.econ.utxos == Apply(env.c, n.econ.utxos, job.txs, |job.txs|);
    }
  }

  lemma ForkMovesBy(env: Env, call: Call, n: Node, b: Block)
    ensures MovesBy(env, n.econ, if ForkBase(env, n, b).Some? then TakenOn(env, call, ForkBase(env, n, b).value, b) else None,
                    ForkSwitch(env, call, n, b).0.econ)
  {
    ForkSwitchByBase(env, call, n, b);
    if ForkBase(env, n, b).Some? {
      ForkBaseIsPart(env, n, b);
      AcceptMovesBy(env, call, n, ForkBase(env, n, b).value, b);
    }
  }

  lemma StepMovesBy(env: Env, s: NodeRuns.Sys, step: NodeRuns.Step)
    ensures MovesBy(env, s.node.econ, EntryOf(env, s, step), NodeRuns.NextNode(env, s, step).econ)
  {
    match step
    case AcceptBlock(call, b) => AcceptMovesBy(env, call, s.node, s.node, b);
    case RollbackTo(target) => UndoToIsPart(env, s.node.chain, s.node.econ.utxos, target);
    case SwitchFork(call, b) => ForkMovesBy(env, call, s.node, b);
    case PrepareJob(call) =>
    case CommitJob(call, k, nonce, found) =>
      if k < |s.issued| { CommitMovesBy(env, call, s.node, s.issued[k].job, nonce, found); }
    case AddTx(tx) =>
    case SetRegister(register) =>
  }

  // ---- Whole runs from genesis ----

  ghost function StartOf(env: Env, g: Block): NodeRuns.Sys
    requires |g.txs| == 1 && g.txs[0].outputs != []
  {
    NodeRuns.Sys(GenesisNode(env, g), [])
  }

  ghost function After(env: Env, g: Block, steps: seq<NodeRuns.Step>, k: nat): NodeRuns.Sys
    requires |g.txs| == 1 && g.txs[0].outputs != [] && k <= |steps|
  {
    NodeRuns.Run(env, StartOf(env, g), steps[..k])
  }

  ghost function EconAfter(env: Env, g: Block, steps: seq<NodeRuns.Step>, k: nat): Economy
    requires |g.txs| == 1 && g.txs[0].outputs != [] && k <= |steps|
  {
    After(env, g, steps, k).node.econ
  }

  ghost function EntryAt(env: Env, g: Block, steps: seq<NodeRuns.Step>, k: nat): Option<Entry>
    requires |g.txs| == 1 && g.txs[0].outputs != [] && k < |steps|
  {
    EntryOf(env, After(env, g, steps, k), steps[k])
  }

  // What the block brought in by an entry, and the end of its epoch, take ids of.
  ghost predicate Brings(e: Entry, src: Source) {
    match src
    case FromTx(tx) => tx in e.txs
    case FromPayment(preimage) => e.m.chain.height % EPOCH_BLOCKS == 0 && Pays(e.call, e.m, preimage)
  }

  // The same for the genesis block, as number 0, and for step k - 1, as number k.
  ghost predicate SourceAt(env: Env, g: Block, steps: seq<NodeRuns.Step>, k: nat, src: Source)
    requires |g.txs| == 1 && g.txs[0].outputs != [] && k <= |steps|
  {
    if k == 0 then src == FromTx(g.txs[0])
    else EntryAt(env, g, steps, k - 1).Some? && Brings(EntryAt(env, g, steps, k - 1).value, src)
  }

  // No two things that the run takes ids of have one id.
  ghost predicate IdsApart(env: Env, g: Block, steps: seq<NodeRuns.Step>)
    requires |g.txs| == 1 && g.txs[0].outputs != []
  {
    forall j, k, a, b :: 0 <= j <= |steps| && 0 <= k <= |steps| ==> IdsApartAt(env, g, steps, j, a, k, b)
  }

  ghost predicate IdsApartAt(env: Env, g: Block, steps: seq<NodeRuns.Step>, j: nat, a: Source, k: nat, b: Source)
    requires |g.txs| == 1 && g.txs[0].outputs != [] && j <= |steps| && k <= |steps|
  {
    SourceAt(env, g, steps, j, a) && SourceAt(env, g, steps, k, b) ==> IdApart(env.c, a, b)
  }

  ghost predicate IdApart(c: Crypto, a: Source, b: Source) { IdOf(c, a) == IdOf(c, b) ==> a == b }

  lemma UseIdsApart(env: Env, g: Block, steps: seq<NodeRuns.Step>, j: nat, a: Source, k: nat, b: Source)
    requires |g.txs| == 1 && g.txs[0].outputs != [] && IdsApart(env, g, steps) && j <= |steps| && k <= |steps|
    requires SourceAt(env, g, steps, j, a) && SourceAt(env, g, steps, k, b) && IdOf(env.c, a) == IdOf(env.c, b)
    ensures a == b
  {
    assert IdsApartAt(env, g, steps, j, a, k, b);
  }

  // A stored output is one of its transaction's, or was paid by the step itself.
  ghost predicate Gives(env: Env, g: Block, steps: seq<NodeRuns.Step>, k: nat, src: Source, o: OutPoint, out: TxOut)
    requires |g.txs| == 1 && g.txs[0].outputs != [] && k <= |steps|
  {
    && SourceAt(env, g, steps, k, src) && IdOf(env.c, src) == o.txid
    && match src
       case FromTx(tx) => GivenBy(tx, o, out)
       case FromPayment(_) => var u := EconAfter(env, g, steps, k).utxos; o in u && u[o] == out
  }

  ghost predicate Known(env: Env, g: Block, steps: seq<NodeRuns.Step>, o: OutPoint, out: TxOut)
    requires |g.txs| == 1 && g.txs[0].outputs != []
  {
    exists k, src :: 0 <= k <= |steps| && Gives(env, g, steps, k, src, o, out)
  }

  lemma EntryLater(env: Env, g: Block, steps: seq<NodeRuns.Step>, n: nat, k: nat)
    requires |g.txs| == 1 && g.txs[0].outputs != [] && k <= n <= |steps|
    ensures After(env, g, steps[..n], k) == After(env, g, steps, k)
    ensures k < n ==> EntryAt(env, g, steps[..n], k) == EntryAt(env, g, steps, k)
  {
    assert steps[..n][..k] == steps[..k];
  }

  lemma GivesLater(env: Env, g: Block, steps: seq<NodeRuns.Step>, n: nat, k: nat, src: Source, o: OutPoint, out: TxOut)
    requires |g.txs| == 1 && g.txs[0].outputs != [] && k <= n <= |steps|
    requires Gives(env, g, steps[..n], k, src, o, out)
    ensures Gives(env, g, steps, k, src, o, out)
  {
    EntryLater(env, g, steps, n, k);
    if k > 0 {
      EntryLater(env, g, steps, n, k - 1);
    }
  }

  lemma KnownLater(env: Env, g: Block, steps: seq<NodeRuns.Step>, n: nat, o: OutPoint, out: TxOut)
    requires |g.txs| == 1 && g.txs[0].outputs != [] && n <= |steps| && Known(env, g, steps[..n], o, out)
    ensures Known(env, g, steps, o, out)
  {
    var k: nat, src :| k <= n && Gives(env, g, steps[..n], k, src, o, out);
    GivesLater(env, g, steps, n, k, src, o, out);
  }

  // The last step keeps an output or is where it comes from.
  lemma LastStepGives(env: Env, g: Block, steps: seq<NodeRuns.Step>, o: OutPoint)
    requires |g.txs| == 1 && g.txs[0].outputs != [] && steps != []
    requires o in EconAfter(env, g, steps, |steps|).utxos
    ensures var u, v := EconAfter(env, g, steps, |steps| - 1).utxos, EconAfter(env, g, steps, |steps|).utxos;
      (o in u && u[o] == v[o]) || exists src :: Gives(env, g, steps, |steps|, src, o, v[o])
  {
    var n := |steps| - 1;
    var s, v := After(env, g, steps, n), EconAfter(env, g, steps, |steps|).utxos;
    assert steps[..|steps|] == steps && steps[..|steps|][..n] == steps[..n];
    StepMovesBy(env, s, steps[n]);
    var entry := EntryAt(env, g, steps, n);
    if entry.Some? {
      EntryGives(env, s.node.econ, entry.value, v, o);
      if tx :| tx in entry.value.txs && env.c.txid(tx) == o.txid && GivenBy(tx, o, v[o]) {
        assert Gives(env, g, steps, |steps|, FromTx(tx), o, v[o]);
      } else if b :| entry.value.m.chain.height % EPOCH_BLOCKS == 0 && Pays(entry.value.call, entry.value.m, b) && env.c.sha(b) == o.txid {
        assert Gives(env, g, steps, |steps|, FromPayment(b), o, v[o]);
      }
    }
  }

  lemma EntryGives(env: Env, before: Economy, e: Entry, after: Utxos, o: OutPoint)
    requires exists base :: Part(base, before.utxos) && e.m.econ.utxos == Apply(env.c, base, e.txs, |e.txs|)
    requires after == AfterEpoch(env, e.call, e.m).econ.utxos && o in after
    ensures (o in before.utxos && before.utxos[o] == after[o])
      || (exists tx :: tx in e.txs && env.c.txid(tx) == o.txid && GivenBy(tx, o, after[o]))
      || (exists b :: e.m.chain.height % EPOCH_BLOCKS == 0 && Pays(e.call, e.m, b) && env.c.sha(b) == o.txid)
  {
    EpochFrom(env, e.call, e.m, o);
    if o in e.m.econ.utxos && after[o] == e.m.econ.utxos[o] {
      var base :| Part(base, before.utxos) && e.m.econ.utxos == Apply(env.c, base, e.txs, |e.txs|);
      AppliedFrom(env.c, base, e.txs, |e.txs|, o);
    }
  }

  // Over every interleaving, all stored outputs come from transactions of blocks brought in
  // or were paid at the end of an epoch.
  lemma {:induction false} AllKnown(env: Env, g: Block, steps: seq<NodeRuns.Step>, o: OutPoint)
    requires |g.txs| == 1 && g.txs[0].outputs != [] && o in EconAfter(env, g, steps, |steps|).utxos
    ensures Known(env, g, steps, o, EconAfter(env, g, steps, |steps|).utxos[o])
  {
    assert steps[..|steps|] == steps;
    var v := EconAfter(env, g, steps, |steps|).utxos;
    if steps == [] {
      assert Gives(env, g, steps, 0, FromTx(g.txs[0]), o, v[o]);
    } else {
      var n := |steps| - 1;
      var u := EconAfter(env, g, steps, n).utxos;
      LastStepGives(env, g, steps, o);
      if o in u && u[o] == v[o] {
        assert EconAfter(env, g, steps[..n], n) == EconAfter(env, g, steps, n) by { EntryLater(env, g, steps, n, n); }
        AllKnown(env, g, steps[..n], o);
        KnownLater(env, g, steps, n, o, v[o]);
      }
    }
  }

  // ---- An epoch is closed once ----

  lemma EpochMoves(env: Env, g: Block, steps: seq<NodeRuns.Step>, k: nat)
    requires |g.txs| == 1 && g.txs[0].outputs != [] && k < |steps|
    ensures EconAfter(env, g, steps, k).epoch <= EconAfter(env, g, steps, k + 1).epoch
    ensures EntryAt(env, g, steps, k).Some? ==> EntryAt(env, g, steps, k).value.m.econ.epoch == EconAfter(env, g, steps, k).epoch
    ensures EntryAt(env, g, steps, k).Some? && EntryAt(env, g, steps, k).value.m.chain.height % EPOCH_BLOCKS == 0 ==>
      EconAfter(env, g, steps, k + 1).epoch == Min(EconAfter(env, g, steps, k).epoch + 1, U32_LIMIT - 1)
  {
    assert steps[..k + 1][..k] == steps[..k];
    StepMovesBy(env, After(env, g, steps, k), steps[k]);
  }

  ghost predicate Ascends(epochs: seq<nat>) { forall k :: 0 <= k < |epochs| - 1 ==> RisesAt(epochs, k) }

  ghost predicate RisesAt(epochs: seq<nat>, k: nat)
    requires k < |epochs| - 1
  {
    epochs[k] <= epochs[k + 1]
  }

  lemma {:induction false} AscendsFar(epochs: seq<nat>, j: nat, k: nat)
    requires Ascends(epochs) && j <= k < |epochs|
    ensures epochs[j] <= epochs[k]
    decreases k
  {
    if j < k {
      AscendsFar(epochs, j, k - 1);
      assert RisesAt(epochs, k - 1);
    }
  }

  // The epoch numbers along a run.
  ghost function Epochs(env: Env, g: Block, steps: seq<NodeRuns.Step>): (epochs: seq<nat>)
    requires |g.txs| == 1 && g.txs[0].outputs != []
    ensures |epochs| == |steps| + 1
  {
    seq(|steps| + 1, k requires 0 <= k <= |steps| => EconAfter(env, g, steps, k).epoch)
  }

  lemma EpochsAscend(env: Env, g: Block, steps: seq<NodeRuns.Step>)
    requires |g.txs| == 1 && g.txs[0].outputs != []
    ensures Ascends(Epochs(env, g, steps))
  {
    forall k | 0 <= k < |steps|
      ensures RisesAt(Epochs(env, g, steps), k)
    {
      EpochMoves(env, g, steps, k);
    }
  }

  // A payment belongs to a step that closes its epoch.
  lemma PaymentCloses(env: Env, g: Block, steps: seq<NodeRuns.Step>, k: nat, preimage: seq<byte>)
    requires |g.txs| == 1 && g.txs[0].outputs != [] && k <= |steps| && SourceAt(env, g, steps, k, FromPayment(preimage))
    ensures k > 0 && EntryAt(env, g, steps, k - 1).Some?
    ensures var e := EntryAt(env, g, steps, k - 1).value;
      && Pays(e.call, e.m, preimage) && e.m.econ.epoch == EconAfter(env, g, steps, k - 1).epoch
      && EconAfter(env, g, steps, k).epoch == Min(e.m.econ.epoch + 1, U32_LIMIT - 1)
  {
    EpochMoves(env, g, steps, k - 1);
  }

  // While the epoch number has not reached the end of its word, no two steps pay from one preimage.
  lemma PaidOnce(env: Env, g: Block, steps: seq<NodeRuns.Step>, last: nat, j: nat, k: nat, preimage: seq<byte>)
    requires |g.txs| == 1 && g.txs[0].outputs != [] && j <= k <= last + 1 && k <= |steps| && last <= |steps|
    requires EconAfter(env, g, steps, last).epoch < U32_LIMIT - 1
    requires SourceAt(env, g, steps, j, FromPayment(preimage)) && SourceAt(env, g, steps, k, FromPayment(preimage))
    ensures j == k
  {
    var epochs := PaymentEpochs(env, g, steps, last, j, k, preimage);
    ClosedOnce(epochs, last, j, k);
  }

  lemma ClosedOnce(epochs: seq<nat>, last: nat, j: nat, k: nat)
    requires Ascends(epochs) && 0 < j <= k <= last + 1 && k < |epochs| && last < |epochs| && epochs[last] < U32_LIMIT - 1
    requires epochs[j - 1] == epochs[k - 1] && epochs[j] == Min(epochs[j - 1] + 1, U32_LIMIT - 1)
    ensures j == k
  {
    AscendsFar(epochs, k - 1, last);
    if j < k {
      AscendsFar(epochs, j, k - 1);
    }
  }

  lemma PaymentEpochs(env: Env, g: Block, steps: seq<NodeRuns.Step>, last: nat, j: nat, k: nat, preimage: seq<byte>)
    returns (epochs: seq<nat>)
    requires |g.txs| == 1 && g.txs[0].outputs != [] && j <= |steps| && k <= |steps| && last <= |steps|
    requires SourceAt(env, g, steps, j, FromPayment(preimage)) && SourceAt(env, g, steps, k, FromPayment(preimage))
    ensures |epochs| == |steps| + 1 && Ascends(epochs) && epochs[last] == EconAfter(env, g, steps, last).epoch
    ensures j > 0 && k > 0 && epochs[j - 1] == epochs[k - 1] && epochs[j] == Min(epochs[j - 1] + 1, U32_LIMIT - 1)
  {
    epochs := Epochs(env, g, steps);
    EpochsAscend(env, g, steps);
    SamePaymentEpoch(env, g, steps, j, k, preimage);
  }

  lemma SamePaymentEpoch(env: Env, g: Block, steps: seq<NodeRuns.Step>, j: nat, k: nat, preimage: seq<byte>)
    requires |g.txs| == 1 && g.txs[0].outputs != [] && j <= |steps| && k <= |steps|
    requires SourceAt(env, g, steps, j, FromPayment(preimage)) && SourceAt(env, g, steps, k, FromPayment(preimage))
    ensures j > 0 && k > 0 && EconAfter(env, g, steps, j - 1).epoch == EconAfter(env, g, steps, k - 1).epoch
    ensures EconAfter(env, g, steps, j).epoch == Min(EconAfter(env, g, steps, j - 1).epoch + 1, U32_LIMIT - 1)
  {
    PaymentCloses(env, g, steps, j, preimage);
    PaymentCloses(env, g, steps, k, preimage);
    var e, f := EntryAt(env, g, steps, j - 1).value, EntryAt(env, g, steps, k - 1).value;
    PaysTells(e.call, e.m, f.call, f.m, preimage);
  }

  // ---- Outputs are stable ----

  lemma GivesAlike(env: Env, g: Block, steps: seq<NodeRuns.Step>, j: nat, a: Source, k: nat, b: Source, o: OutPoint, x: TxOut, y: TxOut)
    requires |g.txs| == 1 && g.txs[0].outputs != [] && j <= |steps| && k <= |steps|
    requires IdsApart(env, g, steps) && EconAfter(env, g, steps, |steps|).epoch < U32_LIMIT - 1
    requires Gives(env, g, steps, j, a, o, x) && Gives(env, g, steps, k, b, o, y)
    ensures x == y
  {
    UseIdsApart(env, g, steps, j, a, k, b);
    if a.FromPayment? {
      PaidOnce(env, g, steps, |steps|, Min(j, k), Max(j, k), a.preimage);
    }
  }

  // As long as ids do not collide no outpoint ever gets other content.
  lemma {:induction false} StableByIds(env: Env, g: Block, steps: seq<NodeRuns.Step>)
    requires |g.txs| == 1 && g.txs[0].outputs != []
    requires IdsApart(env, g, steps) && EconAfter(env, g, steps, |steps|).epoch < U32_LIMIT - 1
    ensures Stable(env, StartOf(env, g), steps)
  {
    forall j | 0 <= j <= |steps|
      ensures Agree(UtxosAt(env, StartOf(env, g), steps, j), UtxosAt(env, StartOf(env, g), steps, |steps|))
    {
      AgreeByIds(env, g, steps, j);
    }
  }

  lemma AgreeByIds(env: Env, g: Block, steps: seq<NodeRuns.Step>, j: nat)
    requires |g.txs| == 1 && g.txs[0].outputs != [] && j <= |steps|
    requires IdsApart(env, g, steps) && EconAfter(env, g, steps, |steps|).epoch < U32_LIMIT - 1
    ensures Agree(EconAfter(env, g, steps, j).utxos, EconAfter(env, g, steps, |steps|).utxos)
  {
    var u, v := EconAfter(env, g, steps, j).utxos, EconAfter(env, g, steps, |steps|).utxos;
    forall o | o in u && o in v
      ensures u[o] == v[o]
    {
      AllKnown(env, g, steps, o);
      EntryLater(env, g, steps, j, j);
      AllKnown(env, g, steps[..j], o);
      KnownLater(env, g, steps, j, o, u[o]);
      var i: nat, a :| i <= |steps| && Gives(env, g, steps, i, a, o, u[o]);
      var k: nat, b :| k <= |steps| && Gives(env, g, steps, k, b, o, v[o]);
      GivesAlike(env, g, steps, i, a, k, b, o, u[o], v[o]);
    }
  }

  // So a node's own blocks are signed in every run whose ids do not collide.
  lemma {:induction false} OwnBlocksSignedByIds(env: Env, g: Block, steps: seq<NodeRuns.Step>, call: Call, k: nat, nonce: u64, found: bool)
    requires |g.txs| == 1 && g.txs[0].outputs != []
    requires k < |NodeRuns.Run(env, StartOf(env, g), steps).issued|
    requires IdsApart(env, g, steps) && EconAfter(env, g, steps, |steps|).epoch < U32_LIMIT - 1
    ensures var s := NodeRuns.Run(env, StartOf(env, g), steps);
      NodeRuns.CommitIssued(env, call, s.node, s.issued[k].job, nonce, found).0 != s.node ==>
        AllSigned(env.c, s.issued[k].job.txs, s.node.econ.utxos)
  {
    StableByIds(env, g, steps);
    OwnBlocksAreSigned(env, g, steps, call, k, nonce, found);
  }
}
