// Accepting blocks and rolling back to the old height: what comes back and what does not.

module NodeRollback {
  import opened Blocks
  import opened Chains
  import opened Emission
  import opened Ledger
  import opened NodeInvariants
  import opened NodeSpecs
  import opened NodeSupply
  import opened Transactions
  import opened Wrappers

  function BlocksOf(offers: seq<Offer>): (blocks: seq<Block>)
    ensures |blocks| == |offers| && forall i :: 0 <= i < |offers| ==> blocks[i] == offers[i].block
  {
    seq(|offers|, i requires 0 <= i < |offers| => offers[i].block)
  }

  // Every block offered along the trace was taken.
  ghost predicate AllAccepted(env: Env, trace: seq<Node>, offers: seq<Offer>) {
    |trace| == |offers| + 1 && forall k :: 0 <= k < |offers| ==> AcceptedAt(env, trace, offers, k)
  }

  ghost predicate AcceptedAt(env: Env, trace: seq<Node>, offers: seq<Offer>, k: nat)
    requires k < |offers| < |trace|
  {
    Accept(env, offers[k].call, trace[k], offers[k].block) == (trace[k + 1], Ok(()))
  }

  // No height reached closes an epoch.
  predicate Quiet(height: nat, k: nat) {
    forall h :: height < h <= height + k ==> h % EPOCH_BLOCKS != 0
  }

  // ---- Outpoints written and spent by a list of blocks ----

  function Written(c: Crypto, blocks: seq<Block>, n: nat): set<OutPoint>
    requires n <= |blocks|
  {
    if n == 0 then {} else Written(c, blocks, n - 1) + CreatedBy(c, blocks[n - 1].txs, |blocks[n - 1].txs|)
  }

  function Taken(blocks: seq<Block>, n: nat): set<OutPoint>
    requires n <= |blocks|
  {
    if n == 0 then {} else Taken(blocks, n - 1) + SpentBy(blocks[n - 1].txs, |blocks[n - 1].txs|)
  }

  function AppliedAll(c: Crypto, utxos: Utxos, blocks: seq<Block>, n: nat): Utxos
    requires n <= |blocks|
  {
    if n == 0 then utxos else Apply(c, AppliedAll(c, utxos, blocks, n - 1), blocks[n - 1].txs, |blocks[n - 1].txs|)
  }

  lemma RemovalsCommute(u: Utxos, v: Utxos, made: set<OutPoint>, gone: set<OutPoint>, made': set<OutPoint>, gone': set<OutPoint>, w: Utxos)
    requires v - made == u - gone - made
    requires w - made' == v - gone' - made'
    ensures w - (made + made') == u - (gone + gone') - (made + made')
  {
    assert w - (made + made') == w - made' - made;
    assert v - gone' - made' - made == v - made - gone' - made';
    assert u - gone - made - gone' - made' == u - (gone + gone') - (made + made');
  }

  lemma {:induction false} OutsideStep(c: Crypto, u: Utxos, v: Utxos, txs: seq<Transaction>, made: set<OutPoint>, gone: set<OutPoint>)
    requires v - made == u - gone - made
    ensures Apply(c, v, txs, |txs|) - (made + CreatedBy(c, txs, |txs|))
         == u - (gone + SpentBy(txs, |txs|)) - (made + CreatedBy(c, txs, |txs|))
  {
    ApplyOutsideCreated(c, v, txs, |txs|);
    RemovalsCommute(u, v, made, gone, CreatedBy(c, txs, |txs|), SpentBy(txs, |txs|), Apply(c, v, txs, |txs|));
  }

  lemma {:induction false} OutsideWritten(c: Crypto, utxos: Utxos, blocks: seq<Block>, n: nat)
    requires n <= |blocks|
    ensures AppliedAll(c, utxos, blocks, n) - Written(c, blocks, n) == utxos - Taken(blocks, n) - Written(c, blocks, n)
    decreases n
  {
    if n > 0 {
      OutsideWritten(c, utxos, blocks, n - 1);
      var txs, v := blocks[n - 1].txs, AppliedAll(c, utxos, blocks, n - 1);
      OutsideStep(c, utxos, v, txs, Written(c, blocks, n - 1), Taken(blocks, n - 1));
    }
  }

  // ---- What undoing a chain removes ----

  function TipWrites(c: Crypto, ch: Chain): set<OutPoint> {
    if ch.height in ch.stored then CreatedBy(c, ch.stored[ch.height].txs, |ch.stored[ch.height].txs|) else {}
  }

  function ChainWrites(env: Env, ch: Chain, target: nat): set<OutPoint>
    decreases ch.height
  {
    if ch.height <= target then {} else TipWrites(env.c, ch) + ChainWrites(env, Popped(Hash(env), ch), target)
  }

  lemma {:induction false} UndoToRemoves(env: Env, ch: Chain, utxos: Utxos, target: nat)
    ensures UndoTo(env, ch, utxos, target) == utxos - ChainWrites(env, ch, target)
    decreases ch.height
  {
    if ch.height > target {
      if ch.height in ch.stored {
        UndoRemoves(env.c, utxos, ch.stored[ch.height].txs, |ch.stored[ch.height].txs|);
      }
      var rest := ChainWrites(env, Popped(Hash(env), ch), target);
      UndoToRemoves(env, Popped(Hash(env), ch), UndoTip(env.c, ch, utxos), target);
      assert utxos - TipWrites(env.c, ch) - rest == utxos - (TipWrites(env.c, ch) + rest);
    }
  }

  // Popping the chain with k blocks pushed leaves the one with k - 1.
  ghost predicate PopsAt(hash: HeaderHasher, ch: Chain, blocks: seq<Block>, k: nat)
    requires 0 < k <= |blocks|
  {
    && PushedAll(hash, ch, blocks, k).height == ch.height + k
    && Popped(hash, PushedAll(hash, ch, blocks, k)) == PushedAll(hash, ch, blocks, k - 1)
  }

  lemma {:induction false} WritesOfPushed(env: Env, ch: Chain, blocks: seq<Block>, n: nat)
    requires n <= |blocks| && Linked(Hash(env), ch) && Extends(Hash(env), ch, blocks, n)
    ensures ChainWrites(env, PushedAll(Hash(env), ch, blocks, n), ch.height) == Written(env.c, blocks, n)
  {
    forall k | 0 < k <= n
      ensures PopsAt(Hash(env), ch, blocks, k)
    {
      PopsOneBlock(Hash(env), ch, blocks, k);
    }
    WritesAlong(env, ch, blocks, n);
  }

  lemma {:induction false} WritesAlong(env: Env, ch: Chain, blocks: seq<Block>, n: nat)
    requires n <= |blocks| && forall k :: 0 < k <= n ==> PopsAt(Hash(env), ch, blocks, k)
    ensures ChainWrites(env, PushedAll(Hash(env), ch, blocks, n), ch.height) == Written(env.c, blocks, n)
    decreases n
  {
    if n > 0 {
      WritesAlong(env, ch, blocks, n - 1);
      assert PopsAt(Hash(env), ch, blocks, n);
      var q, before, b := PushedAll(Hash(env), ch, blocks, n), PushedAll(Hash(env), ch, blocks, n - 1), blocks[n - 1];
      assert q == Pushed(before, b, Hash(env)(b.header));
      WritesStep(env, q, before, b, ch.height);
    }
  }

  lemma WritesStep(env: Env, q: Chain, before: Chain, b: Block, target: nat)
    requires q == Pushed(before, b, Hash(env)(b.header)) && q.height > target && Popped(Hash(env), q) == before
    ensures ChainWrites(env, q, target) == CreatedBy(env.c, b.txs, |b.txs|) + ChainWrites(env, before, target)
  {
    TopOfPushed(Hash(env), before, b);
  }

  lemma TopOfPushed(hash: HeaderHasher, ch: Chain, b: Block)
    ensures var q := Pushed(ch, b, hash(b.header)); q.height in q.stored && q.stored[q.height] == b
  {}

  // ---- A run of accepted blocks within one epoch ----

  lemma QuietAccept(env: Env, call: Call, n: Node, b: Block)
    requires Accept(env, call, n, b).1.Ok? && (n.chain.height + 1) % EPOCH_BLOCKS != 0
    ensures var m := Accept(env, call, n, b).0;
      && m.chain == Pushed(n.chain, b, HeaderHash(env.c, b.header))
      && m.econ == n.econ.(utxos := Apply(env.c, n.econ.utxos, b.txs, |b.txs|),
                           bonds := BondsAfter(n.econ.bonds, b.txs, n.chain.height + 1, |b.txs|))
    ensures Extending(Hash(env), n.chain, b)
  {
    AcceptForm(env, call, n, b);
  }

  // m is n with the first k blocks appended and nothing else changed.
  ghost predicate RunForm(env: Env, n: Node, m: Node, blocks: seq<Block>, k: nat)
    requires k <= |blocks|
  {
    && Extends(Hash(env), n.chain, blocks, k)
    && m.chain == PushedAll(Hash(env), n.chain, blocks, k)
    && m.econ.utxos == AppliedAll(env.c, n.econ.utxos, blocks, k)
    && m.econ == n.econ.(utxos := m.econ.utxos, bonds := m.econ.bonds)
    && m.chain.height == n.chain.height + k
  }

  lemma QuietStep(env: Env, n: Node, m: Node, call: Call, blocks: seq<Block>, k: nat)
    requires k < |blocks| && RunForm(env, n, m, blocks, k)
    requires Accept(env, call, m, blocks[k]).1.Ok? && (m.chain.height + 1) % EPOCH_BLOCKS != 0
    ensures RunForm(env, n, Accept(env, call, m, blocks[k]).0, blocks, k + 1)
  {
    QuietAccept(env, call, m, blocks[k]);
    assert ExtendsAt(Hash(env), n.chain, blocks, k);
  }

  lemma {:induction false} QuietRun(env: Env, trace: seq<Node>, offers: seq<Offer>, k: nat)
    requires k <= |offers| && AllAccepted(env, trace, offers) && Quiet(trace[0].chain.height, |offers|)
    ensures RunForm(env, trace[0], trace[k], BlocksOf(offers), k)
    decreases k
  {
    if k > 0 {
      QuietRun(env, trace, offers, k - 1);
      assert AcceptedAt(env, trace, offers, k - 1);
      QuietStep(env, trace[0], trace[k - 1], offers[k - 1].call, BlocksOf(offers), k - 1);
    }
  }

  // Within one epoch, going back to the old height restores height, headers, times, index
  // and stored blocks exactly, and everything of the economy but outputs and bonds. The
  // outputs become the old ones without what the blocks spent and without any outpoint they
  // wrote. No assumption on hashes.
  lemma {:induction false} RollbackRestores(env: Env, trace: seq<Node>, offers: seq<Offer>)
    requires AllAccepted(env, trace, offers) && Inv(env, trace[0]) && Quiet(trace[0].chain.height, |offers|)
    ensures var n, m, blocks := trace[0], trace[|offers|], BlocksOf(offers);
      var p := RollBack(env, m, n.chain.height);
      && p.chain == n.chain
      && p.econ.utxos == n.econ.utxos - Taken(blocks, |blocks|) - Written(env.c, blocks, |blocks|)
      && p.econ == n.econ.(utxos := p.econ.utxos, bonds := m.econ.bonds)
  {
    var n, m, blocks := trace[0], trace[|offers|], BlocksOf(offers);
    QuietRun(env, trace, offers, |offers|);
    RollbackRestoresChain(Hash(env), n.chain, blocks, |blocks|);
    WritesOfPushed(env, n.chain, blocks, |blocks|);
    UndoToRemoves(env, m.chain, m.econ.utxos, n.chain.height);
    OutsideWritten(env.c, n.econ.utxos, blocks, |blocks|);
    if offers == [] {
      assert n.econ.utxos - {} - {} == n.econ.utxos;
    }
  }

  // So only the spent outputs are missing exactly when no unspent output was overwritten, as
  // with fresh transaction ids, and nothing at all is missing exactly when the blocks
  // neither spent nor overwrote an output of the old set.
  lemma {:induction false} RollbackLosesExactly(env: Env, trace: seq<Node>, offers: seq<Offer>)
    requires AllAccepted(env, trace, offers) && Inv(env, trace[0]) && Quiet(trace[0].chain.height, |offers|)
    ensures var n, blocks := trace[0], BlocksOf(offers);
      var taken, written := Taken(blocks, |blocks|), Written(env.c, blocks, |blocks|);
      var back := RollBack(env, trace[|offers|], n.chain.height).econ.utxos;
      && (back == n.econ.utxos - taken <==> forall o :: o in n.econ.utxos && o in written ==> o in taken)
      && (back == n.econ.utxos <==> n.econ.utxos.Keys !! taken + written)
  {
    RollbackRestores(env, trace, offers);
    var blocks := BlocksOf(offers);
    LossOf(trace[0].econ.utxos, Taken(blocks, |blocks|), Written(env.c, blocks, |blocks|));
  }

  lemma LossOf(u: Utxos, taken: set<OutPoint>, written: set<OutPoint>)
    ensures u - taken - written == u - taken <==> forall o :: o in u && o in written ==> o in taken
    ensures u - taken - written == u <==> u.Keys !! taken + written
  {
    var left := u - taken - written;
    if left == u - taken {
      forall o | o in u && o in written
        ensures o in taken
      {
        assert o !in left;
      }
    }
    if left == u {
      forall o | o in u
        ensures o !in taken + written
      {
        assert o in left;
      }
    }
  }
}
