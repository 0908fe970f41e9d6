// When a fork switch succeeds, and what it leaves when it does not.

module ForkSwitches {
  import opened Acceptances
  import opened Blocks
  import opened Bytes
  import opened Chains
  import opened NodeInvariants
  import NodeRuns
  import opened NodeSpecs
  import opened NodeSupply
  import opened Transactions
  import opened Wrappers

  // The block is unknown, its parent is the header at `fork` below the tip, and it weighs more
  // than the header that follows there.
  ghost predicate Contends(env: Env, headers: seq<Header>, b: Block, fork: nat) {
    && fork + 1 < |headers| && b.header.prevHash == Hash(env)(headers[fork])
    && env.weight(b.header.difficulty) > env.weight(headers[fork + 1].difficulty)
    && forall i :: 0 <= i < |headers| ==> Hash(env)(headers[i]) != Hash(env)(b.header)
  }

  // The node cut back to the header at `fork`, as far as acceptance looks at it.
  ghost predicate CutBack(env: Env, n: Node, base: Node, fork: nat) {
    && fork < n.chain.height && base.chain == PoppedTo(Hash(env), n.chain, fork)
    && base.econ == n.econ.(utxos := UndoTo(env, n.chain, n.econ.utxos, fork))
  }

  lemma IndexedAt(hash: HeaderHasher, ch: Chain, fork: nat, id: Hash32)
    requires Linked(hash, ch) && fork < |ch.headers|
    ensures hash(ch.headers[fork]) == id <==> id in ch.index && ch.index[id] == fork
  {}

  lemma StoredFollows(hash: HeaderHasher, ch: Chain, h: nat)
    requires Linked(hash, ch)
    ensures h in ch.stored <==> h < |ch.headers|
    ensures h in ch.stored ==> ch.stored[h].header == ch.headers[h]
  {}

  // There is something to try exactly when the block contends, and then it is tried on the
  // node cut back to its parent.
  lemma BaseExactly(env: Env, n: Node, b: Block, fork: nat)
    requires Inv(env, n) && b.header.prevHash in n.chain.index && fork == n.chain.index[b.header.prevHash]
    ensures ForkBase(env, n, b).Some? <==> Contends(env, n.chain.headers, b, fork)
  {
    UnknownExactly(Hash(env), n.chain, Hash(env)(b.header));
    IndexedAt(Hash(env), n.chain, fork, b.header.prevHash);
    StoredFollows(Hash(env), n.chain, fork + 1);
  }

  lemma BaseIsCutBack(env: Env, n: Node, b: Block)
    requires Inv(env, n) && ForkBase(env, n, b).Some?
    ensures b.header.prevHash in n.chain.index
    ensures CutBack(env, n, ForkBase(env, n, b).value, n.chain.index[b.header.prevHash])
  {
    var fork := n.chain.index[b.header.prevHash];
    if fork + 1 == n.chain.height {
      OnePop(env, n.chain, n.econ.utxos, fork);
    }
  }

  lemma OnePop(env: Env, ch: Chain, utxos: Utxos, fork: nat)
    requires fork + 1 == ch.height
    ensures PoppedTo(Hash(env), ch, fork) == Popped(Hash(env), ch)
    ensures UndoTo(env, ch, utxos, fork) == UndoTip(env.c, ch, utxos)
  {
    assert UndoTo(env, Popped(Hash(env), ch), UndoTip(env.c, ch, utxos), fork) == UndoTip(env.c, ch, utxos);
  }

  // The block extends the chain cut back to its parent.
  lemma ContenderIsChild(env: Env, n: Node, base: Node, b: Block, fork: nat)
    requires Inv(env, n) && CutBack(env, n, base, fork) && Contends(env, n.chain.headers, b, fork)
    ensures NewChild(Hash(env), base.chain, b) && base.chain.headers == n.chain.headers[..fork + 1]
  {
    PoppedToLinked(Hash(env), n.chain, fork);
  }

  ghost predicate Unmoved(n: Node, m: Node) { m.chain == n.chain && m.econ == n.econ }

  // How a switch to a block whose parent is at `fork` ends, on the node cut back there.
  ghost predicate Ends(env: Env, call: Call, n: Node, base: Node, b: Block, fork: nat, m: Node, r: Result<bool, ForkError>)
    requires fork < |n.chain.headers|
  {
    if Worthy(env.c, call, base, b)
    then r == Ok(true) && m.chain.headers == n.chain.headers[..fork + 1] + [b.header]
    else r.Err? && r.error.ReorgFailed? && m == base
  }

  // A fork switch does nothing unless the block contends with the header above its parent.
  // When it does, everything above the parent is dropped first; the block takes its place
  // exactly when it is worthy there, and otherwise the chain stays cut back.
  lemma SwitchesExactly(env: Env, call: Call, n: Node, b: Block, fork: nat)
    returns (base: Node)
    requires Inv(env, n) && (b.header.prevHash in n.chain.index ==> fork == n.chain.index[b.header.prevHash])
    ensures var (m, r) := ForkSwitch(env, call, n, b);
      if Contends(env, n.chain.headers, b, fork)
      then CutBack(env, n, base, fork) && Ends(env, call, n, base, b, fork, m, r)
      else r == Ok(false) && Unmoved(n, m)
  {
    base := n;
    ForkSwitchByBase(env, call, n, b);
    if Contends(env, n.chain.headers, b, fork) {
      ParentIndexed(env, n, b, fork);
    }
    if b.header.prevHash in n.chain.index {
      BaseExactly(env, n, b, fork);
    }
    if ForkBase(env, n, b).Some? {
      BaseIsCutBack(env, n, b);
      ForkBaseShrinks(env, n, b);
      base := ForkBase(env, n, b).value;
      TriedOn(env, call, n, base, b, fork);
    } else {
      NothingTried(env, call, n, b);
    }
  }

  lemma ParentIndexed(env: Env, n: Node, b: Block, fork: nat)
    requires Inv(env, n) && Contends(env, n.chain.headers, b, fork)
    ensures b.header.prevHash in n.chain.index
  {
    IndexedAt(Hash(env), n.chain, fork, b.header.prevHash);
  }

  lemma NothingTried(env: Env, call: Call, n: Node, b: Block)
    requires Inv(env, n) && ForkBase(env, n, b).None?
    ensures ForkSwitch(env, call, n, b).1 == Ok(false) && Unmoved(n, ForkSwitch(env, call, n, b).0)
  {
    StoredFollows(Hash(env), n.chain, n.chain.height);
  }

  lemma TriedOn(env: Env, call: Call, n: Node, base: Node, b: Block, fork: nat)
    requires Inv(env, n) && Inv(env, base) && CutBack(env, n, base, fork) && Contends(env, n.chain.headers, b, fork)
    ensures Ends(env, call, n, base, b, fork, AcceptOn(env, call, base, b).0, AcceptOn(env, call, base, b).1)
  {
    ContenderIsChild(env, n, base, b, fork);
    AcceptedExactly(env, call, base, b);
    AcceptForm(env, call, base, b);
    if Accept(env, call, base, b).1.Ok? {
      NodeRuns.AcceptedChain(env, call, base, b);
    }
  }

  // A block whose parent is unknown waits behind those already waiting for that parent, and
  // nothing else changes.
  lemma OrphanWaits(env: Env, call: Call, n: Node, b: Block)
    requires Inv(env, n)
    requires forall i :: 0 <= i < |n.chain.headers| ==>
      Hash(env)(n.chain.headers[i]) != Hash(env)(b.header) && Hash(env)(n.chain.headers[i]) != b.header.prevHash
    ensures var (m, r), parent := ForkSwitch(env, call, n, b), b.header.prevHash;
      && r == Ok(false) && m == n.(forks := m.forks)
      && m.forks.Keys == n.forks.Keys + {parent}
      && (forall p :: p in n.forks && p != parent ==> m.forks[p] == n.forks[p])
      && m.forks[parent] == (if parent in n.forks then n.forks[parent] else []) + [b]
  {
    UnknownExactly(Hash(env), n.chain, Hash(env)(b.header));
    UnknownExactly(Hash(env), n.chain, b.header.prevHash);
  }
}
