// What fork switches do to the total weight of the chain.

module ForkWeights {
  import opened Blocks
  import opened Bytes
  import opened Chains
  import opened NodeInvariants
  import NodeRuns
  import opened NodeSpecs
  import opened Wrappers

  function WeightOf(env: Env, headers: seq<Header>): int {
    if headers == [] then 0 else WeightOf(env, headers[..|headers| - 1]) + env.weight(headers[|headers| - 1].difficulty)
  }

  lemma {:induction false} WeightConcat(env: Env, xs: seq<Header>, ys: seq<Header>)
    ensures WeightOf(env, xs + ys) == WeightOf(env, xs) + WeightOf(env, ys)
    decreases |ys|
  {
    if ys == [] {
      assert xs + ys == xs;
    } else {
      var init, last := ys[..|ys| - 1], ys[|ys| - 1];
      WeightConcat(env, xs, init);
      assert (xs + ys)[..|xs + ys| - 1] == xs + init && (xs + ys)[|xs + ys| - 1] == last;
    }
  }

  // The headers a switch to a child of block `fork` drops.
  function Dropped(n: Node, fork: nat): seq<Header>
    requires fork < |n.chain.headers|
  {
    n.chain.headers[fork + 1..]
  }

  // A successful switch at `fork` puts the block in the place of everything behind it.
  ghost predicate SwitchedAt(n: Node, m: Node, b: Block, fork: nat) {
    fork < |n.chain.headers| && m.chain.headers == n.chain.headers[..fork + 1] + [b.header]
  }

  lemma SwitchedWeight(env: Env, n: Node, m: Node, b: Block, fork: nat)
    requires SwitchedAt(n, m, b, fork)
    ensures WeightOf(env, m.chain.headers) - WeightOf(env, n.chain.headers)
         == env.weight(b.header.difficulty) - WeightOf(env, Dropped(n, fork))
  {
    var kept := n.chain.headers[..fork + 1];
    assert n.chain.headers == kept + Dropped(n, fork);
    WeightConcat(env, kept, Dropped(n, fork));
    WeightConcat(env, kept, [b.header]);
    assert [b.header][..0] == [];
    assert WeightOf(env, [b.header]) == env.weight(b.header.difficulty);
  }

  lemma AcceptOnSwitches(env: Env, call: Call, n: Node, base: Node, b: Block, fork: nat)
    requires Inv(env, base) && AcceptOn(env, call, base, b).1 == Ok(true)
    requires fork < |n.chain.headers| && base.chain.headers == n.chain.headers[..fork + 1]
    ensures SwitchedAt(n, AcceptOn(env, call, base, b).0, b, fork)
  {
    NodeRuns.AcceptedChain(env, call, base, b);
  }

  lemma MultiReorgSwitches(env: Env, call: Call, n: Node, b: Block)
    requires Inv(env, n) && MultiReorg(env, call, n, b).1 == Ok(true)
    ensures b.header.prevHash in n.chain.index
    ensures var fork := n.chain.index[b.header.prevHash];
      && fork + 1 < |n.chain.headers| && SwitchedAt(n, MultiReorg(env, call, n, b).0, b, fork)
      && env.weight(b.header.difficulty) > env.weight(n.chain.headers[fork + 1].difficulty)
  {
    MultiReorgByBase(env, call, n, b);
    MultiBaseForm(env, n, b);
    var fork := n.chain.index[b.header.prevHash];
    RolledBackHeaders(env, n, fork);
    AcceptOnSwitches(env, call, n, RollBack(env, n, fork), b, fork);
  }

  lemma RolledBackHeaders(env: Env, n: Node, fork: nat)
    requires Inv(env, n) && fork < n.chain.height
    ensures Inv(env, RollBack(env, n, fork)) && RollBack(env, n, fork).chain.headers == n.chain.headers[..fork + 1]
  {
    RollBackKeeps(env, n, fork);
    PoppedToLinked(Hash(env), n.chain, fork);
  }

  lemma MultiReorgByBase(env: Env, call: Call, n: Node, b: Block)
    ensures match MultiBase(env, n, b)
      case None => MultiReorg(env, call, n, b).1 != Ok(true)
      case Some(base) => MultiReorg(env, call, n, b) == AcceptOn(env, call, base, b)
  {}

  lemma MultiBaseForm(env: Env, n: Node, b: Block)
    requires MultiBase(env, n, b).Some?
    ensures b.header.prevHash in n.chain.index
    ensures var fork := n.chain.index[b.header.prevHash];
      && fork < n.chain.height && fork + 1 in n.chain.stored && Heavier(env, b, n.chain.stored[fork + 1])
      && MultiBase(env, n, b).value == RollBack(env, n, fork)
  {}

  // The deeper reorganisation compares the new block with the first it drops only. The total
  // weight of the chain does not fall exactly when the new block weighs at least as much as
  // all it drops.
  lemma ReorgKeepsWeightExactly(env: Env, call: Call, n: Node, b: Block)
    requires Inv(env, n) && MultiReorg(env, call, n, b).1 == Ok(true)
    ensures var fork := n.chain.index[b.header.prevHash];
      WeightOf(env, MultiReorg(env, call, n, b).0.chain.headers) >= WeightOf(env, n.chain.headers) <==>
        env.weight(b.header.difficulty) >= WeightOf(env, Dropped(n, fork))
  {
    MultiReorgSwitches(env, call, n, b);
    SwitchedWeight(env, n, MultiReorg(env, call, n, b).0, b, n.chain.index[b.header.prevHash]);
  }

  // Replacing the tip alone always gains weight.
  lemma TipSwitchGains(env: Env, call: Call, n: Node, b: Block)
    requires Inv(env, n) && ForkSwitch(env, call, n, b).1 == Ok(true)
    requires b.header.prevHash in n.chain.index && n.chain.index[b.header.prevHash] + 1 == n.chain.height
    ensures WeightOf(env, ForkSwitch(env, call, n, b).0.chain.headers) > WeightOf(env, n.chain.headers)
  {
    var fork := n.chain.height - 1;
    TipSwitchForm(env, call, n, b);
    TipDroppedHeaders(env, n);
    AcceptOnSwitches(env, call, n, TipDropped(env, n), b, fork);
    SwitchedWeight(env, n, ForkSwitch(env, call, n, b).0, b, fork);
    LastWeight(env, n);
  }

  lemma TipSwitchForm(env: Env, call: Call, n: Node, b: Block)
    requires ForkSwitch(env, call, n, b).1 == Ok(true)
    requires b.header.prevHash in n.chain.index && n.chain.index[b.header.prevHash] + 1 == n.chain.height
    ensures n.chain.height in n.chain.stored && Heavier(env, b, n.chain.stored[n.chain.height])
    ensures ForkSwitch(env, call, n, b) == AcceptOn(env, call, TipDropped(env, n), b)
  {}

  lemma TipDroppedHeaders(env: Env, n: Node)
    requires Inv(env, n) && n.chain.height > 0
    ensures Inv(env, TipDropped(env, n)) && TipDropped(env, n).chain.headers == n.chain.headers[..n.chain.height]
  {
    TipDroppedKeeps(env, n);
  }

  lemma LastWeight(env: Env, n: Node)
    requires Inv(env, n) && n.chain.height > 0 && n.chain.height in n.chain.stored
    ensures WeightOf(env, Dropped(n, n.chain.height - 1)) == env.weight(n.chain.stored[n.chain.height].header.difficulty)
  {
    var tip := n.chain.headers[n.chain.height];
    assert Dropped(n, n.chain.height - 1) == [tip] && [tip][..0] == [];
  }

  lemma {:induction false} AllHeavy(env: Env, headers: seq<Header>, w: nat)
    requires forall h :: h in headers ==> env.weight(h.difficulty) == w
    ensures WeightOf(env, headers) == |headers| * w
  {
    if headers != [] {
      AllHeavy(env, headers[..|headers| - 1], w);
    }
  }

  // So two or more blocks of one weight above one give way to a single block one unit heavier,
  // and the chain gets lighter.
  lemma ReorgCanLoseWeight(env: Env, call: Call, n: Node, b: Block, w: nat)
    requires Inv(env, n) && MultiReorg(env, call, n, b).1 == Ok(true)
    requires w > 1 && env.weight(b.header.difficulty) == w + 1
    requires var gone := Dropped(n, n.chain.index[b.header.prevHash]);
      |gone| >= 2 && forall h :: h in gone ==> env.weight(h.difficulty) == w
    ensures WeightOf(env, MultiReorg(env, call, n, b).0.chain.headers) < WeightOf(env, n.chain.headers)
  {
    var gone := Dropped(n, n.chain.index[b.header.prevHash]);
    AllHeavy(env, gone, w);
    MulMono(2, |gone|, w);
    ReorgKeepsWeightExactly(env, call, n, b);
  }
}
