// Which targets the headers of a chain carry, and how far they can move.

module HeaderTargets {
  import opened Blocks
  import opened Bytes
  import opened Chains
  import opened Difficulty
  import opened NodeInvariants
  import NodeRuns
  import opened NodeSpecs
  import opened NodeSupply
  import opened Targets

  function TimesOf(headers: seq<Header>): (times: seq<u64>)
    ensures |times| == |headers| && forall i :: 0 <= i < |headers| ==> times[i] == headers[i].timestamp
  {
    seq(|headers|, i requires 0 <= i < |headers| => headers[i].timestamp)
  }

  // The target computed behind these headers.
  function NextFor(headers: seq<Header>): Target
    requires headers != []
  {
    NextDifficulty(Chain(|headers| - 1, headers, map[], TimesOf(headers), map[]))
  }

  lemma NextForChain(hash: HeaderHasher, ch: Chain)
    requires Linked(hash, ch)
    ensures NextFor(ch.headers) == NextDifficulty(ch)
  {
    TimesOfLinked(hash, ch);
    NextForShape(ch);
  }

  lemma TimesOfLinked(hash: HeaderHasher, ch: Chain)
    requires Linked(hash, ch)
    ensures |ch.headers| == ch.height + 1 && TimesOf(ch.headers) == ch.times
  {}

  lemma NextForShape(ch: Chain)
    requires |ch.headers| == ch.height + 1 && TimesOf(ch.headers) == ch.times
    ensures NextFor(ch.headers) == NextDifficulty(ch)
  {
    NextIgnoresIndex(ch.height, ch.headers, ch.times, ch.index, ch.stored);
  }

  lemma NextIgnoresIndex(height: nat, headers: seq<Header>, times: seq<u64>, index: map<Hash32, nat>, stored: map<nat, Block>)
    ensures NextDifficulty(Chain(height, headers, index, times, stored)) == NextDifficulty(Chain(height, headers, map[], times, map[]))
  {}

  ghost predicate FollowsAt(headers: seq<Header>, i: nat)
    requires 0 < i < |headers|
  {
    headers[i].difficulty == NextFor(headers[..i])
  }

  // Every header after the first carries the target computed behind its predecessors.
  ghost predicate Follows(headers: seq<Header>) {
    forall i :: 0 < i < |headers| ==> FollowsAt(headers, i)
  }

  lemma {:induction false} FollowsPrefix(headers: seq<Header>, n: nat)
    requires n <= |headers| && Follows(headers)
    ensures Follows(headers[..n])
  {
    forall i | 0 < i < n
      ensures FollowsAt(headers[..n], i)
    {
      assert FollowsAt(headers, i) && headers[..n][..i] == headers[..i];
    }
  }

  lemma {:induction false} FollowsSnocExactly(headers: seq<Header>, header: Header)
    requires headers != [] && Follows(headers)
    ensures Follows(headers + [header]) <==> header.difficulty == NextFor(headers)
  {
    var more := headers + [header];
    assert more[..|headers|] == headers;
    forall i | 0 < i < |headers|
      ensures FollowsAt(more, i)
    {
      assert FollowsAt(headers, i) && more[..i] == headers[..i];
    }
    assert FollowsAt(more, |headers|) <==> header.difficulty == NextFor(headers);
  }

  // ---- On numbers ----

  // The seconds from header 120 j to header 120 j + 119; zero where the times ran backwards.
  function Elapsed(headers: seq<Header>, j: nat): nat
    requires 120 * j + 119 < |headers|
  {
    var first, last := headers[120 * j].timestamp, headers[120 * j + 119].timestamp;
    if last < first then 0 else last - first
  }

  // Of each of the first k windows.
  function Spans(headers: seq<Header>, k: nat): (spans: seq<nat>)
    requires 120 * k <= |headers|
    ensures |spans| == k
  {
    if k == 0 then [] else Spans(headers, k - 1) + [Elapsed(headers, k - 1)]
  }

  // The target behind j full windows is one step on the number of the last one, over the
  // seconds of the last window.
  lemma {:induction false} NextMoves(headers: seq<Header>, j: nat)
    requires j > 0 && |headers| == 120 * j && Num(headers[|headers| - 1].difficulty) <= Num(GENESIS_TARGET)
    ensures Num(NextFor(headers)) == Step(Num(headers[|headers| - 1].difficulty), Elapsed(headers, j - 1))
  {
    DivUnique(|headers|, 120, j, 0);
    NextForIs(headers);
    RetargetIsStep(TimesOf(headers), headers[|headers| - 1].difficulty);
  }

  // Behind a window that is not full it is that of the last header.
  lemma {:induction false} NextStays(headers: seq<Header>, j: nat, r: nat)
    requires 0 < r < 120 && |headers| == 120 * j + r
    ensures NextFor(headers) == headers[|headers| - 1].difficulty
  {
    DivUnique(|headers|, 120, j, r);
    NextForIs(headers);
  }

  lemma {:induction false} NextForIs(headers: seq<Header>)
    requires headers != []
    ensures |headers| % DIFFICULTY_ADJUSTMENT_INTERVAL == 0 ==> |headers| >= DIFFICULTY_ADJUSTMENT_INTERVAL
    ensures NextFor(headers) == if |headers| % DIFFICULTY_ADJUSTMENT_INTERVAL == 0
      then Retargeted(TimesOf(headers), headers[|headers| - 1].difficulty) else headers[|headers| - 1].difficulty
  {}

  // The latest time against the one 119 blocks before it.
  lemma {:induction false} RetargetIsStep(times: seq<u64>, last: Target)
    requires |times| >= 120 && Num(last) <= Num(GENESIS_TARGET)
    ensures var now, then' := times[|times| - 1], times[|times| - 120];
      Num(Retargeted(times, last)) == if now < then' then Num(last) else Step(Num(last), now - then')
  {
    AdjustIsStep(times[|times| - 120..], last);
  }

  // Right after a block whose height leaves 119 when divided by 120, and only there, the next
  // target moves: by one step over the seconds since the block 119 below, unless that block
  // carries a later time.
  lemma {:induction false} NextTargetIs(hash: HeaderHasher, ch: Chain)
    requires Linked(hash, ch) && Num(ch.headers[ch.height].difficulty) <= Num(GENESIS_TARGET)
    ensures var last := Num(ch.headers[ch.height].difficulty);
      Num(NextDifficulty(ch)) ==
        if ch.height < 119 || ch.height % 120 != 119 || ch.times[ch.height] < ch.times[ch.height - 119] then last
        else Step(last, ch.times[ch.height] - ch.times[ch.height - 119])
  {
    DueAt(ch.height);
    if ch.height % 120 == 119 {
      RetargetIsStep(ch.times, ch.headers[ch.height].difficulty);
    }
  }

  lemma DueAt(h: nat)
    ensures RetargetDue(h) <==> h % 120 == 119
    ensures h % 120 == 119 ==> h >= 119
  {}

  lemma {:induction false} HeaderMoves(headers: seq<Header>, j: nat)
    requires j > 0 && 120 * j < |headers| && Follows(headers) && Num(headers[120 * j - 1].difficulty) <= Num(GENESIS_TARGET)
    ensures Num(headers[120 * j].difficulty) == Step(Num(headers[120 * j - 1].difficulty), Elapsed(headers, j - 1))
  {
    var before := headers[..120 * j];
    assert FollowsAt(headers, 120 * j);
    ElapsedBefore(headers, 120 * j, j - 1);
    NextMoves(before, j);
  }

  lemma ElapsedBefore(headers: seq<Header>, n: nat, j: nat)
    requires 120 * j + 119 < n <= |headers|
    ensures Elapsed(headers[..n], j) == Elapsed(headers, j)
  {}

  lemma {:induction false} HeaderStays(headers: seq<Header>, j: nat, r: nat)
    requires 0 < r < 120 && 120 * j + r < |headers| && Follows(headers)
    ensures headers[120 * j + r].difficulty == headers[120 * j + r - 1].difficulty
  {
    assert FollowsAt(headers, 120 * j + r);
    NextStays(headers[..120 * j + r], j, r);
  }

  lemma RunSnoc(t: nat, spans: seq<nat>, e: nat)
    ensures Run(t, spans + [e]) == Step(Run(t, spans), e)
  {
    assert (spans + [e])[..|spans|] == spans;
  }

  lemma WindowMoves(headers: seq<Header>, j: nat, t: nat)
    requires j > 0 && 120 * j < |headers| && Follows(headers)
    requires Num(headers[120 * j - 1].difficulty) == Run(t, Spans(headers, j - 1)) <= Num(GENESIS_TARGET)
    ensures Num(headers[120 * j].difficulty) == Run(t, Spans(headers, j)) <= Num(GENESIS_TARGET)
  {
    HeaderMoves(headers, j);
    RunSnoc(t, Spans(headers, j - 1), Elapsed(headers, j - 1));
    StepBounds(Num(headers[120 * j - 1].difficulty), Elapsed(headers, j - 1));
  }

  // The target of header 120 j + r is that of the first header after j steps, each over the
  // seconds between the first and the last header of one window.
  lemma {:induction false} HeadersFollowRun(headers: seq<Header>, j: nat, r: nat)
    requires r < 120 && 120 * j + r < |headers| && Follows(headers) && Num(headers[0].difficulty) <= Num(GENESIS_TARGET)
    ensures Num(headers[120 * j + r].difficulty) == Run(Num(headers[0].difficulty), Spans(headers, j)) <= Num(GENESIS_TARGET)
    decreases j, r
  {
    if r > 0 {
      HeadersFollowRun(headers, j, r - 1);
      HeaderStays(headers, j, r);
    } else if j > 0 {
      HeadersFollowRun(headers, j - 1, 119);
      WindowMoves(headers, j, Num(headers[0].difficulty));
    }
  }

  // Within genesis, and within a quarter up or down for each of k retargets.
  ghost predicate WithinRetargets(first: Target, t: Target, k: nat) {
    && Num(t) <= Num(GENESIS_TARGET)
    && Pow(4, k) * Num(t) <= Pow(5, k) * Num(first)
    && Pow(4, k) * (Num(t) + 3) >= Pow(3, k) * (Num(first) + 3)
  }

  lemma {:induction false} BoundsAt(headers: seq<Header>, j: nat, r: nat)
    requires r < 120 && 120 * j + r < |headers| && Follows(headers) && Num(headers[0].difficulty) <= Num(GENESIS_TARGET)
    ensures WithinRetargets(headers[0].difficulty, headers[120 * j + r].difficulty, j)
  {
    HeadersFollowRun(headers, j, r);
    RunBounds(Num(headers[0].difficulty), Spans(headers, j));
  }

  lemma {:induction false} HeaderBounds(headers: seq<Header>, i: nat)
    requires i < |headers| && Follows(headers) && Num(headers[0].difficulty) <= Num(GENESIS_TARGET)
    ensures WithinRetargets(headers[0].difficulty, headers[i].difficulty, i / 120)
  {
    var j: nat, r: nat := i / 120, i % 120;
    assert i == 120 * j + r by { DivModOf(i, 120); }
    BoundsAt(headers, j, r);
  }

  // ---- Along runs of the node ----

  lemma PoppedFollows(env: Env, n: Node)
    requires Inv(env, n) && n.chain.height > 0 && Follows(n.chain.headers)
    ensures Follows(Popped(Hash(env), n.chain).headers)
  {
    FollowsPrefix(n.chain.headers, n.chain.height);
  }

  lemma {:induction false} PoppedToFollows(hash: HeaderHasher, ch: Chain, target: nat)
    requires |ch.headers| == ch.height + 1 && Follows(ch.headers)
    ensures Follows(PoppedTo(hash, ch, target).headers)
    decreases ch.height
  {
    if ch.height > target {
      FollowsPrefix(ch.headers, ch.height);
      PoppedToFollows(hash, Popped(hash, ch), target);
    }
  }

  lemma RollBackFollows(env: Env, n: Node, target: nat)
    requires Inv(env, n) && Follows(n.chain.headers)
    ensures Follows(RollBack(env, n, target).chain.headers)
  {
    PoppedToFollows(Hash(env), n.chain, target);
  }

  // Acceptance compares the declared target with nothing: an accepted block keeps the headers
  // on target exactly when it happens to declare the computed one.
  lemma AcceptFollowsExactly(env: Env, call: Call, n: Node, b: Block)
    requires Inv(env, n) && Follows(n.chain.headers) && Accept(env, call, n, b).1.Ok?
    ensures Follows(Accept(env, call, n, b).0.chain.headers) <==> b.header.difficulty == NextDifficulty(n.chain)
  {
    NodeRuns.AcceptedChain(env, call, n, b);
    NextForChain(Hash(env), n.chain);
    FollowsSnocExactly(n.chain.headers, b.header);
  }

  lemma AcceptFollows(env: Env, call: Call, n: Node, b: Block)
    requires Inv(env, n) && Follows(n.chain.headers) && b.header.difficulty == NextDifficulty(n.chain)
    ensures Follows(Accept(env, call, n, b).0.chain.headers)
  {
    if Accept(env, call, n, b).1.Ok? {
      AcceptFollowsExactly(env, call, n, b);
    } else {
      AcceptForm(env, call, n, b);
    }
  }

  // Blocks from outside declare the target computed where they are tried.
  ghost predicate OnTarget(env: Env, s: NodeRuns.Sys, step: NodeRuns.Step) {
    match step
    case AcceptBlock(call, b) => b.header.difficulty == NextDifficulty(s.node.chain)
    case SwitchFork(call, b) => ForkOnTarget(env, s.node, b)
    case _ => true
  }

  ghost predicate ForkOnTarget(env: Env, n: Node, b: Block) {
    ForkBase(env, n, b).Some? ==> b.header.difficulty == NextDifficulty(ForkBase(env, n, b).value.chain)
  }

  lemma ForkFollows(env: Env, call: Call, n: Node, b: Block)
    requires Inv(env, n) && Follows(n.chain.headers)
    requires ForkOnTarget(env, n, b)
    ensures Follows(ForkSwitch(env, call, n, b).0.chain.headers)
  {
    ForkSwitchByBase(env, call, n, b);
    if ForkBase(env, n, b).Some? {
      ForkBaseFollows(env, n, b);
      ForkBaseShrinks(env, n, b);
      AcceptFollows(env, call, ForkBase(env, n, b).value, b);
    }
  }

  lemma ForkBaseFollows(env: Env, n: Node, b: Block)
    requires Inv(env, n) && Follows(n.chain.headers) && ForkBase(env, n, b).Some?
    ensures Follows(ForkBase(env, n, b).value.chain.headers)
  {
    var fork := n.chain.index[b.header.prevHash];
    if fork + 1 == n.chain.height {
      PoppedFollows(env, n);
    } else {
      RollBackFollows(env, n, fork);
    }
  }

  lemma CommitFollows(env: Env, call: Call, n: Node, i: NodeRuns.Issue, nonce: u64, found: bool)
    requires Inv(env, n) && NodeRuns.JobFits(env, n, i) && Follows(n.chain.headers)
    ensures Follows(NodeRuns.CommitIssued(env, call, n, i.job, nonce, found).0.chain.headers)
  {
    NodeRuns.FitMakesSafe(env, call, n, i, nonce, found);
    if NodeRuns.CommitIssued(env, call, n, i.job, nonce, found).0 != n {
      NextForChain(Hash(env), n.chain);
      FollowsSnocExactly(n.chain.headers, MinedBlock(env, i.job, nonce).header);
    }
  }

  lemma CommitStepFollows(env: Env, s: NodeRuns.Sys, call: Call, k: nat, nonce: u64, found: bool)
    requires NodeRuns.SysInv(env, s) && k < |s.issued| && Follows(s.node.chain.headers)
    ensures Follows(NodeRuns.CommitIssued(env, call, s.node, s.issued[k].job, nonce, found).0.chain.headers)
  {
    assert NodeRuns.JobFits(env, s.node, s.issued[k]);
    CommitFollows(env, call, s.node, s.issued[k], nonce, found);
  }

  lemma StepFollows(env: Env, s: NodeRuns.Sys, step: NodeRuns.Step)
    requires NodeRuns.SysInv(env, s) && OnTarget(env, s, step) && Follows(s.node.chain.headers)
    ensures Follows(NodeRuns.NextNode(env, s, step).chain.headers)
  {
    match step
    case AcceptBlock(call, b) => AcceptFollows(env, call, s.node, b);
    case RollbackTo(target) => RollBackFollows(env, s.node, target);
    case SwitchFork(call, b) => ForkFollows(env, call, s.node, b);
    case PrepareJob(call) =>
    case CommitJob(call, k, nonce, found) => if k < |s.issued| { CommitStepFollows(env, s, call, k, nonce, found); }
    case AddTx(tx) =>
    case SetRegister(register) =>
  }

  ghost predicate OnTargetAt(env: Env, s: NodeRuns.Sys, steps: seq<NodeRuns.Step>, k: nat)
    requires k < |steps|
  {
    OnTarget(env, NodeRuns.Run(env, s, steps[..k]), steps[k])
  }

  ghost predicate AllOnTarget(env: Env, s: NodeRuns.Sys, steps: seq<NodeRuns.Step>) {
    forall k :: 0 <= k < |steps| ==> OnTargetAt(env, s, steps, k)
  }

  lemma {:induction false} RunFollows(env: Env, s: NodeRuns.Sys, steps: seq<NodeRuns.Step>)
    requires NodeRuns.SysInv(env, s) && Follows(s.node.chain.headers) && AllOnTarget(env, s, steps)
    ensures Follows(NodeRuns.Run(env, s, steps).node.chain.headers)
  {
    if steps != [] {
      var n := |steps| - 1;
      var before := steps[..n];
      forall k | 0 <= k < n
        ensures OnTargetAt(env, s, before, k)
      {
        assert OnTargetAt(env, s, steps, k) && before[..k] == steps[..k];
      }
      RunFollows(env, s, before);
      NodeRuns.RunKeeps(env, s, before);
      assert OnTargetAt(env, s, steps, n);
      StepFollows(env, NodeRuns.Run(env, s, before), steps[n]);
    }
  }

  // ---- The first header stays ----

  ghost predicate SameFirst(n: Node, m: Node) {
    n.chain.headers != [] && m.chain.headers != [] && m.chain.headers[0] == n.chain.headers[0]
  }

  lemma AcceptFirst(env: Env, call: Call, n: Node, b: Block)
    requires Inv(env, n)
    ensures SameFirst(n, Accept(env, call, n, b).0)
  {
    if Accept(env, call, n, b).1.Ok? {
      NodeRuns.AcceptedChain(env, call, n, b);
    } else {
      AcceptForm(env, call, n, b);
    }
  }

  lemma RollBackFirst(env: Env, n: Node, target: nat)
    requires Inv(env, n)
    ensures SameFirst(n, RollBack(env, n, target))
  {
    PoppedToLinked(Hash(env), n.chain, target);
  }

  lemma ForkBaseFirst(env: Env, n: Node, b: Block)
    requires Inv(env, n) && ForkBase(env, n, b).Some?
    ensures SameFirst(n, ForkBase(env, n, b).value)
  {
    var fork := n.chain.index[b.header.prevHash];
    if fork + 1 == n.chain.height {
      assert Popped(Hash(env), n.chain).headers == n.chain.headers[..n.chain.height];
    } else {
      RollBackFirst(env, n, fork);
    }
  }

  lemma ForkFirst(env: Env, call: Call, n: Node, b: Block)
    requires Inv(env, n)
    ensures SameFirst(n, ForkSwitch(env, call, n, b).0)
  {
    ForkSwitchByBase(env, call, n, b);
    if ForkBase(env, n, b).Some? {
      ForkBaseFirst(env, n, b);
      ForkBaseShrinks(env, n, b);
      AcceptFirst(env, call, ForkBase(env, n, b).value, b);
    }
  }

  lemma CommitFirst(env: Env, s: NodeRuns.Sys, call: Call, k: nat, nonce: u64, found: bool)
    requires NodeRuns.SysInv(env, s) && k < |s.issued|
    ensures SameFirst(s.node, NodeRuns.CommitIssued(env, call, s.node, s.issued[k].job, nonce, found).0)
  {
    assert NodeRuns.JobFits(env, s.node, s.issued[k]);
    NodeRuns.FitMakesSafe(env, call, s.node, s.issued[k], nonce, found);
  }

  lemma StepFirst(env: Env, s: NodeRuns.Sys, step: NodeRuns.Step)
    requires NodeRuns.SysInv(env, s)
    ensures SameFirst(s.node, NodeRuns.NextNode(env, s, step))
  {
    match step
    case AcceptBlock(call, b) => AcceptFirst(env, call, s.node, b);
    case RollbackTo(target) => RollBackFirst(env, s.node, target);
    case SwitchFork(call, b) => ForkFirst(env, call, s.node, b);
    case PrepareJob(call) =>
    case CommitJob(call, k, nonce, found) => if k < |s.issued| { CommitFirst(env, s, call, k, nonce, found); }
    case AddTx(tx) =>
    case SetRegister(register) =>
  }

  lemma {:induction false} FirstHeaderStays(env: Env, s: NodeRuns.Sys, steps: seq<NodeRuns.Step>)
    requires NodeRuns.SysInv(env, s)
    ensures SameFirst(s.node, NodeRuns.Run(env, s, steps).node)
  {
    if steps != [] {
      var before := steps[..|steps| - 1];
      FirstHeaderStays(env, s, before);
      NodeRuns.RunKeeps(env, s, before);
      StepFirst(env, NodeRuns.Run(env, s, before), steps[|steps| - 1]);
    }
  }

  // Steps that bring no block from outside.
  predicate OwnSteps(steps: seq<NodeRuns.Step>) {
    forall k :: 0 <= k < |steps| ==> !steps[k].AcceptBlock? && !steps[k].SwitchFork?
  }

  function MinedHeaders(s: NodeRuns.Sys): seq<Header> { s.node.chain.headers }

  lemma {:induction false} OwnStepsFollow(env: Env, s: NodeRuns.Sys, steps: seq<NodeRuns.Step>)
    requires NodeRuns.SysInv(env, s) && Follows(MinedHeaders(s)) && OwnSteps(steps)
    ensures Follows(MinedHeaders(NodeRuns.Run(env, s, steps)))
  {
    forall k | 0 <= k < |steps|
      ensures OnTargetAt(env, s, steps, k)
    {}
    RunFollows(env, s, steps);
  }

  lemma {:induction false} MinedHeadersFollow(env: Env, genesis: Block, steps: seq<NodeRuns.Step>)
    requires |genesis.txs| == 1 && genesis.txs[0].outputs != [] && OwnSteps(steps)
    ensures var headers := MinedHeaders(NodeRuns.Run(env, NodeRuns.Sys(GenesisNode(env, genesis), []), steps));
      headers != [] && headers[0] == genesis.header && Follows(headers)
  {
    var s := NodeRuns.Sys(GenesisNode(env, genesis), []);
    NodeRuns.GenesisInv(env, genesis);
    OwnStepsFollow(env, s, steps);
    FirstHeaderStays(env, s, steps);
  }

  // A chain extended only by commits, with jobs prepared and committed at any time and
  // rollbacks in between, moves its targets by the retarget rule alone.
  lemma {:induction false} MinedChainBounds(env: Env, genesis: Block, steps: seq<NodeRuns.Step>, i: nat)
    requires |genesis.txs| == 1 && genesis.txs[0].outputs != [] && OwnSteps(steps)
    requires Num(genesis.header.difficulty) <= Num(GENESIS_TARGET)
    requires i < |MinedHeaders(NodeRuns.Run(env, NodeRuns.Sys(GenesisNode(env, genesis), []), steps))|
    ensures WithinRetargets(genesis.header.difficulty,
                            MinedHeaders(NodeRuns.Run(env, NodeRuns.Sys(GenesisNode(env, genesis), []), steps))[i].difficulty, i / 120)
  {
    MinedHeadersFollow(env, genesis, steps);
    HeaderBounds(MinedHeaders(NodeRuns.Run(env, NodeRuns.Sys(GenesisNode(env, genesis), []), steps)), i);
  }
}
