// When the blocks a node mines are taken by others, and what sealed chains rest on.

module Sealing {
  import opened Acceptances
  import opened Agreement
  import opened AgreementRuns
  import opened BlockValue
  import opened Blocks
  import opened Bytes
  import opened Chains
  import opened Economies
  import opened NodeInvariants
  import NodeRuns
  import opened NodeSpecs
  import opened Origins
  import Slashing
  import opened Targets

  // ---- A commit and its peers ----

  predicate SealHolds(env: Env, m: Hash32) {
    var (signature, key) := env.seal(m);
    signature.Some? && key.Some? && env.c.ecdsa(key.value, signature.value, m)
  }

  // The wallet seals every hash with a key and a signature that verify over it.
  ghost predicate SealSound(env: Env) {
    forall m: Hash32 {:trigger SealHolds(env, m)} :: SealHolds(env, m)
  }

  lemma MinedIsSigned(env: Env, job: Job, nonce: u64)
    requires SealSound(env)
    ensures Signed(env.c, MinedBlock(env, job, nonce))
    ensures MinedBlock(env, job, nonce).header == job.header.(nonce := nonce)
  {
    assert SealHolds(env, HeaderHash(env.c, job.header.(nonce := nonce)));
  }

  function MinedHash(env: Env, job: Job, nonce: u64): Hash32 {
    HeaderHash(env.c, job.header.(nonce := nonce))
  }

  // What is left for a peer to object to: the work, the time against its own clock, and its checkpoints.
  predicate Takeable(env: Env, theirs: Call, ch: Chain, job: Job, nonce: u64) {
    && Num(MinedHash(env, job, nonce)) <= Num(job.difficulty)
    && Timely(ch.times, job.header.timestamp, theirs.now)
    && MatchesCheckpoint(theirs.checkpoints, ch.height + 1, MinedHash(env, job, nonce))
  }

  // A commit that takes effect gives a block that a peer in the same state takes exactly then.
  lemma EffectiveCommitTakenExactly(env: Env, who: Identity, call: Call, theirs: Call, n: Node, i: NodeRuns.Issue, nonce: u64, found: bool)
    requires Inv(env, n) && NodeRuns.JobFits(env, n, i) && SealSound(env)
    requires NodeRuns.CommitIssued(env, call, n, i.job, nonce, found).0 != n
    ensures PeerTakes(env, who, theirs, n, i.job, nonce) <==> Takeable(env, theirs, n.chain, i.job, nonce)
  {
    NodeRuns.FitMakesSafe(env, call, n, i, nonce, found);
    MinedIsSigned(env, i.job, nonce);
    PeerChecks(env, who, theirs, n, i.job, nonce);
  }

  lemma PeerChecks(env: Env, who: Identity, theirs: Call, n: Node, job: Job, nonce: u64)
    requires Inv(env, n) && JobRight(env, job) && Passes(job.txs, n.econ.utxos)
    requires Signed(env.c, MinedBlock(env, job, nonce)) && Extending(Hash(env), n.chain, MinedBlock(env, job, nonce))
    ensures PeerTakes(env, who, theirs, n, job, nonce) <==> Takeable(env, theirs, n.chain, job, nonce)
  {
    var b := MinedBlock(env, job, nonce);
    TimelyExactly(Hash(env), n.chain, b.header.timestamp, theirs.now);
    ChecksExactly(Peer(env, who), theirs, n, b);
  }

  // The same in every reachable state, for any job ever issued.
  lemma {:induction false} CommitTakenExactly(env: Env, who: Identity, g: Block, steps: seq<NodeRuns.Step>, call: Call, theirs: Call, k: nat,
                                              nonce: u64, found: bool)
    requires |g.txs| == 1 && g.txs[0].outputs != [] && k < |NodeRuns.Run(env, StartOf(env, g), steps).issued| && SealSound(env)
    requires NodeRuns.CommitIssued(env, call, NodeAfter(env, g, steps), JobOf(env, g, steps, k), nonce, found).0 != NodeAfter(env, g, steps)
    ensures PeerTakes(env, who, theirs, NodeAfter(env, g, steps), JobOf(env, g, steps, k), nonce)
       <==> Takeable(env, theirs, NodeAfter(env, g, steps).chain, JobOf(env, g, steps, k), nonce)
  {
    NodeRuns.ReachableInv(env, g, steps);
    var s := NodeRuns.Run(env, StartOf(env, g), steps);
    assert NodeRuns.JobFits(env, s.node, s.issued[k]);
    EffectiveCommitTakenExactly(env, who, call, theirs, s.node, s.issued[k], nonce, found);
  }

  // So with a sound seal a miner and a peer in its state end with one chain whenever the peer
  // cannot object, and at an epoch end with the same outputs exactly when they owe the same.
  lemma {:induction false} SealedRunAgreesExactly(env: Env, who: Identity, g: Block, steps: seq<NodeRuns.Step>, call: Call, theirs: Call, k: nat, nonce: u64)
    requires EndsEpoch(env, g, steps, call, k, nonce) && SameMiners(NodeAfter(env, g, steps), call, theirs) && SealSound(env)
    requires Takeable(env, theirs, NodeAfter(env, g, steps).chain, JobOf(env, g, steps, k), nonce)
    ensures PeerTakes(env, who, theirs, NodeAfter(env, g, steps), JobOf(env, g, steps, k), nonce)
    ensures AgreesExactly(env, who, call, theirs, NodeAfter(env, g, steps), JobOf(env, g, steps, k), nonce)
  {
    CommitTakenExactly(env, who, g, steps, call, theirs, k, nonce, true);
    RunAgreesExactly(env, who, g, steps, call, theirs, k, nonce);
  }

  // ---- What a whole chain rests on ----

  // A block is only ever reported as found when its hash meets its target.
  ghost predicate FoundHits(env: Env, s: NodeRuns.Sys, step: NodeRuns.Step) {
    step.CommitJob? && step.k < |s.issued| && step.found ==>
      Slashing.PowMet(env.c, MinedBlock(env, s.issued[step.k].job, step.nonce))
  }

  ghost predicate FoundHitsAt(env: Env, s: NodeRuns.Sys, steps: seq<NodeRuns.Step>, k: nat)
    requires k < |steps|
  {
    FoundHits(env, NodeRuns.Run(env, s, steps[..k]), steps[k])
  }

  ghost predicate AllFoundHit(env: Env, s: NodeRuns.Sys, steps: seq<NodeRuns.Step>) {
    forall k :: 0 <= k < |steps| ==> FoundHitsAt(env, s, steps, k)
  }

  lemma BroughtIsEarned(env: Env, s: NodeRuns.Sys, step: NodeRuns.Step, h: nat, b: Block, latest: nat, checkpoints: map<nat, Hash32>)
    requires SealSound(env) && FoundHits(env, s, step) && Brought(env, s, step, h, b, latest, checkpoints)
    ensures Earned(env.c, b)
  {
    if Commits(env, s, step, b) {
      MinedIsSigned(env, s.issued[step.k].job, step.nonce);
    }
  }

  lemma GenesisStores(env: Env, g: Block)
    requires |g.txs| == 1 && g.txs[0].outputs != []
    ensures StartOf(env, g).node.chain.stored == map[0 := g]
  {}

  // Whatever is interleaved, every stored block above genesis is signed by the key it carries
  // and its hash meets its declared target.
  lemma {:induction false} StoredIsEarned(env: Env, g: Block, steps: seq<NodeRuns.Step>, h: nat)
    requires |g.txs| == 1 && g.txs[0].outputs != [] && SealSound(env)
    requires AllFoundHit(env, StartOf(env, g), steps)
    requires 0 < h && h in StoredAfter(env, StartOf(env, g), steps)
    ensures Earned(env.c, StoredAfter(env, StartOf(env, g), steps)[h])
  {
    NodeRuns.GenesisInv(env, g);
    GenesisStores(env, g);
    var latest := LatestClock(steps);
    var k := StoredWasBrought(env, StartOf(env, g), steps, latest, map[], h);
    assert FoundHitsAt(env, StartOf(env, g), steps, k);
    BroughtIsEarned(env, NodeRuns.Run(env, StartOf(env, g), steps[..k]), steps[k], h, StoredAfter(env, StartOf(env, g), steps)[h], latest, map[]);
  }

  // So every header above genesis hashes to at most its target.
  lemma {:induction false} HeadersAreWorked(env: Env, g: Block, steps: seq<NodeRuns.Step>, h: nat)
    requires |g.txs| == 1 && g.txs[0].outputs != [] && SealSound(env)
    requires AllFoundHit(env, StartOf(env, g), steps)
    requires 0 < h < |NodeAfter(env, g, steps).chain.headers|
    ensures var header := NodeAfter(env, g, steps).chain.headers[h]; Num(HeaderHash(env.c, header)) <= Num(header.difficulty)
  {
    NodeRuns.ReachableInv(env, g, steps);
    StoredHeader(Hash(env), NodeAfter(env, g, steps).chain, h);
    StoredIsEarned(env, g, steps, h);
  }

  lemma StoredHeader(hash: HeaderHasher, ch: Chain, h: nat)
    requires Linked(hash, ch) && h < |ch.headers|
    ensures h in ch.stored && ch.stored[h].header == ch.headers[h]
  {}

  // A chain built without commits holds nothing that was not vetted: earned, on the
  // checkpoints, and at most two hours ahead of the latest clock.
  lemma {:induction false} ForeignIsVetted(env: Env, g: Block, steps: seq<NodeRuns.Step>, latest: nat, checkpoints: map<nat, Hash32>, h: nat)
    requires |g.txs| == 1 && g.txs[0].outputs != [] && NodeRuns.Checked(steps) && AllCalledWith(steps, latest, checkpoints)
    requires 0 < h && h in StoredAfter(env, StartOf(env, g), steps)
    ensures Vetted(env.c, h, StoredAfter(env, StartOf(env, g), steps)[h], latest, checkpoints)
  {
    NodeRuns.GenesisInv(env, g);
    GenesisStores(env, g);
    var k := StoredWasBrought(env, StartOf(env, g), steps, latest, checkpoints, h);
    assert BroughtAt(env, StartOf(env, g), steps, k, h, StoredAfter(env, StartOf(env, g), steps)[h], latest, checkpoints);
  }
}
