// What a block has passed when acceptance takes it, and what the stored blocks of a run keep of it.

module Acceptances {
  import opened BlockValue
  import opened Blocks
  import opened Bytes
  import opened Chains
  import opened NodeInvariants
  import NodeRuns
  import opened NodeSpecs
  import opened NodeSupply
  import Slashing
  import opened Transactions
  import opened Wrappers

  // ---- One acceptance ----

  // The key in the block signed the hash of its header.
  predicate Signed(c: Crypto, b: Block) {
    && b.pubkey.Some? && b.signature.Some?
    && c.ecdsa(b.pubkey.value, b.signature.value, HeaderHash(c, b.header))
  }

  // And that hash meets the declared target.
  predicate Earned(c: Crypto, b: Block) { Slashing.PowMet(c, b) && Signed(c, b) }

  // At most two hours ahead of the clock, later than the parent unless that is genesis, and
  // later than more than half of the last eleven times.
  predicate Timely(times: seq<u64>, timestamp: u64, now: u64) {
    && timestamp <= now + 7200
    && (|times| > 1 ==> times[|times| - 1] < timestamp)
    && (|times| >= 3 ==> 2 * CountBelow(Latest(times), timestamp) > |Latest(times)|)
  }

  function Latest(times: seq<u64>): seq<u64> {
    if |times| < 11 then times else times[|times| - 11..]
  }

  predicate MatchesCheckpoint(checkpoints: map<nat, Hash32>, height: nat, id: Hash32) {
    height in checkpoints ==> checkpoints[height] == id
  }

  // The median is passed exactly when more than half of the window is earlier.
  lemma LaterThanMedian(w: seq<u64>, timestamp: u64)
    requires w != []
    ensures timestamp > SortedTimes(w)[|w| / 2] <==> 2 * CountBelow(w, timestamp) > |w|
  {
    var m := SortedTimes(w)[|w| / 2];
    SortedRank(w, |w| / 2);
    if timestamp > m {
      CountMonotone(w, m + 1, timestamp);
    } else {
      CountMonotone(w, timestamp, m);
    }
  }

  lemma TimelyExactly(hash: HeaderHasher, ch: Chain, timestamp: u64, now: u64)
    requires Linked(hash, ch)
    ensures TimeOk(ch, timestamp, now) <==> Timely(ch.times, timestamp, now)
  {
    TipTime(hash, ch);
    WindowPassed(ch.times, timestamp);
    TimelyParts(ch, timestamp, now);
  }

  lemma TipTime(hash: HeaderHasher, ch: Chain)
    requires Linked(hash, ch)
    ensures |ch.times| == ch.height + 1
    ensures ParentTime(ch) == if ch.height > 0 then Some(ch.times[ch.height]) else None
  {}

  lemma WindowPassed(times: seq<u64>, timestamp: u64)
    requires times != []
    ensures Median(times).Some? <==> |times| >= 3
    ensures Median(times).Some? ==> (timestamp > Median(times).value <==> 2 * CountBelow(Latest(times), timestamp) > |Latest(times)|)
  {
    assert Window(times) == Latest(times);
    LaterThanMedian(Latest(times), timestamp);
  }

  lemma TimelyParts(ch: Chain, timestamp: u64, now: u64)
    requires |ch.times| == ch.height + 1 && ParentTime(ch) == if ch.height > 0 then Some(ch.times[ch.height]) else None
    requires Median(ch.times).Some? <==> |ch.times| >= 3
    requires Median(ch.times).Some? ==>
      (timestamp > Median(ch.times).value <==> 2 * CountBelow(Latest(ch.times), timestamp) > |Latest(ch.times)|)
    ensures TimeOk(ch, timestamp, now) <==> Timely(ch.times, timestamp, now)
  {}

  // A hash is unknown exactly when no header of the chain has it.
  lemma UnknownExactly(hash: HeaderHasher, ch: Chain, id: Hash32)
    requires Linked(hash, ch)
    ensures id !in ch.index <==> forall i :: 0 <= i < |ch.headers| ==> hash(ch.headers[i]) != id
  {
    if id in ch.index {
      assert hash(ch.headers[ch.index[id]]) == id;
    }
  }

  // The block is a new child of the tip.
  ghost predicate NewChild(hash: HeaderHasher, ch: Chain, b: Block) {
    && ch.headers != [] && b.header.prevHash == hash(ch.headers[|ch.headers| - 1])
    && forall i :: 0 <= i < |ch.headers| ==> hash(ch.headers[i]) != hash(b.header)
  }

  lemma NewChildExactly(hash: HeaderHasher, ch: Chain, b: Block)
    requires Linked(hash, ch)
    ensures NewChild(hash, ch, b) <==> Extending(hash, ch, b)
  {
    UnknownExactly(hash, ch, hash(b.header));
  }

  // Acceptance takes exactly the new children of the tip that are earned, timely and on the
  // checkpoint, carry the root of their transactions, and pass both block validators.
  lemma AcceptedExactly(env: Env, call: Call, n: Node, b: Block)
    requires Inv(env, n)
    ensures Accept(env, call, n, b).1.Ok? <==> NewChild(Hash(env), n.chain, b) && Worthy(env.c, call, n, b)
  {
    TimelyExactly(Hash(env), n.chain, b.header.timestamp, call.now);
    NewChildExactly(Hash(env), n.chain, b);
    ChecksExactly(env, call, n, b);
  }

  ghost predicate Worthy(c: Crypto, call: Call, n: Node, b: Block) {
    && Earned(c, b) && MatchesCheckpoint(call.checkpoints, n.chain.height + 1, HeaderHash(c, b.header))
    && Timely(n.chain.times, b.header.timestamp, call.now)
    && b.header.merkleRoot == BlockRoot(c, b.txs) && Passes(b.txs, n.econ.utxos)
  }

  lemma ChecksExactly(env: Env, call: Call, n: Node, b: Block)
    requires TimeOk(n.chain, b.header.timestamp, call.now) <==> Timely(n.chain.times, b.header.timestamp, call.now)
    ensures Accept(env, call, n, b).1.Ok? <==> Extending(Hash(env), n.chain, b) && Worthy(env.c, call, n, b)
  {}

  // The faults in the order in which they are looked for.
  ghost function Faults(env: Env, call: Call, n: Node, b: Block): (faults: seq<(bool, AcceptError)>)
    ensures |faults| == 9
  {
    var id, coinbase := HeaderHash(env.c, b.header), CheckCoinbase(b.txs, n.econ.utxos);
    [(id in n.chain.index, AlreadyKnown),
     (b.header.prevHash != TipHash(Hash(env), n.chain), PrevHashMismatch),
     (!Slashing.PowMet(env.c, b), BadPow),
     (!MatchesCheckpoint(call.checkpoints, n.chain.height + 1, id), BadPow),
     (!Signed(env.c, b), BadSignature),
     (!Timely(n.chain.times, b.header.timestamp, call.now), BadTimestamp),
     (b.header.merkleRoot != BlockRoot(env.c, b.txs), BadMerkle),
     (coinbase.Some?, if coinbase.Some? then BadCoinbase(coinbase.value) else BadMerkle),
     (!NoDoubleSpend(b.txs), BadDoubleSpend)]
  }

  // A refusal names the first fault there is, and changes nothing.
  lemma RefusedForFirstFault(env: Env, call: Call, n: Node, b: Block)
    requires Inv(env, n) && Accept(env, call, n, b).1.Err?
    ensures Accept(env, call, n, b).0 == n && First(Faults(env, call, n, b), Accept(env, call, n, b).1.error)
  {
    TimelyExactly(Hash(env), n.chain, b.header.timestamp, call.now);
    ErrorIsFirst(env, call, n, b, Faults(env, call, n, b), Accept(env, call, n, b).1.error);
  }

  lemma ErrorIsFirst(env: Env, call: Call, n: Node, b: Block, faults: seq<(bool, AcceptError)>, e: AcceptError)
    requires TimeOk(n.chain, b.header.timestamp, call.now) <==> Timely(n.chain.times, b.header.timestamp, call.now)
    requires faults == Faults(env, call, n, b) && AcceptCheck(env, call, n, b) == Some(e)
    ensures First(faults, e)
  {
    FirstOfNine(faults, e);
  }

  lemma FirstOfNine(faults: seq<(bool, AcceptError)>, e: AcceptError)
    requires |faults| == 9 && e == FirstError(faults) && exists j :: 0 <= j < 9 && faults[j].0
    ensures First(faults, e)
  {
    var k := if faults[0].0 then 0 else if faults[1].0 then 1 else if faults[2].0 then 2 else if faults[3].0 then 3
             else if faults[4].0 then 4 else if faults[5].0 then 5 else if faults[6].0 then 6 else if faults[7].0 then 7 else 8;
    assert FirstAt(faults, e, k);
  }

  function FirstError(faults: seq<(bool, AcceptError)>): AcceptError
    requires |faults| == 9
  {
    if faults[0].0 then faults[0].1 else if faults[1].0 then faults[1].1 else if faults[2].0 then faults[2].1
    else if faults[3].0 then faults[3].1 else if faults[4].0 then faults[4].1 else if faults[5].0 then faults[5].1
    else if faults[6].0 then faults[6].1 else if faults[7].0 then faults[7].1 else faults[8].1
  }

  // ---- Stored blocks over whole runs ----

  predicate Holds(held: map<nat, Hash32>, checkpoints: map<nat, Hash32>) {
    forall h :: h in checkpoints ==> h in held && held[h] == checkpoints[h]
  }

  // No clock of a step was later, and these checkpoints were held all along.
  ghost predicate CalledWith(step: NodeRuns.Step, latest: nat, checkpoints: map<nat, Hash32>) {
    match step
    case AcceptBlock(call, b) => call.now <= latest && Holds(call.checkpoints, checkpoints)
    case SwitchFork(call, b) => call.now <= latest && Holds(call.checkpoints, checkpoints)
    case _ => true
  }

  ghost predicate AllCalledWith(steps: seq<NodeRuns.Step>, latest: nat, checkpoints: map<nat, Hash32>) {
    forall k :: 0 <= k < |steps| ==> CalledWith(steps[k], latest, checkpoints)
  }

  // Every run has a latest clock.
  lemma {:induction false} LatestClock(steps: seq<NodeRuns.Step>) returns (latest: nat)
    ensures AllCalledWith(steps, latest, map[])
  {
    latest := 0;
    if steps != [] {
      var n := |steps| - 1;
      latest := LatestClock(steps[..n]);
      match steps[n] {
        case AcceptBlock(call, b) => latest := Max(latest, call.now);
        case SwitchFork(call, b) => latest := Max(latest, call.now);
        case _ =>
      }
      assert forall k :: 0 <= k < n ==> steps[k] == steps[..n][k];
    }
  }

  ghost predicate Vetted(c: Crypto, height: nat, b: Block, latest: nat, checkpoints: map<nat, Hash32>) {
    && Earned(c, b) && b.header.timestamp <= latest + 7200
    && MatchesCheckpoint(checkpoints, height, HeaderHash(c, b.header))
  }

  // The step commits this block for a job issued before it.
  ghost predicate Commits(env: Env, s: NodeRuns.Sys, step: NodeRuns.Step, b: Block) {
    step.CommitJob? && step.k < |s.issued| && step.found && b == MinedBlock(env, s.issued[step.k].job, step.nonce)
  }

  ghost predicate Brought(env: Env, s: NodeRuns.Sys, step: NodeRuns.Step, height: nat, b: Block, latest: nat, checkpoints: map<nat, Hash32>) {
    Vetted(env.c, height, b, latest, checkpoints) || Commits(env, s, step, b)
  }

  type Blockstore = map<nat, Block>

  predicate Unmoved(before: Blockstore, after: Blockstore, h: nat) {
    h in before && h in after && after[h] == before[h]
  }

  ghost predicate UnmovedOrVetted(c: Crypto, before: Blockstore, after: Blockstore, h: nat, latest: nat, checkpoints: map<nat, Hash32>) {
    Unmoved(before, after, h) || (h in after && Vetted(c, h, after[h], latest, checkpoints))
  }

  ghost predicate UnmovedOrBrought(env: Env, s: NodeRuns.Sys, step: NodeRuns.Step, after: Blockstore, h: nat, latest: nat, checkpoints: map<nat, Hash32>) {
    Unmoved(s.node.chain.stored, after, h) || (h in after && Brought(env, s, step, h, after[h], latest, checkpoints))
  }

  // Whatever m stores was stored by n at the same height.
  ghost predicate StoresLess(n: Chain, m: Chain) {
    forall h :: h in m.stored ==> Unmoved(n.stored, m.stored, h)
  }

  lemma {:induction false} PoppedStoresLess(hash: HeaderHasher, ch: Chain, target: nat)
    ensures StoresLess(ch, PoppedTo(hash, ch, target))
    decreases ch.height
  {
    if ch.height > target {
      PoppedStoresLess(hash, Popped(hash, ch), target);
    }
  }

  // What acceptance stores besides is the block, above n, and that was vetted.
  lemma AcceptStores(env: Env, call: Call, n: Node, b: Block, h: nat)
    requires Inv(env, n) && h in Accept(env, call, n, b).0.chain.stored
    ensures UnmovedOrVetted(env.c, n.chain.stored, Accept(env, call, n, b).0.chain.stored, h, call.now, call.checkpoints)
  {
    AcceptForm(env, call, n, b);
    if Accept(env, call, n, b).1.Ok? {
      AcceptedExactly(env, call, n, b);
      NodeRuns.AcceptedChain(env, call, n, b);
      PushedStores(env.c, n.chain, b, HeaderHash(env.c, b.header), h, call.now, call.checkpoints);
    }
  }

  lemma PushedStores(c: Crypto, ch: Chain, b: Block, id: Hash32, h: nat, latest: nat, checkpoints: map<nat, Hash32>)
    requires h in Pushed(ch, b, id).stored && Vetted(c, ch.height + 1, b, latest, checkpoints)
    ensures UnmovedOrVetted(c, ch.stored, Pushed(ch, b, id).stored, h, latest, checkpoints)
  {}

  lemma ForkStores(env: Env, call: Call, n: Node, b: Block, h: nat)
    requires Inv(env, n) && h in ForkSwitch(env, call, n, b).0.chain.stored
    ensures UnmovedOrVetted(env.c, n.chain.stored, ForkSwitch(env, call, n, b).0.chain.stored, h, call.now, call.checkpoints)
  {
    ForkSwitchByBase(env, call, n, b);
    if ForkBase(env, n, b).Some? {
      ForkBaseShrinks(env, n, b);
      BaseStoresLess(env, n, b);
      AcceptStores(env, call, ForkBase(env, n, b).value, b, h);
    }
  }

  lemma BaseStoresLess(env: Env, n: Node, b: Block)
    requires ForkBase(env, n, b).Some?
    ensures StoresLess(n.chain, ForkBase(env, n, b).value.chain)
  {
    PoppedStoresLess(Hash(env), n.chain, n.chain.index[b.header.prevHash]);
  }

  lemma CommitStores(env: Env, s: NodeRuns.Sys, step: NodeRuns.Step, h: nat)
    requires NodeRuns.SysInv(env, s) && step.CommitJob? && h in NodeRuns.NextNode(env, s, step).chain.stored
    ensures var stored := NodeRuns.NextNode(env, s, step).chain.stored;
      Unmoved(s.node.chain.stored, stored, h) || Commits(env, s, step, stored[h])
  {
    if step.k < |s.issued| {
      var job := s.issued[step.k].job;
      var hash := HeaderHash(env.c, job.header.(nonce := step.nonce));
      CommitForm(env, step.call, s.node, job, step.nonce, hash, step.found);
      CommittedStores(env, step.call, s.node, job, step.nonce, hash);
    }
  }

  lemma CommittedStores(env: Env, call: Call, n: Node, job: Job, nonce: u64, hash: Hash32)
    ensures Committed(env, call, n, job, nonce, hash).chain.stored == n.chain.stored[n.chain.height + 1 := MinedBlock(env, job, nonce)]
  {}

  lemma StepStores(env: Env, s: NodeRuns.Sys, step: NodeRuns.Step, latest: nat, checkpoints: map<nat, Hash32>, h: nat)
    requires NodeRuns.SysInv(env, s) && CalledWith(step, latest, checkpoints) && h in NodeRuns.NextNode(env, s, step).chain.stored
    ensures UnmovedOrBrought(env, s, step, NodeRuns.NextNode(env, s, step).chain.stored, h, latest, checkpoints)
  {
    match step
    case AcceptBlock(call, b) =>
      AcceptStores(env, call, s.node, b, h);
    case RollbackTo(target) => PoppedStoresLess(Hash(env), s.node.chain, target);
    case SwitchFork(call, b) =>
      ForkStores(env, call, s.node, b, h);
    case PrepareJob(call) =>
    case CommitJob(call, k, nonce, found) => CommitStores(env, s, step, h);
    case AddTx(tx) =>
    case SetRegister(register) =>
  }

  ghost predicate BroughtAt(env: Env, s: NodeRuns.Sys, steps: seq<NodeRuns.Step>, k: nat, h: nat, b: Block, latest: nat, checkpoints: map<nat, Hash32>)
    requires k < |steps|
  {
    Brought(env, NodeRuns.Run(env, s, steps[..k]), steps[k], h, b, latest, checkpoints)
  }

  ghost function StoredAfter(env: Env, s: NodeRuns.Sys, steps: seq<NodeRuns.Step>): Blockstore {
    NodeRuns.Run(env, s, steps).node.chain.stored
  }

  lemma LastStores(env: Env, s: NodeRuns.Sys, steps: seq<NodeRuns.Step>, latest: nat, checkpoints: map<nat, Hash32>, h: nat)
    requires NodeRuns.SysInv(env, s) && AllCalledWith(steps, latest, checkpoints) && steps != []
    requires h in StoredAfter(env, s, steps)
    ensures var n, b := |steps| - 1, StoredAfter(env, s, steps)[h];
      Unmoved(StoredAfter(env, s, steps[..n]), StoredAfter(env, s, steps), h) || BroughtAt(env, s, steps, n, h, b, latest, checkpoints)
  {
    var n := |steps| - 1;
    NodeRuns.RunKeeps(env, s, steps[..n]);
    StepStores(env, NodeRuns.Run(env, s, steps[..n]), steps[n], latest, checkpoints, h);
  }

  lemma BroughtLater(env: Env, s: NodeRuns.Sys, steps: seq<NodeRuns.Step>, n: nat, k: nat, h: nat, b: Block, latest: nat, checkpoints: map<nat, Hash32>)
    requires k < n <= |steps| && BroughtAt(env, s, steps[..n], k, h, b, latest, checkpoints)
    ensures BroughtAt(env, s, steps, k, h, b, latest, checkpoints)
  {
    assert steps[..n][..k] == steps[..k];
  }

  // Over every interleaving: a stored block was there from the start, or it was vetted when it
  // came in, or it is one this node mined. Returns the step that brought it.
  lemma {:induction false} StoredWasBrought(env: Env, s: NodeRuns.Sys, steps: seq<NodeRuns.Step>, latest: nat, checkpoints: map<nat, Hash32>, h: nat)
    returns (k: nat)
    requires NodeRuns.SysInv(env, s) && AllCalledWith(steps, latest, checkpoints) && h in StoredAfter(env, s, steps)
    ensures Unmoved(s.node.chain.stored, StoredAfter(env, s, steps), h)
      || (k < |steps| && BroughtAt(env, s, steps, k, h, StoredAfter(env, s, steps)[h], latest, checkpoints))
  {
    k := 0;
    if steps != [] {
      var n := |steps| - 1;
      LastStores(env, s, steps, latest, checkpoints, h);
      if Unmoved(StoredAfter(env, s, steps[..n]), StoredAfter(env, s, steps), h) {
        k := StoredWasBrought(env, s, steps[..n], latest, checkpoints, h);
        if k < n && BroughtAt(env, s, steps[..n], k, h, StoredAfter(env, s, steps)[h], latest, checkpoints) {
          BroughtLater(env, s, steps, n, k, h, StoredAfter(env, s, steps)[h], latest, checkpoints);
        }
      } else {
        k := n;
      }
    }
  }
}
