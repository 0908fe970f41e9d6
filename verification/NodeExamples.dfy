// Runs that show what acceptance and commits let through.

module NodeExamples {
  import opened BlockValue
  import opened Blocks
  import opened Bytes
  import opened Chains
  import opened Economies
  import opened Ledger
  import opened NodeInvariants
  import opened NodeRuns
  import opened NodeSpecs
  import opened Targets
  import opened Transactions
  import opened Wrappers

  // ---- Worlds in which a header hashes to its time ----

  function Padded(v: nat): Hash32 { Repeat(0, 24) + LittleEndian(v, 8) }

  lemma PaddedInjective(v: u64, w: u64)
    requires v != w
    ensures Padded(v) != Padded(w)
  {
    if Padded(v) == Padded(w) {
      PowValues();
      SplitConcat(Repeat(0, 24), LittleEndian(v, 8), Repeat(0, 24), LittleEndian(w, 8));
      LittleEndianInjective(v, w, 8);
    }
  }

  ghost predicate HashesToTime(c: Crypto, h: Header) { HeaderHash(c, h) == Padded(h.timestamp) }

  ghost predicate Timed(env: Env) {
    && (forall h :: HashesToTime(env.c, h))
    && (forall pubkey, sig, message :: env.c.ecdsa(pubkey, sig, message))
    && env.who.wallet.Some? && env.c.decodeAddress(env.who.wallet.value).Some?
  }

  function TimeHash(s: seq<byte>): Hash32 {
    if |s| == 120 then Repeat(0, 24) + s[68..76] else ZERO_HASH
  }

  lemma TimeHashOf(h: Header)
    ensures TimeHash(HeaderBytes(h)) == Padded(h.timestamp)
  {
    var tail := LittleEndian(h.nonce, 8) + LittleEndian(h.epochIndex, 4);
    var front := LittleEndian(h.version, 4) + (Raw(h.prevHash) + Raw(h.merkleRoot));
    assert HeaderPrefix(h) == front + LittleEndian(h.timestamp, 8) + Raw(h.difficulty);
    assert HeaderBytes(h) == front + LittleEndian(h.timestamp, 8) + (Raw(h.difficulty) + tail);
    assert HeaderBytes(h)[68..76] == LittleEndian(h.timestamp, 8);
  }

  function TimedEnv(someone: MinerId): Env {
    Env(Crypto((s: seq<byte>) => ZERO_HASH, TimeHash, (t: RawTx) => Padded(t.locktime), (s: seq<byte>) => someone,
               (s: seq<byte>) => Some(someone), (pubkey: seq<byte>, sig: seq<byte>, message: Hash32) => true,
               (address: string) => Some(someone)),
        Identity(someone, Some("payee")), (h: Hash32) => (Some([]), Some([])), (t: Target) => 0, (t: Transaction) => 1, 10)
  }

  // There is such a world.
  lemma TimedWorld(someone: MinerId)
    ensures Timed(TimedEnv(someone))
  {
    forall h
      ensures HashesToTime(TimedEnv(someone).c, h)
    {
      TimeHashOf(h);
    }
  }

  ghost predicate StartsAtZero(g: Block) {
    |g.txs| == 1 && g.txs[0].outputs != [] && g.header.timestamp == 0
  }

  function At(now: u64): Call { Call(now, map[], {}, []) }

  // A signed child of genesis that declares the easiest target.
  ghost predicate ChildOf(env: Env, b: Block) {
    && b.header.prevHash == Padded(0) && b.header.difficulty == MAX_TARGET
    && b.header.merkleRoot == BlockRoot(env.c, b.txs) && b.signature.Some? && b.pubkey.Some?
  }

  // What acceptance asks for, one by one.
  lemma AcceptedWhen(env: Env, call: Call, n: Node, b: Block, id: Hash32)
    requires id == HeaderHash(env.c, b.header) && id !in n.chain.index && b.header.prevHash == TipHash(Hash(env), n.chain)
    requires Num(id) <= Num(b.header.difficulty) && call.checkpoints == map[] && SignedBlock(env.c, b, id)
    requires TimeOk(n.chain, b.header.timestamp, call.now) && b.header.merkleRoot == BlockRoot(env.c, b.txs)
    requires Passes(b.txs, n.econ.utxos)
    ensures AcceptCheck(env, call, n, b) == None
  {}

  lemma StartChain(env: Env, g: Block)
    requires Timed(env) && StartsAtZero(g)
    ensures var ch := GenesisNode(env, g).chain;
      ch.index == map[Padded(0) := 0] && TipHash(Hash(env), ch) == Padded(0) && ch.times == [0] && ch.height == 0
  {
    assert HashesToTime(env.c, g.header);
  }

  lemma ChildTimely(ch: Chain, now: u64, time: u64)
    requires ch.times == [0] && ch.height == 0 && time <= now + MAX_FUTURE_SECONDS
    ensures TimeOk(ch, time, now)
  {
    assert Window([0]) == [0];
  }

  lemma EasiestTarget(id: Hash32)
    ensures Num(id) <= Num(MAX_TARGET)
  {
    MaxTargetVal(32);
  }

  lemma ChildAccepted(env: Env, g: Block, b: Block, now: u64)
    requires Timed(env) && StartsAtZero(g) && ChildOf(env, b) && 0 < b.header.timestamp <= now + MAX_FUTURE_SECONDS
    requires Passes(b.txs, GenesisNode(env, g).econ.utxos)
    ensures AcceptCheck(env, At(now), GenesisNode(env, g), b) == None
  {
    var n, id := GenesisNode(env, g), Padded(b.header.timestamp);
    StartChain(env, g);
    assert HashesToTime(env.c, b.header);
    PaddedInjective(b.header.timestamp, 0);
    EasiestTarget(id);
    ChildTimely(n.chain, now, b.header.timestamp);
    AcceptedWhen(env, At(now), n, b, id);
  }

  // ---- The declared target is free ----

  // Any such child is accepted whatever target is computed behind genesis.
  lemma TargetIsFree(env: Env, g: Block, b: Block, now: u64)
    requires Timed(env) && StartsAtZero(g) && g.header.difficulty == GENESIS_TARGET && ChildOf(env, b)
    requires 0 < b.header.timestamp <= now && Passes(b.txs, GenesisNode(env, g).econ.utxos)
    ensures AcceptCheck(env, At(now), GenesisNode(env, g), b) == None
    ensures NextDifficulty(GenesisNode(env, g).chain) == GENESIS_TARGET != b.header.difficulty
  {
    ChildAccepted(env, g, b, now);
    assert GENESIS_TARGET[0] == 0 && MAX_TARGET[0] == 255;
  }

  // ---- A spend without a signature ----

  function Coinbase(out: TxOut): RawTx {
    Tx(1, [TxIn(OutPoint(ZERO_HASH, NO_INDEX), [], NO_INDEX)], [out], 0)
  }

  // Moves the value behind an outpoint, with no signature at all.
  function Unsigned(o: OutPoint, out: TxOut): RawTx {
    Tx(1, [TxIn(o, [], NO_INDEX)], [out], 0)
  }

  lemma UnsignedFee(o: OutPoint, out: TxOut, utxos: Utxos)
    requires o in utxos && utxos[o].value == out.value && o.index != NO_INDEX
    ensures Fee(Unsigned(o, out), utxos) == Ok(0) && !IsCoinbase(Unsigned(o, out))
  {
    var inputs := Unsigned(o, out).inputs;
    OneOutput(out);
    assert inputs[..0] == [] && InputSum([], utxos) == Ok(0);
    assert InputSum(inputs, utxos) == Ok(out.value);
  }

  lemma TwoFees(coinbase: Transaction, tx: Transaction, utxos: Utxos)
    requires IsCoinbase(coinbase) && !IsCoinbase(tx) && Fee(tx, utxos) == Ok(0)
    ensures BlockFees([coinbase, tx], utxos, 2) == Ok(0)
  {
    assert BlockFees([coinbase, tx], utxos, 1) == Ok(0);
  }

  lemma OneSpend(coinbase: Transaction, tx: Transaction)
    requires IsCoinbase(coinbase) && !IsCoinbase(tx) && |tx.inputs| == 1
    ensures NoDoubleSpend([coinbase, tx])
  {
    var txs := [coinbase, tx];
    assert BlockInputs(txs, 0) == BlockInputs(txs, 1) == [];
    assert BlockInputs(txs, 2) == InputOutpoints(tx.inputs);
  }

  // Whoever owns it, any stored output can be moved by a block that passes both validators,
  // although no key signed for it.
  lemma UnsignedSpendPasses(c: Crypto, o: OutPoint, script: seq<byte>, pay: TxOut, utxos: Utxos)
    requires o in utxos && o.index != NO_INDEX && |script| < U32_LIMIT
    requires |pay.script| < U32_LIMIT && pay.value <= BLOCK_REWARD_LYT
    ensures var txs: seq<Transaction> := [Coinbase(pay), Unsigned(o, TxOut(utxos[o].value, script))];
      && Passes(txs, utxos) && !VerifyInput(c, txs[1], 0, utxos[o])
      && o in Spends(txs[1].inputs)
  {
    var out := TxOut(utxos[o].value, script);
    var coinbase: Transaction, tx: Transaction := Coinbase(pay), Unsigned(o, out);
    UnsignedFee(o, out, utxos);
    TwoFees(coinbase, tx, utxos);
    OneSpend(coinbase, tx);
    OneOutput(pay);
    assert tx.inputs[0].outpoint in Spends(tx.inputs);
  }

  // Such a block is accepted.
  lemma UnsignedSpendAccepted(env: Env, g: Block, b: Block, now: u64, o: OutPoint, script: seq<byte>, pay: TxOut)
    requires Timed(env) && StartsAtZero(g) && ChildOf(env, b) && 0 < b.header.timestamp <= now
    requires o in GenesisNode(env, g).econ.utxos && |script| < U32_LIMIT
    requires |pay.script| < U32_LIMIT && pay.value <= BLOCK_REWARD_LYT
    requires b.txs == [Coinbase(pay), Unsigned(o, TxOut(GenesisNode(env, g).econ.utxos[o].value, script))]
    ensures AcceptCheck(env, At(now), GenesisNode(env, g), b) == None
    ensures !VerifyInput(env.c, b.txs[1], 0, GenesisNode(env, g).econ.utxos[o])
  {
    UnsignedSpendPasses(env.c, o, script, pay, GenesisNode(env, g).econ.utxos);
    ChildAccepted(env, g, b, now);
  }

  // ---- A tip ahead of the clock ----

  // The block is taken two hours early; a job prepared a second later is committed.
  function AheadSteps(b: Block): seq<Step> {
    [AcceptBlock(At(0), b), PrepareJob(At(1)), CommitJob(At(1), 0, 0, true)]
  }

  ghost predicate TwoHoursAhead(env: Env, g: Block, b: Block) {
    && Timed(env) && StartsAtZero(g) && ChildOf(env, b) && b.header.timestamp == 7200
    && Passes(b.txs, GenesisNode(env, g).econ.utxos)
  }

  lemma AheadState(env: Env, g: Block, b: Block)
    requires TwoHoursAhead(env, g, b)
    ensures var n := Accept(env, At(0), GenesisNode(env, g), b).0;
      && Inv(env, n) && n.chain == Pushed(GenesisNode(env, g).chain, b, Padded(7200))
  {
    ChildAccepted(env, g, b, 0);
    GenesisInv(env, g);
    AcceptKeeps(env, At(0), GenesisNode(env, g), b);
    assert HashesToTime(env.c, b.header);
    AcceptedChain(env, At(0), GenesisNode(env, g), b);
  }

  lemma PushedAhead(from: Chain, ch: Chain, b: Block)
    requires from.times == [0] && from.index == map[Padded(0) := 0] && b.header.timestamp == 7200
    requires ch == Pushed(from, b, Padded(7200))
    ensures ch.times == [0, 7200] && Padded(1) !in ch.index
  {
    PaddedInjective(1, 0);
    PaddedInjective(1, 7200);
  }

  lemma AheadChain(env: Env, g: Block, b: Block, n: Node)
    requires TwoHoursAhead(env, g, b) && n.chain == Pushed(GenesisNode(env, g).chain, b, Padded(7200))
    ensures n.chain.times == [0, 7200] && Padded(1) !in n.chain.index
  {
    StartChain(env, g);
    PushedAhead(GenesisNode(env, g).chain, n.chain, b);
  }

  lemma JobIsHandedOut(env: Env, call: Call, n: Node) returns (job: Job)
    requires Timed(env)
    ensures Prepare(env, call, n).1 == Some(job) && job.header.timestamp == call.now
  {
    job := Prepare(env, call, n).1.value;
  }

  lemma FreshCommit(env: Env, call: Call, n: Node, job: Job, nonce: u64, hash: Hash32)
    requires JobRight(env, job) && !Stale(env, n, job, hash)
    ensures Commit(env, call, n, job, nonce, hash, true).0 == Committed(env, call, n, job, nonce, hash)
  {}

  lemma CommitAtOnce(env: Env, call: Call, n: Node, job: Job, nonce: u64, hash: Hash32)
    requires Inv(env, n) && Prepare(env, call, n).1 == Some(job) && hash !in n.chain.index
    ensures Commit(env, call, Prepare(env, call, n).0, job, nonce, hash, true).0.chain.times == n.chain.times + [job.header.timestamp]
  {
    PrepareKeeps(env, call, n);
    var m := Prepare(env, call, n).0;
    FreshCommit(env, call, m, job, nonce, hash);
    CommittedTimes(env, call, m, job, nonce, hash);
  }

  lemma RunOfThree(env: Env, s: Sys, a: Step, b: Step, c: Step)
    ensures Run(env, s, [a, b, c]) == Next(env, Next(env, Next(env, s, a), b), c)
  {
    assert [a, b, c][..2] == [a, b] && [a, b][..1] == [a] && [a][..0] == [];
    assert Run(env, s, [a]) == Next(env, Run(env, s, []), a);
    assert Run(env, s, [a, b]) == Next(env, Run(env, s, [a]), b);
  }

  lemma AcceptNext(env: Env, call: Call, n: Node, b: Block)
    ensures Next(env, Sys(n, []), AcceptBlock(call, b)) == Sys(Accept(env, call, n, b).0, [])
  {}

  lemma PrepareNext(env: Env, call: Call, n: Node, job: Job)
    requires Prepare(env, call, n).1 == Some(job)
    ensures Next(env, Sys(n, []), PrepareJob(call)) == Sys(Prepare(env, call, n).0, [Issue(job, n)])
  {
    assert [] + [Issue(job, n)] == [Issue(job, n)];
  }

  lemma CommitNext(env: Env, call: Call, n: Node, i: Issue)
    ensures Next(env, Sys(n, [i]), CommitJob(call, 0, 0, true)).node == CommitIssued(env, call, n, i.job, 0, true).0
  {}

  lemma AheadRun(env: Env, from: Node, b: Block, n: Node, job: Job)
    requires n == Accept(env, At(0), from, b).0 && Prepare(env, At(1), n).1 == Some(job)
    ensures Run(env, Sys(from, []), AheadSteps(b)).node == CommitIssued(env, At(1), Prepare(env, At(1), n).0, job, 0, true).0
  {
    RunOfThree(env, Sys(from, []), AcceptBlock(At(0), b), PrepareJob(At(1)), CommitJob(At(1), 0, 0, true));
    AcceptNext(env, At(0), from, b);
    PrepareNext(env, At(1), n, job);
    CommitNext(env, At(1), Prepare(env, At(1), n).0, Issue(job, n));
  }

  lemma AheadCommit(env: Env, n: Node, job: Job)
    requires Timed(env) && Inv(env, n) && n.chain.times == [0, 7200] && Padded(1) !in n.chain.index
    requires Prepare(env, At(1), n).1 == Some(job) && job.header.timestamp == 1
    ensures CommitIssued(env, At(1), Prepare(env, At(1), n).0, job, 0, true).0.chain.times == [0, 7200, 1]
  {
    assert HashesToTime(env.c, job.header.(nonce := 0));
    CommitAtOnce(env, At(1), n, job, 0, Padded(1));
  }

  lemma FallingTimes(times: seq<u64>)
    requires times == [0, 7200, 1]
    ensures !Rising(times)
  {
    assert times[1] > times[2];
  }

  // So the times of a reachable chain need not rise once a job is committed.
  lemma TimesNeedNotRise(env: Env, g: Block, b: Block)
    requires TwoHoursAhead(env, g, b)
    ensures Run(env, Sys(GenesisNode(env, g), []), AheadSteps(b)).node.chain.times == [0, 7200, 1]
    ensures !Rising(Run(env, Sys(GenesisNode(env, g), []), AheadSteps(b)).node.chain.times)
  {
    var n := Accept(env, At(0), GenesisNode(env, g), b).0;
    AheadState(env, g, b);
    AheadChain(env, g, b, n);
    var job := JobIsHandedOut(env, At(1), n);
    AheadCommit(env, n, job);
    AheadRun(env, GenesisNode(env, g), b, n, job);
    FallingTimes(Run(env, Sys(GenesisNode(env, g), []), AheadSteps(b)).node.chain.times);
  }

  lemma CoinbasePasses(pay: TxOut, utxos: Utxos)
    requires |pay.script| < U32_LIMIT && pay.value <= BLOCK_REWARD_LYT
    ensures Passes([Coinbase(pay)], utxos)
  {
    var coinbase: Transaction := Coinbase(pay);
    OneOutput(pay);
    assert BlockFees([coinbase], utxos, 1) == Ok(0);
    assert IsCoinbase(coinbase);
    assert BlockInputs([coinbase], 0) == [] && BlockInputs([coinbase], 1) == [];
  }

  function GenesisOf(pay: TxOut): Block
    requires |pay.script| < U32_LIMIT
  {
    Block(Header(1, ZERO_HASH, ZERO_HASH, 0, GENESIS_TARGET, 0, 1), [Coinbase(pay)], None, None)
  }

  function AheadBlock(c: Crypto, pay: TxOut): Block
    requires |pay.script| < U32_LIMIT
  {
    var txs: seq<Transaction> := [Coinbase(pay)];
    Block(Header(1, Padded(0), BlockRoot(c, txs), 7200, MAX_TARGET, 0, 1), txs, Some([]), Some([]))
  }

  // The input: a world, a genesis block and the block two hours ahead.
  lemma AheadExists(someone: MinerId)
    ensures var env, pay := TimedEnv(someone), TxOut(BLOCK_REWARD_LYT, []);
      TwoHoursAhead(env, GenesisOf(pay), AheadBlock(env.c, pay))
  {
    var env, pay := TimedEnv(someone), TxOut(BLOCK_REWARD_LYT, []);
    TimedWorld(someone);
    CoinbasePasses(pay, GenesisNode(env, GenesisOf(pay)).econ.utxos);
  }
}
