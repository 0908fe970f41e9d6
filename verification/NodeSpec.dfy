// The node as a value: what every operation does to chain, outputs, mempool and memo.

module NodeSpecs {
  import opened Blocks
  import opened Bytes
  import opened Chains
  import opened Economies
  import opened Emission
  import opened Ledger
  import L = Loyalty
  import opened Mempools
  import opened Records
  import opened Targets
  import opened Transactions
  import opened Wrappers

  // What stays fixed while a node runs. The weight of a target stands for the floating-point
  // difficulty, which is only compared.
  datatype Env = Env(
    c: Crypto,
    who: Identity,
    seal: Hash32 -> (Option<seq<byte>>, Option<seq<byte>>),
    weight: Target -> int,
    size: Transaction -> nat,
    poolLimit: nat)

  // What an operation reads from outside: the clock, the checkpoints, and for an epoch end
  // the miners slashed and the order in which the remaining ones are visited.
  datatype Call = Call(now: u64, checkpoints: map<nat, Hash32>, slashed: set<MinerId>, order: seq<MinerId>)

  datatype Node = Node(
    chain: Chain,
    econ: Economy,
    pool: TxPool,
    memo: Memo,
    generation: nat,
    forks: map<Hash32, seq<Block>>)

  function Hash(env: Env): HeaderHasher { h => HeaderHash(env.c, h) }

  const GENESIS_SUPPLY_LYT: nat := 500_000_000

  // The node right after the genesis block was created.
  function GenesisNode(env: Env, b: Block): Node
    requires |b.txs| == 1 && b.txs[0].outputs != []
  {
    Node(Chain(0, [b.header], map[HeaderHash(env.c, b.header) := 0], [b.header.timestamp], map[0 := b]),
         Economy(1, map[OutPoint(env.c.txid(b.txs[0]), 0) := b.txs[0].outputs[0]], map[], map[], map[], GENESIS_SUPPLY_LYT),
         TxPool([], map[]), None, 0, map[])
  }

  // What messages and shares change between blocks: registrations, share counts, bonds and
  // loyalty.
  datatype Register = Register(miners: map<MinerId, Miner>, bonds: map<MinerId, Bond>, loyalty: map<MinerId, L.State>)

  function WithRegister(n: Node, r: Register): Node {
    n.(econ := n.econ.(miners := r.miners, bonds := r.bonds, loyalty := r.loyalty))
  }

  // ---- Appending a block ----

  function WithBlock(env: Env, n: Node, b: Block, id: Hash32): Node {
    var height := n.chain.height + 1;
    n.(chain := Pushed(n.chain, b, id),
       econ := n.econ.(utxos := Apply(env.c, n.econ.utxos, b.txs, |b.txs|),
                       bonds := BondsAfter(n.econ.bonds, b.txs, height, |b.txs|)),
       memo := None,
       generation := n.generation + 1)
  }

  ghost function AfterEpoch(env: Env, call: Call, n: Node): Node {
    if n.chain.height % EPOCH_BLOCKS == 0
    then n.(econ := EpochClosed(env.c, env.who, n.econ, n.chain.height, call.slashed, call.order))
    else n
  }

  // ---- accept_block ----

  datatype AcceptError =
    | AlreadyKnown | PrevHashMismatch | BadPow | BadSignature | BadTimestamp | BadMerkle
    | BadCoinbase(cause: CoinbaseError) | BadDoubleSpend

  predicate SignedBlock(c: Crypto, b: Block, id: Hash32) {
    b.signature.Some? && b.pubkey.Some? && c.ecdsa(b.pubkey.value, b.signature.value, id)
  }

  ghost function AcceptCheck(env: Env, call: Call, n: Node, b: Block): Option<AcceptError> {
    var id, height := HeaderHash(env.c, b.header), n.chain.height + 1;
    if id in n.chain.index then Some(AlreadyKnown)
    else if b.header.prevHash != TipHash(Hash(env), n.chain) then Some(PrevHashMismatch)
    else if Num(id) > Num(b.header.difficulty) then Some(BadPow)
    else if height in call.checkpoints && id != call.checkpoints[height] then Some(BadPow)
    else if !SignedBlock(env.c, b, id) then Some(BadSignature)
    else if !TimeOk(n.chain, b.header.timestamp, call.now) then Some(BadTimestamp)
    else if b.header.merkleRoot != BlockRoot(env.c, b.txs) then Some(BadMerkle)
    else if CheckCoinbase(b.txs, n.econ.utxos).Some? then Some(BadCoinbase(CheckCoinbase(b.txs, n.econ.utxos).value))
    else if !NoDoubleSpend(b.txs) then Some(BadDoubleSpend)
    else None
  }

  ghost function Accepted(env: Env, call: Call, n: Node, b: Block): Node {
    AfterEpoch(env, call, WithBlock(env, n, b, HeaderHash(env.c, b.header)))
      .(pool := AfterAccept(env.c, n.pool, b.txs, n.chain.height + 1))
  }

  ghost function Accept(env: Env, call: Call, n: Node, b: Block): (Node, Result<(), AcceptError>) {
    var error := AcceptCheck(env, call, n, b);
    if error.Some? then (n, Err(error.value)) else (Accepted(env, call, n, b), Ok(()))
  }

  // ---- rollback_to ----

  // The outputs left when the tip is undone; a block missing from storage is skipped.
  function UndoTip(c: Crypto, ch: Chain, utxos: Utxos): Utxos {
    if ch.height in ch.stored then Undo(c, utxos, ch.stored[ch.height].txs, |ch.stored[ch.height].txs|) else utxos
  }

  function UndoTo(env: Env, ch: Chain, utxos: Utxos, target: nat): Utxos
    decreases ch.height
  {
    if ch.height <= target then utxos
    else UndoTo(env, Popped(Hash(env), ch), UndoTip(env.c, ch, utxos), target)
  }

  function RollBack(env: Env, n: Node, target: nat): Node {
    if target >= n.chain.height then n else RolledBack(env, n, target)
  }

  function RolledBack(env: Env, n: Node, target: nat): Node {
    n.(chain := PoppedTo(Hash(env), n.chain, target),
       econ := n.econ.(utxos := UndoTo(env, n.chain, n.econ.utxos, target)),
       memo := None,
       generation := n.generation + 1)
  }

  // ---- try_fork_switch and try_multi_block_reorg ----

  datatype ForkError = TipMissing | ReorgFailed(cause: AcceptError)

  function Stashed(n: Node, b: Block): Node {
    var prev := b.header.prevHash;
    n.(forks := n.forks[prev := (if prev in n.forks then n.forks[prev] else []) + [b]])
  }

  // Replacing the tip without telling the miner.
  function TipDropped(env: Env, n: Node): Node
    requires n.chain.height > 0
  {
    n.(chain := Popped(Hash(env), n.chain),
       econ := n.econ.(utxos := UndoTip(env.c, n.chain, n.econ.utxos)),
       memo := None)
  }

  ghost function AcceptOn(env: Env, call: Call, n: Node, b: Block): (Node, Result<bool, ForkError>) {
    var (m, r) := Accept(env, call, n, b);
    (m, if r.Ok? then Ok(true) else Err(ReorgFailed(r.error)))
  }

  predicate Heavier(env: Env, b: Block, ours: Block) {
    env.weight(b.header.difficulty) > env.weight(ours.header.difficulty)
  }

  // The node a deeper reorganisation tries the new block on, if it gets that far.
  function MultiBase(env: Env, n: Node, b: Block): Option<Node> {
    var prev := b.header.prevHash;
    if HeaderHash(env.c, b.header) in n.chain.index || prev !in n.chain.index then None
    else
      var fork := n.chain.index[prev];
      if fork >= n.chain.height || fork + 1 !in n.chain.stored || !Heavier(env, b, n.chain.stored[fork + 1]) then None
      else Some(RollBack(env, n, fork))
  }

  // The node a fork switch tries the new block on, if it gets that far.
  function ForkBase(env: Env, n: Node, b: Block): Option<Node> {
    var prev, height := b.header.prevHash, n.chain.height;
    if HeaderHash(env.c, b.header) in n.chain.index || prev !in n.chain.index then None
    else
      var fork := n.chain.index[prev];
      if fork + 1 == height then
        if height in n.chain.stored && Heavier(env, b, n.chain.stored[height]) then Some(TipDropped(env, n)) else None
      else if fork < height && fork + 1 in n.chain.stored && Heavier(env, b, n.chain.stored[fork + 1]) then Some(RollBack(env, n, fork))
      else None
  }

  ghost function MultiReorg(env: Env, call: Call, n: Node, b: Block): (Node, Result<bool, ForkError>) {
    var prev := b.header.prevHash;
    if HeaderHash(env.c, b.header) in n.chain.index then (n, Ok(false))
    else if prev !in n.chain.index then (Stashed(n, b), Ok(false))
    else
      var fork := n.chain.index[prev];
      if fork >= n.chain.height || fork + 1 !in n.chain.stored || !Heavier(env, b, n.chain.stored[fork + 1]) then (n, Ok(false))
      else AcceptOn(env, call, RollBack(env, n, fork), b)
  }

  ghost function ForkSwitch(env: Env, call: Call, n: Node, b: Block): (Node, Result<bool, ForkError>) {
    var prev, height := b.header.prevHash, n.chain.height;
    if HeaderHash(env.c, b.header) in n.chain.index then (n, Ok(false))
    else if prev !in n.chain.index then (Stashed(n, b), Ok(false))
    else
      var fork := n.chain.index[prev];
      if fork == height then (n, Ok(false))
      else if fork + 1 != height then MultiReorg(env, call, n, b)
      else if height !in n.chain.stored then (n, Err(TipMissing))
      else if !Heavier(env, b, n.chain.stored[height]) then (n, Ok(false))
      else AcceptOn(env, call, TipDropped(env, n), b)
  }

  // ---- prepare_mining_job ----

  datatype Job = Job(
    prevHash: Hash32,
    height: nat,
    epoch: u32,
    difficulty: Target,
    header: Header,
    txs: seq<Transaction>,
    generation: nat)

  function CoinbaseTx(output: TxOut, height: nat): Transaction
    requires |output.script| < U32_LIMIT
  {
    CoinbaseFor(output, height)
  }

  // The transactions of a template: a coinbase paying `output`, then what was chosen.
  function TemplateTxs(env: Env, n: Node, output: TxOut): seq<Transaction>
    requires |output.script| < U32_LIMIT
  {
    [CoinbaseTx(output, n.chain.height + 1)] + Template(env.size, n.pool.txs, n.econ.utxos)
  }

  function JobFor(env: Env, call: Call, n: Node, output: TxOut): Job
    requires |output.script| < U32_LIMIT
  {
    var txs, prev := TemplateTxs(env, n, output), TipHash(Hash(env), n.chain);
    var difficulty := NextDifficultyMemo(n.chain, n.memo).0;
    Job(prev, n.chain.height + 1, n.econ.epoch, difficulty,
        Header(1, prev, BlockRoot(env.c, txs), call.now, difficulty, 0, n.econ.epoch), txs, n.generation)
  }

  function RewardOutput(env: Env, n: Node): (out: Option<TxOut>)
    ensures out.Some? ==> |out.value.script| == 25
  {
    OutputTo(env.c, env.who.wallet, TemplateReward(Template(env.size, n.pool.txs, n.econ.utxos), n.econ.utxos))
  }

  // Without a usable wallet address there is no job and nothing changes.
  function Prepare(env: Env, call: Call, n: Node): (Node, Option<Job>) {
    var out := RewardOutput(env, n);
    if out.None? then (n, None)
    else (n.(memo := NextDifficultyMemo(n.chain, n.memo).1), Some(JobFor(env, call, n, out.value)))
  }

  // ---- commit_mining_result ----

  datatype CommitError = DuplicateTransaction | DoubleSpend

  predicate Stale(env: Env, n: Node, job: Job, hash: Hash32) {
    n.generation != job.generation || job.prevHash != TipHash(Hash(env), n.chain)
    || job.height != n.chain.height + 1 || hash in n.chain.index
  }

  ghost predicate DistinctIds(c: Crypto, txs: seq<Transaction>) {
    forall i, j :: 0 <= i < j < |txs| && !IsCoinbase(txs[i]) && !IsCoinbase(txs[j]) ==> c.txid(txs[i]) != c.txid(txs[j])
  }

  function MinedBlock(env: Env, job: Job, nonce: u64): Block {
    var header := job.header.(nonce := nonce);
    var sealed := env.seal(HeaderHash(env.c, header));
    Block(header, job.txs, sealed.0, sealed.1)
  }

  // The block is in and its reward counted; the epoch may still end.
  function MinedOnto(env: Env, n: Node, job: Job, nonce: u64, hash: Hash32): Node {
    var m := WithBlock(env, n, MinedBlock(env, job, nonce), hash);
    m.(econ := m.econ.(emitted := Min(m.econ.emitted + BLOCK_REWARD_LYT, U64_LIMIT - 1)),
       pool := AfterCommit(env.c, n.pool, job.txs, m.chain.height))
  }

  ghost function Committed(env: Env, call: Call, n: Node, job: Job, nonce: u64, hash: Hash32): Node {
    AfterEpoch(env, call, MinedOnto(env, n, job, nonce, hash))
  }

  ghost function Commit(env: Env, call: Call, n: Node, job: Job, nonce: u64, hash: Hash32, found: bool): (Node, Result<bool, CommitError>) {
    if Stale(env, n, job, hash) then (n, Ok(false))
    else if !found then (n, Ok(true))
    else if !DistinctIds(env.c, job.txs) then (n, Err(DuplicateTransaction))
    else if !NoDoubleSpend(job.txs) then (n, Err(DoubleSpend))
    else (Committed(env, call, n, job, nonce, hash), Ok(true))
  }

  // ---- add_transaction_to_mempool ----

  ghost function AddTransaction(env: Env, n: Node, tx: Transaction): Node {
    n.(pool := AddedTx(env.c, n.pool, tx, n.econ.utxos, n.chain.height, env.poolLimit))
  }
}
