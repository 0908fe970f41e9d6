// What a search publishes, and what committing it does to the chain.

module SearchOutcomes {
  import opened Blocks
  import opened Bytes
  import opened Chains
  import opened Economies
  import opened NodeExamples
  import opened NodeInvariants
  import opened NodeRuns
  import opened NodeSpecs
  import opened Search
  import opened ShareSync
  import opened Targets
  import opened Transactions
  import opened Wrappers

  function Searched(c: Crypto, header: Header, threads: nat, batch: u64, moves: seq<Search.Move>): Search.State {
    Search.Run(HuntFor(c, header, threads, batch), moves)
  }

  // The published hash is the header's under the published nonce.
  ghost predicate PairFits(c: Crypto, header: Header, s: Search.State) {
    s.nonce < U64_LIMIT && s.best == HeaderHash(c, header.(nonce := s.nonce))
  }

  // ---- The pair that is published ----

  lemma HitHash(c: Crypto, header: Header, threads: nat, batch: u64, n: nat)
    requires n < batch
    ensures HuntFor(c, header, threads, batch).hashAt(n) == HeaderHash(c, header.(nonce := n))
  {
    SpliceIsNonce(header, n);
  }

  // However the workers interleave, a published hash is the header's under some nonce of the
  // batch and meets the share target, and the block target with the flag raised.
  lemma {:induction false} ResultIsBacked(c: Crypto, header: Header, threads: nat, batch: u64, moves: seq<Search.Move>)
    requires threads > 0
    ensures var s := Searched(c, header, threads, batch, moves);
      && s.nonce < U64_LIMIT
      && (s.found ==> Num(s.best) <= Num(header.difficulty))
      && (s.found || s.best != FULL_HASH ==>
            Num(s.best) <= Num(EasedTo(header.difficulty, SHARE_DIFFICULTY_RATIO))
            && exists n: u64 :: n < batch && s.best == HeaderHash(c, header.(nonce := n)))
  {
    var h := HuntFor(c, header, threads, batch);
    HitsNested(c, header, threads, batch);
    ResultShape(h, moves);
    var s := Search.Run(h, moves);
    if s.found || s.best != FULL_HASH {
      var n: nat :| Hit(h, n) && h.hashAt(n) == s.best;
      HitHash(c, header, threads, batch, n);
    }
  }

  // With one worker, or without a block, the published nonce is the one.
  lemma {:induction false} ResultFits(c: Crypto, header: Header, threads: nat, batch: u64, moves: seq<Search.Move>)
    requires threads > 0 && Ended(Searched(c, header, threads, batch, moves))
    requires threads == 1 || !Searched(c, header, threads, batch, moves).found
    ensures var s := Searched(c, header, threads, batch, moves);
      s.found || s.best != FULL_HASH ==> PairFits(c, header, s)
  {
    var h := HuntFor(c, header, threads, batch);
    HitsNested(c, header, threads, batch);
    if threads == 1 {
      SoloIsMatched(h, moves);
    } else {
      UnfoundIsMatched(h, moves);
    }
    var s := Search.Run(h, moves);
    if s.found || s.best != FULL_HASH {
      HitHash(c, header, threads, batch, s.nonce);
    }
  }

  // ---- The commit ----

  lemma NotFoundCommits(env: Env, call: Call, n: Node, job: Job, nonce: u64, hash: Hash32)
    ensures Commit(env, call, n, job, nonce, hash, false).0 == n
  {}

  // So committing the result of one worker is committing a matching pair, as the runs of the
  // node require; when nothing was found the node is left alone.
  lemma {:induction false} SearchFeedsCommit(env: Env, call: Call, n: Node, job: Job, threads: nat, batch: u64, moves: seq<Search.Move>)
    requires threads > 0 && Ended(Searched(env.c, job.header, threads, batch, moves))
    requires threads == 1 || !Searched(env.c, job.header, threads, batch, moves).found
    ensures var s := Searched(env.c, job.header, threads, batch, moves);
      s.nonce < U64_LIMIT
      && Commit(env, call, n, job, s.nonce, s.best, s.found).0 == CommitIssued(env, call, n, job, s.nonce, s.found).0
  {
    var s := Searched(env.c, job.header, threads, batch, moves);
    ResultIsBacked(env.c, job.header, threads, batch, moves);
    ResultFits(env.c, job.header, threads, batch, moves);
    if !s.found {
      NotFoundCommits(env, call, n, job, s.nonce, s.best);
      NotFoundCommits(env, call, n, job, s.nonce, HeaderHash(env.c, job.header.(nonce := s.nonce)));
    }
  }

  lemma FreshCommitChain(env: Env, call: Call, n: Node, job: Job, nonce: u64, hash: Hash32)
    requires JobRight(env, job) && !Stale(env, n, job, hash)
    ensures Commit(env, call, n, job, nonce, hash, true).0.chain == Pushed(n.chain, MinedBlock(env, job, nonce), hash)
  {}

  lemma ForeignHashUnlinks(hash: HeaderHasher, ch: Chain, b: Block, id: Hash32)
    requires |ch.headers| == ch.height + 1 && hash(b.header) != id
    ensures !Linked(hash, Pushed(ch, b, id))
  {
    var m := Pushed(ch, b, id);
    assert m.headers[m.index[id]] == b.header;
  }

  // A commit takes the hash it is given for the id of the block: it keeps the chain structures
  // in agreement exactly when that is the hash of the block's header.
  lemma CommitLinkedExactly(env: Env, call: Call, n: Node, job: Job, nonce: u64, hash: Hash32)
    requires Inv(env, n) && JobRight(env, job) && !Stale(env, n, job, hash)
    ensures Linked(Hash(env), Commit(env, call, n, job, nonce, hash, true).0.chain)
       <==> hash == HeaderHash(env.c, job.header.(nonce := nonce))
  {
    if hash == HeaderHash(env.c, job.header.(nonce := nonce)) {
      CommitKeeps(env, call, n, job, nonce, true);
    } else {
      FreshCommitChain(env, call, n, job, nonce, hash);
      ForeignHashUnlinks(Hash(env), n.chain, MinedBlock(env, job, nonce), hash);
    }
  }

  // The result of a search leaves the node's structures in agreement exactly when it is
  // discarded, is no block, or is a pair that fits; with one worker always.
  lemma {:induction false} SearchLinkedExactly(env: Env, call: Call, n: Node, job: Job, threads: nat, batch: u64, moves: seq<Search.Move>)
    requires threads > 0 && Ended(Searched(env.c, job.header, threads, batch, moves))
    requires Inv(env, n) && JobRight(env, job)
    ensures var s := Searched(env.c, job.header, threads, batch, moves);
      && s.nonce < U64_LIMIT
      && (Linked(Hash(env), Commit(env, call, n, job, s.nonce, s.best, s.found).0.chain) <==>
            Stale(env, n, job, s.best) || !s.found || PairFits(env.c, job.header, s))
      && (threads == 1 ==> Linked(Hash(env), Commit(env, call, n, job, s.nonce, s.best, s.found).0.chain))
  {
    var s := Searched(env.c, job.header, threads, batch, moves);
    ResultIsBacked(env.c, job.header, threads, batch, moves);
    if threads == 1 {
      ResultFits(env.c, job.header, threads, batch, moves);
    }
    if s.found && !Stale(env, n, job, s.best) {
      CommitLinkedExactly(env, call, n, job, s.nonce, s.best);
    }
  }

  // ---- Two blocks at once ----

  // Every prefilter passes.
  ghost predicate Lenient(c: Crypto) { forall s {:trigger c.sha(s)} :: c.sha(s) == ZERO_HASH }

  lemma LenientPrefilter(c: Crypto, bytes: seq<byte>, nonce: u64, t: Target)
    requires Lenient(c)
    ensures PrefilterPasses(c, bytes, nonce, t)
  {
    LexIsNumeric(t[..8], ZERO_HASH[..8]);
    assert ZERO_HASH[..8] == Repeat(0, 8);
    ValZeros(8, 256);
    ValBound(t[..8], 256);
  }

  // A world in which every prefilter passes and a header hashes to its nonce.
  ghost predicate HashesToNonce(c: Crypto, h: Header) { HeaderHash(c, h) == Padded(h.nonce) }

  ghost predicate Numbered(env: Env) {
    && Lenient(env.c) && (forall h :: HashesToNonce(env.c, h))
    && env.who.wallet.Some? && env.c.decodeAddress(env.who.wallet.value).Some?
  }

  function NonceHash(s: seq<byte>): Hash32 {
    if |s| == 120 then Repeat(0, 24) + s[108..116] else ZERO_HASH
  }

  function NumberedEnv(someone: MinerId): Env {
    Env(Crypto((s: seq<byte>) => ZERO_HASH, NonceHash, (t: RawTx) => Padded(t.locktime), (s: seq<byte>) => someone,
               (s: seq<byte>) => Some(someone), (pubkey: seq<byte>, sig: seq<byte>, message: Hash32) => true,
               (address: string) => Some(someone)),
        Identity(someone, Some("payee")), (h: Hash32) => (Some([]), Some([])), (t: Target) => 0, (t: Transaction) => 1, 10)
  }

  lemma NonceHashOf(h: Header)
    ensures NonceHash(HeaderBytes(h)) == Padded(h.nonce)
  {
    assert HeaderBytes(h) == HeaderPrefix(h) + LittleEndian(h.nonce, 8) + LittleEndian(h.epochIndex, 4);
    assert HeaderBytes(h)[108..116] == LittleEndian(h.nonce, 8);
  }

  // There is such a world.
  lemma NumberedWorld(someone: MinerId)
    ensures Numbered(NumberedEnv(someone))
  {
    forall h
      ensures HashesToNonce(NumberedEnv(someone).c, h)
    {
      NonceHashOf(h);
    }
  }

  lemma PaddedBelowGenesis(v: nat)
    ensures Num(Padded(v)) <= Num(GENESIS_TARGET)
  {
    LexIsNum(Padded(v), GENESIS_TARGET);
    assert Padded(v)[0] == 0 && Padded(v)[1..][0] == 0;
    assert GENESIS_TARGET[0] == 0 && GENESIS_TARGET[1..][0] == 255;
  }

  // There nonces 0 and 1 are both blocks.
  lemma NumberedRivals(env: Env, header: Header, threads: nat, batch: u64)
    requires Numbered(env) && threads >= 2 && batch >= 2 && header.difficulty == GENESIS_TARGET
    ensures var h := HuntFor(env.c, header, threads, batch);
      Rivals(h) && h.hashAt(0) == Padded(0) && h.hashAt(1) == Padded(1) != Padded(0)
  {
    var h := HuntFor(env.c, header, threads, batch);
    assert HashesToNonce(env.c, header.(nonce := 0)) && HashesToNonce(env.c, header.(nonce := 1));
    HitHash(env.c, header, threads, batch, 0);
    HitHash(env.c, header, threads, batch, 1);
    PaddedInjective(1, 0);
    PaddedBelowGenesis(0);
    PaddedBelowGenesis(1);
    var prefilter := EasedTo(EasedTo(header.difficulty, SHARE_DIFFICULTY_RATIO), SHARE_PREFILTER_RATIO);
    LenientPrefilter(env.c, HeaderBytes(header), 0, prefilter);
    LenientPrefilter(env.c, HeaderBytes(header), 1, prefilter);
  }

  // A genesis block whose own id is neither of the two.
  ghost predicate StartsAtTwo(g: Block) {
    |g.txs| == 1 && g.txs[0].outputs != [] && g.header.nonce == 2 && g.header.difficulty == GENESIS_TARGET
  }

  lemma FirstJob(env: Env, g: Block, call: Call) returns (job: Job)
    requires Numbered(env) && StartsAtTwo(g)
    ensures Inv(env, GenesisNode(env, g)) && Prepare(env, call, GenesisNode(env, g)).1 == Some(job)
    ensures JobRight(env, job) && job.header.difficulty == GENESIS_TARGET
    ensures var n := Prepare(env, call, GenesisNode(env, g)).0; Inv(env, n) && !Stale(env, n, job, Padded(0))
  {
    var n := GenesisNode(env, g);
    GenesisInv(env, g);
    job := Prepare(env, call, n).1.value;
    PrepareKeeps(env, call, n);
    assert HashesToNonce(env.c, g.header);
    PaddedInjective(2, 0);
  }

  // With two or more workers the very first job of a node can end in a commit that files the
  // block under the hash of another nonce.
  lemma {:induction false} TwoWorkersUnlink(env: Env, g: Block, call: Call, threads: nat, batch: u64) returns (job: Job)
    requires Numbered(env) && StartsAtTwo(g) && threads >= 2 && batch >= 2
    ensures Prepare(env, call, GenesisNode(env, g)).1 == Some(job)
    ensures var s := Searched(env.c, job.header, threads, batch, Overlap() + Rest(threads));
      && Ended(s) && s.found && s.nonce == 1 && s.best == Padded(0)
      && !Linked(Hash(env), Commit(env, call, Prepare(env, call, GenesisNode(env, g)).0, job, s.nonce, s.best, s.found).0.chain)
  {
    job := FirstJob(env, g, call);
    NumberedRivals(env, job.header, threads, batch);
    RivalsMismatch(HuntFor(env.c, job.header, threads, batch));
    assert HashesToNonce(env.c, job.header.(nonce := 1));
    CommitLinkedExactly(env, call, Prepare(env, call, GenesisNode(env, g)).0, job, 1, Padded(0));
  }
}
