// The share a miner reports and who accepts it.

module ShareReports {
  import opened Blocks
  import opened Bytes
  import Difficulty
  import opened Packets
  import opened Search
  import opened SearchOutcomes
  import opened ShareIntake
  import opened SharePools
  import opened ShareSync
  import opened Targets
  import opened Transactions
  import opened Wrappers

  // ---- The share a miner reports ----

  // It carries the found nonce in its header as well.
  function Reported(header: Header, s: Search.State, miner: MinerId, time: u64): Share
    requires s.nonce < U64_LIMIT
  {
    Share(Packet(miner, header.(nonce := s.nonce), s.nonce, s.best), time)
  }

  // Whoever receives it, a peer or the miner's own node, accepts it exactly when the pair
  // fits, the receiver's ban, bond, tip, epoch, clock, prefilter and target admit it and the
  // pool takes it. The miner's prefilter read the header with its original nonce, so the
  // receiver's may fail; the target test is met for sure only where the tip's target is the
  // header's, and the pair fits for sure only as `ResultFits` says.
  lemma {:induction false} ReportedShareAcceptedExactly(c: Crypto, header: Header, threads: nat, batch: u64, moves: seq<Search.Move>,
                                                        miner: MinerId, time: u64, g: Limits, d: Desk, p: Pool, order: seq<MinerId>)
    requires threads > 0
    ensures var s := Searched(c, header, threads, batch, moves);
      && s.nonce < U64_LIMIT
      && (Taken(c, g, d, p, Reported(header, s, miner, time), order).2 <==>
            && PairFits(c, header, s)
            && DeskTakes(c, d, Reported(header, s, miner, time)) && PoolTakes(c, g, p, Reported(header, s, miner, time), order))
      && (s.best != FULL_HASH && d.difficulty == header.difficulty ==> Num(s.best) <= Num(EasedTo(d.difficulty, SHARE_DIFFICULTY_RATIO)))
  {
    ResultIsBacked(c, header, threads, batch, moves);
    var s := Searched(c, header, threads, batch, moves);
    AcceptedExactly(c, g, d, p, Reported(header, s, miner, time), order);
  }

  // The same for a peer that gets the share out of an archive: it checks epoch, prefilter,
  // hash and target, by its own values.
  lemma {:induction false} ReportedPacketValidExactly(c: Crypto, header: Header, threads: nat, batch: u64, moves: seq<Search.Move>,
                                                      miner: MinerId, difficulty: Target, epoch: u32)
    requires threads > 0
    ensures var s := Searched(c, header, threads, batch, moves);
      && s.nonce < U64_LIMIT
      && (ValidPacket(c, difficulty, epoch, Packet(miner, header.(nonce := s.nonce), s.nonce, s.best)) <==>
            && PairFits(c, header, s) && header.epochIndex == epoch
            && PrefilterPasses(c, HeaderBytes(header.(nonce := s.nonce)), s.nonce, PeerPrefilter(difficulty))
            && Num(s.best) <= Num(EasedTo(difficulty, SHARE_DIFFICULTY_RATIO)))
  {
    ResultIsBacked(c, header, threads, batch, moves);
  }

  // ---- A share lost at a retarget ----

  // Every header hashes to `hit` as well.
  ghost predicate Flat(c: Crypto, hit: Hash32) {
    Lenient(c) && forall s {:trigger c.argon(s)} :: c.argon(s) == hit
  }

  lemma FlatExists(hit: Hash32, someone: MinerId)
    ensures Flat(Crypto((s: seq<byte>) => ZERO_HASH, (s: seq<byte>) => hit, (t: RawTx) => ZERO_HASH, (s: seq<byte>) => someone,
                        (s: seq<byte>) => Some(someone), (k: seq<byte>, s: seq<byte>, m: Hash32) => true,
                        (a: string) => Some(someone)), hit)
  {}

  // One worker looks, hashes, stores and stops.
  function OneTry(): seq<Search.Move> {
    [Search.Move(0, false, false), Search.Move(0, false, false), Search.Move(0, false, false), Search.Move(0, false, false)]
  }

  lemma {:induction false} TryHashes(h: Hunt, hit: Hash32)
    requires h.threads == h.batch == 1 && h.prefiltered(0) && h.hashAt(0) == hit
    requires !MeetsBlock(h, hit) && MeetsShare(h, hit) && LexLess(hit, FULL_HASH)
    ensures Search.Run(h, OneTry()[..2]) == State(hit, 0, false, false, Some(0), [Storing(0)])
  {
    var moves := OneTry();
    assert Search.Run(h, []) == Start(h) == State(FULL_HASH, 0, false, false, None, [Looking(0)]);
    RunSnoc(h, [], moves[0]);
    RunSnoc(h, moves[..1], moves[1]);
    assert [] + [moves[0]] == moves[..1] && moves[..1] + [moves[1]] == moves[..2];
  }

  lemma {:induction false} OneTryFinds(h: Hunt, hit: Hash32)
    requires h.threads == h.batch == 1 && h.prefiltered(0) && h.hashAt(0) == hit
    requires !MeetsBlock(h, hit) && MeetsShare(h, hit) && LexLess(hit, FULL_HASH)
    ensures Search.Run(h, OneTry()) == State(hit, 0, false, false, None, [Stopped(1)])
  {
    var moves := OneTry();
    TryHashes(h, hit);
    RunSnoc(h, moves[..2], moves[2]);
    RunSnoc(h, moves[..3], moves[3]);
    assert moves[..2] + [moves[2]] == moves[..3] && moves[..3] + [moves[3]] == moves;
  }

  // A job whose target a retarget loosened from 1000 to 1250, and a hash between 256 times the
  // one and 256 times the other.
  ghost predicate Loosened(header: Header, d: Desk, hit: Hash32) {
    && Num(d.difficulty) == 1000 && Num(header.difficulty) == 1250 && Num(hit) == 281_600
    && header.prevHash == d.tip && header.epochIndex == d.epoch
  }

  lemma LoosenedNumbers(header: Header, d: Desk, hit: Hash32)
    requires Loosened(header, d, hit)
    ensures Num(EasedTo(d.difficulty, 256)) == 256_000 && Num(EasedTo(header.difficulty, 256)) == 320_000
    ensures LexLess(hit, FULL_HASH)
    ensures Difficulty.Step(1000, 8925) == 1250
  {
    PowAdd(256, 4, 28);
    PowValues();
    PowPositive(256, 28);
    MulMono(U32_LIMIT, Pow(256, 32), 1) by {
      MulMono(1, Pow(256, 28), U32_LIMIT);
    }
    MaxTargetVal(32);
    LexIsNum(hit, FULL_HASH);
    GenesisIsLarge();
  }

  lemma GenesisIsLarge()
    ensures Num(GENESIS_TARGET) >= 1250
  {
    Difficulty.GenesisNum();
    PowAdd(256, 4, 27);
    PowValues();
    PowPositive(256, 27);
    MulMono(1, Pow(256, 27), U32_LIMIT);
  }

  // The search over one nonce publishes it.
  lemma {:induction false} LoosenedFound(c: Crypto, header: Header, d: Desk, hit: Hash32)
    requires Flat(c, hit) && Loosened(header, d, hit)
    ensures var s := Searched(c, header, 1, 1, OneTry()); Ended(s) && !s.found && s.nonce == 0 && s.best == hit
  {
    LoosenedNumbers(header, d, hit);
    LenientPrefilter(c, HeaderBytes(header), 0, EasedTo(EasedTo(header.difficulty, SHARE_DIFFICULTY_RATIO), SHARE_PREFILTER_RATIO));
    OneTryFinds(HuntFor(c, header, 1, 1), hit);
  }

  // By the job's target the share passes, by the tip's it does not.
  lemma {:induction false} LoosenedSplits(c: Crypto, header: Header, d: Desk, hit: Hash32, share: Share)
    requires Flat(c, hit) && Loosened(header, d, hit) && Bonded(d, share.packet.miner) && d.banned == map[]
    requires share.packet.header == header.(nonce := share.packet.nonce) && share.packet.hash == hit
    requires SHARE_WINDOW <= share.timestamp < U64_LIMIT - SHARE_WINDOW
    ensures DeskTakes(c, d.(difficulty := header.difficulty), share) && !DeskTakes(c, d, share)
  {
    LoosenedNumbers(header, d, hit);
    LenientPrefilter(c, HeaderBytes(share.packet.header), share.packet.nonce, PeerPrefilter(header.difficulty));
  }

  // The miner finds the share and its own job would admit it, but a node at the parent of the
  // retarget, the miner's own included, refuses it by the tip's target.
  lemma {:induction false} LoosenedShareRefused(c: Crypto, header: Header, d: Desk, hit: Hash32, miner: MinerId, time: u64,
                                                g: Limits, p: Pool, order: seq<MinerId>)
    requires Flat(c, hit) && Loosened(header, d, hit) && Bonded(d, miner) && d.banned == map[]
    requires SHARE_WINDOW <= time < U64_LIMIT - SHARE_WINDOW
    ensures var s := Searched(c, header, 1, 1, OneTry());
      && Ended(s) && s.nonce == 0 && s.best == hit
      && DeskTakes(c, d.(difficulty := header.difficulty), Reported(header, s, miner, time))
      && !Taken(c, g, d, p, Reported(header, s, miner, time), order).2
  {
    LoosenedFound(c, header, d, hit);
    var share := Reported(header, Searched(c, header, 1, 1, OneTry()), miner, time);
    LoosenedSplits(c, header, d, hit, share);
    AcceptedExactly(c, g, d, p, share, order);
  }
}
