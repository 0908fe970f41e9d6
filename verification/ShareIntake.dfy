// How a node takes in a live share: its own or one a peer reports.

module ShareIntake {
  import opened Blocks
  import opened Bytes
  import L = Loyalty
  import opened Poci
  import opened Records
  import opened SharePools
  import opened ShareSync
  import opened Targets
  import opened Transactions
  import opened Wrappers

  const SHARE_WINDOW: nat := 7200
  const PEER_BAN_SECONDS: nat := 300

  datatype ShareFault =
    | StalePrevHash | WrongEpochIndex | TooOld | TooFarInFuture | PrefilterRejected | HashMismatch | TargetNotMet

  // Unsigned subtraction and addition as a release build computes them.
  function Minus(a: u64, b: nat): u64 { (a - b) % U64_LIMIT }

  function Plus(a: u64, b: nat): u64 { (a + b) % U64_LIMIT }

  // Who receives the share: the tip's target and hash, the epoch, and what is known of miners.
  datatype Desk = Desk(
    difficulty: Target,
    tip: Hash32,
    epoch: u32,
    bonds: map<MinerId, Bond>,
    banned: map<MinerId, u64>,
    miners: map<MinerId, Miner>,
    loyalty: map<MinerId, L.State>)

  // The first failing check; `now` is the caller's clock.
  function FaultOf(c: Crypto, d: Desk, s: Share, now: u64): Option<ShareFault> {
    var p, shareTarget := s.packet, EasedTo(d.difficulty, SHARE_DIFFICULTY_RATIO);
    if p.header.prevHash != d.tip then Some(StalePrevHash)
    else if p.header.epochIndex != d.epoch then Some(WrongEpochIndex)
    else if s.timestamp < Minus(now, SHARE_WINDOW) then Some(TooOld)
    else if s.timestamp > Plus(now, SHARE_WINDOW) then Some(TooFarInFuture)
    else if !PrefilterPasses(c, HeaderBytes(p.header), p.nonce, PeerPrefilter(d.difficulty)) then Some(PrefilterRejected)
    else if HeaderHash(c, p.header.(nonce := p.nonce)) != p.hash then Some(HashMismatch)
    else if Num(p.hash) > Num(shareTarget) then Some(TargetNotMet)
    else None
  }

  predicate Temporal(f: Option<ShareFault>) {
    f in {Some(StalePrevHash), Some(WrongEpochIndex), Some(TooOld), Some(TooFarInFuture)}
  }

  predicate Banned(d: Desk, s: Share) {
    s.packet.miner in d.miners && s.packet.miner in d.banned && s.timestamp < d.banned[s.packet.miner]
  }

  predicate Bonded(d: Desk, id: MinerId) {
    id in d.bonds && d.bonds[id].amount >= MINIMUM_BOND_LYT
  }

  // Crediting a recorded share.
  function Credited(d: Desk, id: MinerId): Desk {
    var miner := if id in d.miners then d.miners[id] else Miner(0, None);
    var before := if id in d.loyalty then d.loyalty[id] else L.NEW;
    d.(miners := d.miners[id := miner.(shares := Plus(miner.shares, 1))],
       loyalty := d.loyalty[id := L.Updated(before, d.epoch, true)])
  }

  // A miner whose share the pool refuses is banned by its ratio of invalid shares.
  function Reproved(d: Desk, id: MinerId, now: u64, invalid: int, total: int): Desk {
    if id !in d.miners then d
    else if 10 * invalid > 3 * total then d.(banned := d.banned[id := Plus(now, 3 * PEER_BAN_SECONDS)])
    else if 10 * invalid > total then d.(banned := d.banned[id := Plus(now, PEER_BAN_SECONDS)])
    else d
  }

  // The share's own time serves as the clock.
  function Taken(c: Crypto, g: Limits, d: Desk, p: Pool, s: Share, order: seq<MinerId>): (Desk, Pool, bool) {
    var fault, id := FaultOf(c, d, s, s.timestamp), s.packet.miner;
    if Banned(d, s) || !Bonded(d, id) || Temporal(fault) then (d, p, false)
    else
      var (q, r) := Added(c.sha, g, p, s, fault == None, order);
      match r
      case Ok(true) => (Credited(d, id), q, true)
      case Ok(false) => (d, q, false)
      case Err(_) => (Reproved(d, id, s.timestamp, Get(q.invalid, id), Get(q.total, id)), q, false)
  }

  // ---- The node's side of it as an object ----

  class Intake {
    const c: Crypto
    const pool: SharePool
    var desk: Desk

    constructor (c: Crypto, pool: SharePool, desk: Desk)
      ensures this.c == c && this.pool == pool && this.desk == desk
    {
      this.c, this.pool, this.desk := c, pool, desk;
    }

    method AddShare(s: Share, order: seq<MinerId>) returns (accepted: bool)
      requires pool.sha == c.sha
      modifies this, pool
      ensures (desk, pool.Abs(), accepted) == Taken(c, pool.limits, old(desk), old(pool.Abs()), s, order)
    {
      var id := s.packet.miner;
      if id in desk.miners && id in desk.banned && s.timestamp < desk.banned[id] {
        return false;
      }
      if !Bonded(desk, id) {
        return false;
      }
      var fault := Validate(s, s.timestamp);
      if Temporal(fault) {
        return false;
      }
      var r := pool.AddShare(s, fault == None, order);
      if r == Ok(true) {
        desk := Credited(desk, id);
      } else if r.Err? {
        desk := Reproved(desk, id, s.timestamp, Get(pool.invalidShares, id), Get(pool.totalShares, id));
      }
      return r == Ok(true);
    }

    method Validate(s: Share, now: u64) returns (fault: Option<ShareFault>)
      ensures fault == FaultOf(c, desk, s, now)
    {
      var p := s.packet;
      if p.header.prevHash != desk.tip {
        return Some(StalePrevHash);
      }
      if p.header.epochIndex != desk.epoch {
        return Some(WrongEpochIndex);
      }
      if s.timestamp < Minus(now, SHARE_WINDOW) {
        return Some(TooOld);
      }
      if s.timestamp > Plus(now, SHARE_WINDOW) {
        return Some(TooFarInFuture);
      }
      if !PrefilterPasses(c, HeaderBytes(p.header), p.nonce, PeerPrefilter(desk.difficulty)) {
        return Some(PrefilterRejected);
      }
      if HeaderHash(c, p.header.(nonce := p.nonce)) != p.hash {
        return Some(HashMismatch);
      }
      var met := IsMetBy(EasedTo(desk.difficulty, SHARE_DIFFICULTY_RATIO), p.hash);
      if !met {
        return Some(TargetNotMet);
      }
      return None;
    }
  }

  // ---- The clock tests ----

  // A share's time is compared with itself, so the window rejects only times within two hours
  // of the ends of the word.
  lemma ClockTestsExactly(t: u64)
    ensures t >= Minus(t, SHARE_WINDOW) <==> t >= SHARE_WINDOW
    ensures t <= Plus(t, SHARE_WINDOW) <==> t < U64_LIMIT - SHARE_WINDOW
  {
    if t < SHARE_WINDOW {
      DivUnique(t - SHARE_WINDOW, U64_LIMIT, -1, t - SHARE_WINDOW + U64_LIMIT);
    }
    if t >= U64_LIMIT - SHARE_WINDOW {
      DivUnique(t + SHARE_WINDOW, U64_LIMIT, 1, t + SHARE_WINDOW - U64_LIMIT);
    }
  }

  // ---- Which shares are accepted ----

  // The pool takes a valid share of its epoch that it does not hold, from a miner below the
  // limit once room is made.
  predicate PoolTakes(c: Crypto, g: Limits, p: Pool, s: Share, order: seq<MinerId>) {
    && s.packet.header.epochIndex == p.epoch && ShareHash(c.sha, s) !in p.hashes
    && Get(MakeRoom(c.sha, g, p.(total := Bump(p.total, s.packet.miner)), order).count, s.packet.miner) < MAX_SHARES_PER_MINER_PER_EPOCH
  }

  // The checks a share still has to pass at the desk when its hash is its header's.
  predicate DeskTakes(c: Crypto, d: Desk, s: Share) {
    && !Banned(d, s) && Bonded(d, s.packet.miner)
    && s.packet.header.prevHash == d.tip && s.packet.header.epochIndex == d.epoch
    && SHARE_WINDOW <= s.timestamp < U64_LIMIT - SHARE_WINDOW
    && PrefilterPasses(c, HeaderBytes(s.packet.header), s.packet.nonce, PeerPrefilter(d.difficulty))
    && Num(s.packet.hash) <= Num(EasedTo(d.difficulty, SHARE_DIFFICULTY_RATIO))
  }

  ghost predicate Matching(c: Crypto, s: Share) {
    HeaderHash(c, s.packet.header.(nonce := s.packet.nonce)) == s.packet.hash
  }

  lemma FaultExactly(c: Crypto, d: Desk, s: Share)
    ensures !Banned(d, s) && Bonded(d, s.packet.miner) && FaultOf(c, d, s, s.timestamp) == None <==>
      Matching(c, s) && DeskTakes(c, d, s)
  {
    ClockTestsExactly(s.timestamp);
  }

  lemma PoolTakesExactly(c: Crypto, g: Limits, p: Pool, s: Share, order: seq<MinerId>)
    ensures Added(c.sha, g, p, s, true, order).1 == Ok(true) <==> PoolTakes(c, g, p, s, order)
    ensures Added(c.sha, g, p, s, false, order).1 != Ok(true)
  {}

  // A share is accepted exactly when its hash is its header's, the receiver's ban, bond, tip,
  // epoch, clock, prefilter and target admit it and its pool takes it.
  lemma AcceptedExactly(c: Crypto, g: Limits, d: Desk, p: Pool, s: Share, order: seq<MinerId>)
    ensures Taken(c, g, d, p, s, order).2 <==> Matching(c, s) && DeskTakes(c, d, s) && PoolTakes(c, g, p, s, order)
  {
    FaultExactly(c, d, s);
    PoolTakesExactly(c, g, p, s, order);
  }

  // ---- What every share keeps ----

  function CreditOf(d: Desk, id: MinerId): nat {
    if id in d.miners then d.miners[id].shares else 0
  }

  // Every share held was credited to its miner. The converse fails: an evicted share keeps its
  // credit, so the credit may pass the limit on shares held.
  ghost predicate HeldIsCredited(d: Desk, p: Pool) {
    forall id :: HeldAt(d, p, id)
  }

  ghost predicate HeldAt(d: Desk, p: Pool, id: MinerId) { Get(p.count, id) <= CreditOf(d, id) }

  lemma MadeRoomCounts(sha: seq<byte> -> Hash32, g: Limits, p: Pool, order: seq<MinerId>, id: MinerId)
    ensures Get(MakeRoom(sha, g, p, order).count, id) <= Get(p.count, id)
  {}

  lemma AddedCounts(c: Crypto, g: Limits, p: Pool, s: Share, valid: bool, order: seq<MinerId>, id: MinerId)
    ensures var (q, r) := Added(c.sha, g, p, s, valid, order);
      Get(q.count, id) <= Get(p.count, id) + if r == Ok(true) && id == s.packet.miner then 1 else 0
  {
    var counted := p.(total := Bump(p.total, s.packet.miner));
    MadeRoomCounts(c.sha, g, counted, order, id);
    MadeRoomCounts(c.sha, g, counted, order, s.packet.miner);
  }

  lemma CreditedCounts(d: Desk, who: MinerId, id: MinerId)
    requires CreditOf(d, who) < U64_LIMIT - 1
    ensures CreditOf(Credited(d, who), id) == CreditOf(d, id) + if id == who then 1 else 0
  {}

  lemma ReprovedCredit(d: Desk, who: MinerId, now: u64, invalid: int, total: int, id: MinerId)
    ensures CreditOf(Reproved(d, who, now, invalid, total), id) == CreditOf(d, id)
  {}

  lemma TakenKeepsCredit(c: Crypto, g: Limits, d: Desk, p: Pool, s: Share, order: seq<MinerId>)
    requires HeldIsCredited(d, p) && CreditOf(d, s.packet.miner) < U64_LIMIT - 1
    ensures HeldIsCredited(Taken(c, g, d, p, s, order).0, Taken(c, g, d, p, s, order).1)
  {
    var fault := FaultOf(c, d, s, s.timestamp);
    var q := Added(c.sha, g, p, s, fault == None, order).0;
    forall id
      ensures HeldAt(Taken(c, g, d, p, s, order).0, Taken(c, g, d, p, s, order).1, id)
    {
      assert HeldAt(d, p, id);
      AddedCounts(c, g, p, s, fault == None, order, id);
      CreditedCounts(d, s.packet.miner, id);
      ReprovedCredit(d, s.packet.miner, s.timestamp, Get(q.invalid, s.packet.miner), Get(q.total, s.packet.miner), id);
    }
  }

  // Taking a share keeps the pool invariant.
  lemma TakenKeepsPool(c: Crypto, g: Limits, d: Desk, p: Pool, s: Share, order: seq<MinerId>)
    requires Inv(c.sha, g, p) && Enumerates(order, p.shares.Keys)
    ensures Inv(c.sha, g, Taken(c, g, d, p, s, order).1)
  {
    AddedKeeps(c.sha, g, p, s, FaultOf(c, d, s, s.timestamp) == None, order);
  }

  // ---- Bans ----

  // A share of a known miner before the end of its ban is turned away and leaves no trace.
  lemma BannedIsTurnedAway(c: Crypto, g: Limits, d: Desk, p: Pool, s: Share, order: seq<MinerId>)
    requires s.packet.miner in d.miners && s.packet.miner in d.banned && s.timestamp < d.banned[s.packet.miner]
    ensures Taken(c, g, d, p, s, order) == (d, p, false)
  {}

  // When the pool has no room for a share of a known miner, the miner is banned exactly when
  // more than a tenth of its shares were invalid: five minutes from the share's time, and
  // fifteen when more than three tenths were. Nothing else at the desk changes.
  lemma BannedExactly(c: Crypto, g: Limits, d: Desk, p: Pool, s: Share, order: seq<MinerId>)
    requires s.packet.miner in d.miners && !Banned(d, s) && Bonded(d, s.packet.miner)
    requires FaultOf(c, d, s, s.timestamp) == None && Added(c.sha, g, p, s, true, order).1 == Err(TooManyShares)
    ensures var (after, q, taken) := Taken(c, g, d, p, s, order);
      var invalid, total, id := Get(p.invalid, s.packet.miner), Get(p.total, s.packet.miner) + 1, s.packet.miner;
      && !taken && after == d.(banned := after.banned) && after.banned - {id} == d.banned - {id}
      && (10 * invalid <= total ==> after == d)
      && (total < 10 * invalid <= 3 * total ==> id in after.banned && after.banned[id] == Plus(s.timestamp, 300))
      && (10 * invalid > 3 * total ==> id in after.banned && after.banned[id] == Plus(s.timestamp, 900))
  {
    RefusedCounts(c.sha, g, p, s, order);
  }

  lemma RefusedCounts(sha: seq<byte> -> Hash32, g: Limits, p: Pool, s: Share, order: seq<MinerId>)
    requires Added(sha, g, p, s, true, order).1 == Err(TooManyShares)
    ensures var q := Added(sha, g, p, s, true, order).0;
      Get(q.invalid, s.packet.miner) == Get(p.invalid, s.packet.miner) && Get(q.total, s.packet.miner) == Get(p.total, s.packet.miner) + 1
  {
    CountsExactly(sha, g, p, s, true, order, s.packet.miner);
  }

  // The miner has taken part in the epoch.
  predicate TookPart(before: map<MinerId, L.State>, after: map<MinerId, L.State>, epoch: nat, id: MinerId) {
    id in after && after[id] == L.Updated(if id in before then before[id] else L.NEW, epoch, true)
  }

  // A share that is taken is credited once, and its miner has taken part in the epoch; nobody
  // else's records change.
  lemma TakenIsCredited(c: Crypto, g: Limits, d: Desk, p: Pool, s: Share, order: seq<MinerId>, id: MinerId)
    requires Taken(c, g, d, p, s, order).2 && CreditOf(d, s.packet.miner) < U64_LIMIT - 1
    ensures var after, who := Taken(c, g, d, p, s, order).0, s.packet.miner;
      && CreditOf(after, id) == CreditOf(d, id) + (if id == who then 1 else 0)
      && after.bonds == d.bonds && after.banned == d.banned
      && after.loyalty - {who} == d.loyalty - {who} && TookPart(d.loyalty, after.loyalty, d.epoch, who)
  {
    CreditedCounts(d, s.packet.miner, id);
  }

  // The epoch end's update of a miner whose share was credited in that epoch changes nothing.
  lemma CreditSettlesLoyalty(d: Desk, id: MinerId, participated: bool)
    ensures var after := Credited(d, id).loyalty[id];
      L.Updated(after, d.epoch, participated) == after
  {}
}
