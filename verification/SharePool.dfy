// The bounded share pool: eviction, per-miner limits and the archive of completed epochs.

module SharePools {
  import opened Blocks
  import opened Bytes
  import opened Merkle
  import opened Packets
  import opened Poci
  import opened StableSort
  import opened Wrappers

  const EPOCH_ARCHIVE_DEPTH: nat := 10

  datatype Share = Share(packet: Packet, timestamp: u64)

  function ShareHash(sha: Hasher, s: Share): Hash32 {
    sha(Raw(s.packet.miner) + HeaderBytes(s.packet.header) + LittleEndian(s.packet.nonce, 8) + Raw(s.packet.hash))
  }

  datatype ShareError = WrongEpoch | TooManyShares

  // The memory limit and the size in memory of one share.
  datatype Limits = Limits(memory: nat, shareSize: nat)

  datatype Pool = Pool(
    shares: map<MinerId, seq<Share>>,
    count: map<MinerId, int>,
    hashes: set<Hash32>,
    invalid: map<MinerId, nat>,
    total: map<MinerId, nat>,
    epoch: nat,
    used: int,
    archive: map<nat, seq<Packet>>,
    roots: map<nat, Hash32>)

  const EMPTY_POOL: Pool := Pool(map[], map[], {}, map[], map[], 1, 0, map[], map[])

  function Get(m: map<MinerId, int>, id: MinerId): int { if id in m then m[id] else 0 }

  function Bump(m: map<MinerId, nat>, id: MinerId): map<MinerId, nat> {
    m[id := (if id in m then m[id] else 0) + 1]
  }

  function Held(shares: map<MinerId, seq<Share>>, id: MinerId): seq<Share> {
    if id in shares then shares[id] else []
  }

  // ---- Eviction ----

  // The first miner, among the first n visited, with more shares than all visited before.
  function Victim(shares: map<MinerId, seq<Share>>, order: seq<MinerId>, n: nat): Option<MinerId>
    requires n <= |order|
  {
    if n == 0 then None
    else
      var best := Victim(shares, order, n - 1);
      var most := if best.Some? then |Held(shares, best.value)| else 0;
      if |Held(shares, order[n - 1])| > most then Some(order[n - 1]) else best
  }

  function Evicted(sha: Hasher, g: Limits, p: Pool, victim: Option<MinerId>): Pool {
    if victim.None? || Held(p.shares, victim.value) == [] then p
    else
      var id := victim.value;
      p.(hashes := p.hashes - {ShareHash(sha, p.shares[id][0])},
         used := p.used - g.shareSize,
         shares := p.shares[id := p.shares[id][1..]],
         count := p.count[id := Get(p.count, id) - 1])
  }

  // ---- Adding ----

  function MakeRoom(sha: Hasher, g: Limits, p: Pool, order: seq<MinerId>): Pool {
    if p.used + g.shareSize > g.memory then Evicted(sha, g, p, Victim(p.shares, order, |order|)) else p
  }

  function Pushed(sha: Hasher, g: Limits, p: Pool, s: Share): Pool {
    var id := s.packet.miner;
    p.(shares := p.shares[id := Held(p.shares, id) + [s]],
       hashes := p.hashes + {ShareHash(sha, s)},
       used := p.used + g.shareSize,
       count := p.count[id := Get(p.count, id) + 1])
  }

  function Added(sha: Hasher, g: Limits, p: Pool, s: Share, valid: bool, order: seq<MinerId>): (Pool, Result<bool, ShareError>) {
    var id := s.packet.miner;
    if s.packet.header.epochIndex != p.epoch then (p, Err(WrongEpoch))
    else if ShareHash(sha, s) in p.hashes then (p, Ok(false))
    else
      var counted := p.(total := Bump(p.total, id));
      if !valid then (counted.(invalid := Bump(p.invalid, id)), Ok(false))
      else
        var room := MakeRoom(sha, g, counted, order);
        if Get(room.count, id) >= MAX_SHARES_PER_MINER_PER_EPOCH
        then (room, Err(TooManyShares))
        else (Pushed(sha, g, room, s), Ok(true))
  }

  // ---- Closing an epoch ----

  function PacketsOf(shares: seq<Share>): (ps: seq<Packet>)
    ensures |ps| == |shares| && forall i :: 0 <= i < |shares| ==> ps[i] == shares[i].packet
  {
    seq(|shares|, i requires 0 <= i < |shares| => shares[i].packet)
  }

  function Collected(shares: map<MinerId, seq<Share>>, order: seq<MinerId>): seq<Packet> {
    if order == [] then []
    else Collected(shares, order[..|order| - 1]) + PacketsOf(Held(shares, order[|order| - 1]))
  }

  function Kept<V>(m: map<nat, V>, least: int): map<nat, V> {
    map e | e in m && e >= least :: m[e]
  }

  function ClosedWith(sha: Hasher, p: Pool, packets: seq<Packet>): Pool {
    EMPTY_POOL.(epoch := p.epoch + 1,
                archive := Kept(p.archive[p.epoch := packets], p.epoch - EPOCH_ARCHIVE_DEPTH),
                roots := Kept(p.roots[p.epoch := SharesRoot(sha, packets)], p.epoch - EPOCH_ARCHIVE_DEPTH))
  }

  function Closed(sha: Hasher, p: Pool, order: seq<MinerId>): Pool {
    ClosedWith(sha, p, Canonical(Collected(p.shares, order)))
  }

  // ---- Taking in archived shares of a peer ----

  function Present(shares: map<nat, seq<Packet>>, epoch: nat): seq<Packet> {
    if epoch in shares then shares[epoch] else []
  }

  function MergedInto(sha: Hasher, p: Pool, valid: Validator, epoch: nat, batch: seq<Packet>): Pool {
    var merged := Merged(valid, Present(p.archive, epoch), batch);
    p.(archive := p.archive[epoch := merged], roots := p.roots[epoch := SharesRoot(sha, merged)])
  }

  // ---- The pool object ----

  class SharePool {
    const sha: Hasher
    const limits: Limits
    var shares: map<MinerId, seq<Share>>
    var shareCount: map<MinerId, int>
    var shareHashes: set<Hash32>
    var invalidShares: map<MinerId, nat>
    var totalShares: map<MinerId, nat>
    var currentEpoch: nat
    var memoryUsed: int
    var archive: map<nat, seq<Packet>>
    var epochRoots: map<nat, Hash32>

    ghost function Abs(): Pool
      reads this
    {
      Pool(shares, shareCount, shareHashes, invalidShares, totalShares, currentEpoch, memoryUsed, archive, epochRoots)
    }

    constructor (sha: Hasher, limits: Limits)
      ensures this.sha == sha && this.limits == limits && Abs() == EMPTY_POOL
    {
      this.sha, this.limits := sha, limits;
      shares, shareCount, shareHashes, invalidShares, totalShares := map[], map[], {}, map[], map[];
      currentEpoch, memoryUsed, archive, epochRoots := 1, 0, map[], map[];
    }

    method AddShare(s: Share, isValid: bool, order: seq<MinerId>) returns (r: Result<bool, ShareError>)
      modifies this
      ensures Abs() == Added(sha, limits, old(Abs()), s, isValid, order).0
      ensures r == Added(sha, limits, old(Abs()), s, isValid, order).1
    {
      var id := s.packet.miner;
      var hash := ShareHash(sha, s);
      if s.packet.header.epochIndex != currentEpoch {
        return Err(WrongEpoch);
      }
      if hash in shareHashes {
        return Ok(false);
      }
      totalShares := Bump(totalShares, id);
      if !isValid {
        invalidShares := Bump(invalidShares, id);
        return Ok(false);
      }
      if memoryUsed + limits.shareSize > limits.memory {
        EvictOldest(order);
      }
      if Get(shareCount, id) >= MAX_SHARES_PER_MINER_PER_EPOCH {
        return Err(TooManyShares);
      }
      Push(s);
      return Ok(true);
    }

    method Push(s: Share)
      modifies this
      ensures Abs() == Pushed(sha, limits, old(Abs()), s)
    {
      var id := s.packet.miner;
      shares := shares[id := Held(shares, id) + [s]];
      shareHashes := shareHashes + {ShareHash(sha, s)};
      memoryUsed := memoryUsed + limits.shareSize;
      shareCount := shareCount[id := Get(shareCount, id) + 1];
    }

    method EvictOldest(order: seq<MinerId>)
      modifies this
      ensures Abs() == Evicted(sha, limits, old(Abs()), Victim(old(shares), order, |order|))
    {
      var target: Option<MinerId> := None;
      var maxShares := 0;
      for i := 0 to |order|
        invariant target == Victim(shares, order, i)
        invariant maxShares == if target.Some? then |Held(shares, target.value)| else 0
        invariant Abs() == old(Abs())
      {
        if |Held(shares, order[i])| > maxShares {
          maxShares := |Held(shares, order[i])|;
          target := Some(order[i]);
        }
      }
      if target.Some? && Held(shares, target.value) != [] {
        RemoveFirst(target.value);
      }
    }

    method RemoveFirst(id: MinerId)
      requires Held(shares, id) != []
      modifies this
      ensures Abs() == Evicted(sha, limits, old(Abs()), Some(id))
    {
      shareHashes := shareHashes - {ShareHash(sha, shares[id][0])};
      memoryUsed := memoryUsed - limits.shareSize;
      shares := shares[id := shares[id][1..]];
      shareCount := shareCount[id := Get(shareCount, id) - 1];
    }

    method NewEpoch(order: seq<MinerId>)
      modifies this
      ensures Abs() == Closed(sha, old(Abs()), order)
    {
      var packets := CanonicalPackets(order);
      CloseWith(packets);
    }

    method CloseWith(packets: seq<Packet>)
      modifies this
      ensures Abs() == ClosedWith(sha, old(Abs()), packets)
    {
      ArchiveShares(packets);
      ClearEpoch();
    }

    method CanonicalPackets(order: seq<MinerId>) returns (packets: seq<Packet>)
      ensures packets == Canonical(Collected(shares, order))
    {
      packets := CollectPackets(order);
      packets := Sort(Before, packets);
    }

    method ArchiveShares(packets: seq<Packet>)
      modifies this`archive, this`epochRoots
      ensures archive == Kept(old(archive)[currentEpoch := packets], currentEpoch - EPOCH_ARCHIVE_DEPTH)
      ensures epochRoots == Kept(old(epochRoots)[currentEpoch := SharesRoot(sha, packets)], currentEpoch - EPOCH_ARCHIVE_DEPTH)
    {
      var root := ComputeSharesRoot(sha, packets);
      archive := Kept(archive[currentEpoch := packets], currentEpoch - EPOCH_ARCHIVE_DEPTH);
      epochRoots := Kept(epochRoots[currentEpoch := root], currentEpoch - EPOCH_ARCHIVE_DEPTH);
    }

    method ClearEpoch()
      modifies this
      ensures Abs() == EMPTY_POOL.(epoch := old(currentEpoch) + 1, archive := old(archive), roots := old(epochRoots))
    {
      shares, shareCount, shareHashes, invalidShares, totalShares := map[], map[], {}, map[], map[];
      memoryUsed := 0;
      currentEpoch := currentEpoch + 1;
    }

    method CollectPackets(order: seq<MinerId>) returns (packets: seq<Packet>)
      ensures packets == Collected(shares, order)
    {
      packets := [];
      for i := 0 to |order|
        invariant packets == Collected(shares, order[..i])
      {
        assert order[..i + 1][..i] == order[..i];
        var own := Held(shares, order[i]);
        ghost var before := packets;
        for j := 0 to |own|
          invariant packets == before + PacketsOf(own)[..j]
        {
          packets := packets + [own[j].packet];
        }
        assert PacketsOf(own)[..|own|] == PacketsOf(own);
      }
      assert order[..|order|] == order;
    }
  }

  // ---- The pool invariant ----

  function HeldHashes(sha: Hasher, shares: map<MinerId, seq<Share>>): set<Hash32> {
    set id, i | id in shares && 0 <= i < |shares[id]| :: ShareHash(sha, shares[id][i])
  }

  ghost predicate HashesApart(sha: Hasher, shares: map<MinerId, seq<Share>>) {
    forall a, i, b, j :: ApartAt(sha, shares, a, i, b, j)
  }

  ghost predicate ApartAt(sha: Hasher, shares: map<MinerId, seq<Share>>, a: MinerId, i: int, b: MinerId, j: int) {
    a in shares && b in shares && 0 <= i < |shares[a]| && 0 <= j < |shares[b]| ==>
      ShareHash(sha, shares[a][i]) == ShareHash(sha, shares[b][j]) ==> a == b && i == j
  }

  ghost predicate CountsRight(count: map<MinerId, int>, shares: map<MinerId, seq<Share>>) {
    forall id :: CountRight(count, shares, id)
  }

  ghost predicate CountRight(count: map<MinerId, int>, shares: map<MinerId, seq<Share>>, id: MinerId) {
    Get(count, id) == |Held(shares, id)| <= MAX_SHARES_PER_MINER_PER_EPOCH
  }

  ghost predicate Belongs(s: Share, id: MinerId, epoch: nat) {
    s.packet.miner == id && s.packet.header.epochIndex == epoch
  }

  ghost predicate AtHome(shares: map<MinerId, seq<Share>>, epoch: nat) {
    forall id, i :: id in shares && 0 <= i < |shares[id]| ==> Belongs(shares[id][i], id, epoch)
  }

  ghost predicate ArchiveRight(sha: Hasher, archive: map<nat, seq<Packet>>, roots: map<nat, Hash32>) {
    && archive.Keys == roots.Keys
    && forall e :: e in archive ==> KeyOrdered(archive[e]) && roots[e] == SharesRoot(sha, archive[e])
  }

  ghost predicate Inv(sha: Hasher, g: Limits, p: Pool) {
    && CountsRight(p.count, p.shares) && AtHome(p.shares, p.epoch)
    && p.hashes == HeldHashes(sha, p.shares) && HashesApart(sha, p.shares)
    && p.used == g.shareSize * |p.hashes| <= Max(g.memory, g.shareSize)
    && (forall id :: Get(p.invalid, id) <= Get(p.total, id))
    && ArchiveRight(sha, p.archive, p.roots)
  }

  lemma {:induction false} VictimIsLargest(shares: map<MinerId, seq<Share>>, order: seq<MinerId>, n: nat)
    requires n <= |order|
    ensures var v := Victim(shares, order, n);
      && (v.Some? ==> Held(shares, v.value) != [] && v.value in order[..n])
      && forall i :: 0 <= i < n ==> |Held(shares, order[i])| <= if v.Some? then |Held(shares, v.value)| else 0
    decreases n
  {
    if n > 0 {
      VictimIsLargest(shares, order, n - 1);
      assert order[..n] == order[..n - 1] + [order[n - 1]];
    }
  }

  // And it comes before every other miner visited that holds as many.
  lemma {:induction false} VictimIsFirst(shares: map<MinerId, seq<Share>>, order: seq<MinerId>, n: nat) returns (k: nat)
    requires n <= |order| && Victim(shares, order, n).Some?
    ensures k < n && order[k] == Victim(shares, order, n).value
    ensures forall i :: 0 <= i < k ==> |Held(shares, order[i])| < |Held(shares, order[k])|
    decreases n
  {
    var v := Victim(shares, order, n - 1);
    var most := if v.Some? then |Held(shares, v.value)| else 0;
    VictimIsLargest(shares, order, n - 1);
    if |Held(shares, order[n - 1])| > most {
      k := n - 1;
    } else {
      k := VictimIsFirst(shares, order, n - 1);
    }
  }

  lemma RoomHeld(sha: Hasher, g: Limits, p: Pool, order: seq<MinerId>, id: MinerId)
    ensures var v := if p.used + g.shareSize > g.memory then Victim(p.shares, order, |order|) else None;
      Held(MakeRoom(sha, g, p, order).shares, id) ==
        if v == Some(id) && Held(p.shares, id) != [] then Held(p.shares, id)[1..] else Held(p.shares, id)
  {}

  lemma PushedAt(sha: Hasher, g: Limits, p: Pool, s: Share, id: MinerId)
    ensures Held(Pushed(sha, g, p, s).shares, id) == if id == s.packet.miner then Held(p.shares, id) + [s] else Held(p.shares, id)
  {}

  lemma TakenIsPushed(sha: Hasher, g: Limits, p: Pool, s: Share, order: seq<MinerId>)
    requires Added(sha, g, p, s, true, order).1 == Ok(true)
    ensures Added(sha, g, p, s, true, order).0 == Pushed(sha, g, MakeRoom(sha, g, p.(total := Bump(p.total, s.packet.miner)), order), s)
  {}

  // An addition that is taken gives the miner the share as its newest. Room is made only when
  // the share would not fit, and then one miner loses its oldest share; nobody else's change.
  lemma TakenExactly(sha: Hasher, g: Limits, p: Pool, s: Share, order: seq<MinerId>, id: MinerId)
    requires Added(sha, g, p, s, true, order).1 == Ok(true)
    ensures var v := if p.used + g.shareSize > g.memory then Victim(p.shares, order, |order|) else None;
      var before := if v == Some(id) && Held(p.shares, id) != [] then Held(p.shares, id)[1..] else Held(p.shares, id);
      Held(Added(sha, g, p, s, true, order).0.shares, id) == if id == s.packet.miner then before + [s] else before
  {
    var counted := p.(total := Bump(p.total, s.packet.miner));
    TakenIsPushed(sha, g, p, s, order);
    RoomHeld(sha, g, counted, order, id);
    PushedAt(sha, g, MakeRoom(sha, g, counted, order), s, id);
  }

  // What an addition counts: every new share of the epoch, among the invalid ones when it is
  // invalid, and nothing else.
  lemma CountsExactly(sha: Hasher, g: Limits, p: Pool, s: Share, valid: bool, order: seq<MinerId>, id: MinerId)
    ensures var q := Added(sha, g, p, s, valid, order).0;
      var isNew := s.packet.miner == id && s.packet.header.epochIndex == p.epoch && ShareHash(sha, s) !in p.hashes;
      && Get(q.total, id) == Get(p.total, id) + (if isNew then 1 else 0)
      && Get(q.invalid, id) == Get(p.invalid, id) + (if isNew && !valid then 1 else 0)
  {
    var counted := p.(total := Bump(p.total, s.packet.miner));
    RoomKeepsCounts(sha, g, counted, order);
    PushKeepsCounts(sha, g, MakeRoom(sha, g, counted, order), s);
  }

  lemma RoomKeepsCounts(sha: Hasher, g: Limits, p: Pool, order: seq<MinerId>)
    ensures MakeRoom(sha, g, p, order).total == p.total && MakeRoom(sha, g, p, order).invalid == p.invalid
  {}

  lemma PushKeepsCounts(sha: Hasher, g: Limits, p: Pool, s: Share)
    ensures Pushed(sha, g, p, s).total == p.total && Pushed(sha, g, p, s).invalid == p.invalid
  {}

  // An addition is refused for the epoch, ignored when the share is held or invalid, and
  // otherwise taken unless the miner holds five thousand shares once room is made.
  lemma AnswersExactly(sha: Hasher, g: Limits, p: Pool, s: Share, valid: bool, order: seq<MinerId>)
    requires Inv(sha, g, p) && Enumerates(order, p.shares.Keys)
    ensures var (q, r) := Added(sha, g, p, s, valid, order);
      && (r == Err(WrongEpoch) <==> s.packet.header.epochIndex != p.epoch)
      && (r == Ok(false) <==> s.packet.header.epochIndex == p.epoch && (ShareHash(sha, s) in HeldHashes(sha, p.shares) || !valid))
      && (r == Err(TooManyShares) ==> |Held(q.shares, s.packet.miner)| == 5000)
      && (r == Ok(true) ==> |Held(q.shares, s.packet.miner)| <= 5000)
  {
    AddedKeeps(sha, g, p, s, valid, order);
    var q := Added(sha, g, p, s, valid, order).0;
    assert CountRight(q.count, q.shares, s.packet.miner);
  }

  // Only an empty pool has no share to evict.
  lemma {:induction false} NothingToEvict(sha: Hasher, shares: map<MinerId, seq<Share>>, order: seq<MinerId>)
    requires Enumerates(order, shares.Keys) && Victim(shares, order, |order|) == None
    ensures HeldHashes(sha, shares) == {}
  {
    VictimIsLargest(shares, order, |order|);
    forall id | id in shares
      ensures shares[id] == []
    {
      var i :| 0 <= i < |order| && order[i] == id;
      assert |Held(shares, order[i])| <= 0;
    }
  }

  lemma {:induction false} HashesWithoutFirst(sha: Hasher, shares: map<MinerId, seq<Share>>, id: MinerId)
    requires HashesApart(sha, shares) && id in shares && shares[id] != []
    ensures var rest := shares[id := shares[id][1..]];
      && HashesApart(sha, rest)
      && HeldHashes(sha, rest) == HeldHashes(sha, shares) - {ShareHash(sha, shares[id][0])}
    ensures ShareHash(sha, shares[id][0]) in HeldHashes(sha, shares)
  {
    var rest := shares[id := shares[id][1..]];
    var gone := ShareHash(sha, shares[id][0]);
    forall h | h in HeldHashes(sha, shares) && h != gone
      ensures h in HeldHashes(sha, rest)
    {
      var a, i :| a in shares && 0 <= i < |shares[a]| && ShareHash(sha, shares[a][i]) == h;
      assert ShareHash(sha, rest[a][if a == id then i - 1 else i]) == h;
    }
    forall h | h in HeldHashes(sha, rest)
      ensures h in HeldHashes(sha, shares) && h != gone
    {
      var a, i :| a in rest && 0 <= i < |rest[a]| && ShareHash(sha, rest[a][i]) == h;
      var k := if a == id then i + 1 else i;
      assert ShareHash(sha, shares[a][k]) == h;
      assert ApartAt(sha, shares, id, 0, a, k);
    }
    forall a, i, b, j
      ensures ApartAt(sha, rest, a, i, b, j)
    {
      assert ApartAt(sha, shares, a, if a == id then i + 1 else i, b, if b == id then j + 1 else j);
    }
  }

  lemma {:induction false} HashesWithNew(sha: Hasher, shares: map<MinerId, seq<Share>>, id: MinerId, s: Share)
    requires HashesApart(sha, shares) && ShareHash(sha, s) !in HeldHashes(sha, shares)
    ensures var more := shares[id := Held(shares, id) + [s]];
      && HashesApart(sha, more)
      && HeldHashes(sha, more) == HeldHashes(sha, shares) + {ShareHash(sha, s)}
  {
    var more := shares[id := Held(shares, id) + [s]];
    forall h | h in HeldHashes(sha, shares) + {ShareHash(sha, s)}
      ensures h in HeldHashes(sha, more)
    {
      if h == ShareHash(sha, s) {
        assert more[id][|Held(shares, id)|] == s;
      } else {
        var a, i :| a in shares && 0 <= i < |shares[a]| && ShareHash(sha, shares[a][i]) == h;
        assert ShareHash(sha, more[a][i]) == h;
      }
    }
    forall a, i, b, j
      ensures ApartAt(sha, more, a, i, b, j)
    {
      assert ApartAt(sha, shares, a, i, b, j);
      StaysHeld(sha, shares, id, s, a, i);
      StaysHeld(sha, shares, id, s, b, j);
    }
    forall h | h in HeldHashes(sha, more)
      ensures h in HeldHashes(sha, shares) + {ShareHash(sha, s)}
    {
      var a, i :| a in more && 0 <= i < |more[a]| && ShareHash(sha, more[a][i]) == h;
      StaysHeld(sha, shares, id, s, a, i);
    }
  }

  // Every share after a push is the new one or was held before, at the same place.
  lemma StaysHeld(sha: Hasher, shares: map<MinerId, seq<Share>>, id: MinerId, s: Share, a: MinerId, i: int)
    ensures var more := shares[id := Held(shares, id) + [s]];
      a in more && 0 <= i < |more[a]| ==>
        (a == id && i == |Held(shares, id)| && more[a][i] == s)
        || (a in shares && i < |shares[a]| && more[a][i] == shares[a][i] && ShareHash(sha, more[a][i]) in HeldHashes(sha, shares))
  {
    var more := shares[id := Held(shares, id) + [s]];
    if a in more && 0 <= i < |more[a]| && !(a == id && i == |Held(shares, id)|) {
      assert ShareHash(sha, shares[a][i]) in HeldHashes(sha, shares);
    }
  }

  lemma CountsUpdated(count: map<MinerId, int>, shares: map<MinerId, seq<Share>>, id: MinerId, held: seq<Share>)
    requires CountsRight(count, shares) && |held| <= MAX_SHARES_PER_MINER_PER_EPOCH
    ensures CountsRight(count[id := |held|], shares[id := held])
  {
    var c, s := count[id := |held|], shares[id := held];
    forall k
      ensures CountRight(c, s, k)
    {
      assert CountRight(count, shares, k);
    }
  }

  lemma HomeUpdated(shares: map<MinerId, seq<Share>>, epoch: nat, id: MinerId, held: seq<Share>)
    requires AtHome(shares, epoch) && forall i :: 0 <= i < |held| ==> Belongs(held[i], id, epoch)
    ensures AtHome(shares[id := held], epoch)
  {}

  lemma MemoryUpdated(size: nat, hashes: set<Hash32>, h: Hash32)
    ensures h in hashes ==> size * |hashes - {h}| == size * |hashes| - size
    ensures h !in hashes ==> size * |hashes + {h}| == size * |hashes| + size
  {
    if h in hashes {
      assert |hashes - {h}| == |hashes| - 1;
      MulDistrib(|hashes|, -1, size);
    } else {
      assert |hashes + {h}| == |hashes| + 1;
      MulDistrib(|hashes|, 1, size);
    }
  }

  lemma {:induction false} EvictedKeeps(sha: Hasher, g: Limits, p: Pool, id: MinerId)
    requires Inv(sha, g, p) && Held(p.shares, id) != []
    ensures Inv(sha, g, Evicted(sha, g, p, Some(id)))
  {
    var rest := p.shares[id][1..];
    assert CountRight(p.count, p.shares, id);
    CountsUpdated(p.count, p.shares, id, rest);
    HomeUpdated(p.shares, p.epoch, id, rest);
    HashesWithoutFirst(sha, p.shares, id);
    MemoryUpdated(g.shareSize, p.hashes, ShareHash(sha, p.shares[id][0]));
  }

  lemma {:induction false} PushedHeld(sha: Hasher, g: Limits, p: Pool, s: Share)
    requires CountsRight(p.count, p.shares) && AtHome(p.shares, p.epoch) && s.packet.header.epochIndex == p.epoch
    requires Get(p.count, s.packet.miner) < MAX_SHARES_PER_MINER_PER_EPOCH
    ensures var q := Pushed(sha, g, p, s); CountsRight(q.count, q.shares) && AtHome(q.shares, q.epoch)
  {
    var id := s.packet.miner;
    var held := Held(p.shares, id) + [s];
    assert CountRight(p.count, p.shares, id);
    CountsUpdated(p.count, p.shares, id, held);
    HomeUpdated(p.shares, p.epoch, id, held);
  }

  lemma {:induction false} PushedHashes(sha: Hasher, g: Limits, p: Pool, s: Share)
    requires p.hashes == HeldHashes(sha, p.shares) && HashesApart(sha, p.shares) && p.used == g.shareSize * |p.hashes|
    requires ShareHash(sha, s) !in p.hashes
    ensures var q := Pushed(sha, g, p, s);
      q.hashes == HeldHashes(sha, q.shares) && HashesApart(sha, q.shares) && q.used == g.shareSize * |q.hashes|
  {
    HashesWithNew(sha, p.shares, s.packet.miner, s);
    MemoryUpdated(g.shareSize, p.hashes, ShareHash(sha, s));
  }

  lemma {:induction false} PushedKeeps(sha: Hasher, g: Limits, p: Pool, s: Share)
    requires Inv(sha, g, p) && ShareHash(sha, s) !in p.hashes && s.packet.header.epochIndex == p.epoch
    requires Get(p.count, s.packet.miner) < MAX_SHARES_PER_MINER_PER_EPOCH
    requires p.used + g.shareSize <= Max(g.memory, g.shareSize)
    ensures Inv(sha, g, Pushed(sha, g, p, s))
  {
    PushedHeld(sha, g, p, s);
    PushedHashes(sha, g, p, s);
  }

  lemma {:induction false} CountedKeeps(sha: Hasher, g: Limits, p: Pool, id: MinerId)
    requires Inv(sha, g, p)
    ensures Inv(sha, g, p.(total := Bump(p.total, id)))
    ensures Inv(sha, g, p.(total := Bump(p.total, id), invalid := Bump(p.invalid, id)))
  {
    RatioBumped(p.invalid, p.total, id);
  }

  lemma RatioBumped(invalid: map<MinerId, nat>, total: map<MinerId, nat>, id: MinerId)
    requires forall k :: Get(invalid, k) <= Get(total, k)
    ensures forall k :: Get(invalid, k) <= Get(Bump(total, id), k)
    ensures forall k :: Get(Bump(invalid, id), k) <= Get(Bump(total, id), k)
  {
    forall k
      ensures Get(invalid, k) <= Get(Bump(total, id), k)
      ensures Get(Bump(invalid, id), k) <= Get(Bump(total, id), k)
    {
      assert Get(invalid, k) <= Get(total, k) && Get(invalid, id) <= Get(total, id);
    }
  }

  // Making room always makes room, whatever order the miners are visited in.
  lemma {:induction false} RoomMade(sha: Hasher, g: Limits, p: Pool, order: seq<MinerId>)
    requires Inv(sha, g, p) && Enumerates(order, p.shares.Keys)
    ensures var room := MakeRoom(sha, g, p, order);
      && Inv(sha, g, room) && room.used + g.shareSize <= Max(g.memory, g.shareSize)
      && room.hashes <= p.hashes && room.epoch == p.epoch
  {
    if p.used + g.shareSize > g.memory {
      var v := Victim(p.shares, order, |order|);
      VictimIsLargest(p.shares, order, |order|);
      if v.Some? {
        EvictedKeeps(sha, g, p, v.value);
      } else {
        NothingToEvict(sha, p.shares, order);
        assert g.shareSize * |p.hashes| == 0;
      }
    }
  }

  lemma {:induction false} AddedKeeps(sha: Hasher, g: Limits, p: Pool, s: Share, valid: bool, order: seq<MinerId>)
    requires Inv(sha, g, p) && Enumerates(order, p.shares.Keys)
    ensures Inv(sha, g, Added(sha, g, p, s, valid, order).0)
  {
    if s.packet.header.epochIndex == p.epoch && ShareHash(sha, s) !in p.hashes {
      var counted := p.(total := Bump(p.total, s.packet.miner));
      CountedKeeps(sha, g, p, s.packet.miner);
      if valid {
        RoomMade(sha, g, counted, order);
        var room := MakeRoom(sha, g, counted, order);
        if Get(room.count, s.packet.miner) < MAX_SHARES_PER_MINER_PER_EPOCH {
          PushedKeeps(sha, g, room, s);
        }
      }
    }
  }

  lemma {:induction false} ClosedKeeps(sha: Hasher, g: Limits, p: Pool, order: seq<MinerId>)
    requires Inv(sha, g, p)
    ensures Inv(sha, g, Closed(sha, p, order))
  {
    CanonicalInOrder(Collected(p.shares, order));
    assert HeldHashes(sha, map[]) == {};
    assert g.shareSize * 0 == 0;
  }

  // After k epochs closed from an empty pool the archive holds the last eleven of them.
  function ClosedTimes(sha: Hasher, p: Pool, orders: seq<seq<MinerId>>): Pool {
    if orders == [] then p else Closed(sha, ClosedTimes(sha, p, orders[..|orders| - 1]), orders[|orders| - 1])
  }

  lemma {:induction false} ArchiveDepth(sha: Hasher, orders: seq<seq<MinerId>>)
    ensures var q, k := ClosedTimes(sha, EMPTY_POOL, orders), |orders|;
      q.epoch == k + 1 && forall e: nat :: e in q.archive <==> 1 <= e <= k && e + 11 > k
  {
    if orders != [] {
      ArchiveDepth(sha, orders[..|orders| - 1]);
    }
  }

  lemma {:induction false} MergedKeeps(sha: Hasher, g: Limits, p: Pool, valid: Validator, epoch: nat, batch: seq<Packet>)
    requires Inv(sha, g, p)
    ensures Inv(sha, g, MergedInto(sha, p, valid, epoch, batch))
  {
    CanonicalInOrder(Extended(Present(p.archive, epoch), Accepted(valid, batch)));
  }

  // ---- Every sequence of operations ----

  // `order` is the order in which the map of miners iterates at that moment.
  datatype Op =
    | Add(share: Share, isValid: bool, order: seq<MinerId>)
    | Close(order: seq<MinerId>)
    | Merge(valid: Validator, epoch: nat, batch: seq<Packet>)

  function Applied(sha: Hasher, g: Limits, p: Pool, op: Op): Pool {
    match op
    case Add(s, valid, order) => Added(sha, g, p, s, valid, order).0
    case Close(order) => Closed(sha, p, order)
    case Merge(valid, epoch, batch) => MergedInto(sha, p, valid, epoch, batch)
  }

  function Run(sha: Hasher, g: Limits, ops: seq<Op>): Pool {
    if ops == [] then EMPTY_POOL else Applied(sha, g, Run(sha, g, ops[..|ops| - 1]), ops[|ops| - 1])
  }

  // Each operation visits every miner of the pool it finds exactly once, in some order.
  ghost predicate OrdersFit(sha: Hasher, g: Limits, ops: seq<Op>) {
    forall n :: 0 <= n < |ops| ==> OrderFits(ops[n], Run(sha, g, ops[..n]))
  }

  ghost predicate OrderFits(op: Op, p: Pool) {
    op.Merge? || Enumerates(op.order, p.shares.Keys)
  }

  lemma {:induction false} RunKeepsInvariant(sha: Hasher, g: Limits, ops: seq<Op>)
    requires OrdersFit(sha, g, ops)
    ensures Inv(sha, g, Run(sha, g, ops))
  {
    if ops == [] {
      assert HeldHashes(sha, map[]) == {};
      assert g.shareSize * 0 == 0;
    } else {
      var n := |ops| - 1;
      forall k | 0 <= k < n
        ensures OrderFits(ops[..n][k], Run(sha, g, ops[..n][..k]))
      {
        assert ops[..n][..k] == ops[..k];
      }
      RunKeepsInvariant(sha, g, ops[..n]);
      var p := Run(sha, g, ops[..n]);
      match ops[n]
      case Add(s, valid, order) => AddedKeeps(sha, g, p, s, valid, order);
      case Close(order) => ClosedKeeps(sha, g, p, order);
      case Merge(valid, epoch, batch) => MergedKeeps(sha, g, p, valid, epoch, batch);
    }
  }

  // ---- Memory is charged for every share held ----

  function UnionOf<T>(sets: seq<set<T>>, n: nat): set<T>
    requires n <= |sets|
  {
    if n == 0 then {} else UnionOf(sets, n - 1) + sets[n - 1]
  }

  function SizesOf<T>(sets: seq<set<T>>, n: nat): nat
    requires n <= |sets|
  {
    if n == 0 then 0 else SizesOf(sets, n - 1) + |sets[n - 1]|
  }

  lemma {:induction false} InUnion<T>(sets: seq<set<T>>, n: nat, x: T)
    requires n <= |sets|
    ensures x in UnionOf(sets, n) <==> exists t :: 0 <= t < n && x in sets[t]
    decreases n
  {
    if n > 0 {
      InUnion(sets, n - 1, x);
    }
  }

  lemma {:induction false} DisjointSizes<T>(sets: seq<set<T>>, n: nat)
    requires n <= |sets| && forall i, j :: 0 <= i < j < |sets| ==> sets[i] !! sets[j]
    ensures |UnionOf(sets, n)| == SizesOf(sets, n)
    decreases n
  {
    if n > 0 {
      DisjointSizes(sets, n - 1);
      var last := sets[n - 1];
      forall x | x in last
        ensures x !in UnionOf(sets, n - 1)
      {
        InUnion(sets, n - 1, x);
      }
    }
  }

  // The hashes of one miner's shares.
  function HashesOf(sha: Hasher, held: seq<Share>): set<Hash32> {
    set i | 0 <= i < |held| :: ShareHash(sha, held[i])
  }

  ghost predicate HashesDiffer(sha: Hasher, held: seq<Share>) {
    forall i, j :: 0 <= i < j < |held| ==> ShareHash(sha, held[i]) != ShareHash(sha, held[j])
  }

  function Elements<T>(s: seq<T>): set<T> {
    set x | x in s
  }

  lemma {:induction false} ElementsCount<T>(s: seq<T>)
    requires Distinct(s)
    ensures |Elements(s)| == |s|
    decreases |s|
  {
    if s == [] {
      assert Elements(s) == {};
    } else {
      var init, last := s[..|s| - 1], s[|s| - 1];
      ElementsCount(init);
      assert s == init + [last];
      assert Elements(s) == Elements(init) + {last};
    }
  }

  lemma OwnHashesCount(sha: Hasher, held: seq<Share>)
    requires HashesDiffer(sha, held)
    ensures |HashesOf(sha, held)| == |held|
  {
    var hs := seq(|held|, i requires 0 <= i < |held| => ShareHash(sha, held[i]));
    ElementsCount(hs);
    assert Elements(hs) == HashesOf(sha, held) by {
      assert forall i :: 0 <= i < |held| ==> hs[i] == ShareHash(sha, held[i]);
    }
  }

  // The shares held by the first n miners in turn.
  function HeldCount(shares: map<MinerId, seq<Share>>, order: seq<MinerId>, n: nat): nat
    requires n <= |order|
  {
    if n == 0 then 0 else HeldCount(shares, order, n - 1) + |Held(shares, order[n - 1])|
  }

  lemma {:induction false} HeldIsSizes(sha: Hasher, shares: map<MinerId, seq<Share>>, order: seq<MinerId>, sets: seq<set<Hash32>>, n: nat)
    requires n <= |order| == |sets|
    requires forall t :: 0 <= t < |sets| ==> |sets[t]| == |Held(shares, order[t])|
    ensures SizesOf(sets, n) == HeldCount(shares, order, n)
    decreases n
  {
    if n > 0 {
      HeldIsSizes(sha, shares, order, sets, n - 1);
    }
  }

  lemma OwnHashesApart(sha: Hasher, shares: map<MinerId, seq<Share>>, a: MinerId, b: MinerId)
    requires HashesApart(sha, shares) && a != b
    ensures HashesOf(sha, Held(shares, a)) !! HashesOf(sha, Held(shares, b))
  {
    forall i, j | 0 <= i < |Held(shares, a)| && 0 <= j < |Held(shares, b)|
      ensures ShareHash(sha, Held(shares, a)[i]) != ShareHash(sha, Held(shares, b)[j])
    {
      assert ApartAt(sha, shares, a, i, b, j);
    }
  }

  lemma OwnHashesDiffer(sha: Hasher, shares: map<MinerId, seq<Share>>, id: MinerId)
    requires HashesApart(sha, shares)
    ensures |HashesOf(sha, Held(shares, id))| == |Held(shares, id)|
  {
    var held := Held(shares, id);
    forall i, j | 0 <= i < j < |held|
      ensures ShareHash(sha, held[i]) != ShareHash(sha, held[j])
    {
      assert ApartAt(sha, shares, id, i, id, j);
    }
    OwnHashesCount(sha, held);
  }

  // The hashes held are those of the miners enumerated, taken together.
  lemma HashesAreUnion(sha: Hasher, shares: map<MinerId, seq<Share>>, order: seq<MinerId>, sets: seq<set<Hash32>>)
    requires Enumerates(order, shares.Keys) && |sets| == |order|
    requires forall t :: 0 <= t < |sets| ==> sets[t] == HashesOf(sha, Held(shares, order[t]))
    ensures UnionOf(sets, |sets|) == HeldHashes(sha, shares)
  {
    forall h | h in UnionOf(sets, |sets|)
      ensures h in HeldHashes(sha, shares)
    {
      InUnion(sets, |sets|, h);
      var t :| 0 <= t < |sets| && h in sets[t];
      assert order[t] in shares;
    }
    forall h | h in HeldHashes(sha, shares)
      ensures h in UnionOf(sets, |sets|)
    {
      var id, i :| id in shares && 0 <= i < |shares[id]| && ShareHash(sha, shares[id][i]) == h;
      var t :| 0 <= t < |order| && order[t] == id;
      assert h in sets[t];
      InUnion(sets, |sets|, h);
    }
  }

  // In every state the invariant describes, memory used is the share size times the number
  // of shares held by all miners.
  lemma MemoryCountsShares(sha: Hasher, g: Limits, p: Pool, order: seq<MinerId>)
    requires Inv(sha, g, p) && Enumerates(order, p.shares.Keys)
    ensures p.used == g.shareSize * HeldCount(p.shares, order, |order|)
  {
    var sets := seq(|order|, t requires 0 <= t < |order| => HashesOf(sha, Held(p.shares, order[t])));
    forall t | 0 <= t < |sets|
      ensures |sets[t]| == |Held(p.shares, order[t])|
    {
      OwnHashesDiffer(sha, p.shares, order[t]);
    }
    forall i, j | 0 <= i < j < |sets|
      ensures sets[i] !! sets[j]
    {
      OwnHashesApart(sha, p.shares, order[i], order[j]);
    }
    DisjointSizes(sets, |sets|);
    HeldIsSizes(sha, p.shares, order, sets, |order|);
    HashesAreUnion(sha, p.shares, order, sets);
  }

  // ---- An archive does not depend on the order it was collected in ----

  ghost function KeysHeld(shares: map<MinerId, seq<Share>>, id: MinerId): multiset<seq<byte>> {
    multiset(Keys(PacketsOf(Held(shares, id))))
  }

  // The multisets given by f, added up along a list.
  ghost function Along(f: MinerId -> multiset<seq<byte>>, order: seq<MinerId>): multiset<seq<byte>> {
    if order == [] then multiset{} else Along(f, order[..|order| - 1]) + f(order[|order| - 1])
  }

  lemma {:induction false} AlongRemove(f: MinerId -> multiset<seq<byte>>, order: seq<MinerId>, j: nat)
    requires j < |order|
    ensures Along(f, order) == Along(f, order[..j] + order[j + 1..]) + f(order[j])
    decreases |order|
  {
    var n := |order| - 1;
    if j == n {
      assert order[..j] + order[j + 1..] == order[..n];
    } else {
      var rest := order[..j] + order[j + 1..];
      AlongRemove(f, order[..n], j);
      assert rest[..n - 1] == order[..n][..j] + order[..n][j + 1..];
      assert rest[n - 1] == order[n];
    }
  }

  lemma {:induction false} AlongIgnoresOrder(f: MinerId -> multiset<seq<byte>>, order: seq<MinerId>, other: seq<MinerId>, ids: set<MinerId>)
    requires Enumerates(order, ids) && Enumerates(other, ids)
    ensures Along(f, order) == Along(f, other)
    decreases |order|
  {
    if order == [] {
      EnumerationLength(order, ids);
      EnumerationLength(other, ids);
    } else {
      var n := |order| - 1;
      assert order[n] in other;
      var j :| 0 <= j < |other| && other[j] == order[n];
      EnumerateRest(order, other, j, ids);
      AlongIgnoresOrder(f, order[..n], other[..j] + other[j + 1..], ids - {order[n]});
      AlongRemove(f, other, j);
    }
  }

  lemma {:induction false} CollectedKeys(shares: map<MinerId, seq<Share>>, order: seq<MinerId>, f: MinerId -> multiset<seq<byte>>)
    requires forall id :: f(id) == KeysHeld(shares, id)
    ensures multiset(Keys(Collected(shares, order))) == Along(f, order)
  {
    if order != [] {
      var n := |order| - 1;
      CollectedKeys(shares, order[..n], f);
      KeysConcat(Collected(shares, order[..n]), PacketsOf(Held(shares, order[n])));
    }
  }

  lemma {:induction false} EnumerationLength(order: seq<MinerId>, ids: set<MinerId>)
    requires Enumerates(order, ids)
    ensures |order| == |ids|
    decreases |order|
  {
    if order == [] {
      assert ids == {};
    } else {
      var n := |order| - 1;
      assert order == order[..n] + [order[n]];
      EnumerationLength(order[..n], ids - {order[n]});
    }
  }

  lemma {:induction false} EnumerateRest(order: seq<MinerId>, other: seq<MinerId>, j: nat, ids: set<MinerId>)
    requires Enumerates(order, ids) && Enumerates(other, ids) && order != [] && j < |other| && other[j] == order[|order| - 1]
    ensures Enumerates(order[..|order| - 1], ids - {other[j]})
    ensures Enumerates(other[..j] + other[j + 1..], ids - {other[j]})
  {
    var n := |order| - 1;
    assert order == order[..n] + [order[n]];
    assert other == other[..j] + [other[j]] + other[j + 1..];
    var rest := other[..j] + other[j + 1..];
    forall k
      ensures k in rest <==> k in ids && k != other[j]
    {
      if k in rest {
        var i :| 0 <= i < |rest| && rest[i] == k;
        assert other[if i < j then i else i + 1] == k;
      }
    }
  }

  // Two nodes holding the same shares archive the same keys under the same root.
  lemma {:induction false} ArchiveIgnoresOrder(sha: Hasher, p: Pool, order: seq<MinerId>, other: seq<MinerId>)
    requires Enumerates(order, p.shares.Keys) && Enumerates(other, p.shares.Keys)
    ensures p.epoch in Closed(sha, p, order).archive && p.epoch in Closed(sha, p, other).archive
    ensures Keys(Closed(sha, p, order).archive[p.epoch]) == Keys(Closed(sha, p, other).archive[p.epoch])
    ensures Closed(sha, p, order).roots[p.epoch] == Closed(sha, p, other).roots[p.epoch]
  {
    var f: MinerId -> multiset<seq<byte>> := id => KeysHeld(p.shares, id);
    AlongIgnoresOrder(f, order, other, p.shares.Keys);
    CollectedKeys(p.shares, order, f);
    CollectedKeys(p.shares, other, f);
    RootOfCollection(sha, Collected(p.shares, order), Collected(p.shares, other));
  }
}
