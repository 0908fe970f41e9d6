// One proof of work reported under several headers.

module ShareTwins {
  import opened Blocks
  import opened Bytes
  import opened Merkle
  import opened Packets
  import opened Poci
  import opened Records
  import Search
  import opened ShareIntake
  import opened SharePools
  import opened ShareSync
  import opened StableSort
  import opened Targets
  import opened Transactions
  import opened Wrappers

  // ---- Runs of the intake ----

  // A share arrives, the chain or what is known of miners moves on, or the epoch is closed;
  // `order` is the order in which the map of miners iterates.
  datatype Event = Arrives(share: Share, order: seq<MinerId>) | Moves(desk: Desk) | Closes(order: seq<MinerId>)

  datatype Counter = Counter(desk: Desk, pool: Pool)

  function Handled(c: Crypto, g: Limits, s: Counter, e: Event): Counter {
    match e
    case Arrives(share, order) => var t := Taken(c, g, s.desk, s.pool, share, order); Counter(t.0, t.1)
    case Moves(desk) => Counter(desk, s.pool)
    case Closes(order) => Counter(s.desk, Closed(c.sha, s.pool, order))
  }

  function AllHandled(c: Crypto, g: Limits, s: Counter, events: seq<Event>): Counter {
    if events == [] then s else Handled(c, g, AllHandled(c, g, s, events[..|events| - 1]), events[|events| - 1])
  }

  ghost predicate Fits(e: Event, p: Pool) { e.Moves? || Enumerates(e.order, p.shares.Keys) }

  // Each event visits every miner of the pool it finds exactly once.
  ghost predicate AllFit(c: Crypto, g: Limits, s: Counter, events: seq<Event>) {
    events != [] ==>
      && AllFit(c, g, s, events[..|events| - 1])
      && Fits(events[|events| - 1], AllHandled(c, g, s, events[..|events| - 1]).pool)
  }

  // Every share held hashes to what it says.
  ghost predicate HeldMatch(c: Crypto, p: Pool) {
    forall id, i :: id in p.shares && 0 <= i < |p.shares[id]| ==> Matching(c, p.shares[id][i])
  }

  lemma RoomKeepsMatch(c: Crypto, g: Limits, p: Pool, order: seq<MinerId>)
    requires HeldMatch(c, p)
    ensures HeldMatch(c, MakeRoom(c.sha, g, p, order))
  {}

  lemma TakenKeepsMatch(c: Crypto, g: Limits, d: Desk, p: Pool, s: Share, order: seq<MinerId>)
    requires HeldMatch(c, p)
    ensures HeldMatch(c, Taken(c, g, d, p, s, order).1)
  {
    var valid := FaultOf(c, d, s, s.timestamp) == None;
    RoomKeepsMatch(c, g, p.(total := Bump(p.total, s.packet.miner)), order);
    if valid {
      FaultExactly(c, d, s);
    }
  }

  // Over every sequence of events the pool stays right and holds matching shares only.
  lemma {:induction false} IntakeKeeps(c: Crypto, g: Limits, s: Counter, events: seq<Event>)
    requires Inv(c.sha, g, s.pool) && HeldMatch(c, s.pool) && AllFit(c, g, s, events)
    ensures Inv(c.sha, g, AllHandled(c, g, s, events).pool) && HeldMatch(c, AllHandled(c, g, s, events).pool)
  {
    if events != [] {
      var before := events[..|events| - 1];
      IntakeKeeps(c, g, s, before);
      var t := AllHandled(c, g, s, before);
      match events[|events| - 1]
      case Arrives(share, order) =>
        TakenKeepsPool(c, g, t.desk, t.pool, share, order);
        TakenKeepsMatch(c, g, t.desk, t.pool, share, order);
      case Moves(desk) =>
      case Closes(order) => ClosedKeeps(c.sha, g, t.pool, order);
    }
  }

  // ---- Twins ----

  // Two packets of one proof of work: they differ in the nonce inside the header alone, which
  // the proof of work replaces by the packet's own.
  predicate Twins(p: Packet, q: Packet) {
    && p.miner == q.miner && p.nonce == q.nonce && p.hash == q.hash
    && p.header.(nonce := p.nonce) == q.header.(nonce := q.nonce)
  }

  ghost predicate WorkTells(c: Crypto, p: Packet, q: Packet) {
    HeaderHash(c, p.header.(nonce := p.nonce)) == HeaderHash(c, q.header.(nonce := q.nonce)) ==>
      HeaderBytes(p.header.(nonce := p.nonce)) == HeaderBytes(q.header.(nonce := q.nonce))
  }

  // Matching shares have one key exactly when they are twins.
  lemma KeysMeetExactly(c: Crypto, s: Share, t: Share)
    requires Matching(c, s) && Matching(c, t) && WorkTells(c, s.packet, t.packet)
    ensures Key(s.packet) == Key(t.packet) <==> Twins(s.packet, t.packet)
  {
    KeyIdentifies(s.packet, t.packet);
    if Key(s.packet) == Key(t.packet) {
      HeaderBytesInjective(s.packet.header.(nonce := s.packet.nonce), t.packet.header.(nonce := t.packet.nonce));
    }
  }

  // Positions a, i and b, j hold two different shares.
  ghost predicate Two(p: Pool, a: MinerId, i: int, b: MinerId, j: int) {
    a in p.shares && b in p.shares && 0 <= i < |p.shares[a]| && 0 <= j < |p.shares[b]| && (a != b || i != j)
  }

  ghost predicate KeysDiffer(p: Pool) {
    forall a, i, b, j :: Two(p, a, i, b, j) ==> Key(p.shares[a][i].packet) != Key(p.shares[b][j].packet)
  }

  ghost predicate NoTwins(p: Pool) {
    forall a, i, b, j :: Two(p, a, i, b, j) ==> !Twins(p.shares[a][i].packet, p.shares[b][j].packet)
  }

  ghost predicate AllWorkTells(c: Crypto, p: Pool) {
    forall a, i, b, j :: Two(p, a, i, b, j) ==> WorkTells(c, p.shares[a][i].packet, p.shares[b][j].packet)
  }

  // In every state the intake reaches, the shares held have pairwise distinct keys exactly
  // when no two of them differ in the header's own nonce alone.
  lemma KeysDifferExactly(c: Crypto, p: Pool)
    requires HeldMatch(c, p) && AllWorkTells(c, p)
    ensures KeysDiffer(p) <==> NoTwins(p)
  {
    forall a, i, b, j | Two(p, a, i, b, j)
      ensures Key(p.shares[a][i].packet) == Key(p.shares[b][j].packet) <==> Twins(p.shares[a][i].packet, p.shares[b][j].packet)
    {
      KeysMeetExactly(c, p.shares[a][i], p.shares[b][j]);
    }
  }

  // It is so when every share carries its nonce in the header, as the ones a node reports do.
  predicate Carries(s: Share) { s.packet.header.nonce == s.packet.nonce }

  lemma CarryingHasNoTwins(c: Crypto, g: Limits, p: Pool)
    requires Inv(c.sha, g, p) && forall id, i :: id in p.shares && 0 <= i < |p.shares[id]| ==> Carries(p.shares[id][i])
    ensures NoTwins(p)
  {
    forall a, i, b, j | Two(p, a, i, b, j)
      ensures !Twins(p.shares[a][i].packet, p.shares[b][j].packet)
    {
      var s, t := p.shares[a][i], p.shares[b][j];
      assert Carries(s) && Carries(t) && ApartAt(c.sha, p.shares, a, i, b, j);
      assert s.packet.header == s.packet.header.(nonce := s.packet.nonce);
      assert t.packet.header == t.packet.header.(nonce := t.packet.nonce);
    }
  }

  // ---- One proof of work credited twice ----

  function TwinOf(s: Share, nonce: u64): Share {
    s.(packet := s.packet.(header := s.packet.header.(nonce := nonce)))
  }

  lemma TwinMatches(c: Crypto, s: Share, nonce: u64)
    requires Matching(c, s)
    ensures Matching(c, TwinOf(s, nonce)) && Twins(s.packet, TwinOf(s, nonce).packet)
  {
    var p, q := s.packet, TwinOf(s, nonce).packet;
    assert p.header.(nonce := p.nonce) == q.header.(nonce := q.nonce);
  }

  // A share with a new id that the desk admits, with room in the pool.
  lemma TakenWithRoom(c: Crypto, g: Limits, d: Desk, p: Pool, s: Share, order: seq<MinerId>)
    requires Matching(c, s) && DeskTakes(c, d, s) && d.epoch == p.epoch && ShareHash(c.sha, s) !in p.hashes
    requires p.used + g.shareSize <= g.memory && Get(p.count, s.packet.miner) < MAX_SHARES_PER_MINER_PER_EPOCH
    ensures Taken(c, g, d, p, s, order)
         == (Credited(d, s.packet.miner), Pushed(c.sha, g, p.(total := Bump(p.total, s.packet.miner)), s), true)
  {
    FaultExactly(c, d, s);
  }

  function Once(c: Crypto, g: Limits, s: Share): Pool {
    Pushed(c.sha, g, EMPTY_POOL.(total := Bump(map[], s.packet.miner)), s)
  }

  function Twice(c: Crypto, g: Limits, s: Share, t: Share): Pool {
    Pushed(c.sha, g, Once(c, g, s).(total := Bump(Once(c, g, s).total, t.packet.miner)), t)
  }

  lemma OnceHolds(c: Crypto, g: Limits, s: Share)
    ensures var p := Once(c, g, s);
      p.shares == map[s.packet.miner := [s]] && p.hashes == {ShareHash(c.sha, s)} && p.used == g.shareSize && p.epoch == 1
      && Get(p.count, s.packet.miner) == 1
  {
    assert Held(map[], s.packet.miner) + [s] == [s];
    assert {} + {ShareHash(c.sha, s)} == {ShareHash(c.sha, s)};
  }

  lemma TwiceHolds(c: Crypto, g: Limits, s: Share, t: Share)
    requires s.packet.miner == t.packet.miner
    ensures Twice(c, g, s, t).shares == map[s.packet.miner := [s, t]]
  {
    OnceHolds(c, g, s);
    assert [s] + [t] == [s, t];
  }

  // Whatever the work, changing the header's own nonce gives a second share: it is accepted,
  // credited and held beside the first, under one key.
  lemma TwinsBothTaken(c: Crypto, g: Limits, d: Desk, s: Share, nonce: u64, order: seq<MinerId>, other: seq<MinerId>)
    requires Matching(c, s) && DeskTakes(c, d, s) && d.banned == map[] && d.epoch == 1 && 2 * g.shareSize <= g.memory
    requires PrefilterPasses(c, HeaderBytes(TwinOf(s, nonce).packet.header), s.packet.nonce, PeerPrefilter(d.difficulty))
    requires ShareHash(c.sha, TwinOf(s, nonce)) != ShareHash(c.sha, s)
    ensures Taken(c, g, d, EMPTY_POOL, s, order) == (Credited(d, s.packet.miner), Once(c, g, s), true)
    ensures Taken(c, g, Credited(d, s.packet.miner), Once(c, g, s), TwinOf(s, nonce), other)
         == (Credited(Credited(d, s.packet.miner), s.packet.miner), Twice(c, g, s, TwinOf(s, nonce)), true)
    ensures Twice(c, g, s, TwinOf(s, nonce)).shares == map[s.packet.miner := [s, TwinOf(s, nonce)]]
    ensures Key(s.packet) == Key(TwinOf(s, nonce).packet)
  {
    var t := TwinOf(s, nonce);
    TakenWithRoom(c, g, d, EMPTY_POOL, s, order);
    TwinMatches(c, s, nonce);
    OnceHolds(c, g, s);
    TwiceHolds(c, g, s, t);
    assert DeskTakes(c, Credited(d, s.packet.miner), t);
    TakenWithRoom(c, g, Credited(d, s.packet.miner), Once(c, g, s), t, other);
  }

  // Closed with twins, an archive repeats a key, which no peer can finish fetching.
  lemma TwinsSpoilArchive(sha: Hasher, p: Pool, s: Share, t: Share)
    requires p.shares == map[s.packet.miner := [s, t]] && Key(s.packet) == Key(t.packet)
    ensures p.epoch in Closed(sha, p, [s.packet.miner]).archive
    ensures !DistinctKeys(Closed(sha, p, [s.packet.miner]).archive[p.epoch])
  {
    CollectedPair(p.shares, s, t);
    PairSpoils(s.packet, t.packet);
    ArchivedNow(sha, p, [s.packet.miner]);
  }

  lemma CollectedPair(shares: map<MinerId, seq<Share>>, s: Share, t: Share)
    requires shares == map[s.packet.miner := [s, t]]
    ensures Collected(shares, [s.packet.miner]) == [s.packet, t.packet]
  {
    var order := [s.packet.miner];
    assert order[..0] == [] && Collected(shares, []) == [] && Held(shares, s.packet.miner) == [s, t];
    assert Collected(shares, order) == [] + PacketsOf([s, t]);
  }

  lemma PairSpoils(p: Packet, q: Packet)
    requires Key(p) == Key(q)
    ensures !DistinctKeys(Canonical([p, q]))
  {
    var sorted := Canonical([p, q]);
    SortedKeepsAll(Before, [p, q]);
    SameElements([p, q], sorted);
    assert sorted[0] in [p, q] && sorted[1] in [p, q];
    assert Keys(sorted)[0] == Keys(sorted)[1];
  }

  lemma ArchivedNow(sha: Hasher, p: Pool, order: seq<MinerId>)
    ensures p.epoch in Closed(sha, p, order).archive
    ensures Closed(sha, p, order).archive[p.epoch] == Canonical(Collected(p.shares, order))
  {}

  // ---- There is such work ----

  // Share ids read the header's own nonce off the hashed bytes.
  function NonceOf(s: seq<byte>): Hash32 {
    if |s| == 180 then Repeat(0, 24) + s[128..136] else ZERO_HASH
  }

  function OpenCrypto(someone: MinerId): Crypto {
    Crypto(NonceOf, (s: seq<byte>) => ZERO_HASH, (t: RawTx) => ZERO_HASH, (s: seq<byte>) => someone,
           (s: seq<byte>) => Some(someone), (k: seq<byte>, s: seq<byte>, m: Hash32) => true, (a: string) => Some(someone))
  }

  function OpenDesk(someone: MinerId): Desk {
    Desk(MAX_TARGET, ZERO_HASH, 1, map[someone := Bond(MINIMUM_BOND_LYT, 0, 0)], map[], map[], map[])
  }

  function OpenShare(someone: MinerId): Share {
    Share(Packet(someone, Header(1, ZERO_HASH, ZERO_HASH, 0, MAX_TARGET, 0, 1), 0, ZERO_HASH), SHARE_WINDOW)
  }

  lemma LowPasses(c: Crypto, bytes: seq<byte>, nonce: u64, t: Target)
    requires c.sha(bytes + LittleEndian(nonce, 8))[..8] == Repeat(0, 8)
    ensures PrefilterPasses(c, bytes, nonce, t)
  {
    Search.LexIsNumeric(t[..8], Repeat(0, 8));
    ValZeros(8, 256);
    ValBound(t[..8], 256);
  }

  lemma OpenPasses(someone: MinerId, bytes: seq<byte>, nonce: u64, t: Target)
    ensures PrefilterPasses(OpenCrypto(someone), bytes, nonce, t)
  {
    assert NonceOf(bytes + LittleEndian(nonce, 8))[..8] == Repeat(0, 8);
    LowPasses(OpenCrypto(someone), bytes, nonce, t);
  }

  lemma ShareHashReads(someone: MinerId, s: Share)
    ensures ShareHash(OpenCrypto(someone).sha, s) == Repeat(0, 24) + LittleEndian(s.packet.header.nonce, 8)
  {
    var h := s.packet.header;
    var tail := LittleEndian(h.epochIndex, 4) + LittleEndian(s.packet.nonce, 8) + Raw(s.packet.hash);
    var bytes := Raw(s.packet.miner) + HeaderBytes(h) + LittleEndian(s.packet.nonce, 8) + Raw(s.packet.hash);
    assert bytes == (Raw(s.packet.miner) + HeaderPrefix(h)) + LittleEndian(h.nonce, 8) + tail;
    assert bytes[128..136] == LittleEndian(h.nonce, 8);
  }

  // The input: one share, and the same with nonce 1 in its header, both accepted by a node
  // with an empty pool.
  lemma TwinsExist(someone: MinerId, g: Limits)
    requires 2 * g.shareSize <= g.memory
    ensures var c, d, s := OpenCrypto(someone), OpenDesk(someone), OpenShare(someone);
      && Taken(c, g, d, EMPTY_POOL, s, []) == (Credited(d, someone), Once(c, g, s), true)
      && Taken(c, g, Credited(d, someone), Once(c, g, s), TwinOf(s, 1), [someone])
         == (Credited(Credited(d, someone), someone), Twice(c, g, s, TwinOf(s, 1)), true)
      && Twice(c, g, s, TwinOf(s, 1)).shares == map[someone := [s, TwinOf(s, 1)]]
      && CreditOf(Credited(Credited(d, someone), someone), someone) == 2 && Key(s.packet) == Key(TwinOf(s, 1).packet)
  {
    var c, d, s := OpenCrypto(someone), OpenDesk(someone), OpenShare(someone);
    OpenTakes(someone);
    OpenPasses(someone, HeaderBytes(TwinOf(s, 1).packet.header), 0, PeerPrefilter(d.difficulty));
    OpenTwinsDiffer(someone);
    TwinsBothTaken(c, g, d, s, 1, [], [someone]);
    CreditedCounts(d, someone, someone);
    CreditedCounts(Credited(d, someone), someone, someone);
  }

  lemma OpenTakes(someone: MinerId)
    ensures Matching(OpenCrypto(someone), OpenShare(someone)) && DeskTakes(OpenCrypto(someone), OpenDesk(someone), OpenShare(someone))
  {
    ValZeros(32, 256);
    OpenPasses(someone, HeaderBytes(OpenShare(someone).packet.header), 0, PeerPrefilter(MAX_TARGET));
  }

  lemma OpenTwinsDiffer(someone: MinerId)
    ensures ShareHash(OpenCrypto(someone).sha, TwinOf(OpenShare(someone), 1)) != ShareHash(OpenCrypto(someone).sha, OpenShare(someone))
  {
    ShareHashReads(someone, OpenShare(someone));
    ShareHashReads(someone, TwinOf(OpenShare(someone), 1));
    assert LittleEndian(0, 8)[0] == 0 && LittleEndian(1, 8)[0] == 1;
    assert (Repeat(0, 24) + LittleEndian(0, 8))[24] == 0 && (Repeat(0, 24) + LittleEndian(1, 8))[24] == 1;
  }
}
