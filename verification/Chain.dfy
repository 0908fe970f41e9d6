// The in-memory chain and its stored blocks: five structures that must agree.

module Chains {
  import opened Blocks
  import opened Bytes
  import opened Difficulty
  import opened Targets
  import opened Wrappers

  datatype Chain = Chain(
    height: nat,
    headers: seq<Header>,
    index: map<Hash32, nat>,
    times: seq<u64>,
    stored: map<nat, Block>)

  // How headers are identified; an arbitrary function here.
  type HeaderHasher = Header -> Hash32

  function TipHash(hash: HeaderHasher, ch: Chain): Hash32 {
    if ch.headers == [] then ZERO_HASH else hash(ch.headers[|ch.headers| - 1])
  }

  function DropLast<T>(s: seq<T>): seq<T> {
    if s == [] then [] else s[..|s| - 1]
  }

  // A block appended under a hash.
  function Pushed(ch: Chain, block: Block, id: Hash32): Chain {
    Chain(ch.height + 1, ch.headers + [block.header], ch.index[id := ch.height + 1],
          ch.times + [block.header.timestamp], ch.stored[ch.height + 1 := block])
  }

  // The tip removed; the hash to forget is read off the stored block when there is one.
  function TopHash(hash: HeaderHasher, ch: Chain): set<Hash32> {
    if ch.height in ch.stored then {hash(ch.stored[ch.height].header)}
    else if ch.headers == [] then {} else {TipHash(hash, ch)}
  }

  function Popped(hash: HeaderHasher, ch: Chain): Chain
    requires ch.height > 0
  {
    Chain(ch.height - 1, DropLast(ch.headers), ch.index - TopHash(hash, ch), DropLast(ch.times), ch.stored - {ch.height})
  }

  function PoppedTo(hash: HeaderHasher, ch: Chain, target: nat): Chain
    decreases ch.height
  {
    if ch.height <= target then ch else PoppedTo(hash, Popped(hash, ch), target)
  }

  // ---- The chain invariant ----

  ghost predicate IndexRight(hash: HeaderHasher, headers: seq<Header>, index: map<Hash32, nat>) {
    && (forall i :: 0 <= i < |headers| ==> hash(headers[i]) in index && index[hash(headers[i])] == i)
    && (forall h :: h in index ==> index[h] < |headers| && hash(headers[index[h]]) == h)
  }

  ghost predicate LinksRight(hash: HeaderHasher, headers: seq<Header>) {
    forall i :: 0 < i < |headers| ==> headers[i].prevHash == hash(headers[i - 1])
  }

  ghost predicate StoredRight(headers: seq<Header>, stored: map<nat, Block>) {
    && (forall i: nat :: i in stored <==> i < |headers|)
    && (forall i :: 0 <= i < |headers| ==> stored[i].header == headers[i])
  }

  ghost predicate TimesRight(headers: seq<Header>, times: seq<u64>) {
    |times| == |headers| && forall i :: 0 <= i < |headers| ==> times[i] == headers[i].timestamp
  }

  ghost predicate Linked(hash: HeaderHasher, ch: Chain) {
    && |ch.headers| == ch.height + 1
    && TimesRight(ch.headers, ch.times)
    && IndexRight(hash, ch.headers, ch.index)
    && LinksRight(hash, ch.headers)
    && StoredRight(ch.headers, ch.stored)
  }

  lemma SingleLinked(hash: HeaderHasher, b: Block)
    ensures Linked(hash, Chain(0, [b.header], map[hash(b.header) := 0], [b.header.timestamp], map[0 := b]))
  {
    EmptyIndex(hash);
    PushedIndex(hash, [], map[], b.header);
    PushedStored([], [], map[], b);
    assert [] + [b.header] == [b.header] && [] + [b.header.timestamp] == [b.header.timestamp];
  }

  lemma EmptyIndex(hash: HeaderHasher)
    ensures IndexRight(hash, [], map[]) && StoredRight([], map[]) && TimesRight([], [])
  {}

  lemma PushedLinked(hash: HeaderHasher, ch: Chain, block: Block)
    requires Linked(hash, ch)
    requires Extending(hash, ch, block)
    ensures Linked(hash, Pushed(ch, block, hash(block.header)))
  {
    PushedIndex(hash, ch.headers, ch.index, block.header);
    PushedStored(ch.headers, ch.times, ch.stored, block);
    PushedLinks(hash, ch.headers, block.header);
  }

  lemma PushedLinks(hash: HeaderHasher, headers: seq<Header>, header: Header)
    requires LinksRight(hash, headers) && headers != [] && header.prevHash == hash(headers[|headers| - 1])
    ensures LinksRight(hash, headers + [header])
  {}

  lemma PushedStored(headers: seq<Header>, times: seq<u64>, stored: map<nat, Block>, block: Block)
    requires StoredRight(headers, stored) && TimesRight(headers, times)
    ensures StoredRight(headers + [block.header], stored[|headers| := block])
    ensures TimesRight(headers + [block.header], times + [block.header.timestamp])
  {}

  lemma PushedIndex(hash: HeaderHasher, headers: seq<Header>, index: map<Hash32, nat>, header: Header)
    requires IndexRight(hash, headers, index) && hash(header) !in index
    ensures IndexRight(hash, headers + [header], index[hash(header) := |headers|])
  {}

  lemma PoppedLinked(hash: HeaderHasher, ch: Chain)
    requires Linked(hash, ch) && ch.height > 0
    ensures Linked(hash, Popped(hash, ch))
    ensures TipHash(hash, Popped(hash, ch)) == ch.headers[ch.height].prevHash
  {
    assert ch.stored[ch.height].header == ch.headers[ch.height];
    PoppedIndex(hash, ch.headers, ch.index);
    PoppedStored(ch.headers, ch.times, ch.stored);
    PoppedLinks(hash, ch.headers);
  }

  lemma PoppedLinks(hash: HeaderHasher, headers: seq<Header>)
    requires LinksRight(hash, headers) && |headers| > 1
    ensures LinksRight(hash, DropLast(headers))
    ensures hash(DropLast(headers)[|headers| - 2]) == headers[|headers| - 1].prevHash
  {}

  lemma PoppedStored(headers: seq<Header>, times: seq<u64>, stored: map<nat, Block>)
    requires StoredRight(headers, stored) && TimesRight(headers, times) && headers != []
    ensures StoredRight(DropLast(headers), stored - {|headers| - 1})
    ensures TimesRight(DropLast(headers), DropLast(times))
  {}

  lemma PoppedIndex(hash: HeaderHasher, headers: seq<Header>, index: map<Hash32, nat>)
    requires IndexRight(hash, headers, index) && headers != []
    ensures IndexRight(hash, DropLast(headers), index - {hash(headers[|headers| - 1])})
  {
    var n := |headers| - 1;
    forall h | h in index && h != hash(headers[n])
      ensures index[h] < n
    {
      assert hash(headers[index[h]]) == h;
    }
    forall i | 0 <= i < n
      ensures hash(headers[i]) != hash(headers[n])
    {
      assert index[hash(headers[i])] == i && index[hash(headers[n])] == n;
    }
  }

  lemma {:induction false} PoppedToLinked(hash: HeaderHasher, ch: Chain, target: nat)
    requires Linked(hash, ch)
    ensures Linked(hash, PoppedTo(hash, ch, target))
    ensures PoppedTo(hash, ch, target).height == Min(ch.height, target)
    ensures PoppedTo(hash, ch, target).headers == ch.headers[..Min(ch.height, target) + 1]
    decreases ch.height
  {
    if ch.height > target {
      PoppedLinked(hash, ch);
      PoppedToLinked(hash, Popped(hash, ch), target);
      PrefixOfPrefix(ch.headers, ch.height, Min(ch.height - 1, target) + 1);
    } else {
      assert ch.headers[..ch.height + 1] == ch.headers;
    }
  }

  lemma PrefixOfPrefix<T>(s: seq<T>, m: nat, n: nat)
    requires n <= m <= |s|
    ensures s[..m][..n] == s[..n]
  {}

  // Removing the block just appended gives back every structure as it was.
  lemma PopUndoesPush(hash: HeaderHasher, ch: Chain, block: Block)
    requires Linked(hash, ch) && hash(block.header) !in ch.index
    ensures Popped(hash, Pushed(ch, block, hash(block.header))) == ch
  {
    DropSnoc(ch.headers, block.header);
    DropSnoc(ch.times, block.header.timestamp);
    RemoveNew(ch.index, hash(block.header), ch.height + 1);
    RemoveNew(ch.stored, ch.height + 1, block);
  }

  lemma DropSnoc<T>(s: seq<T>, x: T)
    ensures DropLast(s + [x]) == s
  {}

  lemma RemoveNew<K, V>(m: map<K, V>, k: K, v: V)
    requires k !in m
    ensures m[k := v] - {k} == m
  {}

  // The first n blocks pushed one after the other.
  function PushedAll(hash: HeaderHasher, ch: Chain, blocks: seq<Block>, n: nat): Chain
    requires n <= |blocks|
  {
    if n == 0 then ch else Pushed(PushedAll(hash, ch, blocks, n - 1), blocks[n - 1], hash(blocks[n - 1].header))
  }

  ghost predicate Extending(hash: HeaderHasher, ch: Chain, block: Block) {
    block.header.prevHash == TipHash(hash, ch) && hash(block.header) !in ch.index
  }

  // Each block extends the tip it finds and was not known.
  ghost predicate Extends(hash: HeaderHasher, ch: Chain, blocks: seq<Block>, n: nat)
    requires n <= |blocks|
  {
    forall k :: 0 <= k < n ==> ExtendsAt(hash, ch, blocks, k)
  }

  ghost predicate ExtendsAt(hash: HeaderHasher, ch: Chain, blocks: seq<Block>, k: nat)
    requires k < |blocks|
  {
    Extending(hash, PushedAll(hash, ch, blocks, k), blocks[k])
  }

  lemma {:induction false} PushedAllLinked(hash: HeaderHasher, ch: Chain, blocks: seq<Block>, n: nat)
    requires n <= |blocks| && Linked(hash, ch) && Extends(hash, ch, blocks, n)
    ensures Linked(hash, PushedAll(hash, ch, blocks, n)) && PushedAll(hash, ch, blocks, n).height == ch.height + n
    decreases n
  {
    if n > 0 {
      PushedAllLinked(hash, ch, blocks, n - 1);
      var before := PushedAll(hash, ch, blocks, n - 1);
      assert ExtendsAt(hash, ch, blocks, n - 1);
      PushedLinked(hash, before, blocks[n - 1]);
      assert PushedAll(hash, ch, blocks, n) == Pushed(before, blocks[n - 1], hash(blocks[n - 1].header));
    }
  }

  lemma {:induction false} PopsOneBlock(hash: HeaderHasher, ch: Chain, blocks: seq<Block>, n: nat)
    requires 0 < n <= |blocks| && Linked(hash, ch) && Extends(hash, ch, blocks, n)
    ensures PushedAll(hash, ch, blocks, n).height == ch.height + n
    ensures Popped(hash, PushedAll(hash, ch, blocks, n)) == PushedAll(hash, ch, blocks, n - 1)
  {
    var before := PushedAll(hash, ch, blocks, n - 1);
    assert Linked(hash, before) && before.height == ch.height + (n - 1) by { PushedAllLinked(hash, ch, blocks, n - 1); }
    assert ExtendsAt(hash, ch, blocks, n - 1);
    PopUndoesPush(hash, before, blocks[n - 1]);
    assert PushedAll(hash, ch, blocks, n) == Pushed(before, blocks[n - 1], hash(blocks[n - 1].header));
  }

  // Pushing any number of blocks and going back to the old height restores the chain.
  lemma {:induction false} RollbackRestoresChain(hash: HeaderHasher, ch: Chain, blocks: seq<Block>, n: nat)
    requires n <= |blocks| && Linked(hash, ch) && Extends(hash, ch, blocks, n)
    ensures PoppedTo(hash, PushedAll(hash, ch, blocks, n), ch.height) == ch
    decreases n
  {
    if n > 0 {
      PopsOneBlock(hash, ch, blocks, n);
      RollbackRestoresChain(hash, ch, blocks, n - 1);
    }
  }

  // ---- Times ----

  // After genesis, times increase. Genesis itself may be later than its successor.
  ghost predicate Rising(times: seq<u64>) {
    forall i, j :: 0 < i < j < |times| ==> times[i] < times[j]
  }

  function ParentTime(ch: Chain): Option<u64> {
    if ch.height > 0 && ch.headers != [] then Some(ch.headers[|ch.headers| - 1].timestamp) else None
  }

  predicate TimeOk(ch: Chain, timestamp: u64, now: u64) {
    TimestampOk(timestamp, ParentTime(ch), Median(ch.times), now)
  }

  lemma {:induction false} MostlyBelow(times: seq<u64>, w: seq<u64>, k: nat, tip: u64)
    requires Rising(times) && times != [] && tip == times[|times| - 1]
    requires k + |w| <= |times| && w == times[k..k + |w|]
    ensures CountBelow(w, tip + 1) >= |w| - 1
    ensures k > 0 ==> CountBelow(w, tip + 1) >= |w|
    decreases |w|
  {
    if w != [] {
      var n := |w| - 1;
      assert w[..n] == times[k..k + n];
      MostlyBelow(times, w[..n], k, tip);
      assert w[n] == times[k + n];
    }
  }

  // The median of the window is at most the time of the tip, even while a genesis time that
  // lies ahead is still in the window.
  lemma MedianBelowTip(times: seq<u64>)
    requires Rising(times) && |times| >= 3
    ensures Median(times).Some? && Median(times).value <= times[|times| - 1]
  {
    var w := Window(times);
    var k := |times| - |w|;
    assert w == times[k..k + |w|];
    MostlyBelow(times, w, k, times[|times| - 1]);
    MedianWithin(times, times[|times| - 1]);
  }

  // So the median test never rejects what the parent test accepts.
  lemma MedianTestIsImplied(hash: HeaderHasher, ch: Chain, timestamp: u64, now: u64)
    requires Linked(hash, ch) && Rising(ch.times)
    ensures TimeOk(ch, timestamp, now) <==> TimestampOk(timestamp, ParentTime(ch), None, now)
  {
    if |ch.times| >= 3 {
      MedianBelowTip(ch.times);
    }
  }

  lemma RisingKept(hash: HeaderHasher, ch: Chain, timestamp: u64, now: u64)
    requires Linked(hash, ch) && Rising(ch.times) && TimeOk(ch, timestamp, now)
    ensures Rising(ch.times + [timestamp])
  {
    RisingSnoc(ch.times, timestamp);
  }

  lemma RisingSnoc(times: seq<u64>, timestamp: u64)
    requires Rising(times) && (|times| > 1 ==> times[|times| - 1] < timestamp)
    ensures Rising(times + [timestamp])
  {
    forall i | 0 < i < |times|
      ensures times[i] < timestamp
    {}
  }

  // ---- The difficulty of the next block ----

  function LastDifficulty(headers: seq<Header>): Target {
    if headers == [] then GENESIS_TARGET else headers[|headers| - 1].difficulty
  }

  predicate RetargetDue(height: nat) {
    height != 0 && (height + 1) % DIFFICULTY_ADJUSTMENT_INTERVAL == 0
  }

  // The retarget over the last full window.
  function Retargeted(times: seq<u64>, last: Target): Target
    requires |times| >= DIFFICULTY_ADJUSTMENT_INTERVAL
  {
    Adjust(times[|times| - DIFFICULTY_ADJUSTMENT_INTERVAL..], last)
  }

  // Computed afresh, without the memo.
  function NextDifficulty(ch: Chain): Target {
    var last := LastDifficulty(ch.headers);
    if !RetargetDue(ch.height) || |ch.times| < DIFFICULTY_ADJUSTMENT_INTERVAL then last else Retargeted(ch.times, last)
  }

  type Memo = Option<(nat, Target)>

  // With the memo: what is returned and what is remembered.
  function NextDifficultyMemo(ch: Chain, memo: Memo): (Target, Memo) {
    var last := LastDifficulty(ch.headers);
    if !RetargetDue(ch.height) then (last, memo)
    else if memo.Some? && memo.value.0 == ch.height then (memo.value.1, memo)
    else if |ch.times| < DIFFICULTY_ADJUSTMENT_INTERVAL then (last, memo)
    else (Retargeted(ch.times, last), Some((ch.height, Retargeted(ch.times, last))))
  }

  ghost predicate MemoRight(ch: Chain, memo: Memo) {
    memo.Some? && memo.value.0 == ch.height && RetargetDue(ch.height) ==> memo.value.1 == NextDifficulty(ch)
  }

  lemma MemoAgrees(ch: Chain, memo: Memo)
    requires MemoRight(ch, memo)
    ensures NextDifficultyMemo(ch, memo).0 == NextDifficulty(ch)
    ensures MemoRight(ch, NextDifficultyMemo(ch, memo).1)
  {}
}
