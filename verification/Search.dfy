// The lock-free nonce search of several workers, one step for every access to what they share.

module Search {
  import opened Blocks
  import opened Bytes
  import opened ShareSync
  import opened Targets
  import opened Transactions
  import opened Wrappers

  // What all workers read and never change: the hash and the prefilter verdict of every
  // nonce, and the targets. Worker t of `threads` starts at nonce t.
  datatype Hunt = Hunt(
    hashAt: nat -> Hash32,
    prefiltered: nat -> bool,
    difficulty: Target,
    shareTarget: Target,
    threads: nat,
    batch: u64)

  // The search for a header splices each nonce into a fixed buffer.
  function HuntFor(c: Crypto, header: Header, threads: nat, batch: u64): Hunt {
    var bytes := HeaderBytes(header);
    Hunt(nonce => c.argon(bytes[..108] + LittleEndian(nonce, 8) + bytes[116..]),
         nonce => PrefilterPasses(c, bytes, nonce % U64_LIMIT, EasedTo(EasedTo(header.difficulty, SHARE_DIFFICULTY_RATIO), SHARE_PREFILTER_RATIO)),
         header.difficulty, EasedTo(header.difficulty, SHARE_DIFFICULTY_RATIO), threads, batch)
  }

  // The search is for the header it was given: each nonce hashes to the header's hash under it,
  // a block meets the header's target, a share one 256 times as large, and the prefilter tests
  // the header as it was handed out against one 4096 times as large.
  lemma HuntsHeader(c: Crypto, header: Header, threads: nat, batch: u64, nonce: u64)
    ensures var h := HuntFor(c, header, threads, batch);
      && h.hashAt(nonce) == HeaderHash(c, header.(nonce := nonce)) && h.difficulty == header.difficulty
      && Num(h.shareTarget) == Min(Pow(256, 32) - 1, 256 * Num(header.difficulty))
      && (exists loose: Target :: Num(loose) == Min(Pow(256, 32) - 1, 4096 * Num(header.difficulty))
            && h.prefiltered(nonce) == PrefilterPasses(c, HeaderBytes(header), nonce, loose))
  {
    SpliceIsNonce(header, nonce);
    DivUnique(nonce, U64_LIMIT, 0, nonce);
    var loose := EasedTo(EasedTo(header.difficulty, SHARE_DIFFICULTY_RATIO), SHARE_PREFILTER_RATIO);
    assert Num(loose) == Min(Pow(256, 32) - 1, 4096 * Num(header.difficulty));
  }

  // A worker looks at a nonce, or hashes one that passed the checks. With a block it has
  // stored the nonce and must still post the hash, then raise the flag; with a share it holds
  // the lock and has written the hash but not yet the nonce. At last it stops before a nonce.
  datatype Worker =
    | Looking(nonce: nat)
    | Hashing(nonce: nat)
    | Posting(nonce: nat)
    | Flagging(nonce: nat)
    | Storing(nonce: nat)
    | Stopped(nonce: nat)

  // `lock` names the worker that holds the lock on the best hash across a step; `aborted`
  // records that some worker stopped because the chain moved.
  datatype State = State(best: Hash32, nonce: nat, found: bool, aborted: bool, lock: Option<nat>, workers: seq<Worker>)

  function Start(h: Hunt): State {
    State(FULL_HASH, 0, false, false, None, seq(h.threads, i requires 0 <= i < h.threads => Looking(i)))
  }

  predicate MeetsBlock(h: Hunt, hash: Hash32) { Num(hash) <= Num(h.difficulty) }

  predicate MeetsShare(h: Hunt, hash: Hash32) { Num(hash) <= Num(h.shareTarget) }

  // `moved` is what the worker reads of the abort flag and the generation; one that is
  // `blind` has not seen the found flag yet.
  datatype Move = Move(worker: nat, moved: bool, blind: bool)

  function Step(h: Hunt, s: State, t: nat, moved: bool, blind: bool): (q: State)
    requires t < |s.workers|
    ensures |q.workers| == |s.workers|
  {
    var ws := s.workers;
    match ws[t]
    case Stopped(_) => s
    case Looking(n) =>
      if n >= h.batch || (s.found && !blind) then State(s.best, s.nonce, s.found, s.aborted, s.lock, ws[t := Stopped(n)])
      else if moved then State(s.best, s.nonce, s.found, true, s.lock, ws[t := Stopped(n)])
      else if h.prefiltered(n) then State(s.best, s.nonce, s.found, s.aborted, s.lock, ws[t := Hashing(n)])
      else State(s.best, s.nonce, s.found, s.aborted, s.lock, ws[t := Looking(n + h.threads)])
    case Hashing(n) =>
      if MeetsBlock(h, h.hashAt(n)) then State(s.best, n, s.found, s.aborted, s.lock, ws[t := Posting(n)])
      else if MeetsShare(h, h.hashAt(n)) && s.lock.Some? then s
      else if MeetsShare(h, h.hashAt(n)) && LexLess(h.hashAt(n), s.best) then
        State(h.hashAt(n), s.nonce, s.found, s.aborted, Some(t), ws[t := Storing(n)])
      else State(s.best, s.nonce, s.found, s.aborted, s.lock, ws[t := Looking(n + h.threads)])
    case Posting(n) =>
      if s.lock.Some? then s else State(h.hashAt(n), s.nonce, s.found, s.aborted, s.lock, ws[t := Flagging(n)])
    case Flagging(n) => State(s.best, s.nonce, true, s.aborted, s.lock, ws[t := Stopped(n + h.threads)])
    case Storing(n) => State(s.best, n, s.found, s.aborted, None, ws[t := Looking(n + h.threads)])
  }

  function Run(h: Hunt, moves: seq<Move>): State
    ensures |Run(h, moves).workers| == h.threads
  {
    if moves == [] then Start(h)
    else
      var s, m := Run(h, moves[..|moves| - 1]), moves[|moves| - 1];
      if m.worker < h.threads then Step(h, s, m.worker, m.moved, m.blind) else s
  }

  // All workers have joined.
  ghost predicate Ended(s: State) {
    forall t :: 0 <= t < |s.workers| ==> s.workers[t].Stopped?
  }

  // A worker that sees the found flag or the end of its batch stops, one that sees the chain
  // move aborts, and one that has raised the flag looks no further.
  lemma StopsWhen(h: Hunt, s: State, t: nat, moved: bool, blind: bool)
    requires t < |s.workers|
    ensures s.workers[t].Looking? ==>
      (Step(h, s, t, moved, blind).workers[t].Stopped? <==> (s.found && !blind) || moved || s.workers[t].nonce >= h.batch)
    ensures s.workers[t].Flagging? ==> Step(h, s, t, moved, blind).workers[t].Stopped? && Step(h, s, t, moved, blind).found
    ensures s.workers[t].Stopped? ==> Step(h, s, t, moved, blind) == s
  {}

  // ---- Byte order is numeric order ----

  lemma {:induction false} LexIsNumeric(a: seq<byte>, b: seq<byte>)
    requires |a| == |b|
    ensures LexLess(a, b) <==> Val(a, 256) < Val(b, 256)
    decreases |a|
  {
    if a != [] {
      var p := Pow(256, |a| - 1);
      assert a == [a[0]] + a[1..] && b == [b[0]] + b[1..];
      ValCons(a[0], a[1..], 256);
      ValCons(b[0], b[1..], 256);
      ValBound(a[1..], 256);
      ValBound(b[1..], 256);
      LexIsNumeric(a[1..], b[1..]);
      LeadingDigitDecides(a[0], b[0], p);
      LeadingDigitDecides(b[0], a[0], p);
    }
  }

  lemma LeadingDigitDecides(a: int, b: int, p: nat)
    ensures a < b ==> a * p + p <= b * p
  {
    if a < b {
      MulMono(a + 1, b, p);
      MulDistrib(a, 1, p);
    }
  }

  lemma LexIsNum(a: Hash32, b: Hash32)
    ensures LexLess(a, b) <==> Num(a) < Num(b)
  {
    LexIsNumeric(a, b);
  }

  lemma {:induction false} FullIsLargest(a: Hash32)
    ensures Num(a) <= Num(FULL_HASH)
  {
    MaxTargetVal(32);
  }

  // Block hits are share hits.
  ghost predicate Nested(h: Hunt) { Num(h.difficulty) <= Num(h.shareTarget) }

  lemma {:induction false} HitsNested(c: Crypto, header: Header, threads: nat, batch: u64)
    ensures Nested(HuntFor(c, header, threads, batch))
  {
    MulMono(1, SHARE_DIFFICULTY_RATIO, Num(header.difficulty));
    FullIsLargest(header.difficulty);
    MaxTargetVal(32);
  }

  // ---- What every interleaving keeps ----

  predicate Hit(h: Hunt, n: nat) { n < h.batch && h.prefiltered(n) && MeetsShare(h, h.hashAt(n)) }

  // The hash is that of some hit.
  ghost predicate Backed(h: Hunt, hash: Hash32) {
    exists n: nat :: Hit(h, n) && h.hashAt(n) == hash
  }

  ghost predicate BestRight(h: Hunt, s: State) { s.best == FULL_HASH || Backed(h, s.best) }

  ghost predicate NonceRight(h: Hunt, s: State) { s.nonce == 0 || Hit(h, s.nonce) }

  // Worker t only ever holds nonces congruent to t, and what it is about to publish is a hit.
  ghost predicate OwnNonce(h: Hunt, s: State, t: nat)
    requires h.threads > 0 && t < |s.workers|
  {
    var w := s.workers[t];
    && w.nonce % h.threads == t
    && (w.Hashing? || w.Posting? || w.Flagging? || w.Storing? ==> w.nonce < h.batch && h.prefiltered(w.nonce))
    && (w.Posting? || w.Flagging? ==> MeetsBlock(h, h.hashAt(w.nonce)))
    && (w.Storing? ==> !MeetsBlock(h, h.hashAt(w.nonce)) && MeetsShare(h, h.hashAt(w.nonce)))
  }

  // Exactly the worker that still has to store its nonce holds the lock, and nobody changes
  // the best hash meanwhile. A posted hash stays a block's.
  ghost predicate LockRight(h: Hunt, s: State, t: nat)
    requires t < |s.workers|
  {
    && (s.workers[t].Storing? <==> s.lock == Some(t))
    && (s.workers[t].Storing? ==> s.best == h.hashAt(s.workers[t].nonce))
    && (s.workers[t].Flagging? ==> MeetsBlock(h, s.best) && Backed(h, s.best))
  }

  // A worker that stopped without finding or aborting went through its whole batch.
  ghost predicate StoppedRight(h: Hunt, s: State, t: nat)
    requires t < |s.workers|
  {
    s.workers[t].Stopped? ==> s.found || s.aborted || s.workers[t].nonce >= h.batch
  }

  ghost predicate WorkerRight(h: Hunt, s: State, t: nat)
    requires h.threads > 0 && t < |s.workers|
  {
    OwnNonce(h, s, t) && LockRight(h, s, t) && StoppedRight(h, s, t)
  }

  // Nonce m of worker t has been dealt with.
  ghost predicate Passed(s: State, t: nat, m: nat)
    requires t < |s.workers|
  {
    m < s.workers[t].nonce
  }

  // A nonce dealt with that passes the prefilter is no block unless one was found, and is no
  // better share than the published one.
  ghost predicate Covered(h: Hunt, s: State, m: nat)
    requires h.threads > 0 && |s.workers| == h.threads
  {
    m < h.batch && h.prefiltered(m) && Passed(s, m % h.threads, m) ==>
      && (MeetsBlock(h, h.hashAt(m)) ==> s.found)
      && (!s.found && MeetsShare(h, h.hashAt(m)) ==> Num(s.best) <= Num(h.hashAt(m)))
  }

  // Nonce and hash belong together.
  ghost predicate Matched(h: Hunt, s: State) {
    (!s.found && s.best == FULL_HASH && s.nonce == 0) || (Hit(h, s.nonce) && s.best == h.hashAt(s.nonce))
  }

  // Worker t is on its way to a found block.
  ghost predicate Claims(s: State, t: nat)
    requires t < |s.workers|
  {
    s.workers[t].Posting? || s.workers[t].Flagging?
  }

  // As long as no worker claims a block, nonce and hash belong together between publications.
  ghost predicate PairRight(h: Hunt, s: State) {
    !s.found && s.lock.None? && (forall t :: 0 <= t < |s.workers| ==> !Claims(s, t)) ==> Matched(h, s)
  }

  // A single worker has them together whenever it is not publishing.
  ghost predicate SoloRight(h: Hunt, s: State) {
    |s.workers| == 1 ==>
      match s.workers[0]
      case Posting(n) => s.nonce == n
      case Flagging(n) => s.nonce == n && s.best == h.hashAt(n)
      case Storing(n) => s.best == h.hashAt(n)
      case _ => Matched(h, s)
  }

  ghost predicate HuntInv(h: Hunt, s: State) {
    && Nested(h) && h.threads > 0 && |s.workers| == h.threads
    && BestRight(h, s) && NonceRight(h, s) && PairRight(h, s) && SoloRight(h, s)
    && FoundRight(h, s) && HolderRight(s) && AllRight(h, s) && AllCovered(h, s)
  }

  ghost predicate FoundRight(h: Hunt, s: State) { s.found ==> MeetsBlock(h, s.best) && Backed(h, s.best) }

  ghost predicate HolderRight(s: State) {
    s.lock.Some? ==> s.lock.value < |s.workers| && s.workers[s.lock.value].Storing?
  }

  ghost predicate AllRight(h: Hunt, s: State)
    requires h.threads == |s.workers|
  {
    forall t :: 0 <= t < h.threads ==> WorkerRight(h, s, t)
  }

  ghost predicate AllCovered(h: Hunt, s: State)
    requires h.threads == |s.workers| > 0
  {
    forall m: nat :: Covered(h, s, m)
  }

  lemma {:induction false} NextNonce(n: nat, k: nat)
    requires k > 0
    ensures (n + k) % k == n % k
  {
    DivModOf(n, k);
    MulDistrib(n / k, 1, k);
    DivUnique(n + k, k, n / k + 1, n % k);
  }

  // Between two nonces of one worker there is no further nonce of that worker.
  lemma {:induction false} NoNonceBetween(n: nat, m: nat, k: nat)
    requires k > 0 && n % k == m % k && n < m
    ensures n + k <= m
  {
    DivModOf(n, k);
    DivModOf(m, k);
    if m / k <= n / k {
      MulMono(m / k, n / k, k);
    } else {
      MulMono(n / k + 1, m / k, k);
      MulDistrib(n / k, 1, k);
    }
  }

  predicate Improves(h: Hunt, s: State, w: Worker) {
    w.Hashing? && !MeetsBlock(h, h.hashAt(w.nonce)) && MeetsShare(h, h.hashAt(w.nonce)) && LexLess(h.hashAt(w.nonce), s.best)
  }

  // What a step can change and by whom.
  lemma {:induction false} StepPublishes(h: Hunt, s: State, t: nat, moved: bool, blind: bool)
    requires t < |s.workers|
    ensures var w, q := s.workers[t], Step(h, s, t, moved, blind);
      && (q.best != s.best ==> s.lock.None? && q.best == h.hashAt(w.nonce) && (w.Posting? || Improves(h, s, w)))
      && (q.nonce != s.nonce ==> q.nonce == w.nonce && (w.Storing? || (w.Hashing? && MeetsBlock(h, h.hashAt(w.nonce)))))
  {}

  lemma {:induction false} StepSignals(h: Hunt, s: State, t: nat, moved: bool, blind: bool)
    requires t < |s.workers|
    ensures var w, q := s.workers[t], Step(h, s, t, moved, blind);
      && q.workers == s.workers[t := q.workers[t]]
      && (q.lock != s.lock ==> w.Storing? || (s.lock.None? && q.lock == Some(t) && q.workers[t].Storing?))
      && (s.found ==> q.found) && (s.aborted ==> q.aborted) && (q.found && !s.found ==> w.Flagging?)
  {}

  lemma {:induction false} BestBacked(h: Hunt, s: State, t: nat, moved: bool, blind: bool)
    requires Nested(h) && h.threads == |s.workers| && t < h.threads && WorkerRight(h, s, t)
    ensures var q := Step(h, s, t, moved, blind);
      (q.best != s.best ==> Backed(h, q.best)) && (q.nonce != s.nonce ==> Hit(h, q.nonce))
  {
    StepPublishes(h, s, t, moved, blind);
    var n, q := s.workers[t].nonce, Step(h, s, t, moved, blind);
    if q.best != s.best || q.nonce != s.nonce {
      assert Hit(h, n);
    }
  }

  lemma {:induction false} BestKept(h: Hunt, s: State, t: nat, moved: bool, blind: bool)
    requires Nested(h) && h.threads == |s.workers| && t < h.threads && WorkerRight(h, s, t)
    requires BestRight(h, s) && NonceRight(h, s)
    ensures BestRight(h, Step(h, s, t, moved, blind)) && NonceRight(h, Step(h, s, t, moved, blind))
  {
    BestBacked(h, s, t, moved, blind);
  }

  lemma {:induction false} FoundKept(h: Hunt, s: State, t: nat, moved: bool, blind: bool)
    requires Nested(h) && h.threads == |s.workers| && t < h.threads && WorkerRight(h, s, t)
    requires FoundRight(h, s)
    ensures FoundRight(h, Step(h, s, t, moved, blind))
  {
    StepPublishes(h, s, t, moved, blind);
    StepSignals(h, s, t, moved, blind);
    LexIsNum(h.hashAt(s.workers[t].nonce), s.best);
    BestBacked(h, s, t, moved, blind);
  }

  lemma {:induction false} OthersKept(h: Hunt, s: State, t: nat, moved: bool, blind: bool, u: nat)
    requires Nested(h) && h.threads == |s.workers| && t < h.threads && u < h.threads && u != t
    requires WorkerRight(h, s, u) && WorkerRight(h, s, t)
    ensures WorkerRight(h, Step(h, s, t, moved, blind), u)
  {
    StepPublishes(h, s, t, moved, blind);
    StepSignals(h, s, t, moved, blind);
    LexIsNum(h.hashAt(s.workers[t].nonce), s.best);
    BestBacked(h, s, t, moved, blind);
  }

  lemma {:induction false} OwnKept(h: Hunt, s: State, t: nat, moved: bool, blind: bool)
    requires Nested(h) && h.threads == |s.workers| && t < h.threads && WorkerRight(h, s, t)
    ensures WorkerRight(h, Step(h, s, t, moved, blind), t)
  {
    if s.workers[t].Posting? {
      assert Hit(h, s.workers[t].nonce);
    }
    NextNonce(s.workers[t].nonce, h.threads);
  }

  lemma {:induction false} CoverKept(h: Hunt, s: State, t: nat, moved: bool, blind: bool, m: nat)
    requires h.threads == |s.workers| && t < h.threads && Covered(h, s, m) && WorkerRight(h, s, t)
    requires Nested(h)
    ensures Covered(h, Step(h, s, t, moved, blind), m)
  {
    var q := Step(h, s, t, moved, blind);
    var n := s.workers[t].nonce;
    LexIsNum(h.hashAt(n), s.best);
    if m % h.threads == t && Passed(q, t, m) && !Passed(s, t, m) {
      if n < m {
        NoNonceBetween(n, m, h.threads);
      }
    }
  }

  // The last claim ends in a found block, so it is only publications of shares that can end
  // without one.
  lemma {:induction false} PairKept(h: Hunt, s: State, t: nat, moved: bool, blind: bool)
    requires Nested(h) && h.threads == |s.workers| && t < h.threads && WorkerRight(h, s, t) && PairRight(h, s)
    ensures PairRight(h, Step(h, s, t, moved, blind))
  {
    var w, q := s.workers[t], Step(h, s, t, moved, blind);
    StepPublishes(h, s, t, moved, blind);
    StepSignals(h, s, t, moved, blind);
    if !q.found && q.lock.None? && forall u :: 0 <= u < |q.workers| ==> !Claims(q, u) {
      assert !Claims(q, t);
      if w.Storing? {
        assert Hit(h, w.nonce);
      } else {
        forall u | 0 <= u < |s.workers|
          ensures !Claims(s, u)
        {
          assert !Claims(q, u);
        }
      }
    }
  }

  lemma {:induction false} SoloKept(h: Hunt, s: State, t: nat, moved: bool, blind: bool)
    requires Nested(h) && h.threads == |s.workers| && t < h.threads && WorkerRight(h, s, t) && SoloRight(h, s)
    ensures SoloRight(h, Step(h, s, t, moved, blind))
  {
    if h.threads == 1 {
      var w, q := s.workers[0], Step(h, s, 0, moved, blind);
      if w.Flagging? || w.Storing? {
        assert Hit(h, w.nonce) && Matched(h, q);
      }
    }
  }

  lemma {:induction false} LockKept(h: Hunt, s: State, t: nat, moved: bool, blind: bool)
    requires h.threads == |s.workers| && t < h.threads && WorkerRight(h, s, t)
    requires HolderRight(s)
    ensures HolderRight(Step(h, s, t, moved, blind))
  {}

  lemma {:induction false} WorkersKept(h: Hunt, s: State, t: nat, moved: bool, blind: bool)
    requires Nested(h) && h.threads == |s.workers| && t < h.threads && AllRight(h, s)
    ensures AllRight(h, Step(h, s, t, moved, blind))
  {
    forall u | 0 <= u < h.threads
      ensures WorkerRight(h, Step(h, s, t, moved, blind), u)
    {
      assert WorkerRight(h, s, t) && WorkerRight(h, s, u);
      if u == t {
        OwnKept(h, s, t, moved, blind);
      } else {
        OthersKept(h, s, t, moved, blind, u);
      }
    }
  }

  lemma {:induction false} CoversKept(h: Hunt, s: State, t: nat, moved: bool, blind: bool)
    requires Nested(h) && h.threads == |s.workers| && t < h.threads && WorkerRight(h, s, t) && AllCovered(h, s)
    ensures AllCovered(h, Step(h, s, t, moved, blind))
  {
    forall m: nat
      ensures Covered(h, Step(h, s, t, moved, blind), m)
    {
      assert Covered(h, s, m);
      CoverKept(h, s, t, moved, blind, m);
    }
  }

  lemma {:induction false} StepKeeps(h: Hunt, s: State, t: nat, moved: bool, blind: bool)
    requires HuntInv(h, s) && t < h.threads
    ensures HuntInv(h, Step(h, s, t, moved, blind))
  {
    assert WorkerRight(h, s, t);
    BestKept(h, s, t, moved, blind);
    FoundKept(h, s, t, moved, blind);
    PairKept(h, s, t, moved, blind);
    SoloKept(h, s, t, moved, blind);
    LockKept(h, s, t, moved, blind);
    WorkersKept(h, s, t, moved, blind);
    CoversKept(h, s, t, moved, blind);
  }

  lemma {:induction false} StartRight(h: Hunt)
    requires h.threads > 0 && Nested(h)
    ensures HuntInv(h, Start(h))
  {
    forall m: nat
      ensures Covered(h, Start(h), m)
    {
      DivModOf(m, h.threads);
      MulMono(0, m / h.threads, h.threads);
    }
    forall t | 0 <= t < h.threads
      ensures WorkerRight(h, Start(h), t)
    {
      DivUnique(t, h.threads, 0, t);
    }
  }

  lemma {:induction false} RunKeeps(h: Hunt, moves: seq<Move>)
    requires h.threads > 0 && Nested(h)
    ensures HuntInv(h, Run(h, moves))
  {
    if moves == [] {
      StartRight(h);
    } else {
      var m := moves[|moves| - 1];
      RunKeeps(h, moves[..|moves| - 1]);
      if m.worker < h.threads {
        StepKeeps(h, Run(h, moves[..|moves| - 1]), m.worker, m.moved, m.blind);
      }
    }
  }

  // ---- What the caller gets ----

  // However the workers interleave, the published hash is that of some hit, the published
  // nonce is some hit's, and with the flag raised the hash is a block's.
  lemma {:induction false} ResultShape(h: Hunt, moves: seq<Move>)
    requires h.threads > 0 && Nested(h)
    ensures var s := Run(h, moves); BestRight(h, s) && NonceRight(h, s) && FoundRight(h, s)
  {
    RunKeeps(h, moves);
  }

  // When every worker has stopped, none because of an abort, and no block was found, there
  // is none below the batch limit among the nonces that pass the prefilter, and the best
  // share reported is the best there is.
  lemma {:induction false} SearchIsExhaustive(h: Hunt, moves: seq<Move>, m: nat)
    requires h.threads > 0 && Nested(h) && m < h.batch && h.prefiltered(m)
    requires var s := Run(h, moves); !s.found && !s.aborted && Ended(s)
    ensures !MeetsBlock(h, h.hashAt(m))
    ensures MeetsShare(h, h.hashAt(m)) ==> Num(Run(h, moves).best) <= Num(h.hashAt(m))
  {
    RunKeeps(h, moves);
    var s, t := Run(h, moves), m % h.threads;
    assert WorkerRight(h, s, t) && Covered(h, s, m);
  }

  // A search that ends without a block publishes a nonce with its own hash.
  lemma {:induction false} UnfoundIsMatched(h: Hunt, moves: seq<Move>)
    requires h.threads > 0 && Nested(h) && Ended(Run(h, moves)) && !Run(h, moves).found
    ensures Matched(h, Run(h, moves))
  {
    RunKeeps(h, moves);
  }

  lemma {:induction false} SoloIsMatched(h: Hunt, moves: seq<Move>)
    requires h.threads == 1 && Nested(h) && Ended(Run(h, moves))
    ensures Matched(h, Run(h, moves))
  {
    RunKeeps(h, moves);
  }

  lemma {:induction false} OneNonceIsMatched(h: Hunt, moves: seq<Move>)
    requires h.threads > 0 && Nested(h) && h.batch <= 1
    ensures Matched(h, Run(h, moves))
  {
    RunKeeps(h, moves);
  }

  // ---- Two blocks at once ----

  // Worker 1 publishes its block between the two stores of worker 0.
  function Overlap(): seq<Move> {
    [Move(0, false, false), Move(0, false, false), Move(1, false, false), Move(1, false, false),
     Move(1, false, false), Move(0, false, false), Move(1, false, false), Move(0, false, false)]
  }

  // Then every worker looks once more.
  function Rest(n: nat): seq<Move> {
    if n == 0 then [] else Rest(n - 1) + [Move(n - 1, false, false)]
  }

  ghost predicate Rivals(h: Hunt) {
    && h.threads >= 2 && h.batch >= 2 && h.prefiltered(0) && h.prefiltered(1)
    && MeetsBlock(h, h.hashAt(0)) && MeetsBlock(h, h.hashAt(1))
  }

  lemma RunSnoc(h: Hunt, moves: seq<Move>, m: Move)
    requires m.worker < h.threads
    ensures Run(h, moves + [m]) == Step(h, Run(h, moves), m.worker, m.moved, m.blind)
  {
    assert (moves + [m])[..|moves|] == moves;
  }

  ghost predicate Shape(h: Hunt, s: State, best: Hash32, nonce: nat, found: bool, first: Worker, second: Worker) {
    && s.best == best && s.nonce == nonce && s.found == found && s.lock == None && |s.workers| == h.threads >= 2
    && s.workers[0] == first && s.workers[1] == second
    && (forall t :: 2 <= t < h.threads ==> s.workers[t] == Looking(t))
  }

  // A worker on its way to a found block.
  function Onward(h: Hunt, w: Worker): Worker {
    match w
    case Looking(n) => Hashing(n)
    case Hashing(n) => Posting(n)
    case Posting(n) => Flagging(n)
    case Flagging(n) => Stopped(n + h.threads)
    case _ => w
  }

  lemma OverlapStep(h: Hunt, s: State, t: nat, best: Hash32, nonce: nat, found: bool, first: Worker, second: Worker)
    requires Shape(h, s, best, nonce, found, first, second) && Rivals(h) && t < 2
    requires s.workers[t].nonce < 2 && !s.workers[t].Storing? && (s.workers[t].Looking? ==> !found)
    ensures var w, q := s.workers[t], Step(h, s, t, false, false);
      Shape(h, q, if w.Posting? then h.hashAt(w.nonce) else best, if w.Hashing? then w.nonce else nonce, found || w.Flagging?,
            if t == 0 then Onward(h, first) else first, if t == 1 then Onward(h, second) else second)
  {
    StepSignals(h, s, t, false, false);
    assert h.prefiltered(s.workers[t].nonce) && MeetsBlock(h, h.hashAt(s.workers[t].nonce));
  }

  // The next move of the overlap, by worker t.
  lemma {:induction false} OverlapNext(h: Hunt, k: nat, t: nat, best: Hash32, nonce: nat, found: bool, first: Worker, second: Worker)
    requires k < 8 && Overlap()[k] == Move(t, false, false) && t < 2 && Rivals(h)
    requires Shape(h, Run(h, Overlap()[..k]), best, nonce, found, first, second)
    requires var w := if t == 0 then first else second; w.nonce < 2 && !w.Storing? && (w.Looking? ==> !found)
    ensures var w := if t == 0 then first else second;
      Shape(h, Run(h, Overlap()[..k + 1]), if w.Posting? then h.hashAt(w.nonce) else best, if w.Hashing? then w.nonce else nonce,
            found || w.Flagging?, if t == 0 then Onward(h, first) else first, if t == 1 then Onward(h, second) else second)
  {
    assert Overlap()[..k + 1] == Overlap()[..k] + [Move(t, false, false)];
    RunSnoc(h, Overlap()[..k], Move(t, false, false));
    OverlapStep(h, Run(h, Overlap()[..k]), t, best, nonce, found, first, second);
  }

  lemma {:induction false} OverlapStarts(h: Hunt)
    requires Rivals(h)
    ensures Shape(h, Run(h, Overlap()[..2]), FULL_HASH, 0, false, Posting(0), Looking(1))
  {
    assert Run(h, Overlap()[..0]) == Start(h);
    OverlapNext(h, 0, 0, FULL_HASH, 0, false, Looking(0), Looking(1));
    OverlapNext(h, 1, 0, FULL_HASH, 0, false, Hashing(0), Looking(1));
  }

  lemma {:induction false} OverlapClaims(h: Hunt)
    requires Rivals(h)
    ensures Shape(h, Run(h, Overlap()[..4]), FULL_HASH, 1, false, Posting(0), Posting(1))
  {
    OverlapStarts(h);
    OverlapNext(h, 2, 1, FULL_HASH, 0, false, Posting(0), Looking(1));
    OverlapNext(h, 3, 1, FULL_HASH, 0, false, Posting(0), Hashing(1));
  }

  lemma {:induction false} OverlapPosts(h: Hunt)
    requires Rivals(h)
    ensures Shape(h, Run(h, Overlap()[..6]), h.hashAt(0), 1, false, Flagging(0), Flagging(1))
  {
    OverlapClaims(h);
    OverlapNext(h, 4, 1, FULL_HASH, 1, false, Posting(0), Posting(1));
    OverlapNext(h, 5, 0, h.hashAt(1), 1, false, Posting(0), Flagging(1));
  }

  lemma {:induction false} OverlapRuns(h: Hunt)
    requires Rivals(h)
    ensures Shape(h, Run(h, Overlap()), h.hashAt(0), 1, true, Stopped(h.threads), Stopped(1 + h.threads))
  {
    OverlapPosts(h);
    OverlapNext(h, 6, 1, h.hashAt(0), 1, false, Flagging(0), Flagging(1));
    OverlapNext(h, 7, 0, h.hashAt(0), 1, true, Flagging(0), Stopped(1 + h.threads));
    assert Overlap()[..8] == Overlap();
  }

  // Both blocks are out, and the workers from k on may still look.
  ghost predicate Resting(h: Hunt, s: State, k: nat) {
    && s.best == h.hashAt(0) && s.nonce == 1 && s.found && |s.workers| == h.threads
    && (forall t :: 0 <= t < h.threads ==> s.workers[t].Stopped? || (s.workers[t].Looking? && t >= k))
  }

  lemma RestStep(h: Hunt, s: State, k: nat)
    requires Resting(h, s, k) && k < h.threads
    ensures Resting(h, Step(h, s, k, false, false), k + 1)
  {}

  lemma {:induction false} RestStops(h: Hunt, k: nat)
    requires Rivals(h) && k <= h.threads
    ensures Resting(h, Run(h, Overlap() + Rest(k)), k)
  {
    if k == 0 {
      OverlapRuns(h);
      assert Overlap() + Rest(0) == Overlap();
    } else {
      RestStops(h, k - 1);
      assert Overlap() + Rest(k) == (Overlap() + Rest(k - 1)) + [Move(k - 1, false, false)];
      RunSnoc(h, Overlap() + Rest(k - 1), Move(k - 1, false, false));
      RestStep(h, Run(h, Overlap() + Rest(k - 1)), k - 1);
    }
  }

  // The search ends with the nonce of one block and the hash of the other.
  lemma {:induction false} RivalsMismatch(h: Hunt)
    requires Rivals(h) && h.hashAt(0) != h.hashAt(1)
    ensures var s := Run(h, Overlap() + Rest(h.threads));
      Ended(s) && s.found && s.nonce == 1 && s.best == h.hashAt(0) && !Matched(h, s)
  {
    RestStops(h, h.threads);
  }

  // Every search with these many workers and nonces ends with a pair that belongs together.
  ghost predicate AlwaysMatched(threads: nat, batch: nat) {
    forall h: Hunt, moves ::
      h.threads == threads && h.batch == batch && Nested(h) && Ended(Run(h, moves)) ==> Matched(h, Run(h, moves))
  }

  function RivalHunt(threads: nat, batch: u64): Hunt {
    Hunt(n => if n == 0 then ZERO_HASH else FULL_HASH, n => true, MAX_TARGET, MAX_TARGET, threads, batch)
  }

  // That holds exactly for a single worker, or a single nonce.
  lemma {:induction false} MatchedExactly(threads: nat, batch: u64)
    requires threads > 0
    ensures AlwaysMatched(threads, batch) <==> threads == 1 || batch <= 1
  {
    if threads == 1 || batch <= 1 {
      forall h: Hunt, moves | h.threads == threads && h.batch == batch && Nested(h) && Ended(Run(h, moves))
        ensures Matched(h, Run(h, moves))
      {
        if threads == 1 {
          SoloIsMatched(h, moves);
        } else {
          OneNonceIsMatched(h, moves);
        }
      }
    } else {
      var h := RivalHunt(threads, batch);
      MaxTargetVal(32);
      assert ZERO_HASH[0] == 0 && FULL_HASH[0] == 255;
      RivalsMismatch(h);
    }
  }
}
