// Block headers, their byte form, the timestamp rule and the two block validators.

module Blocks {
  import opened Bytes
  import opened Merkle
  import opened StableSort
  import opened Targets
  import opened Transactions
  import opened Wrappers

  const BLOCK_REWARD_LYT: nat := 500_000
  const MAX_FUTURE_SECONDS: nat := 7200
  const MEDIAN_WINDOW: nat := 11

  datatype Header = Header(
    version: u32,
    prevHash: Hash32,
    merkleRoot: Hash32,
    timestamp: u64,
    difficulty: Target,
    nonce: u64,
    epochIndex: u32)

  datatype Block = Block(
    header: Header,
    txs: seq<Transaction>,
    signature: Option<seq<byte>>,
    pubkey: Option<seq<byte>>)

  // ---- The 120 header bytes ----

  function HeaderPrefix(h: Header): (s: seq<byte>)
    ensures |s| == 108
  {
    LittleEndian(h.version, 4) + (Raw(h.prevHash) + (Raw(h.merkleRoot) + (LittleEndian(h.timestamp, 8) + Raw(h.difficulty))))
  }

  function HeaderBytes(h: Header): (s: seq<byte>)
    ensures |s| == 120
  {
    HeaderPrefix(h) + (LittleEndian(h.nonce, 8) + LittleEndian(h.epochIndex, 4))
  }

  function HeaderHash(c: Crypto, h: Header): Hash32 { c.argon(HeaderBytes(h)) }

  // The search overwrites bytes 108 to 116 of a fixed buffer; that is the header with the
  // new nonce, so both routes hash the same bytes.
  lemma SpliceIsNonce(h: Header, nonce: u64)
    ensures HeaderBytes(h)[..108] + LittleEndian(nonce, 8) + HeaderBytes(h)[116..] == HeaderBytes(h.(nonce := nonce))
  {
    var tail := LittleEndian(h.nonce, 8) + LittleEndian(h.epochIndex, 4);
    assert HeaderBytes(h)[..108] == HeaderPrefix(h) == HeaderPrefix(h.(nonce := nonce));
    assert HeaderBytes(h)[116..] == tail[8..] == LittleEndian(h.epochIndex, 4);
  }

  // The encoding loses nothing.
  lemma HeaderBytesInjective(h: Header, k: Header)
    requires HeaderBytes(h) == HeaderBytes(k)
    ensures h == k
  {
    PowValues();
    SplitConcat(HeaderPrefix(h), LittleEndian(h.nonce, 8) + LittleEndian(h.epochIndex, 4),
                HeaderPrefix(k), LittleEndian(k.nonce, 8) + LittleEndian(k.epochIndex, 4));
    SplitConcat(LittleEndian(h.nonce, 8), LittleEndian(h.epochIndex, 4), LittleEndian(k.nonce, 8), LittleEndian(k.epochIndex, 4));
    LittleEndianInjective(h.nonce, k.nonce, 8);
    LittleEndianInjective(h.epochIndex, k.epochIndex, 4);
    PrefixInjective(h, k);
  }

  lemma PrefixInjective(h: Header, k: Header)
    requires HeaderPrefix(h) == HeaderPrefix(k)
    ensures h.version == k.version && h.prevHash == k.prevHash && h.merkleRoot == k.merkleRoot
    ensures h.timestamp == k.timestamp && h.difficulty == k.difficulty
  {
    PowValues();
    var h4, k4 := LittleEndian(h.timestamp, 8) + Raw(h.difficulty), LittleEndian(k.timestamp, 8) + Raw(k.difficulty);
    var h3, k3 := Raw(h.merkleRoot) + h4, Raw(k.merkleRoot) + k4;
    SplitConcat(LittleEndian(h.version, 4), Raw(h.prevHash) + h3, LittleEndian(k.version, 4), Raw(k.prevHash) + k3);
    SplitConcat(Raw(h.prevHash), h3, Raw(k.prevHash), k3);
    SplitConcat(Raw(h.merkleRoot), h4, Raw(k.merkleRoot), k4);
    SplitConcat(LittleEndian(h.timestamp, 8), Raw(h.difficulty), LittleEndian(k.timestamp, 8), Raw(k.difficulty));
    LittleEndianInjective(h.version, k.version, 4);
    LittleEndianInjective(h.timestamp, k.timestamp, 8);
  }

  // ---- Timestamps ----

  predicate TimestampOk(timestamp: u64, prev: Option<u64>, median: Option<u64>, now: u64) {
    && timestamp <= now + MAX_FUTURE_SECONDS
    && (prev.Some? ==> timestamp > prev.value)
    && (median.Some? ==> timestamp > median.value)
  }

  // How many elements are below m.
  function CountBelow(s: seq<u64>, m: int): nat {
    if s == [] then 0 else CountBelow(s[..|s| - 1], m) + if s[|s| - 1] < m then 1 else 0
  }

  // m is the element at place k of s in increasing order.
  ghost predicate HasRank(s: seq<u64>, m: int, k: nat) {
    CountBelow(s, m) <= k < CountBelow(s, m + 1)
  }

  predicate Earlier(x: u64, y: u64) { x < y }

  function SortedTimes(t: seq<u64>): (s: seq<u64>)
    ensures |s| == |t|
  {
    Sorted(Earlier, t)
  }

  lemma {:induction false} PlacedCount(s: seq<u64>, x: u64, m: int)
    ensures CountBelow(Placed(Earlier, s, x), m) == CountBelow(s, m) + if x < m then 1 else 0
    decreases |s|
  {
    if s == [] || !Earlier(x, s[|s| - 1]) {
      assert (s + [x])[..|s|] == s;
    } else {
      var r := Placed(Earlier, s[..|s| - 1], x);
      PlacedCount(s[..|s| - 1], x, m);
      assert (r + [s[|s| - 1]])[..|r|] == r;
    }
  }

  lemma {:induction false} SortedCount(t: seq<u64>, m: int)
    ensures CountBelow(SortedTimes(t), m) == CountBelow(t, m)
  {
    if t != [] {
      SortedCount(t[..|t| - 1], m);
      PlacedCount(SortedTimes(t[..|t| - 1]), t[|t| - 1], m);
    }
  }

  lemma {:induction false} FewBelow(s: seq<u64>, k: nat, m: int)
    requires forall i :: k <= i < |s| ==> s[i] >= m
    ensures CountBelow(s, m) <= k
    decreases |s|
  {
    if |s| > 0 {
      FewBelow(s[..|s| - 1], Min(k, |s| - 1), m);
    }
  }

  lemma {:induction false} ManyBelow(s: seq<u64>, k: nat, m: int)
    requires k <= |s| && forall i :: 0 <= i < k ==> s[i] < m
    ensures CountBelow(s, m) >= k
    decreases |s|
  {
    if |s| > 0 {
      ManyBelow(s[..|s| - 1], Min(k, |s| - 1), m);
    }
  }

  lemma {:induction false} AscendingRank(s: seq<u64>, k: nat, m: int)
    requires InOrder(Earlier, s) && k < |s| && m == s[k]
    ensures CountBelow(s, m) <= k < CountBelow(s, m + 1)
  {
    assert forall i :: 0 <= i < |s| && i != k ==> (if i < k then !Earlier(s[k], s[i]) else !Earlier(s[i], s[k]));
    FewBelow(s, k, m);
    ManyBelow(s, k + 1, m + 1);
  }

  // Place k of the sorted copy is the element of rank k.
  lemma {:induction false} SortedRank(t: seq<u64>, k: nat)
    requires k < |t|
    ensures HasRank(t, SortedTimes(t)[k], k)
  {
    var m: int := SortedTimes(t)[k];
    SortedInOrder(Earlier, t);
    AscendingRank(SortedTimes(t), k, m);
    SortedCount(t, m);
    SortedCount(t, m + 1);
  }

  function Window(timestamps: seq<u64>): (w: seq<u64>) {
    timestamps[|timestamps| - Min(MEDIAN_WINDOW, |timestamps|)..]
  }

  // The middle one of the last eleven times, or of all when there are fewer; none below three.
  function Median(timestamps: seq<u64>): Option<u64> {
    var w := Window(timestamps);
    if |w| < 3 then None else Some(SortedTimes(w)[|w| / 2])
  }

  // A window with at most one element above a bound has its median within the bound.
  lemma MedianWithin(timestamps: seq<u64>, bound: u64)
    requires |timestamps| >= 3 && CountBelow(Window(timestamps), bound + 1) >= |Window(timestamps)| - 1
    ensures Median(timestamps).Some? && Median(timestamps).value <= bound
  {
    var w := Window(timestamps);
    SortedRank(w, |w| / 2);
    var m := Median(timestamps).value;
    if m > bound {
      CountMonotone(w, bound + 1, m);
    }
  }

  lemma {:induction false} CountMonotone(s: seq<u64>, m: int, n: int)
    requires m <= n
    ensures CountBelow(s, m) <= CountBelow(s, n)
  {
    if s != [] {
      CountMonotone(s[..|s| - 1], m, n);
    }
  }

  // ---- No output is spent twice within a block ----

  function InputOutpoints(inputs: seq<TxIn>): (r: seq<OutPoint>)
    ensures |r| == |inputs| && forall i :: 0 <= i < |inputs| ==> r[i] == inputs[i].outpoint
  {
    seq(|inputs|, i requires 0 <= i < |inputs| => inputs[i].outpoint)
  }

  // Every input of the first n transactions, those of coinbase form left out.
  function BlockInputs(txs: seq<Transaction>, n: nat): seq<OutPoint>
    requires n <= |txs|
  {
    if n == 0 then []
    else if IsCoinbase(txs[n - 1]) then BlockInputs(txs, n - 1)
    else BlockInputs(txs, n - 1) + InputOutpoints(txs[n - 1].inputs)
  }

  ghost predicate NoDoubleSpend(txs: seq<Transaction>) {
    Distinct(BlockInputs(txs, |txs|))
  }

  method ValidateNoDoubleSpend(txs: seq<Transaction>) returns (ok: bool)
    ensures ok <==> NoDoubleSpend(txs)
  {
    var seen: set<OutPoint> := {};
    for i := 0 to |txs|
      invariant Distinct(BlockInputs(txs, i))
      invariant forall o :: o in seen <==> o in BlockInputs(txs, i)
    {
      if !IsCoinbase(txs[i]) {
        var added;
        added, seen := AddInputs(txs[i].inputs, seen, BlockInputs(txs, i));
        if !added {
          DuplicatePrefix(txs, i + 1, |txs|);
          return false;
        }
      }
    }
    return true;
  }

  method AddInputs(inputs: seq<TxIn>, before: set<OutPoint>, ghost sofar: seq<OutPoint>) returns (ok: bool, seen: set<OutPoint>)
    requires Distinct(sofar) && forall o :: o in before <==> o in sofar
    ensures ok <==> Distinct(sofar + InputOutpoints(inputs))
    ensures ok ==> forall o :: o in seen <==> o in sofar + InputOutpoints(inputs)
  {
    seen := before;
    ghost var all := InputOutpoints(inputs);
    assert sofar + all[..0] == sofar;
    for i := 0 to |inputs|
      invariant Distinct(sofar + all[..i])
      invariant forall o :: o in seen <==> o in sofar + all[..i]
    {
      assert sofar + all[..i + 1] == sofar + all[..i] + [all[i]];
      if inputs[i].outpoint in seen {
        RepeatedElement(sofar + all[..i], all[i], sofar + all);
        return false, seen;
      }
      seen := seen + {inputs[i].outpoint};
    }
    assert all[..|inputs|] == all;
    return true, seen;
  }

  lemma RepeatedElement<T>(s: seq<T>, x: T, all: seq<T>)
    requires x in s && s + [x] <= all
    ensures !Distinct(all)
  {
    var i :| 0 <= i < |s| && s[i] == x;
    assert all[i] == (s + [x])[i] && all[|s|] == (s + [x])[|s|];
  }

  lemma {:induction false} DuplicatePrefix(txs: seq<Transaction>, m: nat, n: nat)
    requires m <= n <= |txs| && !Distinct(BlockInputs(txs, m))
    ensures !Distinct(BlockInputs(txs, n))
    decreases n
  {
    if m < n {
      DuplicatePrefix(txs, m, n - 1);
      var s := BlockInputs(txs, n - 1);
      var i, j :| 0 <= i < j < |s| && s[i] == s[j];
      assert BlockInputs(txs, n)[i] == BlockInputs(txs, n)[j];
    }
  }

  // ---- The coinbase pays no more than the block earns ----

  datatype CoinbaseError = EmptyBlock | FirstNotCoinbase | BadFee(fee: FeeError) | ExceedsReward

  // Fees of transactions 1 to n-1, added with saturation; the first failure is reported.
  function BlockFees(txs: seq<Transaction>, utxos: Utxos, n: nat): Result<u64, FeeError>
    requires n <= |txs|
  {
    if n <= 1 then Ok(0)
    else
      match BlockFees(txs, utxos, n - 1)
      case Err(e) => Err(e)
      case Ok(sum) =>
        match Fee(txs[n - 1], utxos)
        case Err(e) => Err(e)
        case Ok(fee) => Ok(Min(sum + fee, U64_LIMIT - 1))
  }

  // The coinbase outputs are summed without an overflow check.
  function WrappedSum(outs: seq<TxOut>): u64 { ValueSum(outs) % U64_LIMIT }

  function CheckCoinbase(txs: seq<Transaction>, utxos: Utxos): Option<CoinbaseError> {
    if txs == [] then Some(EmptyBlock)
    else if !IsCoinbase(txs[0]) then Some(FirstNotCoinbase)
    else
      match BlockFees(txs, utxos, |txs|)
      case Err(e) => Some(BadFee(e))
      case Ok(fees) =>
        if WrappedSum(txs[0].outputs) > Min(BLOCK_REWARD_LYT + fees, U64_LIMIT - 1) then Some(ExceedsReward) else None
  }

  method ValidateCoinbase(txs: seq<Transaction>, utxos: Utxos) returns (error: Option<CoinbaseError>)
    ensures error == CheckCoinbase(txs, utxos)
  {
    if txs == [] {
      return Some(EmptyBlock);
    }
    if !IsCoinbase(txs[0]) {
      return Some(FirstNotCoinbase);
    }
    var coinbaseOut := SumOutputs(txs[0].outputs);
    var fees := SumFees(txs, utxos);
    if fees.Err? {
      return Some(BadFee(fees.error));
    }
    var maxReward := Min(BLOCK_REWARD_LYT + fees.value, U64_LIMIT - 1);
    if coinbaseOut > maxReward {
      return Some(ExceedsReward);
    }
    return None;
  }

  method SumFees(txs: seq<Transaction>, utxos: Utxos) returns (fees: Result<u64, FeeError>)
    requires txs != []
    ensures fees == BlockFees(txs, utxos, |txs|)
  {
    var totalFees: u64 := 0;
    for i := 1 to |txs|
      invariant BlockFees(txs, utxos, i) == Ok(totalFees)
    {
      var fee := ComputeFee(txs[i], utxos);
      if fee.Err? {
        FeesError(txs, utxos, i + 1, |txs|);
        return Err(fee.error);
      }
      totalFees := Min(totalFees + fee.value, U64_LIMIT - 1);
    }
    return Ok(totalFees);
  }

  method SumOutputs(outs: seq<TxOut>) returns (sum: u64)
    ensures sum == WrappedSum(outs)
  {
    sum := 0;
    for i := 0 to |outs|
      invariant sum == WrappedSum(outs[..i])
    {
      ValueSumStep(outs, i);
      sum := (sum + outs[i].value) % U64_LIMIT;
    }
    assert outs[..|outs|] == outs;
  }

  lemma {:induction false} FeesError(txs: seq<Transaction>, utxos: Utxos, m: nat, n: nat)
    requires m <= n <= |txs| && BlockFees(txs, utxos, m).Err?
    ensures BlockFees(txs, utxos, n) == BlockFees(txs, utxos, m)
    decreases n
  {
    if m < n {
      FeesError(txs, utxos, m, n - 1);
    }
  }

  // ---- The block root ----

  function TxIds(c: Crypto, txs: seq<Transaction>): (ids: seq<Hash32>)
    ensures |ids| == |txs| && forall i :: 0 <= i < |txs| ==> ids[i] == c.txid(txs[i])
  {
    seq<Hash32>(|txs|, i requires 0 <= i < |txs| => c.txid(txs[i]))
  }

  function BlockRoot(c: Crypto, txs: seq<Transaction>): Hash32 { Root(c.sha, TxIds(c, txs)) }
}
