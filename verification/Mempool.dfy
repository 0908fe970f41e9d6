// The mempool and the selection of transactions for a block template.

module Mempools {
  import opened BlockValue
  import opened Blocks
  import opened Bytes
  import opened Ledger
  import opened StableSort
  import opened Transactions
  import opened Wrappers

  const PROCESSED_TXIDS_RETENTION: nat := 1000
  const MAX_TEMPLATE_BYTES: nat := 1_000_000

  // Waiting transactions, and the heights at which transaction ids were last handled.
  datatype TxPool = TxPool(txs: seq<Transaction>, processed: map<Hash32, nat>)

  datatype PoolError = Invalid(error: TxError) | AlreadyProcessed | AlreadyInMempool | InputAlreadyUsed

  function PoolIds(c: Crypto, txs: seq<Transaction>): set<Hash32> {
    set i | 0 <= i < |txs| :: c.txid(txs[i])
  }

  function PoolSpends(txs: seq<Transaction>): set<OutPoint> {
    set i, o | 0 <= i < |txs| && o in Spends(txs[i].inputs) :: o
  }

  // ---- Sorting by fee, highest first, equal fees in order of arrival ----

  function FeeIn(utxos: Utxos): Transaction -> nat { tx => FeeOrZero(tx, utxos) }

  function Dearer(fee: Transaction -> nat): (Transaction, Transaction) -> bool { (a: Transaction, b: Transaction) => fee(a) > fee(b) }

  function SortedByFee(txs: seq<Transaction>, utxos: Utxos): seq<Transaction> {
    Sorted(Dearer(FeeIn(utxos)), txs)
  }

  // ---- Adding ----

  // Drops from the low-fee end until the limit is met.
  function CutTo(c: Crypto, p: TxPool, limit: nat): TxPool
    decreases |p.txs|
  {
    if |p.txs| <= limit then p
    else
      var n := |p.txs| - 1;
      CutTo(c, TxPool(p.txs[..n], p.processed - {c.txid(p.txs[n])}), limit)
  }

  ghost function AddError(c: Crypto, p: TxPool, tx: Transaction, utxos: Utxos): Option<PoolError> {
    if Validation(c, tx, utxos).Err? then Some(Invalid(Validation(c, tx, utxos).error))
    else if c.txid(tx) in p.processed then Some(AlreadyProcessed)
    else if c.txid(tx) in PoolIds(c, p.txs) then Some(AlreadyInMempool)
    else if !(Spends(tx.inputs) !! PoolSpends(p.txs)) then Some(InputAlreadyUsed)
    else None
  }

  ghost function AddedTx(c: Crypto, p: TxPool, tx: Transaction, utxos: Utxos, height: nat, limit: nat): TxPool {
    if AddError(c, p, tx, utxos).Some? then p else Inserted(c, p, tx, utxos, height, limit)
  }

  function Inserted(c: Crypto, p: TxPool, tx: Transaction, utxos: Utxos, height: nat, limit: nat): TxPool {
    CutTo(c, Enqueued(c, p, tx, utxos, height), limit)
  }

  function Enqueued(c: Crypto, p: TxPool, tx: Transaction, utxos: Utxos, height: nat): TxPool {
    TxPool(SortedByFee(p.txs + [tx], utxos), p.processed[c.txid(tx) := height])
  }

  // ---- Dropping what a block included ----

  function IncludedIds(c: Crypto, txs: seq<Transaction>): set<Hash32> {
    set i | 0 <= i < |txs| && !IsCoinbase(txs[i]) :: c.txid(txs[i])
  }

  function Without(c: Crypto, txs: seq<Transaction>, ids: set<Hash32>): seq<Transaction> {
    if txs == [] then []
    else Without(c, txs[..|txs| - 1], ids) + if c.txid(txs[|txs| - 1]) in ids then [] else [txs[|txs| - 1]]
  }

  function Pruned(c: Crypto, p: TxPool, height: nat): TxPool {
    p.(processed := map id | id in p.processed
                      && (p.processed[id] > Max(height - PROCESSED_TXIDS_RETENTION, 0) || id in PoolIds(c, p.txs)) :: p.processed[id])
  }

  function Recorded(processed: map<Hash32, nat>, ids: set<Hash32>, height: nat): map<Hash32, nat> {
    processed + map id | id in ids :: height
  }

  // After a block taken from the network.
  function AfterAccept(c: Crypto, p: TxPool, txs: seq<Transaction>, height: nat): TxPool {
    var ids := IncludedIds(c, txs);
    TxPool(Without(c, p.txs, ids), Recorded(Pruned(c, p, height).processed, ids, height))
  }

  // After a block of our own: transactions that stay are forgotten as processed.
  function AfterCommit(c: Crypto, p: TxPool, txs: seq<Transaction>, height: nat): TxPool {
    var ids := IncludedIds(c, txs);
    var left := Without(c, p.txs, ids);
    Pruned(c, TxPool(left, Recorded(p.processed, ids, height) - PoolIds(c, left)), height)
  }

  // ---- The mempool invariant ----

  ghost predicate Apart(c: Crypto, a: Transaction, b: Transaction) {
    c.txid(a) != c.txid(b) && Spends(a.inputs) !! Spends(b.inputs)
  }

  // Spends nothing twice and, unless of coinbase form, has no coinbase-like input.
  ghost predicate Sane(tx: Transaction) {
    IsCoinbase(tx) ||
    (Distinct(InputOutpoints(tx.inputs)) && forall i :: 0 <= i < |tx.inputs| ==> !IsCoinbaseInput(tx.inputs[i]))
  }

  ghost predicate AllSane(txs: seq<Transaction>) {
    forall i :: 0 <= i < |txs| ==> Sane(txs[i])
  }

  ghost predicate AllApart(c: Crypto, txs: seq<Transaction>) {
    forall i, j :: 0 <= i < j < |txs| ==> Apart(c, txs[i], txs[j])
  }

  ghost predicate PoolRight(c: Crypto, txs: seq<Transaction>) {
    AllSane(txs) && AllApart(c, txs)
  }

  ghost predicate ApartFromAll(c: Crypto, tx: Transaction, txs: seq<Transaction>) {
    forall i :: 0 <= i < |txs| ==> Apart(c, txs[i], tx)
  }

  ghost function ApartIn(c: Crypto): (Transaction, Transaction) -> bool { (a: Transaction, b: Transaction) => Apart(c, a, b) }

  lemma SnocApart(c: Crypto, s: seq<Transaction>, tx: Transaction)
    requires AllApart(c, s) && ApartFromAll(c, tx, s)
    ensures AllApart(c, s + [tx])
  {}

  lemma {:induction false} SortedByFeeRight(c: Crypto, txs: seq<Transaction>, utxos: Utxos)
    requires PoolRight(c, txs)
    ensures PoolRight(c, SortedByFee(txs, utxos))
  {
    var before, s := Dearer(FeeIn(utxos)), SortedByFee(txs, utxos);
    SortedKeepsAll(before, txs);
    SameElements(txs, s);
    SameElementsSane(txs, s);
    SortedPairwise(before, ApartIn(c), txs);
    forall i, j | 0 <= i < j < |s|
      ensures Apart(c, s[i], s[j])
    {
      assert ApartIn(c)(s[i], s[j]);
    }
  }

  // The highest fee comes first.
  lemma {:induction false} SortedByFeeOrder(txs: seq<Transaction>, utxos: Utxos)
    ensures var s := SortedByFee(txs, utxos);
      multiset(s) == multiset(txs)
      && forall i, j :: 0 <= i < j < |s| ==> FeeOrZero(s[i], utxos) >= FeeOrZero(s[j], utxos)
  {
    var fee := FeeIn(utxos);
    SortedKeepsAll(Dearer(fee), txs);
    SortedInOrder(Dearer(fee), txs);
    var s := SortedByFee(txs, utxos);
    forall i, j | 0 <= i < j < |s|
      ensures FeeOrZero(s[i], utxos) >= FeeOrZero(s[j], utxos)
    {
      assert !Dearer(fee)(s[j], s[i]);
    }
  }

  lemma {:induction false} CutRight(c: Crypto, p: TxPool, limit: nat)
    requires PoolRight(c, p.txs)
    ensures PoolRight(c, CutTo(c, p, limit).txs)
    decreases |p.txs|
  {
    if |p.txs| > limit {
      var n := |p.txs| - 1;
      CutRight(c, TxPool(p.txs[..n], p.processed - {c.txid(p.txs[n])}), limit);
    }
  }

  lemma {:induction false} CheckedInputs(c: Crypto, tx: Transaction, utxos: Utxos, n: nat, i: nat)
    requires i < n <= |tx.inputs| && CheckInputs(c, tx, utxos, n).Ok?
    ensures tx.inputs[i].outpoint in utxos
    decreases n
  {
    if i < n - 1 {
      CheckedInputs(c, tx, utxos, n - 1, i);
    }
  }

  lemma {:induction false} SpendingIsAll(inputs: seq<TxIn>, n: nat)
    requires n <= |inputs| && forall i :: 0 <= i < |inputs| ==> !IsCoinbaseInput(inputs[i])
    ensures SpendingUpTo(inputs, n) == InputOutpoints(inputs)[..n]
    decreases n
  {
    if n > 0 {
      SpendingIsAll(inputs, n - 1);
    }
  }

  // A transaction that validates against indexed outputs spends each of them once.
  lemma {:induction false} ValidIsSane(c: Crypto, tx: Transaction, utxos: Utxos)
    requires Validation(c, tx, utxos).Ok? && Indexed(utxos)
    ensures Sane(tx)
  {
    if !IsCoinbase(tx) {
      forall i | 0 <= i < |tx.inputs|
        ensures !IsCoinbaseInput(tx.inputs[i])
      {
        CheckedInputs(c, tx, utxos, |tx.inputs|, i);
      }
      SpendingIsAll(tx.inputs, |tx.inputs|);
      assert InputOutpoints(tx.inputs)[..|tx.inputs|] == InputOutpoints(tx.inputs);
    }
  }

  lemma {:induction false} AddedTxRight(c: Crypto, p: TxPool, tx: Transaction, utxos: Utxos, height: nat, limit: nat)
    requires PoolRight(c, p.txs) && Indexed(utxos)
    ensures PoolRight(c, AddedTx(c, p, tx, utxos, height, limit).txs)
  {
    if AddError(c, p, tx, utxos) == None {
      ValidIsSane(c, tx, utxos);
      NewIsApart(c, p, tx);
      var more := p.txs + [tx];
      SnocApart(c, p.txs, tx);
      SortedByFeeRight(c, more, utxos);
      CutRight(c, TxPool(SortedByFee(more, utxos), p.processed[c.txid(tx) := height]), limit);
    }
  }

  lemma {:induction false} NewIsApart(c: Crypto, p: TxPool, tx: Transaction)
    requires c.txid(tx) !in PoolIds(c, p.txs) && Spends(tx.inputs) !! PoolSpends(p.txs)
    ensures ApartFromAll(c, tx, p.txs)
  {
    forall i | 0 <= i < |p.txs|
      ensures Apart(c, p.txs[i], tx)
    {
      assert forall o :: o in Spends(p.txs[i].inputs) ==> o in PoolSpends(p.txs);
    }
  }

  lemma {:induction false} SameElementsSane(txs: seq<Transaction>, s: seq<Transaction>)
    requires AllSane(txs) && forall x :: x in s ==> x in txs
    ensures AllSane(s)
  {
    forall i | 0 <= i < |s|
      ensures Sane(s[i])
    {
      assert s[i] in txs;
    }
  }

  lemma {:induction false} WithoutElements(c: Crypto, txs: seq<Transaction>, ids: set<Hash32>)
    ensures forall x :: x in Without(c, txs, ids) ==> x in txs
  {
    if txs != [] {
      WithoutElements(c, txs[..|txs| - 1], ids);
      assert txs == txs[..|txs| - 1] + [txs[|txs| - 1]];
    }
  }

  lemma {:induction false} WithoutRight(c: Crypto, txs: seq<Transaction>, ids: set<Hash32>)
    requires PoolRight(c, txs)
    ensures PoolRight(c, Without(c, txs, ids))
  {
    WithoutElements(c, txs, ids);
    SameElementsSane(txs, Without(c, txs, ids));
    if txs != [] {
      var n := |txs| - 1;
      WithoutRight(c, txs[..n], ids);
      WithoutElements(c, txs[..n], ids);
      var r := Without(c, txs[..n], ids);
      forall i | 0 <= i < |r|
        ensures Apart(c, r[i], txs[n])
      {
        assert r[i] in txs[..n];
      }
      SnocApart(c, r, txs[n]);
    }
  }

  // ---- Choosing transactions for a template ----

  // Transactions with a fee, in mempool order, until the next one would exceed the size.
  function Chosen(size: Transaction -> nat, txs: seq<Transaction>, utxos: Utxos, i: nat, used: nat, chosen: seq<Transaction>): seq<Transaction>
    requires i <= |txs|
    decreases |txs| - i
  {
    if i == |txs| || used + size(txs[i]) > MAX_TEMPLATE_BYTES then chosen
    else if Fee(txs[i], utxos).Ok? then Chosen(size, txs, utxos, i + 1, used + size(txs[i]), chosen + [txs[i]])
    else Chosen(size, txs, utxos, i + 1, used, chosen)
  }

  function Template(size: Transaction -> nat, txs: seq<Transaction>, utxos: Utxos): seq<Transaction> {
    Chosen(size, txs, utxos, 0, 0, [])
  }

  // The fees of the first n transactions, added with saturation.
  function FeeSum(txs: seq<Transaction>, fee: Transaction -> nat, n: nat): u64
    requires n <= |txs|
  {
    if n == 0 then 0 else Min(FeeSum(txs, fee, n - 1) + fee(txs[n - 1]), U64_LIMIT - 1)
  }

  lemma {:induction false} FeeSumPrefix(txs: seq<Transaction>, more: seq<Transaction>, fee: Transaction -> nat, n: nat)
    requires n <= |txs|
    ensures FeeSum(txs + more, fee, n) == FeeSum(txs, fee, n)
    decreases n
  {
    if n > 0 {
      FeeSumPrefix(txs, more, fee, n - 1);
    }
  }

  method ChooseTransactions(size: Transaction -> nat, txs: seq<Transaction>, utxos: Utxos) returns (chosen: seq<Transaction>, fees: u64)
    ensures chosen == Template(size, txs, utxos) && fees == FeeSum(chosen, FeeIn(utxos), |chosen|)
  {
    chosen, fees := [], 0;
    var used: nat, i: nat := 0, 0;
    while i < |txs|
      invariant i <= |txs| && fees == FeeSum(chosen, FeeIn(utxos), |chosen|)
      invariant Chosen(size, txs, utxos, i, used, chosen) == Template(size, txs, utxos)
    {
      if used + size(txs[i]) > MAX_TEMPLATE_BYTES {
        break;
      }
      var fee := ComputeFee(txs[i], utxos);
      if fee.Ok? {
        fees := Min(fees + fee.value, U64_LIMIT - 1);
        FeeSumPrefix(chosen, [txs[i]], FeeIn(utxos), |chosen|);
        chosen := chosen + [txs[i]];
        used := used + size(txs[i]);
      }
      i := i + 1;
    }
  }

  ghost predicate AllPay(txs: seq<Transaction>, utxos: Utxos) {
    forall i :: 0 <= i < |txs| ==> Fee(txs[i], utxos).Ok?
  }

  lemma {:induction false} ChosenRight(c: Crypto, size: Transaction -> nat, txs: seq<Transaction>, utxos: Utxos, i: nat, used: nat,
                                       chosen: seq<Transaction>)
    requires i <= |txs| && PoolRight(c, txs) && PoolRight(c, chosen) && AllPay(chosen, utxos)
    requires forall k :: i <= k < |txs| ==> ApartFromAll(c, txs[k], chosen)
    ensures PoolRight(c, Chosen(size, txs, utxos, i, used, chosen))
    ensures AllPay(Chosen(size, txs, utxos, i, used, chosen), utxos)
    decreases |txs| - i
  {
    if i < |txs| && used + size(txs[i]) <= MAX_TEMPLATE_BYTES {
      if Fee(txs[i], utxos).Ok? {
        SnocApart(c, chosen, txs[i]);
        RestStaysApart(c, txs, i, chosen);
        ChosenRight(c, size, txs, utxos, i + 1, used + size(txs[i]), chosen + [txs[i]]);
      } else {
        ChosenRight(c, size, txs, utxos, i + 1, used, chosen);
      }
    }
  }

  lemma {:induction false} RestStaysApart(c: Crypto, txs: seq<Transaction>, i: nat, chosen: seq<Transaction>)
    requires i < |txs| && PoolRight(c, txs)
    requires forall k :: i <= k < |txs| ==> ApartFromAll(c, txs[k], chosen)
    ensures forall k :: i + 1 <= k < |txs| ==> ApartFromAll(c, txs[k], chosen + [txs[i]])
  {
    forall k | i + 1 <= k < |txs|
      ensures ApartFromAll(c, txs[k], chosen + [txs[i]])
    {
      assert Apart(c, txs[i], txs[k]);
      assert ApartFromAll(c, txs[k], chosen);
    }
  }

  // ---- Templates pass the block validators ----

  function CoinbaseFor(output: TxOut, height: nat): RawTx {
    Tx(1, [TxIn(OutPoint(ZERO_HASH, NO_INDEX), LittleEndian(height, 8), NO_INDEX)], [output], 0)
  }

  ghost predicate SpentEarlier(txs: seq<Transaction>, n: nat, o: OutPoint)
    requires n <= |txs|
  {
    exists i :: 0 <= i < n && o in Spends(txs[i].inputs)
  }

  lemma {:induction false} OwnInputsAreNew(c: Crypto, txs: seq<Transaction>, n: nat, k: nat)
    requires n < |txs| && AllSane(txs) && AllApart(c, txs) && !IsCoinbase(txs[n]) && k < |txs[n].inputs|
    ensures txs[n].inputs[k].outpoint in Spends(txs[n].inputs)
    ensures !SpentEarlier(txs, n, txs[n].inputs[k].outpoint)
  {
    assert Sane(txs[n]) && !IsCoinbaseInput(txs[n].inputs[k]);
    forall i | 0 <= i < n
      ensures txs[n].inputs[k].outpoint !in Spends(txs[i].inputs)
    {
      assert Apart(c, txs[i], txs[n]);
    }
  }

  lemma {:induction false} TemplateInputs(c: Crypto, txs: seq<Transaction>, n: nat)
    requires n <= |txs| && AllSane(txs) && AllApart(c, txs)
    ensures Distinct(BlockInputs(txs, n))
    ensures forall o :: o in BlockInputs(txs, n) ==> SpentEarlier(txs, n, o)
    decreases n
  {
    if n > 0 {
      TemplateInputs(c, txs, n - 1);
      var tx, before := txs[n - 1], BlockInputs(txs, n - 1);
      assert forall o :: SpentEarlier(txs, n - 1, o) ==> SpentEarlier(txs, n, o);
      if !IsCoinbase(tx) {
        var own := InputOutpoints(tx.inputs);
        forall k | 0 <= k < |own|
          ensures own[k] !in before && SpentEarlier(txs, n, own[k])
        {
          OwnInputsAreNew(c, txs, n - 1, k);
        }
        assert Sane(tx);
        JoinDistinct(before, own);
      }
    }
  }

  lemma JoinDistinct<T>(a: seq<T>, b: seq<T>)
    requires Distinct(a) && Distinct(b) && forall k :: 0 <= k < |b| ==> b[k] !in a
    ensures Distinct(a + b)
  {
    forall i, j | 0 <= i < j < |a + b|
      ensures (a + b)[i] != (a + b)[j]
    {
      if i < |a| <= j {
        assert b[j - |a|] !in a;
      }
    }
  }

  lemma {:induction false} NextFee(txs: seq<Transaction>, utxos: Utxos, n: nat, sum: u64, tx: Transaction)
    requires 1 <= n < |txs| && BlockFees(txs, utxos, n) == Ok(sum) && tx == txs[n] && Fee(tx, utxos).Ok?
    ensures BlockFees(txs, utxos, n + 1) == Ok(Min(sum + FeeIn(utxos)(tx), U64_LIMIT - 1))
  {}

  // `all` is a coinbase in front of txs.
  ghost predicate Fronts(all: seq<Transaction>, txs: seq<Transaction>) {
    |all| == |txs| + 1 && IsCoinbase(all[0]) && all[1..] == txs
  }

  lemma {:induction false} FrontedAt(all: seq<Transaction>, txs: seq<Transaction>, n: nat)
    requires Fronts(all, txs) && 0 < n <= |txs|
    ensures all[n] == txs[n - 1]
  {
    assert all[n] == all[1..][n - 1];
  }

  lemma {:induction false} TemplateFees(all: seq<Transaction>, txs: seq<Transaction>, utxos: Utxos, n: nat)
    requires Fronts(all, txs) && n <= |txs| && AllPay(txs, utxos)
    ensures BlockFees(all, utxos, n + 1) == Ok(FeeSum(txs, FeeIn(utxos), n))
    decreases n
  {
    if n == 0 {
      NoFees(all, utxos);
    } else {
      TemplateFees(all, txs, utxos, n - 1);
      FrontedAt(all, txs, n);
      NextFee(all, utxos, n, FeeSum(txs, FeeIn(utxos), n - 1), txs[n - 1]);
      NextFeeSum(txs, FeeIn(utxos), n);
    }
  }

  lemma NoFees(all: seq<Transaction>, utxos: Utxos)
    requires all != []
    ensures BlockFees(all, utxos, 1) == Ok(0)
  {}

  lemma NextFeeSum(txs: seq<Transaction>, fee: Transaction -> nat, n: nat)
    requires 0 < n <= |txs|
    ensures FeeSum(txs, fee, n) == Min(FeeSum(txs, fee, n - 1) + fee(txs[n - 1]), U64_LIMIT - 1)
  {}

  lemma {:induction false} CoinbaseInputsLeftOut(all: seq<Transaction>, txs: seq<Transaction>, n: nat)
    requires Fronts(all, txs) && n <= |txs|
    ensures BlockInputs(all, n + 1) == BlockInputs(txs, n)
    decreases n
  {
    if n == 0 {
      assert BlockInputs(all, 0) == [];
    } else {
      CoinbaseInputsLeftOut(all, txs, n - 1);
      FrontedAt(all, txs, n);
    }
  }

  // What a template pays its miner.
  function TemplateReward(txs: seq<Transaction>, utxos: Utxos): u64 {
    Min(BLOCK_REWARD_LYT + FeeSum(txs, FeeIn(utxos), |txs|), U64_LIMIT - 1)
  }

  // Every template built from a right mempool passes both validators on the same outputs,
  // and no two of its chosen transactions share an id or an input.
  lemma {:induction false} TemplatePasses(c: Crypto, size: Transaction -> nat, pool: seq<Transaction>, utxos: Utxos, all: seq<Transaction>)
    requires PoolRight(c, pool) && Fronts(all, Template(size, pool, utxos))
    requires ValueSum(all[0].outputs) == TemplateReward(all[1..], utxos)
    ensures Passes(all, utxos) && AllApart(c, all[1..])
  {
    ChosenRight(c, size, pool, utxos, 0, 0, []);
    FrontedPasses(c, all, all[1..], utxos);
  }

  lemma {:induction false} FrontedPasses(c: Crypto, all: seq<Transaction>, txs: seq<Transaction>, utxos: Utxos)
    requires Fronts(all, txs) && PoolRight(c, txs) && AllPay(txs, utxos)
    requires ValueSum(all[0].outputs) == TemplateReward(txs, utxos)
    ensures Passes(all, utxos)
  {
    CoinbaseWithinReward(all, txs, utxos);
    CoinbaseInputsLeftOut(all, txs, |txs|);
    TemplateInputs(c, txs, |txs|);
  }

  lemma {:induction false} CoinbaseWithinReward(all: seq<Transaction>, txs: seq<Transaction>, utxos: Utxos)
    requires Fronts(all, txs) && AllPay(txs, utxos) && ValueSum(all[0].outputs) == TemplateReward(txs, utxos)
    ensures CheckCoinbase(all, utxos) == None
  {
    TemplateFees(all, txs, utxos, |txs|);
    WrapsNothing(all[0].outputs);
  }

  lemma WrapsNothing(outs: seq<TxOut>)
    requires ValueSum(outs) < U64_LIMIT
    ensures WrappedSum(outs) == ValueSum(outs)
  {}
}
