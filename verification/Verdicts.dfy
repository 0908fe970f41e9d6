// Which verdict each check reaches: exact conditions, and the first fault there is.

module Verdicts {
  import opened BlockValue
  import opened Blocks
  import opened Bytes
  import opened Ledger
  import opened Mempools
  import opened Ownership
  import opened Search
  import opened ShareIntake
  import opened SharePools
  import opened ShareSync
  import opened Targets
  import opened Transactions
  import opened Wrappers

  // ---- A transaction on its own ----

  // Two inputs not of coinbase form name one outpoint.
  ghost predicate SpendsTwice(inputs: seq<TxIn>, n: nat)
    requires n <= |inputs|
  {
    exists j :: 0 <= j < n && RepeatsEarlier(inputs, j)
  }

  ghost predicate RepeatsEarlier(inputs: seq<TxIn>, j: nat)
    requires j < |inputs|
  {
    !IsCoinbaseInput(inputs[j]) && exists i :: 0 <= i < j && !IsCoinbaseInput(inputs[i]) && inputs[i].outpoint == inputs[j].outpoint
  }

  lemma {:induction false} SpendingHas(inputs: seq<TxIn>, n: nat, o: OutPoint)
    requires n <= |inputs|
    ensures o in SpendingUpTo(inputs, n) <==> exists i :: 0 <= i < n && !IsCoinbaseInput(inputs[i]) && inputs[i].outpoint == o
    decreases n
  {
    if n > 0 {
      SpendingHas(inputs, n - 1, o);
    }
  }

  lemma DistinctSnoc(s: seq<OutPoint>, o: OutPoint)
    ensures Distinct(s + [o]) <==> Distinct(s) && o !in s
  {
    if Distinct(s + [o]) {
      forall i | 0 <= i < |s|
        ensures s[i] != o
      {
        assert (s + [o])[i] != (s + [o])[|s|];
      }
      forall i, j | 0 <= i < j < |s|
        ensures s[i] != s[j]
      {
        assert (s + [o])[i] != (s + [o])[j];
      }
    }
  }

  lemma {:induction false} SpendsTwiceExactly(inputs: seq<TxIn>, n: nat)
    requires n <= |inputs|
    ensures Distinct(SpendingUpTo(inputs, n)) <==> !SpendsTwice(inputs, n)
    decreases n
  {
    if n > 0 {
      SpendsTwiceExactly(inputs, n - 1);
      SpendingHas(inputs, n - 1, inputs[n - 1].outpoint);
      DistinctSnoc(SpendingUpTo(inputs, n - 1), inputs[n - 1].outpoint);
      TwiceNext(inputs, n);
    }
  }

  lemma TwiceNext(inputs: seq<TxIn>, n: nat)
    requires 0 < n <= |inputs|
    ensures SpendsTwice(inputs, n) <==> SpendsTwice(inputs, n - 1) || RepeatsEarlier(inputs, n - 1)
  {}

  ghost function BasicFaults(tx: RawTx): seq<(bool, TxError)> {
    [(tx.inputs == [] || tx.outputs == [], EmptyTransaction),
     (SpendsTwice(tx.inputs, |tx.inputs|), DoubleSpendWithin),
     (exists i :: 0 <= i < |tx.outputs| && tx.outputs[i].value < 100, DustOutput),
     (ValueSum(tx.outputs) >= U64_LIMIT, OutputOverflow),
     (ValueSum(tx.outputs) > 1_500_000_000_000_000, SumAboveMaxSupply)]
  }

  lemma BasicFirst(tx: RawTx)
    ensures ReportsFirst(BasicFaults(tx), BasicError(tx))
  {
    SpendsTwiceExactly(tx.inputs, |tx.inputs|);
    var faults := BasicFaults(tx);
    if BasicError(tx).Some? {
      var k := if faults[0].0 then 0 else if faults[1].0 then 1 else if faults[2].0 then 2 else if faults[3].0 then 3 else 4;
      assert FirstAt(faults, BasicError(tx).value, k);
    }
  }

  // ---- A transaction against the stored outputs ----

  // A transaction validates with a fee exactly when it has no fault of its own and is either of
  // coinbase form, at no fee, or its inputs all exist, are signed by whoever owns them, and hold
  // the outputs and a fee of at least fifty more.
  lemma ValidatesExactly(c: Crypto, tx: Transaction, utxos: Utxos, fee: u64)
    ensures Validation(c, tx, utxos) == Ok(fee) <==> NoFault(BasicFaults(tx)) && (if IsCoinbase(tx) then fee == 0 else PaysFee(c, tx, utxos, fee))
  {
    BasicFirst(tx);
    if BasicError(tx).None? && !IsCoinbase(tx) {
      FeeExactly(c, tx, utxos, fee);
    }
  }

  ghost predicate PaysFee(c: Crypto, tx: RawTx, utxos: Utxos, fee: nat) {
    && AllExist(tx.inputs, utxos) && InputsSigned(c, tx, utxos, |tx.inputs|) && ValueSum(Spent(tx.inputs, utxos)) < U64_LIMIT
    && ValueSum(Spent(tx.inputs, utxos)) == ValueSum(tx.outputs) + fee && fee >= 50
  }

  lemma FeeExactly(c: Crypto, tx: RawTx, utxos: Utxos, fee: u64)
    ensures FeeLeft(CheckInputs(c, tx, utxos, |tx.inputs|), ValueSum(tx.outputs)) == Ok(fee) <==> PaysFee(c, tx, utxos, fee)
  {
    InputSumMeaning(tx.inputs, utxos);
    assert tx.inputs[..|tx.inputs|] == tx.inputs;
    if InputSum(tx.inputs, utxos).Ok? {
      ChecksSignatures(c, tx, utxos, |tx.inputs|);
    } else if CheckInputs(c, tx, utxos, |tx.inputs|).Ok? {
      CheckedSums(c, tx, utxos, |tx.inputs|);
    }
  }

  lemma {:induction false} CheckedSums(c: Crypto, tx: RawTx, utxos: Utxos, n: nat)
    requires n <= |tx.inputs| && CheckInputs(c, tx, utxos, n).Ok?
    ensures InputSum(tx.inputs[..n], utxos).Ok? && InputSum(tx.inputs[..n], utxos).value == CheckInputs(c, tx, utxos, n).value
    decreases n
  {
    if n > 0 {
      CheckedSums(c, tx, utxos, n - 1);
      assert tx.inputs[..n][..n - 1] == tx.inputs[..n - 1];
    }
  }

  predicate LeavesFee(tx: RawTx, utxos: Utxos, fee: nat) {
    && AllExist(tx.inputs, utxos) && ValueSum(Spent(tx.inputs, utxos)) < U64_LIMIT && ValueSum(tx.outputs) < U64_LIMIT
    && ValueSum(Spent(tx.inputs, utxos)) == ValueSum(tx.outputs) + fee
  }

  // Without signatures, as acceptance counts it: the fee is what the outputs leave of the inputs
  // when all exist and both sums fit the word, zero for coinbase form, and as good as zero when
  // transactions are sorted and there is none.
  lemma LooseFeeExactly(tx: Transaction, utxos: Utxos, fee: u64)
    ensures Fee(tx, utxos) == Ok(fee) <==> (if IsCoinbase(tx) then fee == 0 else LeavesFee(tx, utxos, fee))
    ensures Fee(tx, utxos) == Ok(fee) ==> FeeOrZero(tx, utxos) == fee
    ensures Fee(tx, utxos).Err? ==> FeeOrZero(tx, utxos) == 0
  {
    InputSumMeaning(tx.inputs, utxos);
  }

  // When the inputs fail, then at the first one that is missing, no longer fits the sum, or does
  // not verify, in this order.
  ghost predicate InputFailsAt(c: Crypto, tx: RawTx, utxos: Utxos, i: nat, e: TxError)
    requires i < |tx.inputs|
  {
    && AllExist(tx.inputs[..i], utxos) && InputsSigned(c, tx, utxos, i) && ValueSum(Spent(tx.inputs[..i], utxos)) < U64_LIMIT
    && if tx.inputs[i].outpoint !in utxos then e == UtxoNotFound
       else if ValueSum(Spent(tx.inputs[..i], utxos)) + utxos[tx.inputs[i].outpoint].value >= U64_LIMIT then e == InputOverflow
       else !SignedAt(c, tx, utxos, i) && e == InvalidSignature
  }

  lemma {:induction false} InputsFail(c: Crypto, tx: RawTx, utxos: Utxos, n: nat) returns (i: nat)
    requires n <= |tx.inputs| && CheckInputs(c, tx, utxos, n).Err?
    ensures i < n && InputFailsAt(c, tx, utxos, i, CheckInputs(c, tx, utxos, n).error)
    decreases n
  {
    if CheckInputs(c, tx, utxos, n - 1).Err? {
      i := InputsFail(c, tx, utxos, n - 1);
    } else {
      i := n - 1;
      CheckedSums(c, tx, utxos, n - 1);
      CheckedSigned(c, tx, utxos, n - 1);
      InputSumMeaning(tx.inputs[..n - 1], utxos);
    }
  }

  lemma {:induction false} CheckedSigned(c: Crypto, tx: RawTx, utxos: Utxos, n: nat)
    requires n <= |tx.inputs| && CheckInputs(c, tx, utxos, n).Ok?
    ensures InputsSigned(c, tx, utxos, n)
    decreases n
  {
    if n > 0 {
      CheckedSigned(c, tx, utxos, n - 1);
      assert SignedAt(c, tx, utxos, n - 1);
    }
  }

  // ---- The other checks ----

  ghost function PoolFaults(c: Crypto, p: TxPool, tx: Transaction, utxos: Utxos, invalid: Option<TxError>): seq<(bool, PoolError)> {
    [(invalid.Some?, if invalid.Some? then Invalid(invalid.value) else AlreadyProcessed),
     (c.txid(tx) in p.processed, AlreadyProcessed),
     (c.txid(tx) in PoolIds(c, p.txs), AlreadyInMempool),
     (exists o :: o in Spends(tx.inputs) && o in PoolSpends(p.txs), InputAlreadyUsed)]
  }

  // A transaction offered to the mempool is refused for the first of these.
  lemma OfferFirst(c: Crypto, p: TxPool, tx: Transaction, utxos: Utxos)
    ensures var verdict := Validation(c, tx, utxos);
      ReportsFirst(PoolFaults(c, p, tx, utxos, if verdict.Err? then Some(verdict.error) else None), AddError(c, p, tx, utxos))
  {
    var verdict := Validation(c, tx, utxos);
    OfferFirstWith(c, p, tx, utxos, if verdict.Err? then Some(verdict.error) else None);
  }

  lemma OfferFirstWith(c: Crypto, p: TxPool, tx: Transaction, utxos: Utxos, invalid: Option<TxError>)
    requires invalid == if Validation(c, tx, utxos).Err? then Some(Validation(c, tx, utxos).error) else None
    ensures ReportsFirst(PoolFaults(c, p, tx, utxos, invalid), AddError(c, p, tx, utxos))
  {
    var faults := PoolFaults(c, p, tx, utxos, invalid);
    if AddError(c, p, tx, utxos).Some? {
      var k := if faults[0].0 then 0 else if faults[1].0 then 1 else if faults[2].0 then 2 else 3;
      assert FirstAt(faults, AddError(c, p, tx, utxos).value, k);
    }
  }

  ghost function ShareFaults(c: Crypto, d: Desk, s: Share, now: u64): seq<(bool, ShareFault)> {
    [(s.packet.header.prevHash != d.tip, StalePrevHash),
     (s.packet.header.epochIndex != d.epoch, WrongEpochIndex),
     (s.timestamp < Minus(now, 7200), TooOld),
     (s.timestamp > Plus(now, 7200), TooFarInFuture),
     (!PrefilterPasses(c, HeaderBytes(s.packet.header), s.packet.nonce, PeerPrefilter(d.difficulty)), PrefilterRejected),
     (!Matching(c, s), HashMismatch),
     (Num(s.packet.hash) > 256 * Num(d.difficulty), TargetNotMet)]
  }

  // A share is faulted for the first of these, whatever clock it is held against.
  lemma ShareFirst(c: Crypto, d: Desk, s: Share, now: u64)
    ensures ReportsFirst(ShareFaults(c, d, s, now), FaultOf(c, d, s, now))
  {
    var faults := ShareFaults(c, d, s, now);
    if FaultOf(c, d, s, now).Some? {
      var k := if faults[0].0 then 0 else if faults[1].0 then 1 else if faults[2].0 then 2 else if faults[3].0 then 3
               else if faults[4].0 then 4 else if faults[5].0 then 5 else 6;
      assert FirstAt(faults, FaultOf(c, d, s, now).value, k);
    }
  }

  // The prefilter compares the first eight bytes as numbers.
  lemma PrefilterExactly(c: Crypto, headerBytes: seq<byte>, nonce: u64, target: Target)
    ensures PrefilterPasses(c, headerBytes, nonce, target) <==>
      Val(c.sha(headerBytes + LittleEndian(nonce, 8))[..8], 256) <= Val(target[..8], 256)
  {
    LexIsNumeric(target[..8], c.sha(headerBytes + LittleEndian(nonce, 8))[..8]);
  }

  ghost function CoinbaseFaults(txs: seq<Transaction>, utxos: Utxos, fees: Result<u64, FeeError>): seq<(bool, CoinbaseError)> {
    [(txs == [], EmptyBlock),
     (txs != [] && !IsCoinbase(txs[0]), FirstNotCoinbase),
     (fees.Err?, if fees.Err? then BadFee(fees.error) else EmptyBlock),
     (txs != [] && fees.Ok? && ValueSum(txs[0].outputs) % U64_LIMIT > 500_000 + fees.value, ExceedsReward)]
  }

  // A coinbase is refused for the first of these.
  lemma CoinbaseFirst(txs: seq<Transaction>, utxos: Utxos)
    ensures ReportsFirst(CoinbaseFaults(txs, utxos, BlockFees(txs, utxos, |txs|)), CheckCoinbase(txs, utxos))
  {
    var faults := CoinbaseFaults(txs, utxos, BlockFees(txs, utxos, |txs|));
    if CheckCoinbase(txs, utxos).Some? {
      var k := if faults[0].0 then 0 else if faults[1].0 then 1 else if faults[2].0 then 2 else 3;
      assert FirstAt(faults, CheckCoinbase(txs, utxos).value, k);
    }
  }
}
