// How much value a validated block adds to the unspent outputs.

module BlockValue {
  import opened Bytes
  import opened Blocks
  import opened Ledger
  import opened Transactions
  import opened Wrappers

  // No stored output carries the index that coinbase inputs use.
  ghost predicate Indexed(utxos: Utxos) {
    forall o :: o in utxos ==> o.index != NO_INDEX
  }

  lemma {:induction false} IndexedPreserved(c: Crypto, utxos: Utxos, txs: seq<Transaction>, n: nat)
    requires n <= |txs| && Indexed(utxos)
    ensures Indexed(Apply(c, utxos, txs, n))
    decreases n
  {
    if n > 0 {
      IndexedPreserved(c, utxos, txs, n - 1);
      var tx := txs[n - 1];
      forall o | o in Created(c.txid(tx), tx.outputs, |tx.outputs|)
        ensures o.index != NO_INDEX
      {
        CreatedKey(c.txid(tx), |tx.outputs|, o);
      }
    }
  }

  // ---- Sums over a block ----

  function FeeOrZero(tx: Transaction, utxos: Utxos): nat {
    var fee := Fee(tx, utxos);
    if fee.Ok? then fee.value else 0
  }

  function FeeTotal(txs: seq<Transaction>, utxos: Utxos, n: nat): nat
    requires n <= |txs|
  {
    if n <= 1 then 0
    else FeeTotal(txs, utxos, n - 1) + FeeOrZero(txs[n - 1], utxos)
  }

  // What transactions of coinbase form pay out, wherever they stand in the block.
  function Minted(txs: seq<Transaction>, n: nat): nat
    requires n <= |txs|
  {
    if n == 0 then 0 else Minted(txs, n - 1) + if IsCoinbase(txs[n - 1]) then ValueSum(txs[n - 1].outputs) else 0
  }

  // What transactions n, n+1, ... spend.
  function SpentFrom(txs: seq<Transaction>, n: nat): set<OutPoint>
    requires n <= |txs|
    decreases |txs| - n
  {
    if n == |txs| then {} else Spends(txs[n].inputs) + SpentFrom(txs, n + 1)
  }

  // ---- Effect on the total of the two halves of a transaction ----

  lemma {:induction false} TotalWithout(m: Utxos, inputs: seq<TxIn>)
    requires AllExist(inputs, m) && Indexed(m) && Distinct(InputOutpoints(inputs))
    ensures Total(m) == Total(m - Spends(inputs)) + ValueSum(Spent(inputs, m))
    decreases |inputs|
  {
    if inputs == [] {
      assert m - Spends(inputs) == m;
    } else {
      var n := |inputs| - 1;
      var rest, o := inputs[..n], inputs[n].outpoint;
      assert InputOutpoints(rest) == InputOutpoints(inputs)[..n];
      TotalWithout(m, rest);
      SpendsStep(inputs, n);
      assert inputs[..n + 1] == inputs;
      assert o !in Spends(rest) by {
        forall i | 0 <= i < n
          ensures rest[i].outpoint != o
        {
          assert InputOutpoints(inputs)[i] != InputOutpoints(inputs)[n];
        }
      }
      TotalRemove(m - Spends(rest), o);
      assert m - Spends(rest) - {o} == m - Spends(inputs);
      assert Spent(inputs, m)[..n] == Spent(rest, m);
    }
  }

  ghost predicate FreshFor(txid: Hash32, n: nat, m: Utxos, s: set<OutPoint>)
    requires n < U32_LIMIT
  {
    CreatedKeys(txid, n) !! m.Keys + s
  }

  lemma {:induction false} TotalWithOne(m: Utxos, k: OutPoint, out: TxOut, s: set<OutPoint>)
    ensures Total(m[k := out] - s) <= Total(m - s) + out.value
    ensures k !in s && k !in m ==> Total(m[k := out] - s) == Total(m - s) + out.value
  {
    if k in s {
      assert m[k := out] - s == m - s;
    } else {
      assert m[k := out] - s == (m - s)[k := out];
      TotalAdd(m - s, k, out);
      if k !in m {
        assert m - s - {k} == m - s;
      }
    }
  }

  // Saving outputs adds at most their value; exactly that when no outpoint is overwritten.
  lemma {:induction false} TotalWith(m: Utxos, txid: Hash32, outs: seq<TxOut>, n: nat, s: set<OutPoint>)
    requires n <= |outs| < U32_LIMIT
    ensures Total(m + Created(txid, outs, n) - s) <= Total(m - s) + ValueSum(outs[..n])
    ensures FreshFor(txid, n, m, s) ==> Total(m + Created(txid, outs, n) - s) == Total(m - s) + ValueSum(outs[..n])
    decreases n
  {
    if n == 0 {
      assert m + Created(txid, outs, 0) == m;
    } else {
      var k := OutPoint(txid, n - 1);
      TotalWith(m, txid, outs, n - 1, s);
      ValueSumStep(outs, n - 1);
      CreatedStep(m, txid, outs, n - 1);
      TotalWithOne(m + Created(txid, outs, n - 1), k, outs[n - 1], s);
      if FreshFor(txid, n, m, s) {
        FreshSplit(txid, n, m, s);
      }
      CreatedKey(txid, n - 1, k);
    }
  }

  lemma {:induction false} FreshSplit(txid: Hash32, n: nat, m: Utxos, s: set<OutPoint>)
    requires 0 < n < U32_LIMIT && FreshFor(txid, n, m, s)
    ensures FreshFor(txid, n - 1, m, s) && OutPoint(txid, n - 1) !in m && OutPoint(txid, n - 1) !in s
  {
    assert CreatedKeys(txid, n) == CreatedKeys(txid, n - 1) + {OutPoint(txid, n - 1)};
  }

  // ---- What the double-spend check gives ----

  lemma {:induction false} LaterInputs(txs: seq<Transaction>, n: nat, m: nat)
    requires m <= n <= |txs|
    ensures BlockInputs(txs, m) <= BlockInputs(txs, n)
    decreases n
  {
    if m < n {
      LaterInputs(txs, n - 1, m);
    }
  }

  lemma {:induction false} SpentLater(txs: seq<Transaction>, n: nat, o: OutPoint) returns (p: nat)
    requires n <= |txs| && o in SpentFrom(txs, n)
    ensures |BlockInputs(txs, n)| <= p < |BlockInputs(txs, |txs|)| && BlockInputs(txs, |txs|)[p] == o
    decreases |txs| - n
  {
    LaterInputs(txs, n + 1, n);
    if o in Spends(txs[n].inputs) {
      var i :| 0 <= i < |txs[n].inputs| && !IsCoinbaseInput(txs[n].inputs[i]) && txs[n].inputs[i].outpoint == o;
      p := |BlockInputs(txs, n)| + i;
      LaterInputs(txs, |txs|, n + 1);
      assert BlockInputs(txs, n + 1)[p] == o;
    } else {
      p := SpentLater(txs, n + 1, o);
    }
  }

  // Where the inputs of transaction n stand among those of the block.
  lemma {:induction false} InputPosition(txs: seq<Transaction>, n: nat, i: nat)
    requires n < |txs| && !IsCoinbase(txs[n]) && i < |txs[n].inputs|
    ensures |BlockInputs(txs, n)| + i < |BlockInputs(txs, n + 1)| <= |BlockInputs(txs, |txs|)|
    ensures BlockInputs(txs, |txs|)[|BlockInputs(txs, n)| + i] == txs[n].inputs[i].outpoint
  {
    LaterInputs(txs, |txs|, n + 1);
    var p := |BlockInputs(txs, n)| + i;
    assert BlockInputs(txs, n + 1)[p] == InputOutpoints(txs[n].inputs)[i];
  }

  lemma {:induction false} OwnInputsDistinct(txs: seq<Transaction>, n: nat)
    requires n < |txs| && NoDoubleSpend(txs) && !IsCoinbase(txs[n])
    ensures Distinct(InputOutpoints(txs[n].inputs))
  {
    forall i, j | 0 <= i < j < |txs[n].inputs|
      ensures txs[n].inputs[i].outpoint != txs[n].inputs[j].outpoint
    {
      InputPosition(txs, n, i);
      InputPosition(txs, n, j);
    }
  }

  lemma {:induction false} InputNotSpentLater(txs: seq<Transaction>, n: nat, i: nat)
    requires n < |txs| && NoDoubleSpend(txs) && !IsCoinbase(txs[n]) && i < |txs[n].inputs|
    ensures txs[n].inputs[i].outpoint !in SpentFrom(txs, n + 1)
  {
    if txs[n].inputs[i].outpoint in SpentFrom(txs, n + 1) {
      InputPosition(txs, n, i);
      var p := SpentLater(txs, n + 1, txs[n].inputs[i].outpoint);
      assert false;
    }
  }

  // ---- Accounting ----

  // Both validators pass on the outputs stored before the block.
  ghost predicate Passes(txs: seq<Transaction>, utxos: Utxos) {
    CheckCoinbase(txs, utxos) == None && NoDoubleSpend(txs)
  }

  ghost predicate Fresh(c: Crypto, txs: seq<Transaction>, utxos: Utxos) {
    && (forall i, j :: 0 <= i < j < |txs| ==> c.txid(txs[i]) != c.txid(txs[j]))
    && (forall o :: o in utxos ==> o.txid !in TxIds(c, txs))
  }

  lemma {:induction false} FeesExist(txs: seq<Transaction>, utxos: Utxos, n: nat)
    requires 0 < n < |txs| && BlockFees(txs, utxos, |txs|).Ok?
    ensures Fee(txs[n], utxos).Ok?
  {
    if BlockFees(txs, utxos, n + 1).Err? {
      FeesError(txs, utxos, n + 1, |txs|);
    }
  }

  lemma {:induction false} FeesBelowTotal(txs: seq<Transaction>, utxos: Utxos, n: nat)
    requires n <= |txs| && BlockFees(txs, utxos, n).Ok?
    ensures BlockFees(txs, utxos, n).value == Min(FeeTotal(txs, utxos, n), U64_LIMIT - 1)
    decreases n
  {
    if n > 1 {
      FeesBelowTotal(txs, utxos, n - 1);
    }
  }

  lemma {:induction false} InputsExist(tx: Transaction, utxos: Utxos)
    requires !IsCoinbase(tx) && Fee(tx, utxos).Ok?
    ensures AllExist(tx.inputs, utxos)
    ensures ValueSum(Spent(tx.inputs, utxos)) == ValueSum(tx.outputs) + FeeOrZero(tx, utxos)
  {
    InputSumMeaning(tx.inputs, utxos);
  }

  lemma {:induction false} SpendingStep(txs: seq<Transaction>, utxos: Utxos, n: nat)
    requires n < |txs| && NoDoubleSpend(txs) && Indexed(utxos) && !IsCoinbase(txs[n])
    requires AllExist(txs[n].inputs, utxos)
    ensures Total(utxos - SpentFrom(txs, n + 1)) == Total(utxos - SpentFrom(txs, n)) + ValueSum(Spent(txs[n].inputs, utxos))
  {
    var inputs, later := txs[n].inputs, SpentFrom(txs, n + 1);
    OwnInputsDistinct(txs, n);
    forall i | 0 <= i < |inputs|
      ensures inputs[i].outpoint !in later
    {
      InputNotSpentLater(txs, n, i);
    }
    TotalWithout(utxos - later, inputs);
    assert Spent(inputs, utxos - later) == Spent(inputs, utxos);
    assert utxos - later - Spends(inputs) == utxos - SpentFrom(txs, n);
  }

  // Adding back what transaction n spends.
  lemma {:induction false} SpendStep(txs: seq<Transaction>, utxos: Utxos, n: nat)
    requires n < |txs| && Passes(txs, utxos) && Indexed(utxos)
    ensures var tx := txs[n];
      Total(utxos - SpentFrom(txs, n + 1)) == Total(utxos - SpentFrom(txs, n))
        + if IsCoinbase(tx) then 0 else ValueSum(tx.outputs) + FeeOrZero(tx, utxos)
    ensures !IsCoinbase(txs[n]) ==> AllExist(txs[n].inputs, utxos)
  {
    if IsCoinbase(txs[n]) {
      assert Spends(txs[n].inputs) == {};
      assert SpentFrom(txs, n) == SpentFrom(txs, n + 1);
    } else {
      FeesExist(txs, utxos, n);
      InputsExist(txs[n], utxos);
      SpendingStep(txs, utxos, n);
    }
  }

  lemma {:induction false} SpentExist(txs: seq<Transaction>, utxos: Utxos, n: nat)
    requires n <= |txs| && Passes(txs, utxos) && Indexed(utxos)
    ensures SpentFrom(txs, n) <= utxos.Keys
    decreases |txs| - n
  {
    if n < |txs| {
      SpentExist(txs, utxos, n + 1);
      SpendStep(txs, utxos, n);
    }
  }

  lemma {:induction false} KeysAfter(c: Crypto, utxos: Utxos, txs: seq<Transaction>, n: nat)
    requires n <= |txs|
    ensures forall o :: o in Apply(c, utxos, txs, n) ==> o in utxos || exists i :: 0 <= i < n && o.txid == c.txid(txs[i])
    decreases n
  {
    if n > 0 {
      KeysAfter(c, utxos, txs, n - 1);
      var tx := txs[n - 1];
      forall o | o in Apply(c, utxos, txs, n)
        ensures o in utxos || exists i :: 0 <= i < n && o.txid == c.txid(txs[i])
      {
        CreatedKey(c.txid(tx), |tx.outputs|, o);
        assert o in Apply(c, utxos, txs, n - 1) || o.txid == c.txid(txs[n - 1]);
      }
    }
  }

  lemma {:induction false} FreshStep(c: Crypto, txs: seq<Transaction>, utxos: Utxos, n: nat)
    requires n < |txs| && Passes(txs, utxos) && Indexed(utxos) && Fresh(c, txs, utxos)
    ensures FreshFor(c.txid(txs[n]), |txs[n].outputs|, Apply(c, utxos, txs, n), SpentFrom(txs, n))
  {
    KeysAfter(c, utxos, txs, n);
    SpentExist(txs, utxos, n);
    var id := c.txid(txs[n]);
    assert id == TxIds(c, txs)[n];
    forall o | o in CreatedKeys(id, |txs[n].outputs|)
      ensures o !in Apply(c, utxos, txs, n) && o !in SpentFrom(txs, n)
    {
      CreatedKey(id, |txs[n].outputs|, o);
    }
  }

  lemma {:induction false} ApplyStep(c: Crypto, txs: seq<Transaction>, utxos: Utxos, n: nat)
    requires n < |txs|
    ensures Total(Apply(c, utxos, txs, n + 1) - SpentFrom(txs, n + 1))
         <= Total(Apply(c, utxos, txs, n) - SpentFrom(txs, n)) + ValueSum(txs[n].outputs)
    ensures FreshFor(c.txid(txs[n]), |txs[n].outputs|, Apply(c, utxos, txs, n), SpentFrom(txs, n)) ==>
      Total(Apply(c, utxos, txs, n + 1) - SpentFrom(txs, n + 1))
        == Total(Apply(c, utxos, txs, n) - SpentFrom(txs, n)) + ValueSum(txs[n].outputs)
  {
    var tx, cur, s := txs[n], Apply(c, utxos, txs, n), SpentFrom(txs, n);
    TotalWith(cur, c.txid(tx), tx.outputs, |tx.outputs|, s);
    assert tx.outputs[..|tx.outputs|] == tx.outputs;
    assert Apply(c, utxos, txs, n + 1) - SpentFrom(txs, n + 1) == cur + Created(c.txid(tx), tx.outputs, |tx.outputs|) - s;
  }

  // The growth, after n transactions, of the value outside what is still to be spent.
  ghost function Gain(c: Crypto, txs: seq<Transaction>, utxos: Utxos, n: nat): int
    requires n <= |txs|
  {
    Total(Apply(c, utxos, txs, n) - SpentFrom(txs, n)) - Total(utxos - SpentFrom(txs, n))
  }

  ghost function Issued(txs: seq<Transaction>, utxos: Utxos, n: nat): int
    requires n <= |txs|
  {
    Minted(txs, n) - FeeTotal(txs, utxos, n)
  }

  ghost function Lost(c: Crypto, txs: seq<Transaction>, utxos: Utxos, n: nat): int
    requires n <= |txs|
  {
    Issued(txs, utxos, n) - Gain(c, txs, utxos, n)
  }

  ghost predicate LosesAt(c: Crypto, txs: seq<Transaction>, utxos: Utxos, n: nat, exact: bool)
    requires n < |txs|
  {
    var before, after := Lost(c, txs, utxos, n), Lost(c, txs, utxos, n + 1);
    before <= after && (exact ==> before == after)
  }

  // It is at most the minted outputs less the fees; exactly that when no outpoint is
  // overwritten.
  lemma {:induction false} Growth(c: Crypto, txs: seq<Transaction>, utxos: Utxos, n: nat, exact: bool)
    requires n <= |txs| && forall k :: 0 <= k < |txs| ==> LosesAt(c, txs, utxos, k, exact)
    ensures Lost(c, txs, utxos, n) >= 0 && (exact ==> Lost(c, txs, utxos, n) == 0)
    decreases n
  {
    if n == 0 {
      GrowthStart(c, txs, utxos);
    } else {
      Growth(c, txs, utxos, n - 1, exact);
      assert LosesAt(c, txs, utxos, n - 1, exact);
    }
  }

  lemma GrowthStart(c: Crypto, txs: seq<Transaction>, utxos: Utxos)
    ensures Lost(c, txs, utxos, 0) == 0
  {
    assert Gain(c, txs, utxos, 0) == 0;
  }

  lemma {:induction false} GrowthStep(c: Crypto, txs: seq<Transaction>, utxos: Utxos, n: nat, exact: bool)
    requires n < |txs| && Passes(txs, utxos) && Indexed(utxos) && (exact ==> Fresh(c, txs, utxos))
    ensures LosesAt(c, txs, utxos, n, exact)
  {
    SpendStep(txs, utxos, n);
    ApplyStep(c, txs, utxos, n);
    SumSteps(txs, utxos, n);
    if exact {
      FreshStep(c, txs, utxos, n);
    }
  }

  lemma {:induction false} GrowthAll(c: Crypto, txs: seq<Transaction>, utxos: Utxos, exact: bool)
    requires Passes(txs, utxos) && Indexed(utxos) && (exact ==> Fresh(c, txs, utxos))
    ensures Lost(c, txs, utxos, |txs|) >= 0 && (exact ==> Lost(c, txs, utxos, |txs|) == 0)
  {
    forall k | 0 <= k < |txs|
      ensures LosesAt(c, txs, utxos, k, exact)
    {
      GrowthStep(c, txs, utxos, k, exact);
    }
    Growth(c, txs, utxos, |txs|, exact);
  }

  lemma {:induction false} SumSteps(txs: seq<Transaction>, utxos: Utxos, n: nat)
    requires n < |txs| && IsCoinbase(txs[0])
    ensures FeeTotal(txs, utxos, n + 1) == FeeTotal(txs, utxos, n) + if IsCoinbase(txs[n]) then 0 else FeeOrZero(txs[n], utxos)
    ensures Minted(txs, n + 1) == Minted(txs, n) + if IsCoinbase(txs[n]) then ValueSum(txs[n].outputs) else 0
  {}

  // Nothing is left to be spent once the block is through.
  lemma {:induction false} GrowthOfBlock(c: Crypto, txs: seq<Transaction>, utxos: Utxos)
    requires Passes(txs, utxos) && Indexed(utxos)
    ensures Total(Apply(c, utxos, txs, |txs|)) + FeeTotal(txs, utxos, |txs|) <= Total(utxos) + Minted(txs, |txs|)
    ensures Fresh(c, txs, utxos) ==>
      Total(Apply(c, utxos, txs, |txs|)) + FeeTotal(txs, utxos, |txs|) == Total(utxos) + Minted(txs, |txs|)
  {
    GrowthAll(c, txs, utxos, Fresh(c, txs, utxos));
    assert Apply(c, utxos, txs, |txs|) - {} == Apply(c, utxos, txs, |txs|) && utxos - {} == utxos;
  }

  // What a block may pay beyond its reward and fees: outputs of coinbase-form transactions
  // after the first, whose fee counts as zero, and what the unchecked sum of the first
  // transaction's outputs loses by wrapping.
  function Excess(txs: seq<Transaction>): nat
    requires txs != [] && IsCoinbase(txs[0])
  {
    MintedCoversFirst(txs, |txs|);
    Minted(txs, |txs|) - WrappedSum(txs[0].outputs)
  }

  lemma {:induction false} MintedCoversFirst(txs: seq<Transaction>, n: nat)
    requires 0 < n <= |txs| && IsCoinbase(txs[0])
    ensures Minted(txs, n) >= ValueSum(txs[0].outputs)
    decreases n
  {
    if n > 1 {
      MintedCoversFirst(txs, n - 1);
    }
  }

  // Total value grows by at most the block reward and the excess, whatever the hashes do.
  lemma {:induction false} BlockGrowth(c: Crypto, txs: seq<Transaction>, utxos: Utxos)
    requires Passes(txs, utxos) && Indexed(utxos)
    ensures Total(Apply(c, utxos, txs, |txs|)) <= Total(utxos) + BLOCK_REWARD_LYT + Excess(txs)
  {
    GrowthOfBlock(c, txs, utxos);
    FeesBelowTotal(txs, utxos, |txs|);
  }

  // Conservation: with fresh outpoints, value afterwards and fees are exactly value before
  // and minted outputs, so the block grows the total by at most its reward exactly when it
  // mints no more than reward and fees.
  lemma {:induction false} BlockConserves(c: Crypto, txs: seq<Transaction>, utxos: Utxos)
    requires Passes(txs, utxos) && Indexed(utxos) && Fresh(c, txs, utxos)
    ensures Total(Apply(c, utxos, txs, |txs|)) + FeeTotal(txs, utxos, |txs|) == Total(utxos) + Minted(txs, |txs|)
    ensures Total(Apply(c, utxos, txs, |txs|)) <= Total(utxos) + BLOCK_REWARD_LYT
       <==> Minted(txs, |txs|) <= BLOCK_REWARD_LYT + FeeTotal(txs, utxos, |txs|)
  {
    GrowthOfBlock(c, txs, utxos);
  }

  // The first transaction is the only one of coinbase form and its outputs fit a word.
  predicate SoleCoinbase(txs: seq<Transaction>) {
    && txs != [] && ValueSum(txs[0].outputs) < U64_LIMIT
    && forall i :: 0 < i < |txs| ==> !IsCoinbase(txs[i])
  }

  lemma NoExcess(txs: seq<Transaction>)
    requires SoleCoinbase(txs) && IsCoinbase(txs[0])
    ensures Excess(txs) == 0
  {
    MintedByFirst(txs, |txs|);
  }

  lemma {:induction false} MintedByFirst(txs: seq<Transaction>, n: nat)
    requires SoleCoinbase(txs) && IsCoinbase(txs[0]) && 0 < n <= |txs|
    ensures Minted(txs, n) == ValueSum(txs[0].outputs)
    decreases n
  {
    if n > 1 {
      MintedByFirst(txs, n - 1);
    }
  }

  // A second coinbase-form transaction passes both validators and mints any amount.
  lemma SecondCoinbaseMints(c: Crypto, utxos: Utxos, script: seq<byte>, amount: u64)
    requires |script| < U32_LIMIT && Indexed(utxos)
    ensures var form := TxIn(OutPoint(ZERO_HASH, NO_INDEX), [], 0);
      var txs: seq<Transaction> := [Tx(1, [form], [TxOut(BLOCK_REWARD_LYT, script)], 0), Tx(2, [form], [TxOut(amount, script)], 0)];
      && Passes(txs, utxos)
      && (Fresh(c, txs, utxos) ==> Total(Apply(c, utxos, txs, 2)) == Total(utxos) + BLOCK_REWARD_LYT + amount)
  {
    var form := TxIn(OutPoint(ZERO_HASH, NO_INDEX), [], 0);
    var first: Transaction := Tx(1, [form], [TxOut(BLOCK_REWARD_LYT, script)], 0);
    var second: Transaction := Tx(2, [form], [TxOut(amount, script)], 0);
    var txs := [first, second];
    OneOutput(TxOut(BLOCK_REWARD_LYT, script));
    OneOutput(TxOut(amount, script));
    TwoFormsPass(txs, utxos);
    if Fresh(c, txs, utxos) {
      BlockConserves(c, txs, utxos);
      TwoFormsMint(txs, utxos);
    }
  }

  lemma TwoFormsPass(txs: seq<Transaction>, utxos: Utxos)
    requires |txs| == 2 && IsCoinbase(txs[0]) && IsCoinbase(txs[1]) && ValueSum(txs[0].outputs) == BLOCK_REWARD_LYT
    ensures Passes(txs, utxos)
  {
    assert BlockFees(txs, utxos, 1) == Ok(0);
    assert BlockFees(txs, utxos, 2) == Ok(0);
    assert BlockInputs(txs, 0) == [];
    assert BlockInputs(txs, 1) == [];
    assert BlockInputs(txs, 2) == [];
  }

  lemma TwoFormsMint(txs: seq<Transaction>, utxos: Utxos)
    requires |txs| == 2 && IsCoinbase(txs[0]) && IsCoinbase(txs[1])
    ensures FeeTotal(txs, utxos, 2) == 0 && Minted(txs, 2) == ValueSum(txs[0].outputs) + ValueSum(txs[1].outputs)
  {
    assert FeeTotal(txs, utxos, 1) == 0;
    assert Minted(txs, 1) == ValueSum(txs[0].outputs);
  }

  lemma OneOutput(out: TxOut)
    ensures ValueSum([out]) == out.value
  {
    assert [out][..0] == [];
  }
}
