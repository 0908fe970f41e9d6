// Building and signing a payment, and why the result passes validation.

module Builder {
  import opened Bytes
  import opened Wrappers
  import opened Transactions

  // The parts of a wallet that spending needs; `sign` stands for its secret key.
  datatype Wallet = Wallet(pubkey: seq<byte>, hash: MinerId, sign: Hash32 -> seq<byte>)

  datatype BuildError = AmountOverflow | CoinsOverflow | InsufficientFunds | BadAddress

  datatype Coin = Coin(outpoint: OutPoint, output: TxOut)

  function CoinSum(coins: seq<Coin>, n: nat): nat
    requires n <= |coins|
  {
    if n == 0 then 0 else CoinSum(coins, n - 1) + coins[n - 1].output.value
  }

  function UnsignedInputs(coins: seq<Coin>, n: nat): (inputs: seq<TxIn>)
    requires n <= |coins|
    ensures |inputs| == n
    ensures forall i :: 0 <= i < n ==> inputs[i] == TxIn(coins[i].outpoint, [], NO_INDEX)
  {
    seq(n, i requires 0 <= i < n => TxIn(coins[i].outpoint, [], NO_INDEX))
  }

  // n is the shortest nonempty prefix of the coins that reaches `required`, or all of them.
  ghost predicate Selected(coins: seq<Coin>, required: nat, n: nat) {
    && n <= |coins|
    && (forall k :: 0 < k < n ==> CoinSum(coins, k) < required)
    && (n == |coins| || (n > 0 && CoinSum(coins, n) >= required))
  }

  // Takes coins in the given order until they cover amount and fee.
  method SelectCoins(coins: seq<Coin>, required: u64) returns (r: Result<(seq<TxIn>, u64), BuildError>)
    ensures r.Ok? ==> exists n ::
      (Selected(coins, required, n) && r.value.0 == UnsignedInputs(coins, n) && r.value.1 == CoinSum(coins, n) >= required)
    ensures r.Err? ==> r.error == CoinsOverflow || r.error == InsufficientFunds
    ensures r == Err(InsufficientFunds) ==> CoinSum(coins, |coins|) < required
    ensures r == Err(CoinsOverflow) ==> exists n :: 0 < n <= |coins| && CoinSum(coins, n) >= U64_LIMIT
  {
    var inputs: seq<TxIn> := [];
    var inputSum: u64 := 0;
    var n := 0;
    while n < |coins|
      invariant n <= |coins|
      invariant inputs == UnsignedInputs(coins, n) && inputSum == CoinSum(coins, n)
      invariant forall k :: 0 < k <= n ==> CoinSum(coins, k) < required
    {
      inputs := inputs + [TxIn(coins[n].outpoint, [], NO_INDEX)];
      if inputSum + coins[n].output.value >= U64_LIMIT {
        assert CoinSum(coins, n + 1) >= U64_LIMIT;
        return Err(CoinsOverflow);
      }
      inputSum := inputSum + coins[n].output.value;
      n := n + 1;
      if inputSum >= required {
        assert Selected(coins, required, n);
        return Ok((inputs, inputSum));
      }
    }
    if inputSum < required {
      return Err(InsufficientFunds);
    }
    assert Selected(coins, required, n);
    return Ok((inputs, inputSum));
  }

  // ---- The shape of a built transaction ----

  function PaymentOutputs(to: MinerId, from: MinerId, amount: u64, change: u64): (outputs: seq<TxOut>)
    ensures |outputs| > 0 && outputs[0].value == amount
    ensures forall i :: 0 < i < |outputs| ==> outputs[i].value >= DUST_LIMIT_LYT
    ensures forall i :: 0 <= i < |outputs| ==> |outputs[i].script| == 25
  {
    [TxOut(amount, P2pkh(to))] + (if change > DUST_LIMIT_LYT then [TxOut(change, P2pkh(from))] else [])
  }

  function Payment(outputs: seq<TxOut>, coins: seq<Coin>, n: nat): RawTx
    requires n <= |coins|
  {
    Tx(1, UnsignedInputs(coins, n), outputs, 0)
  }

  function SignedInputs(c: Crypto, w: Wallet, tx: RawTx, n: nat): (inputs: seq<TxIn>)
    requires n <= |tx.inputs|
    ensures |inputs| == n
    ensures forall i :: 0 <= i < n ==>
      inputs[i] == tx.inputs[i].(scriptSig := ScriptSig(w.sign(Sighash(c, tx, i)), w.pubkey))
  {
    seq(n, i requires 0 <= i < n => tx.inputs[i].(scriptSig := ScriptSig(w.sign(Sighash(c, tx, i)), w.pubkey)))
  }

  function Signed(c: Crypto, w: Wallet, tx: RawTx): RawTx {
    tx.(inputs := SignedInputs(c, w, tx, |tx.inputs|))
  }

  // What the builder returns for the first n coins.
  function Built(c: Crypto, w: Wallet, to: MinerId, from: MinerId, amount: u64, change: u64, coins: seq<Coin>, n: nat): RawTx
    requires n <= |coins|
  {
    Signed(c, w, Payment(PaymentOutputs(to, from, amount, change), coins, n))
  }

  ghost predicate Builds(c: Crypto, w: Wallet, from: string, to: string, amount: u64, fee: u64, coins: seq<Coin>, tx: RawTx) {
    && c.decodeAddress(to).Some?
    && exists n, change :: BuildsWith(c, w, from, to, amount, fee, coins, tx, n, change)
  }

  ghost predicate BuildsWith(c: Crypto, w: Wallet, from: string, to: string, amount: u64, fee: u64, coins: seq<Coin>,
                             tx: RawTx, n: nat, change: MinerId)
    requires c.decodeAddress(to).Some?
  {
    && Selected(coins, amount + fee, n) && amount + fee <= CoinSum(coins, n) < U64_LIMIT
    && (CoinSum(coins, n) - amount - fee > DUST_LIMIT_LYT ==> c.decodeAddress(from) == Some(change))
    && tx == Built(c, w, c.decodeAddress(to).value, change, amount, CoinSum(coins, n) - amount - fee, coins, n)
  }

  method CreateP2pkh(c: Crypto, w: Wallet, from: string, to: string, amount: u64, fee: u64, coins: seq<Coin>)
    returns (r: Result<RawTx, BuildError>)
    requires |coins| < U32_LIMIT
    ensures match r
      case Ok(tx) => amount + fee < U64_LIMIT && Builds(c, w, from, to, amount, fee, coins, tx)
      case Err(AmountOverflow) => amount + fee >= U64_LIMIT
      case Err(CoinsOverflow) => exists n :: 0 < n <= |coins| && CoinSum(coins, n) >= U64_LIMIT
      case Err(InsufficientFunds) => CoinSum(coins, |coins|) < amount + fee
      case Err(BadAddress) => c.decodeAddress(to).None? || c.decodeAddress(from).None?
  {
    if amount + fee >= U64_LIMIT {
      return Err(AmountOverflow);
    }
    var selection := SelectCoins(coins, amount + fee);
    if selection.Err? {
      return Err(selection.error);
    }
    var (inputs, inputSum) := selection.value;
    ghost var n :| Selected(coins, amount + fee, n) && inputs == UnsignedInputs(coins, n) && inputSum == CoinSum(coins, n);
    r := Assemble(c, w, from, to, amount, fee, coins, inputs, inputSum, n);
  }

  // Outputs, change and signatures for selected coins.
  method Assemble(c: Crypto, w: Wallet, from: string, to: string, amount: u64, fee: u64, coins: seq<Coin>,
                  inputs: seq<TxIn>, inputSum: u64, ghost n: nat)
    returns (r: Result<RawTx, BuildError>)
    requires |coins| < U32_LIMIT && Selected(coins, amount + fee, n)
    requires inputs == UnsignedInputs(coins, n) && inputSum == CoinSum(coins, n) >= amount + fee
    ensures match r
      case Ok(tx) => Builds(c, w, from, to, amount, fee, coins, tx)
      case Err(e) => e == BadAddress && (c.decodeAddress(to).None? || c.decodeAddress(from).None?)
  {
    var toHash, fromHash := c.decodeAddress(to), c.decodeAddress(from);
    if toHash.None? {
      return Err(BadAddress);
    }
    var change := inputSum - amount - fee;
    if change > DUST_LIMIT_LYT && fromHash.None? {
      return Err(BadAddress);
    }
    var changeHash := if fromHash.Some? then fromHash.value else toHash.value;
    var signed := PayFrom(c, w, toHash.value, changeHash, amount, change, coins, inputs, n);
    BuildsIntro(c, w, from, to, amount, fee, coins, signed, n, changeHash, change);
    return Ok(signed);
  }

  method PayFrom(c: Crypto, w: Wallet, to: MinerId, from: MinerId, amount: u64, change: u64, coins: seq<Coin>,
                 inputs: seq<TxIn>, ghost n: nat)
    returns (signed: RawTx)
    requires n <= |coins| < U32_LIMIT && inputs == UnsignedInputs(coins, n)
    ensures signed == Built(c, w, to, from, amount, change, coins, n)
  {
    var outputs := PaymentOutputs(to, from, amount, change);
    PaymentSized(outputs, coins, n);
    signed := SignPayment(c, w, inputs, outputs, coins, n);
  }

  method SignPayment(c: Crypto, w: Wallet, inputs: seq<TxIn>, outputs: seq<TxOut>, coins: seq<Coin>, ghost n: nat)
    returns (signed: RawTx)
    requires n <= |coins| < U32_LIMIT && inputs == UnsignedInputs(coins, n)
    requires Sized(Payment(outputs, coins, n))
    ensures signed == Signed(c, w, Payment(outputs, coins, n))
  {
    signed := SignAll(c, w, Tx(1, inputs, outputs, 0));
  }

  lemma PaymentSized(outputs: seq<TxOut>, coins: seq<Coin>, n: nat)
    requires n <= |coins| < U32_LIMIT && |outputs| < U32_LIMIT
    requires forall i :: 0 <= i < |outputs| ==> |outputs[i].script| < U32_LIMIT
    ensures Sized(Payment(outputs, coins, n))
  {}

  lemma BuildsIntro(c: Crypto, w: Wallet, from: string, to: string, amount: u64, fee: u64, coins: seq<Coin>,
                    tx: RawTx, n: nat, changeTo: MinerId, change: u64)
    requires c.decodeAddress(to).Some? && Selected(coins, amount + fee, n) && CoinSum(coins, n) == amount + fee + change < U64_LIMIT
    requires change > DUST_LIMIT_LYT ==> c.decodeAddress(from) == Some(changeTo)
    requires tx == Built(c, w, c.decodeAddress(to).value, changeTo, amount, change, coins, n)
    ensures Builds(c, w, from, to, amount, fee, coins, tx)
  {
    assert BuildsWith(c, w, from, to, amount, fee, coins, tx, n, changeTo);
  }

  method SignAll(c: Crypto, w: Wallet, tx: Transaction) returns (signed: Transaction)
    ensures signed == Signed(c, w, tx)
  {
    var inputs: seq<TxIn> := [];
    for i := 0 to |tx.inputs|
      invariant inputs == SignedInputs(c, w, tx, i)
    {
      var sighash := ComputeSighash(c, tx, i);
      inputs := inputs + [tx.inputs[i].(scriptSig := ScriptSig(w.sign(sighash), w.pubkey))];
    }
    signed := tx.(inputs := inputs);
  }

  // ---- Owned coins ----

  // The coins are distinct unspent outputs paid to the wallet's key.
  ghost predicate Owned(w: Wallet, coins: seq<Coin>, utxos: Utxos) {
    && (forall i :: 0 <= i < |coins| ==>
         && coins[i].outpoint in utxos && utxos[coins[i].outpoint] == coins[i].output
         && coins[i].output.script == P2pkh(w.hash)
         && coins[i].outpoint.index != NO_INDEX)
    && (forall i, j :: 0 <= i < j < |coins| ==> coins[i].outpoint != coins[j].outpoint)
  }

  // Signatures made with the wallet verify under its key and fit a length byte.
  ghost predicate Sound(c: Crypto, w: Wallet) {
    && |w.pubkey| < 256 && c.hash160(w.pubkey) == w.hash
    && forall m :: 0 < |w.sign(m)| < 256 && c.ecdsa(w.pubkey, w.sign(m), m)
  }

  lemma SighashSurvivesSigning(c: Crypto, w: Wallet, tx: Transaction, i: nat)
    ensures Sighash(c, Signed(c, w, tx), i) == Sighash(c, tx, i)
  {
    var signed := Signed(c, w, tx);
    assert StrippedInputs(signed.inputs) == StrippedInputs(tx.inputs);
    PreimageCoversExactly(signed, tx);
  }

  lemma SignedInputVerifies(c: Crypto, w: Wallet, tx: Transaction, i: nat, utxo: TxOut)
    requires i < |tx.inputs| && Sound(c, w) && utxo.script == P2pkh(w.hash)
    ensures VerifyInput(c, Signed(c, w, tx), i, utxo)
  {
    var m := Sighash(c, tx, i);
    SighashSurvivesSigning(c, w, tx, i);
    ParseWritten(w.sign(m), w.pubkey);
  }

  lemma {:induction false} InputsCheck(c: Crypto, w: Wallet, tx: Transaction, coins: seq<Coin>, utxos: Utxos, n: nat)
    requires n <= |tx.inputs| <= |coins| && Sound(c, w) && Owned(w, coins, utxos)
    requires forall i :: 0 <= i < |tx.inputs| ==> tx.inputs[i].outpoint == coins[i].outpoint
    requires CoinSum(coins, n) < U64_LIMIT
    ensures CheckInputs(c, Signed(c, w, tx), utxos, n) == Ok(CoinSum(coins, n))
    decreases n
  {
    if n > 0 {
      InputsCheck(c, w, tx, coins, utxos, n - 1);
      SignedInputVerifies(c, w, tx, n - 1, coins[n - 1].output);
      NextChecked(c, Signed(c, w, tx), utxos, n, CoinSum(coins, n - 1));
    }
  }

  lemma NextChecked(c: Crypto, tx: RawTx, utxos: Utxos, n: nat, sum: u64)
    requires 0 < n <= |tx.inputs| && CheckInputs(c, tx, utxos, n - 1) == Ok(sum) && tx.inputs[n - 1].outpoint in utxos
    requires var out := utxos[tx.inputs[n - 1].outpoint]; VerifyInput(c, tx, n - 1, out) && sum + out.value < U64_LIMIT
    ensures CheckInputs(c, tx, utxos, n) == Ok(sum + utxos[tx.inputs[n - 1].outpoint].value)
  {}

  lemma {:induction false} SpendingOfCoins(inputs: seq<TxIn>, coins: seq<Coin>, n: nat)
    requires n <= |inputs| <= |coins|
    requires forall i :: 0 <= i < |inputs| ==> inputs[i].outpoint == coins[i].outpoint && coins[i].outpoint.index != NO_INDEX
    ensures |SpendingUpTo(inputs, n)| == n
    ensures forall i :: 0 <= i < n ==> SpendingUpTo(inputs, n)[i] == coins[i].outpoint
    decreases n
  {
    if n > 0 {
      SpendingOfCoins(inputs, coins, n - 1);
    }
  }

  function OutputSum(amount: nat, change: nat): nat {
    amount + if change > DUST_LIMIT_LYT then change else 0
  }

  lemma PaymentSum(to: MinerId, from: MinerId, amount: u64, change: u64)
    ensures ValueSum(PaymentOutputs(to, from, amount, change)) == OutputSum(amount, change)
  {
    var first := [TxOut(amount, P2pkh(to))];
    assert first[..0] == [];
    assert ValueSum(first) == amount;
    if change > DUST_LIMIT_LYT {
      var both := first + [TxOut(change, P2pkh(from))];
      assert both[..1] == first;
    }
  }

  // A payment of `amount` out of inputs worth `inputs` validates exactly under these bounds,
  // and then with the fee that is left over.
  predicate Settles(verdict: Result<u64, TxError>, amount: nat, inputs: nat, outputs: nat) {
    if amount >= DUST_LIMIT_LYT && inputs - outputs >= MINIMUM_FEE_LYT && outputs <= MAX_SUPPLY_LYT
    then verdict == Ok(inputs - outputs)
    else verdict.Err?
  }

  // A payment from owned coins validates exactly when it is not dust, its real fee reaches
  // the minimum and its outputs stay within the supply; the real fee then lies between the
  // asked fee and the asked fee plus the dust limit.
  lemma BuiltValidates(c: Crypto, w: Wallet, to: MinerId, from: MinerId, amount: u64, change: u64,
                       coins: seq<Coin>, n: nat, utxos: Utxos)
    requires 0 < n <= |coins| && n < U32_LIMIT && amount + change <= CoinSum(coins, n) < U64_LIMIT
    requires Sound(c, w) && Owned(w, coins, utxos)
    ensures Settles(Validation(c, Built(c, w, to, from, amount, change, coins, n), utxos), amount, CoinSum(coins, n), OutputSum(amount, change))
  {
    PaymentSum(to, from, amount, change);
    SignedValidates(c, w, PaymentOutputs(to, from, amount, change), coins, n, utxos);
  }

  lemma SignedValidates(c: Crypto, w: Wallet, outputs: seq<TxOut>, coins: seq<Coin>, n: nat, utxos: Utxos)
    requires 0 < n <= |coins| && n < U32_LIMIT && CoinSum(coins, n) < U64_LIMIT
    requires Sound(c, w) && Owned(w, coins, utxos)
    requires 0 < |outputs| < U32_LIMIT && ValueSum(outputs) <= CoinSum(coins, n)
    requires forall i :: 0 < i < |outputs| ==> outputs[i].value >= DUST_LIMIT_LYT
    requires forall i :: 0 <= i < |outputs| ==> |outputs[i].script| < U32_LIMIT
    ensures Settles(Validation(c, Signed(c, w, Payment(outputs, coins, n)), utxos), outputs[0].value, CoinSum(coins, n), ValueSum(outputs))
  {
    var unsigned: Transaction := Payment(outputs, coins, n);
    var tx := Signed(c, w, unsigned);
    InputsCheck(c, w, unsigned, coins, utxos, n);
    SpendingOfCoins(tx.inputs, coins, n);
    assert tx.inputs[0].outpoint.index != NO_INDEX;
    SettlesFrom(c, tx, utxos, CoinSum(coins, n));
  }

  lemma SettlesFrom(c: Crypto, tx: RawTx, utxos: Utxos, inputSum: u64)
    requires !IsCoinbase(tx) && CheckInputs(c, tx, utxos, |tx.inputs|) == Ok(inputSum)
    requires tx.inputs != [] && Distinct(SpendingOutpoints(tx.inputs))
    requires tx.outputs != [] && ValueSum(tx.outputs) <= inputSum
    requires forall i :: 0 < i < |tx.outputs| ==> tx.outputs[i].value >= DUST_LIMIT_LYT
    ensures Settles(Validation(c, tx, utxos), tx.outputs[0].value, inputSum, ValueSum(tx.outputs))
  {
    BasicOf(tx);
    ValidationFrom(c, tx, utxos, inputSum);
    SettlesBy(BasicError(tx), Validation(c, tx, utxos), tx.outputs[0].value, inputSum, ValueSum(tx.outputs));
  }

  lemma SettlesBy(basic: Option<TxError>, verdict: Result<u64, TxError>, amount: nat, inputs: u64, outputs: nat)
    requires basic == None <==> amount >= DUST_LIMIT_LYT && outputs <= MAX_SUPPLY_LYT
    requires verdict == if basic.Some? then Err(basic.value) else FeeLeft(Ok(inputs), outputs)
    requires outputs <= inputs
    ensures Settles(verdict, amount, inputs, outputs)
  {}

  lemma ValidationFrom(c: Crypto, tx: RawTx, utxos: Utxos, inputSum: u64)
    requires !IsCoinbase(tx) && CheckInputs(c, tx, utxos, |tx.inputs|) == Ok(inputSum)
    requires ValueSum(tx.outputs) <= inputSum
    ensures Validation(c, tx, utxos) ==
      if BasicError(tx).Some? then Err(BasicError(tx).value) else FeeLeft(Ok(inputSum), ValueSum(tx.outputs))
  {}

  lemma BasicOf(tx: RawTx)
    requires tx.inputs != [] && Distinct(SpendingOutpoints(tx.inputs)) && tx.outputs != []
    requires forall i :: 0 < i < |tx.outputs| ==> tx.outputs[i].value >= DUST_LIMIT_LYT
    ensures BasicError(tx) == None <==> tx.outputs[0].value >= DUST_LIMIT_LYT && ValueSum(tx.outputs) <= MAX_SUPPLY_LYT
  {}

  // ---- From the builder's result to the validator's ----

  // Spending no coin at all, which only an amount and fee of zero allow, is invalid.
  lemma NoCoinsInvalid(c: Crypto, w: Wallet, to: MinerId, from: MinerId, amount: u64, change: u64, coins: seq<Coin>, utxos: Utxos)
    ensures Validation(c, Built(c, w, to, from, amount, change, coins, 0), utxos) == Err(EmptyTransaction)
  {}

  // The verdict on a payment out of n coins worth `inputs`, left with the asked fee or with
  // the asked fee and a change that would have been dust.
  predicate SettlesPayment(verdict: Result<u64, TxError>, amount: nat, fee: nat, inputs: nat, n: nat)
    requires amount + fee <= inputs
  {
    var outputs := OutputSum(amount, inputs - amount - fee);
    && fee <= inputs - outputs <= fee + DUST_LIMIT_LYT
    && if n == 0 then verdict == Err(EmptyTransaction) else Settles(verdict, amount, inputs, outputs)
  }

  // What the builder returns for owned coins, whatever the addresses, selection and change,
  // validates exactly as the payment it stands for.
  lemma PaymentSettles(c: Crypto, w: Wallet, from: string, to: string, amount: u64, fee: u64, coins: seq<Coin>,
                       tx: RawTx, utxos: Utxos)
    returns (n: nat)
    requires |coins| < U32_LIMIT && Builds(c, w, from, to, amount, fee, coins, tx)
    requires Sound(c, w) && Owned(w, coins, utxos)
    ensures Selected(coins, amount + fee, n) && amount + fee <= CoinSum(coins, n)
    ensures SettlesPayment(Validation(c, tx, utxos), amount, fee, CoinSum(coins, n), n)
  {
    var k: nat, change :| BuildsWith(c, w, from, to, amount, fee, coins, tx, k, change);
    n := k;
    PaymentSettlesWith(c, w, from, to, amount, fee, coins, tx, utxos, n, change);
  }

  lemma PaymentSettlesWith(c: Crypto, w: Wallet, from: string, to: string, amount: u64, fee: u64, coins: seq<Coin>,
                           tx: RawTx, utxos: Utxos, n: nat, change: MinerId)
    requires |coins| < U32_LIMIT && c.decodeAddress(to).Some?
    requires BuildsWith(c, w, from, to, amount, fee, coins, tx, n, change)
    requires Sound(c, w) && Owned(w, coins, utxos)
    ensures SettlesPayment(Validation(c, tx, utxos), amount, fee, CoinSum(coins, n), n)
  {
    var left := CoinSum(coins, n) - amount - fee;
    if n == 0 {
      NoCoinsInvalid(c, w, c.decodeAddress(to).value, change, amount, left, coins, utxos);
    } else {
      BuiltValidates(c, w, c.decodeAddress(to).value, change, amount, left, coins, n, utxos);
    }
  }

  // So a payment above dust with at least the minimum fee, out of coins within the supply,
  // always validates, at a fee between the asked one and that plus the dust limit.
  lemma PaymentValidates(c: Crypto, w: Wallet, from: string, to: string, amount: u64, fee: u64, coins: seq<Coin>,
                         tx: RawTx, utxos: Utxos)
    requires |coins| < U32_LIMIT && Builds(c, w, from, to, amount, fee, coins, tx)
    requires Sound(c, w) && Owned(w, coins, utxos)
    requires amount >= DUST_LIMIT_LYT && fee >= MINIMUM_FEE_LYT && CoinSum(coins, |coins|) <= MAX_SUPPLY_LYT
    ensures Validation(c, tx, utxos).Ok? && fee <= Validation(c, tx, utxos).value <= fee + DUST_LIMIT_LYT
  {
    var n := PaymentSettles(c, w, from, to, amount, fee, coins, tx, utxos);
    CoinSumMonotone(coins, n, |coins|);
    SettledInFull(Validation(c, tx, utxos), amount, fee, CoinSum(coins, n), n);
  }

  lemma SettledInFull(verdict: Result<u64, TxError>, amount: nat, fee: nat, inputs: nat, n: nat)
    requires amount + fee <= inputs <= MAX_SUPPLY_LYT && n > 0
    requires amount >= DUST_LIMIT_LYT && fee >= MINIMUM_FEE_LYT && SettlesPayment(verdict, amount, fee, inputs, n)
    ensures verdict.Ok? && fee <= verdict.value <= fee + DUST_LIMIT_LYT
  {}

  lemma {:induction false} CoinSumMonotone(coins: seq<Coin>, m: nat, n: nat)
    requires m <= n <= |coins|
    ensures CoinSum(coins, m) <= CoinSum(coins, n)
    decreases n
  {
    if m < n {
      CoinSumMonotone(coins, m, n - 1);
    }
  }
}
