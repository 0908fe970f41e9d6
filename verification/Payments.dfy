// Who holds what after a transaction, and where a built payment sends its value.

module Payments {
  import opened Builder
  import opened Bytes
  import opened Ledger
  import opened Transactions
  import opened Wrappers

  // ---- Value held under one script ----

  function Under(m: Utxos, script: seq<byte>): Utxos {
    map o | o in m && m[o].script == script :: m[o]
  }

  ghost function Held(m: Utxos, script: seq<byte>): nat { Total(Under(m, script)) }

  function Counted(out: TxOut, script: seq<byte>): nat { if out.script == script then out.value else 0 }

  lemma HeldRemove(m: Utxos, o: OutPoint, script: seq<byte>)
    requires o in m
    ensures Held(m, script) == Held(m - {o}, script) + Counted(m[o], script)
  {
    if m[o].script == script {
      TotalRemove(Under(m, script), o);
      assert Under(m, script) - {o} == Under(m - {o}, script);
    } else {
      assert Under(m, script) == Under(m - {o}, script);
    }
  }

  lemma HeldAdd(m: Utxos, o: OutPoint, out: TxOut, script: seq<byte>)
    requires o !in m
    ensures Held(m[o := out], script) == Held(m, script) + Counted(out, script)
  {
    HeldRemove(m[o := out], o, script);
    assert m[o := out] - {o} == m;
  }

  // ---- One transaction ----

  function PaidTo(outs: seq<TxOut>, script: seq<byte>, n: nat): nat
    requires n <= |outs|
  {
    if n == 0 then 0 else PaidTo(outs, script, n - 1) + Counted(outs[n - 1], script)
  }

  function TakenFrom(inputs: seq<TxIn>, utxos: Utxos, script: seq<byte>, n: nat): nat
    requires n <= |inputs| && forall i :: 0 <= i < |inputs| ==> inputs[i].outpoint in utxos
  {
    if n == 0 then 0 else TakenFrom(inputs, utxos, script, n - 1) + Counted(utxos[inputs[n - 1].outpoint], script)
  }

  // No stored output carries the id.
  ghost predicate NewId(utxos: Utxos, txid: Hash32) { forall o {:trigger Other(utxos, txid, o)} :: Other(utxos, txid, o) }

  predicate Other(utxos: Utxos, txid: Hash32, o: OutPoint) { o in utxos ==> o.txid != txid }

  ghost function HeldUnder(script: seq<byte>): Utxos -> nat { (m: Utxos) => Held(m, script) }

  // Output n - 1 adds what it carries.
  ghost predicate AddsOne(held: Utxos -> nat, utxos: Utxos, txid: Hash32, outs: seq<TxOut>, script: seq<byte>, n: nat)
    requires 0 < n <= |outs| < U32_LIMIT
  {
    held(utxos + Created(txid, outs, n)) == held(utxos + Created(txid, outs, n - 1)) + Counted(outs[n - 1], script)
  }

  lemma {:induction false} AddsUp(held: Utxos -> nat, utxos: Utxos, txid: Hash32, outs: seq<TxOut>, script: seq<byte>, n: nat)
    requires n <= |outs| < U32_LIMIT && forall k :: 0 < k <= n ==> AddsOne(held, utxos, txid, outs, script, k)
    ensures held(utxos + Created(txid, outs, n)) == held(utxos) + PaidTo(outs, script, n)
    decreases n
  {
    if n == 0 {
      NothingCreated(utxos, txid, outs);
    } else {
      AddsUp(held, utxos, txid, outs, script, n - 1);
      assert AddsOne(held, utxos, txid, outs, script, n);
    }
  }

  lemma {:induction false} HeldAfterOutputs(utxos: Utxos, txid: Hash32, outs: seq<TxOut>, script: seq<byte>)
    requires |outs| < U32_LIMIT && NewId(utxos, txid)
    ensures Held(utxos + Created(txid, outs, |outs|), script) == Held(utxos, script) + PaidTo(outs, script, |outs|)
  {
    forall k | 0 < k <= |outs|
      ensures AddsOne(HeldUnder(script), utxos, txid, outs, script, k)
    {
      HeldAfterOne(utxos, txid, outs, script, k);
    }
    AddsUp(HeldUnder(script), utxos, txid, outs, script, |outs|);
  }

  lemma NothingCreated(utxos: Utxos, txid: Hash32, outs: seq<TxOut>)
    requires |outs| < U32_LIMIT
    ensures utxos + Created(txid, outs, 0) == utxos
  {}

  lemma HeldAfterOne(utxos: Utxos, txid: Hash32, outs: seq<TxOut>, script: seq<byte>, n: nat)
    requires 0 < n <= |outs| < U32_LIMIT && NewId(utxos, txid)
    ensures Held(utxos + Created(txid, outs, n), script) == Held(utxos + Created(txid, outs, n - 1), script) + Counted(outs[n - 1], script)
  {
    CreatedStep(utxos, txid, outs, n - 1);
    NextIsNew(utxos, txid, outs, n - 1);
    HeldAdd(utxos + Created(txid, outs, n - 1), OutPoint(txid, n - 1), outs[n - 1], script);
  }

  lemma NextIsNew(utxos: Utxos, txid: Hash32, outs: seq<TxOut>, n: nat)
    requires n < |outs| < U32_LIMIT && NewId(utxos, txid)
    ensures OutPoint(txid, n) !in utxos + Created(txid, outs, n)
  {
    assert Other(utxos, txid, OutPoint(txid, n));
    CreatedKey(txid, n, OutPoint(txid, n));
  }

  // Every input names a stored output of its own, and none is of coinbase form.
  ghost predicate SpendsApart(inputs: seq<TxIn>, utxos: Utxos) {
    && (forall i :: 0 <= i < |inputs| ==> inputs[i].outpoint in utxos && !IsCoinbaseInput(inputs[i]))
    && (forall i, j :: 0 <= i < j < |inputs| ==> inputs[i].outpoint != inputs[j].outpoint)
  }

  lemma {:induction false} HeldAfterInputs(inputs: seq<TxIn>, utxos: Utxos, more: Utxos, script: seq<byte>, n: nat)
    requires n <= |inputs| && SpendsApart(inputs, utxos) && forall o :: o in utxos ==> o in more && more[o] == utxos[o]
    ensures Held(more - Spends(inputs[..n]), script) + TakenFrom(inputs, utxos, script, n) == Held(more, script)
    decreases n
  {
    if n == 0 {
      assert more - Spends(inputs[..0]) == more;
    } else {
      var o := inputs[n - 1].outpoint;
      HeldAfterInputs(inputs, utxos, more, script, n - 1);
      SpendsStep(inputs, n - 1);
      StillThere(inputs, utxos, n - 1);
      HeldRemove(more - Spends(inputs[..n - 1]), o, script);
      assert more - Spends(inputs[..n - 1]) - {o} == more - Spends(inputs[..n]);
    }
  }

  lemma StillThere(inputs: seq<TxIn>, utxos: Utxos, n: nat)
    requires n < |inputs| && SpendsApart(inputs, utxos)
    ensures inputs[n].outpoint !in Spends(inputs[..n])
  {}

  lemma NothingReplaced(utxos: Utxos, txid: Hash32, outs: seq<TxOut>)
    requires |outs| < U32_LIMIT && NewId(utxos, txid)
    ensures forall o :: o in utxos ==> o in utxos + Created(txid, outs, |outs|) && (utxos + Created(txid, outs, |outs|))[o] == utxos[o]
  {
    forall o | o in utxos
      ensures o !in Created(txid, outs, |outs|)
    {
      assert Other(utxos, txid, o);
      CreatedKey(txid, |outs|, o);
    }
  }

  // A transaction with a new id moves, script by script, exactly what its inputs held and what
  // its outputs name.
  lemma HeldAfterTx(c: Crypto, utxos: Utxos, tx: Transaction, script: seq<byte>)
    requires NewId(utxos, c.txid(tx)) && SpendsApart(tx.inputs, utxos)
    ensures Held(Apply(c, utxos, [tx], 1), script) + TakenFrom(tx.inputs, utxos, script, |tx.inputs|)
         == Held(utxos, script) + PaidTo(tx.outputs, script, |tx.outputs|)
  {
    var more := utxos + Created(c.txid(tx), tx.outputs, |tx.outputs|);
    HeldAfterOutputs(utxos, c.txid(tx), tx.outputs, script);
    NothingReplaced(utxos, c.txid(tx), tx.outputs);
    HeldAfterInputs(tx.inputs, utxos, more, script, |tx.inputs|);
    assert tx.inputs[..|tx.inputs|] == tx.inputs;
    assert Apply(c, utxos, [tx], 1) == ApplyTx(c, Apply(c, utxos, [tx], 0), tx);
  }

  // ---- Where a built payment goes ----

  lemma ScriptsDiffer(a: MinerId, b: MinerId)
    requires a != b
    ensures P2pkh(a) != P2pkh(b)
  {}

  // The change is worth an output.
  function Change(change: nat): nat { if change > DUST_LIMIT_LYT then change else 0 }

  // The amount to one script, the change to the other, nothing to anybody else.
  ghost predicate Divides(outs: seq<TxOut>, to: seq<byte>, from: seq<byte>, amount: nat, change: nat) {
    && PaidTo(outs, to, |outs|) == amount && PaidTo(outs, from, |outs|) == Change(change)
    && (forall i :: 0 <= i < |outs| ==> outs[i].script == to || outs[i].script == from)
    && |outs| == if change > DUST_LIMIT_LYT then 2 else 1
  }

  lemma PaidToNext(outs: seq<TxOut>, script: seq<byte>, n: nat)
    requires 0 < n <= |outs|
    ensures PaidTo(outs, script, n) == PaidTo(outs, script, n - 1) + Counted(outs[n - 1], script)
  {}

  lemma OutputsDivide(to: MinerId, from: MinerId, amount: u64, change: u64)
    requires to != from
    ensures Divides(PaymentOutputs(to, from, amount, change), P2pkh(to), P2pkh(from), amount, change)
  {
    ScriptsDiffer(to, from);
    var outs := PaymentOutputs(to, from, amount, change);
    forall n: nat, id: MinerId | 0 < n <= |outs|
      ensures PaidTo(outs, P2pkh(id), n) == PaidTo(outs, P2pkh(id), n - 1) + Counted(outs[n - 1], P2pkh(id))
    {
      PaidToNext(outs, P2pkh(id), n);
    }
    assert PaidTo(outs, P2pkh(to), 1) == amount && PaidTo(outs, P2pkh(from), 1) == 0;
  }

  // The coins a payment is made of: the first n, each spent by the input at its place.
  ghost predicate SpendsCoins(inputs: seq<TxIn>, coins: seq<Coin>, n: nat) {
    n == |inputs| <= |coins| && forall i :: 0 <= i < n ==> inputs[i].outpoint == coins[i].outpoint
  }

  // Whatever the builder returns pays the recipient exactly the amount and the sender exactly
  // the change, when that is above dust, out of the shortest prefix of the coins that covers it.
  lemma PaymentDivides(c: Crypto, w: Wallet, from: string, to: string, amount: u64, fee: u64, coins: seq<Coin>, tx: RawTx)
    returns (n: nat)
    requires Builds(c, w, from, to, amount, fee, coins, tx)
    requires c.decodeAddress(from).Some? && c.decodeAddress(from) != c.decodeAddress(to)
    ensures Selected(coins, amount + fee, n) && amount + fee <= CoinSum(coins, n) && SpendsCoins(tx.inputs, coins, n)
    ensures Divides(tx.outputs, P2pkh(c.decodeAddress(to).value), P2pkh(c.decodeAddress(from).value), amount, CoinSum(coins, n) - amount - fee)
  {
    var k: nat, change :| BuildsWith(c, w, from, to, amount, fee, coins, tx, k, change);
    n := k;
    PaymentDividesWith(c, w, from, to, amount, fee, coins, tx, n, change);
  }

  lemma PaymentDividesWith(c: Crypto, w: Wallet, from: string, to: string, amount: u64, fee: u64, coins: seq<Coin>, tx: RawTx,
                           n: nat, change: MinerId)
    requires c.decodeAddress(to).Some? && BuildsWith(c, w, from, to, amount, fee, coins, tx, n, change)
    requires c.decodeAddress(from).Some? && c.decodeAddress(from) != c.decodeAddress(to)
    ensures SpendsCoins(tx.inputs, coins, n)
    ensures Divides(tx.outputs, P2pkh(c.decodeAddress(to).value), P2pkh(c.decodeAddress(from).value), amount, CoinSum(coins, n) - amount - fee)
  {
    BuiltDivides(c, w, c.decodeAddress(to).value, change, c.decodeAddress(from).value, amount, CoinSum(coins, n) - amount - fee, coins, n, tx);
  }

  lemma BuiltDivides(c: Crypto, w: Wallet, to: MinerId, change: MinerId, from: MinerId, amount: u64, left: u64, coins: seq<Coin>, n: nat, tx: RawTx)
    requires n <= |coins| && tx == Built(c, w, to, change, amount, left, coins, n)
    requires to != from && (left > DUST_LIMIT_LYT ==> change == from)
    ensures SpendsCoins(tx.inputs, coins, n) && Divides(tx.outputs, P2pkh(to), P2pkh(from), amount, left)
  {
    BuiltParts(c, w, to, change, amount, left, coins, n, tx);
    DustGoesNowhere(to, change, from, amount, left);
    OutputsDivide(to, from, amount, left);
  }

  lemma DustGoesNowhere(to: MinerId, change: MinerId, from: MinerId, amount: u64, left: u64)
    requires left > DUST_LIMIT_LYT ==> change == from
    ensures PaymentOutputs(to, change, amount, left) == PaymentOutputs(to, from, amount, left)
  {}

  lemma BuiltParts(c: Crypto, w: Wallet, to: MinerId, change: MinerId, amount: u64, left: u64, coins: seq<Coin>, n: nat, tx: RawTx)
    requires n <= |coins| && tx == Built(c, w, to, change, amount, left, coins, n)
    ensures SpendsCoins(tx.inputs, coins, n) && tx.outputs == PaymentOutputs(to, change, amount, left)
  {}

  // ---- What a payment moves ----

  lemma {:induction false} CoinsTaken(inputs: seq<TxIn>, coins: seq<Coin>, w: Wallet, utxos: Utxos, script: seq<byte>, n: nat)
    requires n <= |inputs| && SpendsCoins(inputs, coins, |inputs|) && Owned(w, coins, utxos)
    ensures forall i :: 0 <= i < |inputs| ==> inputs[i].outpoint in utxos
    ensures TakenFrom(inputs, utxos, script, n) == if script == P2pkh(w.hash) then CoinSum(coins, n) else 0
    decreases n
  {
    forall i | 0 <= i < |inputs|
      ensures inputs[i].outpoint in utxos
    {
      assert coins[i].outpoint in utxos;
    }
    if n > 0 {
      CoinsTaken(inputs, coins, w, utxos, script, n - 1);
    }
  }

  lemma CoinsApart(inputs: seq<TxIn>, coins: seq<Coin>, w: Wallet, utxos: Utxos)
    requires SpendsCoins(inputs, coins, |inputs|) && Owned(w, coins, utxos)
    ensures SpendsApart(inputs, utxos)
  {
    forall i | 0 <= i < |inputs|
      ensures inputs[i].outpoint in utxos && !IsCoinbaseInput(inputs[i])
    {
      assert inputs[i].outpoint == coins[i].outpoint;
    }
  }

  lemma {:induction false} NothingElsewhere(outs: seq<TxOut>, to: seq<byte>, from: seq<byte>, script: seq<byte>, n: nat)
    requires n <= |outs| && script != to && script != from
    requires forall i :: 0 <= i < |outs| ==> outs[i].script == to || outs[i].script == from
    ensures PaidTo(outs, script, n) == 0
    decreases n
  {
    if n > 0 {
      NothingElsewhere(outs, to, from, script, n - 1);
    }
  }

  // What is held under each script moves by this much.
  ghost predicate Moves(before: Utxos, after: Utxos, to: seq<byte>, from: seq<byte>, amount: nat, paid: nat) {
    && Held(after, from) + amount + paid == Held(before, from)
    && Held(after, to) == Held(before, to) + amount
    && forall script :: script != to && script != from ==> HeldAlike(before, after, script)
  }

  ghost predicate HeldAlike(before: Utxos, after: Utxos, script: seq<byte>) { Held(after, script) == Held(before, script) }

  lemma DividedMoves(c: Crypto, w: Wallet, coins: seq<Coin>, tx: Transaction, utxos: Utxos, to: seq<byte>, amount: nat, change: nat, paid: nat)
    requires to != P2pkh(w.hash) && Divides(tx.outputs, to, P2pkh(w.hash), amount, change)
    requires SpendsCoins(tx.inputs, coins, |tx.inputs|) && Owned(w, coins, utxos) && NewId(utxos, c.txid(tx))
    requires paid + amount + Change(change) == CoinSum(coins, |tx.inputs|)
    ensures Moves(utxos, Apply(c, utxos, [tx], 1), to, P2pkh(w.hash), amount, paid)
  {
    CoinsApart(tx.inputs, coins, w, utxos);
    forall script
      ensures Held(Apply(c, utxos, [tx], 1), script) + (if script == P2pkh(w.hash) then CoinSum(coins, |tx.inputs|) else 0)
           == Held(utxos, script) + PaidTo(tx.outputs, script, |tx.outputs|)
    {
      HeldAfterTx(c, utxos, tx, script);
      CoinsTaken(tx.inputs, coins, w, utxos, script, |tx.inputs|);
    }
    forall script | script != to && script != P2pkh(w.hash)
      ensures HeldAlike(utxos, Apply(c, utxos, [tx], 1), script)
    {
      NothingElsewhere(tx.outputs, to, P2pkh(w.hash), script, |tx.outputs|);
    }
  }

  // A validated fee is what the outputs leave of the inputs.
  predicate FeeIsRest(verdict: Result<u64, TxError>, amount: nat, fee: nat, inputs: nat)
    requires amount + fee <= inputs
  {
    verdict.Ok? ==> verdict.value + amount + Change(inputs - amount - fee) == inputs
  }

  lemma SettledFee(verdict: Result<u64, TxError>, amount: nat, fee: nat, inputs: nat, n: nat)
    requires amount + fee <= inputs && SettlesPayment(verdict, amount, fee, inputs, n)
    ensures FeeIsRest(verdict, amount, fee, inputs)
  {}

  lemma PaymentMovesWith(c: Crypto, w: Wallet, from: string, to: string, amount: u64, fee: u64, coins: seq<Coin>, tx: Transaction,
                         utxos: Utxos, n: nat, change: MinerId, verdict: Result<u64, TxError>)
    requires |coins| < U32_LIMIT && c.decodeAddress(to).Some? && BuildsWith(c, w, from, to, amount, fee, coins, tx, n, change)
    requires c.decodeAddress(from) == Some(w.hash) && c.decodeAddress(to).value != w.hash
    requires Owned(w, coins, utxos) && NewId(utxos, c.txid(tx))
    requires verdict.Ok? && FeeIsRest(verdict, amount, fee, CoinSum(coins, n))
    ensures Moves(utxos, Apply(c, utxos, [tx], 1), P2pkh(c.decodeAddress(to).value), P2pkh(w.hash), amount, verdict.value)
  {
    var recipient, left := c.decodeAddress(to).value, CoinSum(coins, n) - amount - fee;
    ScriptsDiffer(recipient, w.hash);
    PaymentDividesWith(c, w, from, to, amount, fee, coins, tx, n, change);
    DividedMoves(c, w, coins, tx, utxos, P2pkh(recipient), amount, left, verdict.value);
  }

  lemma SettledWith(c: Crypto, w: Wallet, from: string, to: string, amount: u64, fee: u64, coins: seq<Coin>, tx: RawTx, utxos: Utxos)
    returns (n: nat, change: MinerId)
    requires |coins| < U32_LIMIT && Builds(c, w, from, to, amount, fee, coins, tx) && Sound(c, w) && Owned(w, coins, utxos)
    ensures c.decodeAddress(to).Some? && BuildsWith(c, w, from, to, amount, fee, coins, tx, n, change)
    ensures FeeIsRest(Validation(c, tx, utxos), amount, fee, CoinSum(coins, n))
  {
    var k: nat, id :| BuildsWith(c, w, from, to, amount, fee, coins, tx, k, id);
    n, change := k, id;
    PaymentSettlesWith(c, w, from, to, amount, fee, coins, tx, utxos, k, id);
    SettledFee(Validation(c, tx, utxos), amount, fee, CoinSum(coins, n), n);
  }

  // A payment to somebody else that validates: once it is applied, the wallet holds less by the
  // amount and the validated fee, the recipient holds more by the amount, and what anybody else
  // holds is the same.
  lemma PaymentMoves(c: Crypto, w: Wallet, from: string, to: string, amount: u64, fee: u64, coins: seq<Coin>, tx: Transaction, utxos: Utxos)
    requires |coins| < U32_LIMIT && Builds(c, w, from, to, amount, fee, coins, tx)
    requires c.decodeAddress(from) == Some(w.hash) && c.decodeAddress(to) != Some(w.hash)
    requires Sound(c, w) && Owned(w, coins, utxos) && NewId(utxos, c.txid(tx)) && Validation(c, tx, utxos).Ok?
    ensures Moves(utxos, Apply(c, utxos, [tx], 1), P2pkh(c.decodeAddress(to).value), P2pkh(w.hash), amount, Validation(c, tx, utxos).value)
  {
    var n, change := SettledWith(c, w, from, to, amount, fee, coins, tx, utxos);
    PaymentMovesWith(c, w, from, to, amount, fee, coins, tx, utxos, n, change, Validation(c, tx, utxos));
  }
}
