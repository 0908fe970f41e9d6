// Which accepted blocks spend outputs only with their owners' signatures.

module Ownership {
  import opened BlockValue
  import opened Blocks
  import opened Bytes
  import opened NodeInvariants
  import opened NodeSpecs
  import opened NodeSupply
  import opened Transactions
  import opened Wrappers

  // Every input refers to a stored output and verifies against it.
  ghost predicate InputsSigned(c: Crypto, tx: RawTx, utxos: Utxos, n: nat)
    requires n <= |tx.inputs|
  {
    forall k :: 0 <= k < n ==> SignedAt(c, tx, utxos, k)
  }

  predicate SignedAt(c: Crypto, tx: RawTx, utxos: Utxos, k: nat)
    requires k < |tx.inputs|
  {
    tx.inputs[k].outpoint in utxos && VerifyInput(c, tx, k, utxos[tx.inputs[k].outpoint])
  }

  lemma {:induction false} ChecksSignatures(c: Crypto, tx: RawTx, utxos: Utxos, n: nat)
    requires n <= |tx.inputs| && InputSum(tx.inputs, utxos).Ok?
    ensures CheckInputs(c, tx, utxos, n).Ok? <==> InputsSigned(c, tx, utxos, n)
    ensures InputSum(tx.inputs[..n], utxos).Ok?
    ensures CheckInputs(c, tx, utxos, n).Ok? ==> CheckInputs(c, tx, utxos, n).value == InputSum(tx.inputs[..n], utxos).value
    decreases n
  {
    if InputSum(tx.inputs[..n], utxos).Err? {
      InputSumError(tx.inputs, n, utxos);
    }
    if n > 0 {
      ChecksSignatures(c, tx, utxos, n - 1);
      assert tx.inputs[..n][..n - 1] == tx.inputs[..n - 1];
      if InputsSigned(c, tx, utxos, n - 1) && SignedAt(c, tx, utxos, n - 1) {
        assert InputsSigned(c, tx, utxos, n);
      }
    }
  }

  // ---- What a script signature says ----

  // A signature and a key, each behind its length; a leading zero byte is skipped.
  predicate WrittenAs(s: seq<byte>, sig: seq<byte>, key: seq<byte>) {
    && |sig| < 256 && |key| < 256
    && ((sig != [] && s == ScriptSig(sig, key)) || s == [0] + ScriptSig(sig, key))
  }

  lemma ParsesExactly(s: seq<byte>, sig: seq<byte>, key: seq<byte>)
    ensures ParseScriptSig(s) == Some((sig, key)) <==> WrittenAs(s, sig, key)
  {
    if WrittenAs(s, sig, key) {
      WrittenParses(s, sig, key);
    }
    if ParseScriptSig(s) == Some((sig, key)) {
      ParsedIsWritten(s, sig, key);
    }
  }

  lemma WrittenParses(s: seq<byte>, sig: seq<byte>, key: seq<byte>)
    requires WrittenAs(s, sig, key)
    ensures ParseScriptSig(s) == Some((sig, key))
  {
    if s == [0] + ScriptSig(sig, key) {
      assert s[1] == |sig| && s[2 + |sig|] == |key|;
      assert s[2..2 + |sig|] == sig && s[3 + |sig|..] == key;
    } else {
      ParseWritten(sig, key);
    }
  }

  lemma ParsedIsWritten(s: seq<byte>, sig: seq<byte>, key: seq<byte>)
    requires ParseScriptSig(s) == Some((sig, key))
    ensures WrittenAs(s, sig, key)
  {
    var pos := if s[0] == 0 then 1 else 0;
    var end := s[pos] as int + pos + 1;
    assert s[pos..] == [s[pos]] + s[pos + 1..end] + [s[end]] + s[end + 1..];
    assert s[pos..] == ScriptSig(sig, key);
    if pos == 1 {
      assert s == [0] + s[1..];
    } else {
      assert s == s[0..];
    }
  }

  // ---- Whose output it is ----

  // The key behind a payment or a bond.
  predicate Owns(c: Crypto, key: seq<byte>, script: seq<byte>) {
    || (IsP2pkh(script) && Raw(c.hash160(key)) == script[3..23])
    || (IsBond(script) && c.minerIdOf(key) == Some(script[1..21]))
  }

  // The input carries a signature by the owner of the output over the whole transaction.
  ghost predicate SignedByOwner(c: Crypto, tx: RawTx, k: nat, script: seq<byte>)
    requires k < |tx.inputs|
  {
    exists sig, key ::
      WrittenAs(tx.inputs[k].scriptSig, sig, key) && Owns(c, key, script) && c.ecdsa(key, sig, Sighash(c, tx, k))
  }

  lemma VerifiesExactly(c: Crypto, tx: RawTx, k: nat, out: TxOut)
    requires k < |tx.inputs| && !IsCoinbaseInput(tx.inputs[k])
    ensures VerifyInput(c, tx, k, out) <==> SignedByOwner(c, tx, k, out.script)
  {
    var s := tx.inputs[k].scriptSig;
    if VerifyInput(c, tx, k, out) {
      var (sig, key) := ParseScriptSig(s).value;
      ParsesExactly(s, sig, key);
    }
    if SignedByOwner(c, tx, k, out.script) {
      var sig, key :| WrittenAs(s, sig, key) && Owns(c, key, out.script) && c.ecdsa(key, sig, Sighash(c, tx, k));
      ParsesExactly(s, sig, key);
    }
  }

  // ---- Accepted blocks ----

  // The owner of the stored output behind every input of the transaction signed.
  ghost predicate SpentByOwners(c: Crypto, tx: RawTx, utxos: Utxos) {
    forall k :: 0 <= k < |tx.inputs| && tx.inputs[k].outpoint in utxos ==> OwnerSigned(c, tx, utxos, k)
  }

  ghost predicate OwnerSigned(c: Crypto, tx: RawTx, utxos: Utxos, k: nat)
    requires k < |tx.inputs| && tx.inputs[k].outpoint in utxos
  {
    SignedByOwner(c, tx, k, utxos[tx.inputs[k].outpoint].script)
  }

  // Acceptance looks up values only. For a transaction of a block that passes both validators
  // the owners signed exactly when it passes the input checks that a mempool makes and
  // acceptance leaves out.
  lemma SpendsSignedExactly(c: Crypto, txs: seq<Transaction>, utxos: Utxos, i: nat)
    requires Passes(txs, utxos) && Indexed(utxos) && i < |txs| && !IsCoinbase(txs[i])
    ensures SpentByOwners(c, txs[i], utxos) <==> CheckInputs(c, txs[i], utxos, |txs[i].inputs|).Ok?
  {
    var tx := txs[i];
    FeesExist(txs, utxos, i);
    ChecksSignatures(c, tx, utxos, |tx.inputs|);
    InputSumMeaning(tx.inputs, utxos);
    forall k | 0 <= k < |tx.inputs|
      ensures tx.inputs[k].outpoint in utxos
      ensures SignedAt(c, tx, utxos, k) <==> OwnerSigned(c, tx, utxos, k)
    {
      VerifiesExactly(c, tx, k, utxos[tx.inputs[k].outpoint]);
    }
  }

  // For every block the node accepts, on the outputs it held before: the owners of all outputs
  // it spends signed exactly when each transaction passes those checks.
  lemma AcceptedSignedExactly(env: Env, call: Call, n: Node, b: Block)
    requires Inv(env, n) && Accept(env, call, n, b).1.Ok?
    ensures (forall i :: 0 <= i < |b.txs| && !IsCoinbase(b.txs[i]) ==> SpentByOwners(env.c, b.txs[i], n.econ.utxos))
       <==> (forall i :: 0 <= i < |b.txs| && !IsCoinbase(b.txs[i]) ==> CheckInputs(env.c, b.txs[i], n.econ.utxos, |b.txs[i].inputs|).Ok?)
  {
    AcceptForm(env, call, n, b);
    forall i | 0 <= i < |b.txs| && !IsCoinbase(b.txs[i])
      ensures SpentByOwners(env.c, b.txs[i], n.econ.utxos) <==> CheckInputs(env.c, b.txs[i], n.econ.utxos, |b.txs[i].inputs|).Ok?
    {
      SpendsSignedExactly(env.c, b.txs, n.econ.utxos, i);
    }
  }
}
