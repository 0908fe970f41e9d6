// The unspent outputs: what transactions create and spend, and the value they hold.

module Ledger {
  import opened Bytes
  import opened Records
  import opened Transactions

  // ---- Value held by a set of outputs ----

  ghost function Total(m: Utxos): nat
    decreases |m|
  {
    if m == map[] then 0
    else
      var o :| o in m;
      m[o].value + Total(m - {o})
  }

  lemma {:induction false} TotalRemove(m: Utxos, o: OutPoint)
    requires o in m
    ensures Total(m) == m[o].value + Total(m - {o})
    decreases |m|
  {
    var p :| p in m && Total(m) == m[p].value + Total(m - {p});
    if p != o {
      TotalRemove(m - {p}, o);
      TotalRemove(m - {o}, p);
      assert m - {p} - {o} == m - {o} - {p};
    }
  }

  lemma TotalAdd(m: Utxos, o: OutPoint, out: TxOut)
    ensures Total(m[o := out]) == Total(m - {o}) + out.value <= Total(m) + out.value
  {
    var n := m[o := out];
    TotalRemove(n, o);
    assert n - {o} == m - {o};
    if o in m {
      TotalRemove(m, o);
    } else {
      assert m - {o} == m;
    }
  }

  // ---- What one transaction does ----

  // The first n outputs, keyed by where they are stored.
  function Created(txid: Hash32, outs: seq<TxOut>, n: nat): (m: Utxos)
    requires n <= |outs| < U32_LIMIT
    ensures m.Keys == CreatedKeys(txid, n)
  {
    var m: Utxos := map i | 0 <= i < n :: OutPoint(txid, i) := outs[i];
    assert forall i :: 0 <= i < n ==> OutPoint(txid, i) in m;
    m
  }

  function CreatedKeys(txid: Hash32, n: nat): set<OutPoint>
    requires n < U32_LIMIT
  {
    set i | 0 <= i < n :: OutPoint(txid, i)
  }

  lemma CreatedKey(txid: Hash32, n: nat, o: OutPoint)
    requires n < U32_LIMIT
    ensures o in CreatedKeys(txid, n) <==> o.txid == txid && o.index < n
  {
    if o.txid == txid && o.index < n {
      assert o == OutPoint(txid, o.index);
    }
  }

  function Spends(inputs: seq<TxIn>): set<OutPoint> {
    set i | 0 <= i < |inputs| && !IsCoinbaseInput(inputs[i]) :: inputs[i].outpoint
  }

  // Outputs are saved first, then the inputs are deleted.
  function ApplyTx(c: Crypto, utxos: Utxos, tx: Transaction): Utxos {
    utxos + Created(c.txid(tx), tx.outputs, |tx.outputs|) - Spends(tx.inputs)
  }

  function Apply(c: Crypto, utxos: Utxos, txs: seq<Transaction>, n: nat): Utxos
    requires n <= |txs|
  {
    if n == 0 then utxos else ApplyTx(c, Apply(c, utxos, txs, n - 1), txs[n - 1])
  }

  // Undoing removes what was created; it cannot bring back what was spent.
  function Undo(c: Crypto, utxos: Utxos, txs: seq<Transaction>, n: nat): Utxos
    requires n <= |txs|
  {
    if n == 0 then utxos
    else Undo(c, utxos, txs, n - 1) - CreatedKeys(c.txid(txs[n - 1]), |txs[n - 1].outputs|)
  }

  // ---- Bonds created on the way ----

  function BondOf(out: TxOut, height: nat): Bond {
    Bond(out.value, height % U64_LIMIT, (height + BOND_LOCKUP_BLOCKS) % U64_LIMIT)
  }

  predicate CreatesBond(out: TxOut) {
    IsBond(out.script) && out.value >= MINIMUM_BOND_LYT
  }

  function BondsOfOutputs(bonds: map<MinerId, Bond>, outs: seq<TxOut>, height: nat, n: nat): map<MinerId, Bond>
    requires n <= |outs|
  {
    if n == 0 then bonds
    else
      var prev, out := BondsOfOutputs(bonds, outs, height, n - 1), outs[n - 1];
      WithBond(prev, out, height)
  }

  function WithBond(bonds: map<MinerId, Bond>, out: TxOut, height: nat): map<MinerId, Bond> {
    if CreatesBond(out) then bonds[BondMiner(out.script).value := BondOf(out, height)] else bonds
  }

  function BondsAfter(bonds: map<MinerId, Bond>, txs: seq<Transaction>, height: nat, n: nat): map<MinerId, Bond>
    requires n <= |txs|
  {
    if n == 0 then bonds
    else BondsOfOutputs(BondsAfter(bonds, txs, height, n - 1), txs[n - 1].outputs, height, |txs[n - 1].outputs|)
  }

  // ---- The update and rollback loops ----

  class Store {
    var utxos: Utxos
    var bonds: map<MinerId, Bond>

    constructor ()
      ensures utxos == map[] && bonds == map[]
    {
      utxos, bonds := map[], map[];
    }

    method UpdateUtxoSet(c: Crypto, txs: seq<Transaction>, height: nat)
      modifies this
      ensures utxos == Apply(c, old(utxos), txs, |txs|)
      ensures bonds == BondsAfter(old(bonds), txs, height, |txs|)
    {
      for i := 0 to |txs|
        invariant utxos == Apply(c, old(utxos), txs, i)
        invariant bonds == BondsAfter(old(bonds), txs, height, i)
      {
        SaveOutputs(c.txid(txs[i]), txs[i].outputs, height);
        DeleteInputs(txs[i].inputs);
      }
    }

    method SaveOutputs(txid: Hash32, outs: seq<TxOut>, height: nat)
      requires |outs| < U32_LIMIT
      modifies this
      ensures utxos == old(utxos) + Created(txid, outs, |outs|)
      ensures bonds == BondsOfOutputs(old(bonds), outs, height, |outs|)
    {
      for i := 0 to |outs|
        invariant utxos == old(utxos) + Created(txid, outs, i)
        invariant bonds == BondsOfOutputs(old(bonds), outs, height, i)
      {
        CreatedStep(old(utxos), txid, outs, i);
        SaveOutput(OutPoint(txid, i), outs[i], height);
      }
    }

    method SaveOutput(o: OutPoint, out: TxOut, height: nat)
      modifies this
      ensures utxos == old(utxos)[o := out] && bonds == WithBond(old(bonds), out, height)
    {
      utxos := utxos[o := out];
      if CreatesBond(out) {
        bonds := bonds[BondMiner(out.script).value := BondOf(out, height)];
      }
    }

    method DeleteInputs(inputs: seq<TxIn>)
      modifies this`utxos
      ensures utxos == old(utxos) - Spends(inputs)
    {
      for i := 0 to |inputs|
        invariant utxos == old(utxos) - Spends(inputs[..i])
      {
        SpendsStep(inputs, i);
        if !IsCoinbaseInput(inputs[i]) {
          utxos := utxos - {inputs[i].outpoint};
        }
      }
      assert inputs[..|inputs|] == inputs;
    }

    method RollbackUtxoSet(c: Crypto, txs: seq<Transaction>)
      modifies this`utxos
      ensures utxos == Undo(c, old(utxos), txs, |txs|)
    {
      for i := 0 to |txs|
        invariant utxos == Undo(c, old(utxos), txs, i)
      {
        DeleteOutputs(c.txid(txs[i]), |txs[i].outputs|);
      }
    }

    method DeleteOutputs(txid: Hash32, n: nat)
      requires n < U32_LIMIT
      modifies this`utxos
      ensures utxos == old(utxos) - CreatedKeys(txid, n)
    {
      for i := 0 to n
        invariant utxos == old(utxos) - CreatedKeys(txid, i)
      {
        utxos := utxos - {OutPoint(txid, i)};
      }
    }
  }

  lemma CreatedStep(utxos: Utxos, txid: Hash32, outs: seq<TxOut>, i: nat)
    requires i < |outs| < U32_LIMIT
    ensures utxos + Created(txid, outs, i + 1) == (utxos + Created(txid, outs, i))[OutPoint(txid, i) := outs[i]]
  {
    assert Created(txid, outs, i + 1) == Created(txid, outs, i)[OutPoint(txid, i) := outs[i]];
  }

  lemma SpendsStep(inputs: seq<TxIn>, i: nat)
    requires i < |inputs|
    ensures Spends(inputs[..i + 1]) == Spends(inputs[..i]) + if IsCoinbaseInput(inputs[i]) then {} else {inputs[i].outpoint}
  {
    assert forall k :: 0 <= k < i ==> inputs[..i + 1][k] == inputs[..i][k];
    assert inputs[..i + 1][i] == inputs[i];
  }

  // Whatever a block spends is gone after it, a transaction's own outputs included, unless a
  // later transaction of the block has the same id as the one that made it.
  lemma {:induction false} SpentStaysGone(c: Crypto, utxos: Utxos, txs: seq<Transaction>, i: nat, n: nat, o: OutPoint)
    requires i < n <= |txs| && o in Spends(txs[i].inputs)
    requires forall k :: i < k < n ==> c.txid(txs[k]) != o.txid
    ensures o !in Apply(c, utxos, txs, n)
    decreases n
  {
    if i < n - 1 {
      SpentStaysGone(c, utxos, txs, i, n - 1, o);
      CreatedKey(c.txid(txs[n - 1]), |txs[n - 1].outputs|, o);
    }
  }

  // ---- What a rollback restores ----

  function CreatedBy(c: Crypto, txs: seq<Transaction>, n: nat): set<OutPoint>
    requires n <= |txs|
  {
    if n == 0 then {} else CreatedBy(c, txs, n - 1) + CreatedKeys(c.txid(txs[n - 1]), |txs[n - 1].outputs|)
  }

  function SpentBy(txs: seq<Transaction>, n: nat): set<OutPoint>
    requires n <= |txs|
  {
    if n == 0 then {} else SpentBy(txs, n - 1) + Spends(txs[n - 1].inputs)
  }

  lemma {:induction false} UndoRemoves(c: Crypto, utxos: Utxos, txs: seq<Transaction>, n: nat)
    requires n <= |txs|
    ensures Undo(c, utxos, txs, n) == utxos - CreatedBy(c, txs, n)
    decreases n
  {
    if n > 0 {
      UndoRemoves(c, utxos, txs, n - 1);
    }
  }

  // Outputs that were never created can only have been spent.
  lemma {:induction false} ApplyOutsideCreated(c: Crypto, utxos: Utxos, txs: seq<Transaction>, n: nat)
    requires n <= |txs|
    ensures Apply(c, utxos, txs, n) - CreatedBy(c, txs, n) == utxos - SpentBy(txs, n) - CreatedBy(c, txs, n)
    decreases n
  {
    if n > 0 {
      ApplyOutsideCreated(c, utxos, txs, n - 1);
      var tx := txs[n - 1];
      OutsideStep(Apply(c, utxos, txs, n - 1), utxos, CreatedBy(c, txs, n - 1), SpentBy(txs, n - 1),
                  Created(c.txid(tx), tx.outputs, |tx.outputs|), Spends(tx.inputs));
    }
  }

  lemma OutsideStep(now: Utxos, before: Utxos, made: set<OutPoint>, spent: set<OutPoint>, created: Utxos, gone: set<OutPoint>)
    requires now - made == before - spent - made
    ensures now + created - gone - (made + created.Keys) == before - (spent + gone) - (made + created.Keys)
  {
    var l, r := now + created - gone - (made + created.Keys), before - (spent + gone) - (made + created.Keys);
    forall o
      ensures o in l <==> o in r
      ensures o in l ==> l[o] == r[o]
    {
      assert o in now - made <==> o in before - spent - made;
      if o in now - made {
        assert (now - made)[o] == (before - spent - made)[o];
      }
    }
  }

  // With no assumption on hashes: undoing leaves the old set without what the transactions
  // spent and without any outpoint they wrote.
  lemma UndoAfterApply(c: Crypto, utxos: Utxos, txs: seq<Transaction>)
    ensures Undo(c, Apply(c, utxos, txs, |txs|), txs, |txs|)
         == utxos - SpentBy(txs, |txs|) - CreatedBy(c, txs, |txs|)
  {
    UndoRemoves(c, Apply(c, utxos, txs, |txs|), txs, |txs|);
    ApplyOutsideCreated(c, utxos, txs, |txs|);
  }
}
