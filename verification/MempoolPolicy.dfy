// What the mempool admits, keeps out and hands to a template.

module MempoolPolicies {
  import opened BlockValue
  import opened Bytes
  import opened Ledger
  import opened Mempools
  import opened StableSort
  import opened Transactions
  import opened Wrappers

  // ---- Which transactions a template takes ----

  // Size of the transactions with a fee among the first n.
  function UsedBy(size: Transaction -> nat, txs: seq<Transaction>, utxos: Utxos, n: nat): nat
    requires n <= |txs|
  {
    if n == 0 then 0 else UsedBy(size, txs, utxos, n - 1) + if Fee(txs[n - 1], utxos).Ok? then size(txs[n - 1]) else 0
  }

  // The transactions with a fee among the first n.
  function PayingOnes(txs: seq<Transaction>, utxos: Utxos, n: nat): seq<Transaction>
    requires n <= |txs|
  {
    if n == 0 then []
    else PayingOnes(txs, utxos, n - 1) + if Fee(txs[n - 1], utxos).Ok? then [txs[n - 1]] else []
  }

  // Transaction i still fits behind those with a fee before it.
  predicate FitsAt(size: Transaction -> nat, txs: seq<Transaction>, utxos: Utxos, i: nat)
    requires i < |txs|
  {
    UsedBy(size, txs, utxos, i) + size(txs[i]) <= MAX_TEMPLATE_BYTES
  }

  // So does every one before it: the choice gets as far as i.
  ghost predicate Reached(size: Transaction -> nat, txs: seq<Transaction>, utxos: Utxos, i: nat)
    requires i < |txs|
  {
    forall j :: 0 <= j <= i ==> FitsAt(size, txs, utxos, j)
  }

  // Where the choice stops, seen from i.
  function StopAt(size: Transaction -> nat, txs: seq<Transaction>, utxos: Utxos, i: nat): (n: nat)
    requires i <= |txs|
    ensures i <= n <= |txs|
    ensures forall j :: i <= j < n ==> FitsAt(size, txs, utxos, j)
    ensures n < |txs| ==> !FitsAt(size, txs, utxos, n)
    decreases |txs| - i
  {
    if i == |txs| || !FitsAt(size, txs, utxos, i) then i else StopAt(size, txs, utxos, i + 1)
  }

  lemma {:induction false} ChosenStep(size: Transaction -> nat, txs: seq<Transaction>, utxos: Utxos, i: nat, used: nat, chosen: seq<Transaction>)
    requires i < |txs| && used == UsedBy(size, txs, utxos, i) && chosen == PayingOnes(txs, utxos, i) && FitsAt(size, txs, utxos, i)
    ensures Chosen(size, txs, utxos, i, used, chosen)
         == Chosen(size, txs, utxos, i + 1, UsedBy(size, txs, utxos, i + 1), PayingOnes(txs, utxos, i + 1))
  {
    if Fee(txs[i], utxos).Err? {
      assert PayingOnes(txs, utxos, i + 1) == chosen + [] == chosen;
    }
  }

  lemma {:induction false} ChosenUpToStop(size: Transaction -> nat, txs: seq<Transaction>, utxos: Utxos, i: nat, used: nat, chosen: seq<Transaction>)
    requires i <= |txs| && used == UsedBy(size, txs, utxos, i) && chosen == PayingOnes(txs, utxos, i)
    ensures Chosen(size, txs, utxos, i, used, chosen) == PayingOnes(txs, utxos, StopAt(size, txs, utxos, i))
    decreases |txs| - i
  {
    if i < |txs| && FitsAt(size, txs, utxos, i) {
      ChosenStep(size, txs, utxos, i, used, chosen);
      ChosenUpToStop(size, txs, utxos, i + 1, UsedBy(size, txs, utxos, i + 1), PayingOnes(txs, utxos, i + 1));
    }
  }

  lemma {:induction false} PayingOnesHas(txs: seq<Transaction>, utxos: Utxos, n: nat, tx: Transaction)
    requires n <= |txs|
    ensures tx in PayingOnes(txs, utxos, n) <==> exists i :: 0 <= i < n && txs[i] == tx && Fee(tx, utxos).Ok?
    decreases n
  {
    if n > 0 {
      PayingOnesHas(txs, utxos, n - 1, tx);
    }
  }

  // A waiting transaction is taken exactly when it has a fee and the choice gets as far as it.
  lemma {:induction false} TakenExactly(c: Crypto, size: Transaction -> nat, txs: seq<Transaction>, utxos: Utxos, i: nat)
    requires i < |txs| && PoolRight(c, txs)
    ensures txs[i] in Template(size, txs, utxos) <==> Fee(txs[i], utxos).Ok? && Reached(size, txs, utxos, i)
  {
    var stop := StopAt(size, txs, utxos, 0);
    ChosenUpToStop(size, txs, utxos, 0, 0, []);
    PayingOnesHas(txs, utxos, stop, txs[i]);
    forall k | 0 <= k < |txs| && k != i
      ensures txs[k] != txs[i]
    {
      assert Apart(c, txs[Min(i, k)], txs[Max(i, k)]);
    }
  }

  lemma {:induction false} TakenWaits(size: Transaction -> nat, txs: seq<Transaction>, utxos: Utxos, tx: Transaction)
    requires tx in Template(size, txs, utxos)
    ensures tx in txs
  {
    ChosenUpToStop(size, txs, utxos, 0, 0, []);
    PayingOnesHas(txs, utxos, StopAt(size, txs, utxos, 0), tx);
  }

  // A template's coinbase is its only transaction of coinbase form exactly when the choice
  // gets as far as no waiting transaction of that form.
  lemma {:induction false} SoleCoinbaseExactly(c: Crypto, size: Transaction -> nat, pool: seq<Transaction>, utxos: Utxos, all: seq<Transaction>)
    requires PoolRight(c, pool) && Fronts(all, Template(size, pool, utxos)) && ValueSum(all[0].outputs) < U64_LIMIT
    ensures SoleCoinbase(all) <==> forall i :: 0 <= i < |pool| && IsCoinbase(pool[i]) ==> !Reached(size, pool, utxos, i)
  {
    var txs := Template(size, pool, utxos);
    forall i | 0 <= i < |pool| && IsCoinbase(pool[i]) && Reached(size, pool, utxos, i)
      ensures !SoleCoinbase(all)
    {
      TakenExactly(c, size, pool, utxos, i);
      var k :| 0 <= k < |txs| && txs[k] == pool[i];
      FrontedAt(all, txs, k + 1);
    }
    if forall i :: 0 <= i < |pool| && IsCoinbase(pool[i]) ==> !Reached(size, pool, utxos, i) {
      forall k | 0 < k < |all|
        ensures !IsCoinbase(all[k])
      {
        FrontedAt(all, txs, k);
        TakenWaits(size, pool, utxos, all[k]);
        var i :| 0 <= i < |pool| && pool[i] == all[k];
        TakenExactly(c, size, pool, utxos, i);
      }
    }
  }

  // ---- Transactions of coinbase form are admitted ----

  // Nothing but size, dust and a fresh id is asked of them.
  lemma CoinbaseFormAdmittedExactly(c: Crypto, p: TxPool, tx: Transaction, utxos: Utxos)
    requires IsCoinbase(tx)
    ensures AddError(c, p, tx, utxos) == None <==>
      BasicError(tx) == None && c.txid(tx) !in p.processed && c.txid(tx) !in PoolIds(c, p.txs)
  {
    assert Spends(tx.inputs) == {};
  }

  // One output above dust, paying anyone any amount within the supply, is enough.
  lemma CoinbaseFormIsBasic(amount: u64, script: seq<byte>, memo: seq<byte>)
    requires |script| < U32_LIMIT && DUST_LIMIT_LYT <= amount <= MAX_SUPPLY_LYT
    ensures var tx: RawTx := Tx(1, [TxIn(OutPoint(ZERO_HASH, NO_INDEX), memo, NO_INDEX)], [TxOut(amount, script)], 0);
      IsCoinbase(tx) && BasicError(tx) == None
  {
    var input := TxIn(OutPoint(ZERO_HASH, NO_INDEX), memo, NO_INDEX);
    OneOutput(TxOut(amount, script));
    assert SpendingUpTo([input], 0) == [] && SpendingUpTo([input], 1) == [];
  }

  lemma {:induction false} SortedHas(txs: seq<Transaction>, utxos: Utxos, tx: Transaction)
    ensures tx in SortedByFee(txs, utxos) <==> tx in txs
  {
    SortedKeepsAll(Dearer(FeeIn(utxos)), txs);
    SameElements(txs, SortedByFee(txs, utxos));
  }

  // With room in the mempool an admitted transaction waits in it.
  lemma {:induction false} AdmittedWaits(c: Crypto, p: TxPool, tx: Transaction, utxos: Utxos, height: nat, limit: nat)
    requires AddError(c, p, tx, utxos) == None && |p.txs| < limit
    ensures tx in AddedTx(c, p, tx, utxos, height, limit).txs
  {
    SortedHas(p.txs + [tx], utxos, tx);
    assert (p.txs + [tx])[|p.txs|] == tx;
  }

  // ---- An included transaction stays out ----

  datatype Event =
    | Arrives(tx: Transaction, utxos: Utxos, height: nat)
    | BlockTaken(txs: seq<Transaction>, height: nat)
    | BlockMined(txs: seq<Transaction>, height: nat)

  ghost function AfterEvent(c: Crypto, limit: nat, p: TxPool, e: Event): TxPool {
    match e
    case Arrives(tx, utxos, height) => AddedTx(c, p, tx, utxos, height, limit)
    case BlockTaken(txs, height) => AfterAccept(c, p, txs, height)
    case BlockMined(txs, height) => AfterCommit(c, p, txs, height)
  }

  ghost function AfterEvents(c: Crypto, limit: nat, p: TxPool, events: seq<Event>, n: nat): TxPool
    requires n <= |events|
  {
    if n == 0 then p else AfterEvent(c, limit, AfterEvents(c, limit, p, events, n - 1), events[n - 1])
  }

  // The id was handled at `since` or later and does not wait.
  ghost predicate KeptOut(c: Crypto, p: TxPool, id: Hash32, since: nat) {
    id in p.processed && p.processed[id] >= since && id !in PoolIds(c, p.txs)
  }

  lemma {:induction false} CutKeepsOut(c: Crypto, p: TxPool, limit: nat, id: Hash32, since: nat)
    requires KeptOut(c, p, id, since)
    ensures KeptOut(c, CutTo(c, p, limit), id, since)
    decreases |p.txs|
  {
    if |p.txs| > limit {
      var n := |p.txs| - 1;
      var q := TxPool(p.txs[..n], p.processed - {c.txid(p.txs[n])});
      assert c.txid(p.txs[n]) in PoolIds(c, p.txs);
      forall i | 0 <= i < n
        ensures c.txid(q.txs[i]) != id
      {
        assert c.txid(p.txs[i]) in PoolIds(c, p.txs);
      }
      CutKeepsOut(c, q, limit, id, since);
    }
  }

  lemma {:induction false} ArrivalKeepsOut(c: Crypto, p: TxPool, tx: Transaction, utxos: Utxos, height: nat, limit: nat, id: Hash32, since: nat)
    requires KeptOut(c, p, id, since)
    ensures KeptOut(c, AddedTx(c, p, tx, utxos, height, limit), id, since)
  {
    if AddError(c, p, tx, utxos) == None {
      var q := Enqueued(c, p, tx, utxos, height);
      forall i | 0 <= i < |q.txs|
        ensures c.txid(q.txs[i]) != id
      {
        SortedHas(p.txs + [tx], utxos, q.txs[i]);
        var k :| 0 <= k < |p.txs + [tx]| && (p.txs + [tx])[k] == q.txs[i];
        assert k < |p.txs| ==> c.txid(p.txs[k]) in PoolIds(c, p.txs);
      }
      CutKeepsOut(c, q, limit, id, since);
    }
  }

  lemma {:induction false} WithoutIds(c: Crypto, txs: seq<Transaction>, ids: set<Hash32>)
    ensures PoolIds(c, Without(c, txs, ids)) <= PoolIds(c, txs)
  {
    WithoutElements(c, txs, ids);
    var left := Without(c, txs, ids);
    forall i | 0 <= i < |left|
      ensures c.txid(left[i]) in PoolIds(c, txs)
    {
      assert left[i] in txs;
    }
  }

  lemma {:induction false} BlockKeepsOut(c: Crypto, p: TxPool, txs: seq<Transaction>, height: nat, id: Hash32, since: nat)
    requires KeptOut(c, p, id, since) && 0 < since <= height < since + PROCESSED_TXIDS_RETENTION
    ensures KeptOut(c, AfterAccept(c, p, txs, height), id, since)
    ensures KeptOut(c, AfterCommit(c, p, txs, height), id, since)
  {
    WithoutIds(c, p.txs, IncludedIds(c, txs));
  }

  // Ids of a block are kept out from its height on.
  lemma {:induction false} IncludedIsKeptOut(c: Crypto, p: TxPool, txs: seq<Transaction>, height: nat, i: nat)
    requires i < |txs| && !IsCoinbase(txs[i]) && height > 0
    ensures KeptOut(c, AfterAccept(c, p, txs, height), c.txid(txs[i]), height)
    ensures KeptOut(c, AfterCommit(c, p, txs, height), c.txid(txs[i]), height)
  {
    NotAmongLeft(c, p.txs, IncludedIds(c, txs), c.txid(txs[i]));
  }

  lemma {:induction false} NotAmongLeft(c: Crypto, txs: seq<Transaction>, ids: set<Hash32>, id: Hash32)
    requires id in ids
    ensures id !in PoolIds(c, Without(c, txs, ids))
  {
    if txs != [] {
      var n := |txs| - 1;
      NotAmongLeft(c, txs[..n], ids, id);
      var before, after := Without(c, txs[..n], ids), Without(c, txs, ids);
      forall i | 0 <= i < |after|
        ensures c.txid(after[i]) != id
      {
        if i < |before| {
          assert c.txid(before[i]) in PoolIds(c, before);
        }
      }
    }
  }

  ghost predicate Within(events: seq<Event>, since: nat) {
    forall k :: 0 <= k < |events| && !events[k].Arrives? ==> since <= events[k].height < since + PROCESSED_TXIDS_RETENTION
  }

  // A transaction included at some height is refused for the next 999 heights, whatever
  // arrives, whatever blocks are taken or mined, and however often ids are pruned.
  lemma {:induction false} IncludedStaysOut(c: Crypto, limit: nat, p: TxPool, events: seq<Event>, n: nat, id: Hash32, since: nat)
    requires n <= |events| && KeptOut(c, p, id, since) && since > 0 && Within(events, since)
    ensures KeptOut(c, AfterEvents(c, limit, p, events, n), id, since)
    ensures forall tx: Transaction, utxos :: c.txid(tx) == id ==> AddError(c, AfterEvents(c, limit, p, events, n), tx, utxos).Some?
    decreases n
  {
    if n > 0 {
      IncludedStaysOut(c, limit, p, events, n - 1, id, since);
      var q := AfterEvents(c, limit, p, events, n - 1);
      match events[n - 1]
      case Arrives(tx, utxos, height) => ArrivalKeepsOut(c, q, tx, utxos, height, limit, id, since);
      case BlockTaken(txs, height) => BlockKeepsOut(c, q, txs, height, id, since);
      case BlockMined(txs, height) => BlockKeepsOut(c, q, txs, height, id, since);
    }
  }
}
