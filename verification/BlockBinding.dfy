// What a header's root says about the transactions of its block.

module BlockBinding {
  import opened BlockValue
  import opened Blocks
  import opened Bytes
  import opened Ledger
  import opened Merkle
  import opened NodeSpecs
  import opened Transactions

  // ---- Equal roots, up to a repeated end ----

  // ys is xs and then only elements of its end from m on, each of them at least once.
  ghost predicate RepeatsEnd<T>(xs: seq<T>, ys: seq<T>, m: nat) {
    && m <= |xs| <= |ys| && xs == ys[..|xs|]
    && (forall i :: |xs| <= i < |ys| ==> ys[i] in xs[m..])
    && (forall i :: m <= i < |xs| ==> xs[i] in ys[|xs|..])
  }

  lemma {:induction false} SameRootRepeatsEnd(sha: Hasher, xs: seq<Hash32>, ys: seq<Hash32>, pre: set<seq<byte>>) returns (m: nat)
    requires xs != [] && |xs| <= |ys| && Depth(|xs|) == Depth(|ys|)
    requires Root(sha, xs) == Root(sha, ys)
    requires Preimages(sha, xs) <= pre && Preimages(sha, ys) <= pre && CollisionFree(sha, pre)
    ensures RepeatsEnd(xs, ys, m)
    decreases |xs|
  {
    if |xs| == 1 {
      m := 1;
      assert |ys| == 1;
    } else {
      var k := SameRootRepeatsEnd(sha, Up(sha, xs), Up(sha, ys), pre);
      forall i, j | 0 <= i < |Up(sha, xs)| && 0 <= j < |Up(sha, ys)| && Up(sha, xs)[i] == Up(sha, ys)[j]
        ensures SameChildren(xs, i, ys, j)
      {
        SamePair(sha, xs, i, ys, j, pre);
      }
      m := EndBelow(Up(sha, xs), Up(sha, ys), xs, ys, k);
    }
  }

  lemma SameBelow<T>(up: seq<T>, vp: seq<T>, xs: seq<T>, ys: seq<T>)
    requires Below(up, vp, xs, ys)
    requires up == vp[..|up|]
    ensures xs == ys[..|xs|]
  {
    forall i | 0 <= i < |xs|
      ensures xs[i] == ys[i]
    {
      assert up[i / 2] == vp[i / 2];
      assert SameChildren(xs, i / 2, ys, i / 2);
    }
  }

  // One level under another: equal parents have equal children.
  ghost predicate Below<T>(up: seq<T>, vp: seq<T>, xs: seq<T>, ys: seq<T>) {
    && 1 < |xs| <= |ys| && |up| == (|xs| + 1) / 2 && |vp| == (|ys| + 1) / 2
    && forall i, j :: 0 <= i < |up| && 0 <= j < |vp| && up[i] == vp[j] ==> SameChildren(xs, i, ys, j)
  }

  lemma EndBelow<T>(up: seq<T>, vp: seq<T>, xs: seq<T>, ys: seq<T>, k: nat) returns (m: nat)
    requires Below(up, vp, xs, ys) && RepeatsEnd(up, vp, k)
    ensures RepeatsEnd(xs, ys, m)
  {
    SameBelow(up, vp, xs, ys);
    if |xs| == |ys| {
      m := |xs|;
    } else if |up| == |vp| {
      m := |xs| - 1;
      OddEnd(up, vp, xs, ys);
    } else {
      assert vp[|up|] in up[k..];
      m := 2 * k;
      forall i | |xs| <= i < |ys|
        ensures ys[i] in xs[m..]
      {
        ChildInEnd(up, vp, xs, ys, k, i);
      }
      forall i | m <= i < |xs|
        ensures xs[i] in ys[|xs|..]
      {
        EndInChildren(up, vp, xs, ys, k, i);
      }
    }
  }

  lemma OddEnd<T>(up: seq<T>, vp: seq<T>, xs: seq<T>, ys: seq<T>)
    requires Below(up, vp, xs, ys) && up == vp && |xs| < |ys|
    ensures xs[|xs| - 1..] == ys[|xs|..]
  {
    assert up[|up| - 1] == vp[|up| - 1];
    assert SameChildren(xs, |up| - 1, ys, |up| - 1);
    assert xs[|xs| - 1..] == [xs[|xs| - 1]] && ys[|xs|..] == [ys[|xs|]];
  }

  lemma ChildInEnd<T>(up: seq<T>, vp: seq<T>, xs: seq<T>, ys: seq<T>, k: nat, i: nat)
    requires Below(up, vp, xs, ys) && RepeatsEnd(up, vp, k) && |up| < |vp| && |xs| <= i < |ys| && 2 * k <= |xs|
    ensures ys[i] in xs[2 * k..]
  {
    var j := ParentFound(up, vp, k, i / 2);
    assert SameChildren(xs, j, ys, i / 2);
    var p := if i % 2 == 0 then 2 * j else RightIndex(|xs|, j);
    assert ys[i] == xs[p] == xs[2 * k..][p - 2 * k];
  }

  lemma EndInChildren<T>(up: seq<T>, vp: seq<T>, xs: seq<T>, ys: seq<T>, k: nat, i: nat)
    requires Below(up, vp, xs, ys) && RepeatsEnd(up, vp, k) && |up| < |vp| && 2 * k <= i < |xs|
    ensures xs[i] in ys[|xs|..]
  {
    assert up[i / 2] in vp[|up|..];
    var j :| 0 <= j < |vp[|up|..]| && vp[|up|..][j] == up[i / 2];
    var q := |up| + j;
    assert SameChildren(xs, i / 2, ys, q);
    var p := if i % 2 == 0 then 2 * q else RightIndex(|ys|, q);
    assert xs[i] == ys[p] == ys[|xs|..][p - |xs|];
  }

  // A parent of the longer level is one of the shorter's end, or its last when it stands there.
  lemma ParentFound<T>(up: seq<T>, vp: seq<T>, k: nat, i: nat) returns (j: nat)
    requires RepeatsEnd(up, vp, k) && |up| < |vp| && |up| - 1 <= i < |vp|
    ensures k <= j < |up| && up[j] == vp[i]
  {
    assert vp[|up|] in up[k..];
    if i < |up| {
      j := i;
    } else {
      assert vp[i] in up[k..];
      var p :| 0 <= p < |up[k..]| && up[k..][p] == vp[i];
      j := k + p;
    }
  }

  // ---- From ids to transactions ----

  // No two different transactions of these blocks have one id.
  ghost predicate IdsTell(c: Crypto, txs: seq<Transaction>, more: seq<Transaction>) {
    forall a, b :: (a in txs || a in more) && (b in txs || b in more) ==> IdTells(c, a, b)
  }

  ghost predicate IdTells(c: Crypto, a: Transaction, b: Transaction) { c.txid(a) == c.txid(b) ==> a == b }

  lemma IdsIn(c: Crypto, txs: seq<Transaction>, m: nat, id: Hash32) returns (i: nat)
    requires m <= |txs| && id in TxIds(c, txs)[m..]
    ensures m <= i < |txs| && c.txid(txs[i]) == id
  {
    var p :| 0 <= p < |TxIds(c, txs)[m..]| && TxIds(c, txs)[m..][p] == id;
    i := m + p;
  }

  lemma TxsRepeatEnd(c: Crypto, txs: seq<Transaction>, more: seq<Transaction>, m: nat)
    requires RepeatsEnd(TxIds(c, txs), TxIds(c, more), m) && IdsTell(c, txs, more)
    ensures RepeatsEnd(txs, more, m)
  {
    var xs, ys := TxIds(c, txs), TxIds(c, more);
    forall i | 0 <= i < |txs|
      ensures txs[i] == more[i]
    {
      assert xs[i] == ys[..|xs|][i] == ys[i];
      assert IdTells(c, txs[i], more[i]);
    }
    forall i | |txs| <= i < |more|
      ensures more[i] in txs[m..]
    {
      FoundIn(c, txs, m, more[i], more);
    }
    forall i | m <= i < |txs|
      ensures txs[i] in more[|txs|..]
    {
      FoundIn(c, more, |txs|, txs[i], txs);
    }
  }

  // A transaction whose id stands in the end of a list stands there itself.
  lemma FoundIn(c: Crypto, txs: seq<Transaction>, m: nat, tx: Transaction, more: seq<Transaction>)
    requires m <= |txs| && tx in more && c.txid(tx) in TxIds(c, txs)[m..] && (IdsTell(c, txs, more) || IdsTell(c, more, txs))
    ensures tx in txs[m..]
  {
    var j := IdsIn(c, txs, m, c.txid(tx));
    assert IdTells(c, txs[j], tx);
    assert txs[m..][j - m] == tx;
  }

  // ---- What is repeated spends nothing ----

  predicate Idle(tx: RawTx) { IsCoinbase(tx) || tx.inputs == [] }

  lemma RepeatedIsIdle(txs: seq<Transaction>, i: nat, j: nat)
    requires i < j < |txs| && txs[i] == txs[j] && NoDoubleSpend(txs)
    ensures Idle(txs[i])
  {
    if !Idle(txs[i]) {
      InputPosition(txs, i, 0);
      InputPosition(txs, j, 0);
      LaterInputs(txs, j, i + 1);
    }
  }

  lemma EndIsIdle(txs: seq<Transaction>, more: seq<Transaction>, m: nat)
    requires RepeatsEnd(txs, more, m) && NoDoubleSpend(more)
    ensures forall i :: m <= i < |txs| ==> Idle(txs[i])
    ensures forall i :: |txs| <= i < |more| ==> Idle(more[i])
  {
    forall i | |txs| <= i < |more|
      ensures Idle(more[i])
    {
      assert more[i] in txs[m..];
      var p :| 0 <= p < |txs[m..]| && txs[m..][p] == more[i];
      assert more[m + p] == more[..|txs|][m + p] == txs[m + p];
      RepeatedIsIdle(more, m + p, i);
    }
    forall i | m <= i < |txs|
      ensures Idle(txs[i])
    {
      assert txs[i] in more[|txs|..];
      var p :| 0 <= p < |more[|txs|..]| && more[|txs|..][p] == txs[i];
      assert more[|txs| + p] == txs[i];
    }
  }

  // ---- Adding outputs twice ----

  function Sum(base: Utxos, added: seq<Utxos>): Utxos {
    if added == [] then base else Sum(base, added[..|added| - 1]) + added[|added| - 1]
  }

  lemma SumSnoc(base: Utxos, added: seq<Utxos>, d: Utxos)
    ensures Sum(base, added + [d]) == Sum(base, added) + d
  {
    assert (added + [d])[..|added|] == added;
  }

  ghost predicate Holds(u: Utxos, d: Utxos) { forall o :: o in d ==> o in u && u[o] == d[o] }

  ghost predicate Compatible(d: Utxos, e: Utxos) { forall o :: o in d && o in e ==> d[o] == e[o] }

  ghost predicate AllCompatible(added: seq<Utxos>) {
    forall d, e :: d in added && e in added ==> Compatible(d, e)
  }

  lemma {:induction false} SumHolds(base: Utxos, added: seq<Utxos>, d: Utxos)
    requires d in added && AllCompatible(added)
    ensures Holds(Sum(base, added), d)
  {
    var init, last := added[..|added| - 1], added[|added| - 1];
    assert added == init + [last];
    if d != last {
      SumHolds(base, init, d);
      assert Compatible(d, last);
    }
  }

  lemma HoldsAlready(u: Utxos, d: Utxos)
    requires Holds(u, d)
    ensures u + d == u
  {}

  // Whatever was added already changes nothing when it is added again.
  lemma {:induction false} SumRepeats(base: Utxos, added: seq<Utxos>, again: seq<Utxos>)
    requires AllCompatible(added) && forall d :: d in again ==> d in added
    ensures Sum(Sum(base, added), again) == Sum(base, added)
  {
    if again != [] {
      var init, last := again[..|again| - 1], again[|again| - 1];
      SumRepeats(base, added, init);
      SumHolds(base, added, last);
      HoldsAlready(Sum(base, added), last);
    }
  }

  // ---- So the repeated end changes nothing ----

  function Whole(c: Crypto, utxos: Utxos, txs: seq<Transaction>): Utxos { Apply(c, utxos, txs, |txs|) }

  function Added(c: Crypto, tx: Transaction): Utxos { Created(c.txid(tx), tx.outputs, |tx.outputs|) }

  function AllAdded(c: Crypto, txs: seq<Transaction>): (added: seq<Utxos>)
    ensures |added| == |txs|
  {
    seq(|txs|, i requires 0 <= i < |txs| => Added(c, txs[i]))
  }

  lemma {:induction false} SamePrefixApplied(c: Crypto, utxos: Utxos, txs: seq<Transaction>, more: seq<Transaction>, n: nat)
    requires n <= |txs| <= |more| && txs == more[..|txs|]
    ensures Apply(c, utxos, more, n) == Apply(c, utxos, txs, n)
    decreases n
  {
    if n > 0 {
      SamePrefixApplied(c, utxos, txs, more, n - 1);
      assert more[..|txs|][n - 1] == more[n - 1];
    }
  }

  lemma WholeSnoc(c: Crypto, utxos: Utxos, txs: seq<Transaction>, tx: Transaction)
    ensures Whole(c, utxos, txs + [tx]) == ApplyTx(c, Whole(c, utxos, txs), tx)
  {
    SamePrefixApplied(c, utxos, txs, txs + [tx], |txs|);
  }

  lemma IdleApplied(c: Crypto, utxos: Utxos, tx: Transaction)
    requires Idle(tx)
    ensures ApplyTx(c, utxos, tx) == utxos + Added(c, tx)
  {
    assert Spends(tx.inputs) == {};
  }

  lemma SumOfEnd(c: Crypto, base: Utxos, init: seq<Transaction>, last: Transaction)
    ensures Sum(base, AllAdded(c, init + [last])) == Sum(base, AllAdded(c, init)) + Added(c, last)
  {
    assert AllAdded(c, init + [last]) == AllAdded(c, init) + [Added(c, last)];
    SumSnoc(base, AllAdded(c, init), Added(c, last));
  }

  lemma {:induction false} IdleEnd(c: Crypto, utxos: Utxos, txs: seq<Transaction>, end: seq<Transaction>)
    requires forall tx :: tx in end ==> Idle(tx)
    ensures Whole(c, utxos, txs + end) == Sum(Whole(c, utxos, txs), AllAdded(c, end))
  {
    if end == [] {
      assert txs + end == txs;
    } else {
      var init, last := end[..|end| - 1], end[|end| - 1];
      IdleEnd(c, utxos, txs, init);
      assert txs + end == (txs + init) + [last];
      WholeSnoc(c, utxos, txs + init, last);
      IdleApplied(c, Whole(c, utxos, txs + init), last);
      SumOfEnd(c, Whole(c, utxos, txs), init, last);
      assert end == init + [last];
    }
  }

  lemma CompatibleTxs(c: Crypto, a: Transaction, b: Transaction)
    requires IdTells(c, a, b)
    ensures Compatible(Added(c, a), Added(c, b))
  {
    forall o | o in Added(c, a) && o in Added(c, b)
      ensures a == b
    {
      CreatedKey(c.txid(a), |a.outputs|, o);
      CreatedKey(c.txid(b), |b.outputs|, o);
    }
  }

  lemma AddedCompatible(c: Crypto, txs: seq<Transaction>)
    requires IdsTell(c, txs, [])
    ensures AllCompatible(AllAdded(c, txs))
  {
    forall d, e | d in AllAdded(c, txs) && e in AllAdded(c, txs)
      ensures Compatible(d, e)
    {
      var i :| 0 <= i < |txs| && AllAdded(c, txs)[i] == d;
      var j :| 0 <= j < |txs| && AllAdded(c, txs)[j] == e;
      assert IdTells(c, txs[i], txs[j]);
      CompatibleTxs(c, txs[i], txs[j]);
    }
  }

  lemma AddedAgain(c: Crypto, end: seq<Transaction>, again: seq<Transaction>)
    requires forall tx :: tx in again ==> tx in end
    ensures forall d :: d in AllAdded(c, again) ==> d in AllAdded(c, end)
  {
    forall d | d in AllAdded(c, again)
      ensures d in AllAdded(c, end)
    {
      var i :| 0 <= i < |again| && AllAdded(c, again)[i] == d;
      assert again[i] in end;
      var p :| 0 <= p < |end| && end[p] == again[i];
      assert AllAdded(c, end)[p] == d;
    }
  }

  // A list with an end that spends nothing, and with elements of that end once more.
  lemma RepeatedApplied(c: Crypto, utxos: Utxos, txs: seq<Transaction>, end: seq<Transaction>, again: seq<Transaction>)
    requires IdsTell(c, end, []) && (forall tx :: tx in end ==> Idle(tx)) && (forall tx :: tx in again ==> tx in end)
    ensures Whole(c, utxos, txs + end + again) == Whole(c, utxos, txs + end)
  {
    IdleEnd(c, utxos, txs, end);
    IdleEnd(c, utxos, txs + end, again);
    AddedCompatible(c, end);
    AddedAgain(c, end, again);
    SumRepeats(Whole(c, utxos, txs), AllAdded(c, end), AllAdded(c, again));
  }

  lemma RepeatedEndApplied(c: Crypto, utxos: Utxos, txs: seq<Transaction>, more: seq<Transaction>, m: nat)
    requires RepeatsEnd(txs, more, m) && IdsTell(c, txs, more) && NoDoubleSpend(more)
    ensures Whole(c, utxos, more) == Whole(c, utxos, txs)
  {
    EndIsIdle(txs, more, m);
    var end, again := txs[m..], more[|txs|..];
    assert txs == txs[..m] + end && more == txs[..m] + end + again;
    forall tx | tx in end
      ensures Idle(tx) && tx in txs
    {
      var p :| 0 <= p < |end| && end[p] == tx;
      assert txs[m + p] == tx;
    }
    forall tx | tx in again
      ensures tx in end
    {
      var p :| 0 <= p < |again| && again[p] == tx;
      assert more[|txs| + p] == tx;
    }
    RepeatedApplied(c, utxos, txs[..m], end, again);
  }

  // ---- Two blocks under one header hash ----

  // Everything hashed above the ids of the two blocks.
  function NodesOf(c: Crypto, a: Block, b: Block): set<seq<byte>> {
    Preimages(c.sha, TxIds(c, a.txs)) + Preimages(c.sha, TxIds(c, b.txs))
  }

  // Nothing that is hashed for the two blocks collides: the headers, the nodes of the trees,
  // the transactions, and the first transaction of either with a node.
  ghost predicate HashesTell(c: Crypto, a: Block, b: Block) {
    && (HeaderHash(c, a.header) == HeaderHash(c, b.header) ==> HeaderBytes(a.header) == HeaderBytes(b.header))
    && CollisionFree(c.sha, NodesOf(c, a, b)) && IdsTell(c, a.txs, b.txs)
    && forall q :: q in NodesOf(c, a, b) && |q| == 64 ==> NoId(c, a, q) && NoId(c, b, q)
  }

  ghost predicate NoId(c: Crypto, a: Block, q: seq<byte>) { a.txs != [] ==> c.sha(q) != c.txid(a.txs[0]) }

  lemma SameDepth(c: Crypto, a: Block, b: Block)
    requires a.txs != [] && b.txs != [] && HashesTell(c, a, b) && BlockRoot(c, a.txs) == BlockRoot(c, b.txs)
    ensures Depth(|a.txs|) >= Depth(|b.txs|)
  {
    var gap := Depth(|b.txs|) - Depth(|a.txs|) - 1;
    if gap >= 0 {
      var q := LeafIsNode(c.sha, TxIds(c, a.txs), TxIds(c, b.txs), gap, NodesOf(c, a, b));
    }
  }

  // The same block, or the longer list repeats the end of the shorter one with transactions
  // that spend nothing; either way both leave the same outputs, whatever these were before.
  ghost predicate SameBlock(c: Crypto, a: Block, b: Block, m: nat) {
    && a.header == b.header && RepeatsEnd(a.txs, b.txs, m)
    && (forall i :: |a.txs| <= i < |b.txs| ==> Idle(b.txs[i]))
    && (forall utxos :: SameApplied(c, utxos, a.txs, b.txs))
  }

  ghost predicate SameApplied(c: Crypto, utxos: Utxos, txs: seq<Transaction>, more: seq<Transaction>) {
    Whole(c, utxos, more) == Whole(c, utxos, txs)
  }

  // What acceptance and commit check of a block on its own.
  ghost predicate Sealed(c: Crypto, b: Block, utxos: Utxos) {
    b.header.merkleRoot == BlockRoot(c, b.txs) && Passes(b.txs, utxos)
  }

  lemma {:induction false} HeaderHashBinds(c: Crypto, a: Block, b: Block, u: Utxos, v: Utxos) returns (m: nat)
    requires Sealed(c, a, u) && Sealed(c, b, v) && HeaderHash(c, a.header) == HeaderHash(c, b.header)
    requires HashesTell(c, a, b) && |a.txs| <= |b.txs|
    ensures SameBlock(c, a, b, m)
  {
    HeaderBytesInjective(a.header, b.header);
    SameDepth(c, a, b);
    DepthMonotone(|a.txs|, |b.txs|);
    m := SameRootRepeatsEnd(c.sha, TxIds(c, a.txs), TxIds(c, b.txs), NodesOf(c, a, b));
    TxsRepeatEnd(c, a.txs, b.txs, m);
    EndIsIdle(a.txs, b.txs, m);
    forall utxos
      ensures SameApplied(c, utxos, a.txs, b.txs)
    {
      RepeatedEndApplied(c, utxos, a.txs, b.txs, m);
    }
  }

  lemma AcceptedIsSealed(env: Env, call: Call, n: Node, b: Block)
    requires Accept(env, call, n, b).1.Ok?
    ensures Sealed(env.c, b, n.econ.utxos)
  {}

  // For two nodes in any states, at any times.
  lemma AcceptedBlocksBind(env: Env, call: Call, n: Node, a: Block, theirs: Call, k: Node, b: Block) returns (m: nat)
    requires Accept(env, call, n, a).1.Ok? && Accept(env, theirs, k, b).1.Ok? && |a.txs| <= |b.txs|
    requires HeaderHash(env.c, a.header) == HeaderHash(env.c, b.header) && HashesTell(env.c, a, b)
    ensures SameBlock(env.c, a, b, m)
  {
    AcceptedIsSealed(env, call, n, a);
    AcceptedIsSealed(env, theirs, k, b);
    m := HeaderHashBinds(env.c, a, b, n.econ.utxos, k.econ.utxos);
  }

  lemma {:induction false} DepthMonotone(n: nat, k: nat)
    requires n <= k
    ensures Depth(n) <= Depth(k)
    decreases k
  {
    if k > 1 && n > 1 {
      DepthMonotone((n + 1) / 2, (k + 1) / 2);
    }
  }

  // ---- They can differ ----

  // With a third transaction of coinbase form, the block that repeats it has the same root and
  // passes both validators as well.
  lemma TwoBodies(c: Crypto, first: Transaction, a: Transaction, b: Transaction, utxos: Utxos)
    requires Passes([first, a, b], utxos) && IsCoinbase(b)
    ensures Passes([first, a, b, b], utxos) && BlockRoot(c, [first, a, b, b]) == BlockRoot(c, [first, a, b])
  {
    var txs, more := [first, a, b], [first, a, b, b];
    SameFees(txs, more, utxos, 3);
    assert BlockFees(more, utxos, 4) == BlockFees(txs, utxos, 3);
    SameInputs(txs, more, 3);
    assert BlockInputs(more, 4) == BlockInputs(txs, 3);
    LastLeafCanRepeat(c.sha, c.txid(first), c.txid(a), c.txid(b));
    assert TxIds(c, txs) == [c.txid(first), c.txid(a), c.txid(b)];
    assert TxIds(c, more) == [c.txid(first), c.txid(a), c.txid(b), c.txid(b)];
  }

  lemma {:induction false} SameFees(txs: seq<Transaction>, more: seq<Transaction>, utxos: Utxos, n: nat)
    requires n <= |txs| <= |more| && txs == more[..|txs|]
    ensures BlockFees(more, utxos, n) == BlockFees(txs, utxos, n)
    decreases n
  {
    if n > 1 {
      SameFees(txs, more, utxos, n - 1);
      assert more[..|txs|][n - 1] == more[n - 1];
    }
  }

  lemma {:induction false} SameInputs(txs: seq<Transaction>, more: seq<Transaction>, n: nat)
    requires n <= |txs| <= |more| && txs == more[..|txs|]
    ensures BlockInputs(more, n) == BlockInputs(txs, n)
    decreases n
  {
    if n > 0 {
      SameInputs(txs, more, n - 1);
      assert more[..|txs|][n - 1] == more[n - 1];
    }
  }
}
