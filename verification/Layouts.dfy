// Where the fields stand in the strings that are hashed and signed.

module Layouts {
  import opened Blocks
  import opened Bytes
  import opened Emission
  import opened EpochCommits
  import opened Packets
  import opened Records
  import opened Transactions

  // The string p stands in s from place k on.
  predicate StandsAt(s: seq<byte>, k: nat, p: seq<byte>) {
    k + |p| <= |s| && s[k..k + |p|] == p
  }

  lemma Behind(p: seq<byte>, r: seq<byte>, k: nat, q: seq<byte>)
    requires StandsAt(r, k, q)
    ensures StandsAt(p + r, |p| + k, q)
  {
    assert (p + r)[|p| + k..|p| + k + |q|] == r[k..k + |q|];
  }

  lemma Ahead(p: seq<byte>, r: seq<byte>, k: nat, q: seq<byte>)
    requires StandsAt(p, k, q)
    ensures StandsAt(p + r, k, q)
  {
    assert (p + r)[k..k + |q|] == p[k..k + |q|];
  }

  // Each of several strings joined stands behind those before it.
  lemma Joined(a: seq<byte>, b: seq<byte>, c: seq<byte>, d: seq<byte>, r: seq<byte>)
    ensures var s := a + (b + (c + (d + r)));
      StandsAt(s, 0, a) && StandsAt(s, |a|, b) && StandsAt(s, |a| + |b|, c) && StandsAt(s, |a| + |b| + |c|, d)
      && StandsAt(s, |a| + |b| + |c| + |d|, r)
  {
    Behind(c, d + r, |d|, r);
    Behind(b, c + (d + r), |c|, d);
    Behind(b, c + (d + r), |c| + |d|, r);
    Behind(a, b + (c + (d + r)), 0, b);
    Behind(a, b + (c + (d + r)), |b|, c);
    Behind(a, b + (c + (d + r)), |b| + |c|, d);
    Behind(a, b + (c + (d + r)), |b| + |c| + |d|, r);
  }

  lemma Four(a: seq<byte>, b: seq<byte>, c: seq<byte>, d: seq<byte>)
    ensures var s := a + (b + (c + d));
      StandsAt(s, 0, a) && StandsAt(s, |a|, b) && StandsAt(s, |a| + |b|, c) && StandsAt(s, |a| + |b| + |c|, d)
  {
    Joined(a, b, c, [], d);
    assert [] + d == d;
  }

  lemma SliceOfSlice(s: seq<byte>, k: nat, m: nat, j: nat, n: nat)
    requires k + m <= |s| && j + n <= m
    ensures s[k..k + m][j..j + n] == s[k + j..k + j + n]
  {
    var t := s[k..k + m];
    var l, r := t[j..j + n], s[k + j..k + j + n];
    forall i | 0 <= i < n
      ensures l[i] == r[i]
    {
      assert t[j + i] == s[k + (j + i)];
    }
  }

  lemma Inside(s: seq<byte>, k: nat, r: seq<byte>, j: nat, p: seq<byte>)
    requires StandsAt(s, k, r) && StandsAt(r, j, p)
    ensures StandsAt(s, k + j, p)
  {
    SliceOfSlice(s, k, |r|, j, |p|);
  }

  // Byte i of a little-endian number is its digit of weight 256 to the i.
  lemma {:induction false} LittleEndianDigit(v: nat, n: nat, i: nat)
    requires i < n
    ensures Pow(256, i) > 0 && LittleEndian(v, n)[i] == v / Pow(256, i) % 256
  {
    if i > 0 {
      LittleEndianDigit(v / 256, n - 1, i - 1);
      PowPositive(256, i - 1);
      DivTwice(v, 256, Pow(256, i - 1));
    } else {
      DivUnique(v, 1, v, 0);
    }
  }

  lemma DivTwice(v: nat, a: nat, b: nat)
    requires a > 0 && b > 0
    ensures a * b > 0 && v / a / b == v / (a * b)
  {
    var q, r := v / a, v % a;
    var p, s := q / b, q % b;
    DivModOf(v, a);
    DivModOf(q, b);
    MulMono(1, a, b);
    MulAssoc(p, b, a);
    MulDistrib(p * b, s, a);
    MulMono(s + 1, b, a);
    MulDistrib(s, 1, a);
    assert b * a == a * b;
    DivUnique(v, a * b, p, s * a + r);
  }

  // The 120 bytes of a header.
  lemma HeaderLayout(h: Header)
    ensures var s := HeaderBytes(h);
      && StandsAt(s, 0, LittleEndian(h.version, 4)) && StandsAt(s, 4, h.prevHash) && StandsAt(s, 36, h.merkleRoot)
      && StandsAt(s, 68, LittleEndian(h.timestamp, 8)) && StandsAt(s, 76, h.difficulty)
      && StandsAt(s, 108, LittleEndian(h.nonce, 8)) && StandsAt(s, 116, LittleEndian(h.epochIndex, 4))
  {
    PrefixLayout(h);
    var tail := LittleEndian(h.nonce, 8) + LittleEndian(h.epochIndex, 4);
    Ahead(HeaderPrefix(h), tail, 0, LittleEndian(h.version, 4));
    Ahead(HeaderPrefix(h), tail, 4, h.prevHash);
    Ahead(HeaderPrefix(h), tail, 36, h.merkleRoot);
    Ahead(HeaderPrefix(h), tail, 68, LittleEndian(h.timestamp, 8));
    Ahead(HeaderPrefix(h), tail, 76, h.difficulty);
    Four(HeaderPrefix(h), LittleEndian(h.nonce, 8), LittleEndian(h.epochIndex, 4), []);
    assert LittleEndian(h.epochIndex, 4) + [] == LittleEndian(h.epochIndex, 4);
  }

  lemma PrefixLayout(h: Header)
    ensures var s := HeaderPrefix(h);
      && StandsAt(s, 0, LittleEndian(h.version, 4)) && StandsAt(s, 4, h.prevHash) && StandsAt(s, 36, h.merkleRoot)
      && StandsAt(s, 68, LittleEndian(h.timestamp, 8)) && StandsAt(s, 76, h.difficulty)
  {
    Joined(LittleEndian(h.version, 4), h.prevHash, h.merkleRoot, LittleEndian(h.timestamp, 8), h.difficulty);
  }

  // The bytes an epoch commit is hashed by.
  lemma CommitLayout(c: EpochCommit)
    ensures var s := CommitPreimage(c);
      && |s| == 173 && StandsAt(s, 0, COMMIT_TAG) && StandsAt(s, 21, LittleEndian(c.epoch, 4)) && StandsAt(s, 25, LittleEndian(c.blockHeight, 8))
      && StandsAt(s, 33, c.sharesRoot) && StandsAt(s, 65, c.bondsRoot) && StandsAt(s, 97, c.loyaltyRoot)
      && StandsAt(s, 129, LittleEndian(c.totalShares, 8)) && StandsAt(s, 137, LittleEndian(c.minersCount, 4))
      && StandsAt(s, 141, c.previousCommit)
  {
    var rest := CommitRest(c);
    Joined(COMMIT_TAG, LittleEndian(c.epoch, 4), LittleEndian(c.blockHeight, 8), c.sharesRoot, rest);
    RestLayout(c);
    var s := CommitPreimage(c);
    Inside(s, 65, rest, 0, c.bondsRoot);
    Inside(s, 65, rest, 32, c.loyaltyRoot);
    Inside(s, 65, rest, 64, LittleEndian(c.totalShares, 8));
    Inside(s, 65, rest, 72, LittleEndian(c.minersCount, 4));
    Inside(s, 65, rest, 76, c.previousCommit);
  }

  function CommitRest(c: EpochCommit): (s: seq<byte>)
    ensures |s| == 108
  {
    Raw(c.bondsRoot) + (Raw(c.loyaltyRoot) + (LittleEndian(c.totalShares, 8) + (LittleEndian(c.minersCount, 4) + Raw(c.previousCommit))))
  }

  lemma RestLayout(c: EpochCommit)
    ensures var s := CommitRest(c);
      && StandsAt(s, 0, c.bondsRoot) && StandsAt(s, 32, c.loyaltyRoot) && StandsAt(s, 64, LittleEndian(c.totalShares, 8))
      && StandsAt(s, 72, LittleEndian(c.minersCount, 4)) && StandsAt(s, 76, c.previousCommit)
  {
    Joined(c.bondsRoot, c.loyaltyRoot, LittleEndian(c.totalShares, 8), LittleEndian(c.minersCount, 4), c.previousCommit);
  }

  // The leaves of its three trees.
  lemma LeafLayout(e: Entry<u64>, b: Entry<Bond>)
    ensures |CountLeaf(e)| == 28 && StandsAt(CountLeaf(e), 0, e.id) && StandsAt(CountLeaf(e), 20, LittleEndian(e.value, 8))
    ensures |BondLeaf(b)| == 44 && StandsAt(BondLeaf(b), 0, b.id) && StandsAt(BondLeaf(b), 20, LittleEndian(b.value.amount, 8))
    ensures StandsAt(BondLeaf(b), 28, LittleEndian(b.value.createdAt, 8)) && StandsAt(BondLeaf(b), 36, LittleEndian(b.value.lockUntil, 8))
  {
    Four(b.id, LittleEndian(b.value.amount, 8), LittleEndian(b.value.createdAt, 8), LittleEndian(b.value.lockUntil, 8));
  }

  // What the ids of epoch payments are taken of, and the key of an archived share.
  lemma PaymentLayout(p: Payday, id: MinerId, q: Packet)
    ensures var s := RewardPreimage(p, id);
      && |s| == 50 && StandsAt(s, 0, REWARD_TAG) && StandsAt(s, 18, LittleEndian(p.height, 8))
      && StandsAt(s, 26, LittleEndian(p.epoch, 4)) && StandsAt(s, 30, id)
    ensures StandsAt(Key(q), 0, q.miner) && StandsAt(Key(q), 20, q.hash)
  {
    Four(REWARD_TAG, LittleEndian(p.height, 8), LittleEndian(p.epoch, 4), id);
  }

  // ---- What a signature is made over ----

  lemma InputsSplit(inputs: seq<TxIn>)
    requires inputs != []
    ensures InputsBytes(inputs) == InputsBytes(inputs[..|inputs| - 1]) + InputBytes(inputs[|inputs| - 1])
  {}

  lemma EarlierStands(s: seq<byte>, last: seq<byte>, all: seq<byte>, k: nat, p: seq<byte>)
    requires StandsAt(s, k, p) && all == s + last
    ensures StandsAt(all, k, p)
  {
    Ahead(s, last, k, p);
  }

  lemma LastStands(s: seq<byte>, last: seq<byte>, all: seq<byte>)
    requires all == s + last
    ensures StandsAt(all, |s|, last)
  {}

  lemma {:induction false} InputStands(inputs: seq<TxIn>, i: nat)
    requires i < |inputs|
    ensures StandsAt(InputsBytes(inputs), 44 * i, InputBytes(inputs[i]))
    decreases |inputs|
  {
    var n := |inputs| - 1;
    var before := inputs[..n];
    InputsSplit(inputs);
    InputsBytesLength(before);
    if i < n {
      InputStands(before, i);
      EarlierStands(InputsBytes(before), InputBytes(inputs[n]), InputsBytes(inputs), 44 * i, InputBytes(inputs[i]));
    } else {
      LastStands(InputsBytes(before), InputBytes(inputs[n]), InputsBytes(inputs));
    }
  }

  lemma InputLayout(input: TxIn)
    ensures var s := InputBytes(input);
      && StandsAt(s, 0, input.outpoint.txid) && StandsAt(s, 32, LittleEndian(input.outpoint.index, 4))
      && StandsAt(s, 36, [0, 0, 0, 0]) && StandsAt(s, 40, LittleEndian(input.sequence, 4))
  {
    ZeroWord();
    Four(input.outpoint.txid, LittleEndian(input.outpoint.index, 4), LittleEndian(0, 4), LittleEndian(input.sequence, 4));
  }

  lemma ZeroWord()
    ensures LittleEndian(0, 4) == [0, 0, 0, 0]
  {
    assert LittleEndian(0, 1) == [0] && LittleEndian(0, 2) == [0, 0] && LittleEndian(0, 3) == [0, 0, 0];
  }

  // An output: its value, the length of its script, and the script.
  predicate OutputAt(s: seq<byte>, k: nat, out: TxOut) {
    StandsAt(s, k, LittleEndian(out.value, 8)) && StandsAt(s, k + 8, LittleEndian(|out.script|, 4)) && StandsAt(s, k + 12, out.script)
  }

  lemma OutputBehind(p: seq<byte>, r: seq<byte>, k: nat, out: TxOut)
    requires OutputAt(r, k, out)
    ensures OutputAt(p + r, |p| + k, out)
  {
    Behind(p, r, k, LittleEndian(out.value, 8));
    Behind(p, r, k + 8, LittleEndian(|out.script|, 4));
    Behind(p, r, k + 12, out.script);
  }

  lemma FirstOutput(outputs: seq<TxOut>)
    requires outputs != []
    ensures OutputAt(OutputsBytes(outputs), 0, outputs[0])
  {
    Joined(LittleEndian(outputs[0].value, 8), LittleEndian(|outputs[0].script|, 4), outputs[0].script, [], OutputsBytes(outputs[1..]));
    OneOutputFirst(outputs);
  }

  lemma OutputsSplit(outputs: seq<TxOut>)
    requires outputs != []
    ensures OutputsBytes(outputs) == OutputBytes(outputs[0]) + OutputsBytes(outputs[1..])
  {}

  lemma LaterStands(first: seq<byte>, rest: seq<byte>, all: seq<byte>, k: nat, out: TxOut)
    requires OutputAt(rest, k, out) && all == first + rest
    ensures OutputAt(all, |first| + k, out)
  {
    OutputBehind(first, rest, k, out);
  }

  lemma LaterOutput(outputs: seq<TxOut>, k: nat, out: TxOut)
    requires outputs != [] && OutputAt(OutputsBytes(outputs[1..]), k, out)
    ensures OutputAt(OutputsBytes(outputs), |OutputBytes(outputs[0])| + k, out)
  {
    OutputsSplit(outputs);
    LaterStands(OutputBytes(outputs[0]), OutputsBytes(outputs[1..]), OutputsBytes(outputs), k, out);
  }

  // Where output i stands: behind the bytes of those before it.
  function Place(outputs: seq<TxOut>, i: nat): nat
    requires i <= |outputs|
  {
    if i == 0 then 0 else |OutputBytes(outputs[0])| + Place(outputs[1..], i - 1)
  }

  lemma {:induction false} OutputStands(outputs: seq<TxOut>, i: nat)
    requires i < |outputs|
    ensures OutputAt(OutputsBytes(outputs), Place(outputs, i), outputs[i])
    decreases |outputs|
  {
    if i == 0 {
      FirstOutput(outputs);
    } else {
      OutputStands(outputs[1..], i - 1);
      LaterOutput(outputs, Place(outputs[1..], i - 1), outputs[i]);
    }
  }

  lemma OneOutputFirst(outputs: seq<TxOut>)
    requires outputs != []
    ensures OutputsBytes(outputs)
         == LittleEndian(outputs[0].value, 8) + (LittleEndian(|outputs[0].script|, 4) + (outputs[0].script + ([] + OutputsBytes(outputs[1..]))))
  {
    AppendAssoc(LittleEndian(outputs[0].value, 8), LittleEndian(|outputs[0].script|, 4) + outputs[0].script, OutputsBytes(outputs[1..]));
    AppendAssoc(LittleEndian(|outputs[0].script|, 4), outputs[0].script, OutputsBytes(outputs[1..]));
    assert [] + OutputsBytes(outputs[1..]) == OutputsBytes(outputs[1..]);
  }

  // Of the string that is signed: the version, the inputs without their scripts behind their
  // number, and the number of outputs.
  lemma SignedFront(tx: RawTx)
    ensures var s := SighashPreimage(tx);
      && StandsAt(s, 0, LittleEndian(tx.version, 4)) && StandsAt(s, 4, LittleEndian(|tx.inputs|, 4))
      && StandsAt(s, 8, InputsBytes(tx.inputs)) && StandsAt(s, 8 + 44 * |tx.inputs|, LittleEndian(|tx.outputs|, 4))
  {
    InputsBytesLength(tx.inputs);
    Joined(LittleEndian(tx.version, 4), LittleEndian(|tx.inputs|, 4), InputsBytes(tx.inputs), LittleEndian(|tx.outputs|, 4),
           OutputsBytes(tx.outputs) + (LittleEndian(tx.locktime, 4) + LittleEndian(SIGHASH_ALL, 4)));
  }

  // Then the outputs, the lock time and the kind of signature. What is signed is the double hash,
  // or zero where there is no such input.
  lemma SignedBack(c: Crypto, tx: RawTx, i: nat)
    ensures Sighash(c, tx, i) == if i < |tx.inputs| then c.sha(c.sha(SighashPreimage(tx))) else ZERO_HASH
    ensures var s, n := SighashPreimage(tx), 12 + 44 * |tx.inputs|;
      && |s| == n + |OutputsBytes(tx.outputs)| + 8 && StandsAt(s, n, OutputsBytes(tx.outputs))
      && StandsAt(s, |s| - 8, LittleEndian(tx.locktime, 4)) && StandsAt(s, |s| - 4, LittleEndian(1, 4))
  {
    InputsBytesLength(tx.inputs);
    var version, inputs, outputs := LittleEndian(tx.version, 4), LittleEndian(|tx.inputs|, 4), LittleEndian(|tx.outputs|, 4);
    var lock, kind := LittleEndian(tx.locktime, 4), LittleEndian(1, 4);
    TailStands(version + (inputs + (InputsBytes(tx.inputs) + outputs)), OutputsBytes(tx.outputs), lock, kind);
    PartsJoin(version, inputs, InputsBytes(tx.inputs), outputs, OutputsBytes(tx.outputs) + (lock + kind));
  }

  lemma PartsJoin(a: seq<byte>, b: seq<byte>, c: seq<byte>, d: seq<byte>, r: seq<byte>)
    ensures a + (b + (c + (d + r))) == a + (b + (c + d)) + r
  {}

  lemma TailStands(front: seq<byte>, p: seq<byte>, q: seq<byte>, r: seq<byte>)
    ensures var s := front + (p + (q + r));
      && |s| == |front| + |p| + |q| + |r| && StandsAt(s, |front|, p)
      && StandsAt(s, |s| - |r| - |q|, q) && StandsAt(s, |s| - |r|, r)
  {
    Joined(front, p, q, r, []);
    assert r + [] == r;
  }
}
