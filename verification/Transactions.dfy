// Transactions, scripts, fees and validation against a UTXO set.

module Transactions {
  import opened Bytes
  import opened Wrappers

  const MAX_SUPPLY_LYT: nat := 1_500_000_000_000_000
  const MINIMUM_FEE_LYT: nat := 50
  const DUST_LIMIT_LYT: nat := 100
  const OP_BOND: byte := 0xBA
  const NO_INDEX: u32 := 0xFFFF_FFFF

  datatype OutPoint = OutPoint(txid: Hash32, index: u32)

  datatype TxOut = TxOut(value: u64, script: seq<byte>)

  datatype TxIn = TxIn(outpoint: OutPoint, scriptSig: seq<byte>, sequence: u32)

  datatype RawTx = Tx(version: u32, inputs: seq<TxIn>, outputs: seq<TxOut>, locktime: u32)

  // Counts and script lengths are written as 32-bit words; no message or memory holds more.
  ghost predicate Sized(t: RawTx) {
    && |t.inputs| < U32_LIMIT && |t.outputs| < U32_LIMIT
    && forall i :: 0 <= i < |t.outputs| ==> |t.outputs[i].script| < U32_LIMIT
  }

  type Transaction = t: RawTx | Sized(t) witness Tx(1, [], [], 0)

  type Utxos = map<OutPoint, TxOut>

  // The primitives the node takes from its cryptographic libraries, as arbitrary functions.
  datatype Crypto = Crypto(
    sha: seq<byte> -> Hash32,
    argon: seq<byte> -> Hash32,
    txid: RawTx -> Hash32,
    hash160: seq<byte> -> MinerId,
    minerIdOf: seq<byte> -> Option<MinerId>,
    ecdsa: (seq<byte>, seq<byte>, Hash32) -> bool,
    decodeAddress: string -> Option<MinerId>)

  // ---- Scripts ----

  predicate IsP2pkh(script: seq<byte>) {
    && |script| == 25 && script[0] == 0x76 && script[1] == 0xA9 && script[2] == 0x14
    && script[23] == 0x88 && script[24] == 0xAC
  }

  function P2pkh(hash: MinerId): (script: seq<byte>)
    ensures IsP2pkh(script) && script[3..23] == hash
  {
    var script := [0x76, 0xA9, 0x14] + Raw(hash) + [0x88, 0xAC];
    assert script[3..23] == hash;
    script
  }

  predicate IsBond(script: seq<byte>) {
    |script| == 21 && script[0] == OP_BOND
  }

  function BondMiner(script: seq<byte>): Option<MinerId> {
    if IsBond(script) then Some(script[1..21]) else None
  }

  // ---- Coinbase forms ----

  predicate IsCoinbaseInput(input: TxIn) {
    input.outpoint == OutPoint(ZERO_HASH, NO_INDEX)
  }

  predicate IsCoinbase(tx: RawTx) {
    |tx.inputs| == 1 && IsCoinbaseInput(tx.inputs[0])
  }

  // ---- Sums ----

  function ValueSum(outs: seq<TxOut>): nat {
    if outs == [] then 0 else ValueSum(outs[..|outs| - 1]) + outs[|outs| - 1].value
  }

  lemma ValueSumStep(outs: seq<TxOut>, i: nat)
    requires i < |outs|
    ensures ValueSum(outs[..i + 1]) == ValueSum(outs[..i]) + outs[i].value
  {
    assert outs[..i + 1][..i] == outs[..i];
  }

  lemma ValueSumPrefix(outs: seq<TxOut>, i: nat)
    requires i <= |outs|
    ensures ValueSum(outs[..i]) <= ValueSum(outs)
    decreases |outs|
  {
    if i < |outs| {
      assert outs[..|outs| - 1][..i] == outs[..i];
      ValueSumPrefix(outs[..|outs| - 1], i);
    } else {
      assert outs[..i] == outs;
    }
  }

  method CheckedSum(outs: seq<TxOut>) returns (sum: Option<u64>)
    ensures sum == if ValueSum(outs) < U64_LIMIT then Some(ValueSum(outs)) else None
  {
    var total: u64 := 0;
    for i := 0 to |outs|
      invariant total == ValueSum(outs[..i])
    {
      ValueSumStep(outs, i);
      ValueSumPrefix(outs, i + 1);
      if total + outs[i].value >= U64_LIMIT {
        return None;
      }
      total := total + outs[i].value;
    }
    assert outs[..|outs|] == outs;
    return Some(total);
  }

  // The outputs that a list of inputs refers to, when all exist.
  predicate AllExist(inputs: seq<TxIn>, utxos: Utxos) {
    forall i :: 0 <= i < |inputs| ==> inputs[i].outpoint in utxos
  }

  function Spent(inputs: seq<TxIn>, utxos: Utxos): (outs: seq<TxOut>)
    requires AllExist(inputs, utxos)
    ensures |outs| == |inputs|
  {
    seq(|inputs|, i requires 0 <= i < |inputs| => utxos[inputs[i].outpoint])
  }

  // ---- Fees ----

  datatype FeeError = UtxoMissing | InputsOverflow | OutputsOverflow | InsufficientInputs

  // The inputs are read in order; the first failure is reported.
  function InputSum(inputs: seq<TxIn>, utxos: Utxos): Result<u64, FeeError> {
    if inputs == [] then Ok(0)
    else
      var last := inputs[|inputs| - 1];
      match InputSum(inputs[..|inputs| - 1], utxos)
      case Err(e) => Err(e)
      case Ok(sum) =>
        if last.outpoint !in utxos then Err(UtxoMissing)
        else if sum + utxos[last.outpoint].value >= U64_LIMIT then Err(InputsOverflow)
        else Ok(sum + utxos[last.outpoint].value)
  }

  function Fee(tx: RawTx, utxos: Utxos): Result<u64, FeeError> {
    if IsCoinbase(tx) then Ok(0)
    else
      match InputSum(tx.inputs, utxos)
      case Err(e) => Err(e)
      case Ok(inputSum) =>
        if ValueSum(tx.outputs) >= U64_LIMIT then Err(OutputsOverflow)
        else if inputSum < ValueSum(tx.outputs) then Err(InsufficientInputs)
        else Ok(inputSum - ValueSum(tx.outputs))
  }

  lemma InputSumError(inputs: seq<TxIn>, i: nat, utxos: Utxos)
    requires i <= |inputs| && InputSum(inputs[..i], utxos).Err?
    ensures InputSum(inputs, utxos) == InputSum(inputs[..i], utxos)
    decreases |inputs|
  {
    if i < |inputs| {
      assert inputs[..|inputs| - 1][..i] == inputs[..i];
      InputSumError(inputs[..|inputs| - 1], i, utxos);
    } else {
      assert inputs[..i] == inputs;
    }
  }

  // A fee exists exactly when every input exists and the sums fit and cover the outputs; it
  // is then inputs minus outputs.
  lemma {:induction false} InputSumMeaning(inputs: seq<TxIn>, utxos: Utxos)
    ensures InputSum(inputs, utxos).Ok? <==>
      AllExist(inputs, utxos) && ValueSum(Spent(inputs, utxos)) < U64_LIMIT
    ensures InputSum(inputs, utxos).Ok? ==> InputSum(inputs, utxos).value == ValueSum(Spent(inputs, utxos))
  {
    if inputs != [] {
      var n := |inputs| - 1;
      InputSumMeaning(inputs[..n], utxos);
      if AllExist(inputs, utxos) {
        assert Spent(inputs, utxos)[..n] == Spent(inputs[..n], utxos);
      } else if AllExist(inputs[..n], utxos) {
        assert inputs[n].outpoint !in utxos;
      }
    }
  }

  // The sum fails at the first input that is missing or no longer fits, and names which it is.
  ghost predicate FailsAt(inputs: seq<TxIn>, utxos: Utxos, i: nat, e: FeeError)
    requires i < |inputs|
  {
    && AllExist(inputs[..i], utxos) && ValueSum(Spent(inputs[..i], utxos)) < U64_LIMIT
    && if inputs[i].outpoint !in utxos then e == UtxoMissing
       else e == InputsOverflow && ValueSum(Spent(inputs[..i], utxos)) + utxos[inputs[i].outpoint].value >= U64_LIMIT
  }

  lemma {:induction false} InputSumFails(inputs: seq<TxIn>, utxos: Utxos) returns (i: nat)
    requires InputSum(inputs, utxos).Err?
    ensures i < |inputs| && FailsAt(inputs, utxos, i, InputSum(inputs, utxos).error)
  {
    var n := |inputs| - 1;
    if InputSum(inputs[..n], utxos).Err? {
      i := InputSumFails(inputs[..n], utxos);
      assert inputs[..n][..i] == inputs[..i];
    } else {
      i := n;
      InputSumMeaning(inputs[..n], utxos);
    }
  }

  method ComputeFee(tx: Transaction, utxos: Utxos) returns (fee: Result<u64, FeeError>)
    ensures fee == Fee(tx, utxos)
  {
    if IsCoinbase(tx) {
      return Ok(0);
    }
    var inputSum: u64 := 0;
    for i := 0 to |tx.inputs|
      invariant InputSum(tx.inputs[..i], utxos) == Ok(inputSum)
    {
      assert tx.inputs[..i + 1][..i] == tx.inputs[..i];
      var outpoint := tx.inputs[i].outpoint;
      if outpoint !in utxos {
        InputSumError(tx.inputs, i + 1, utxos);
        return Err(UtxoMissing);
      }
      if inputSum + utxos[outpoint].value >= U64_LIMIT {
        InputSumError(tx.inputs, i + 1, utxos);
        return Err(InputsOverflow);
      }
      inputSum := inputSum + utxos[outpoint].value;
    }
    assert tx.inputs[..|tx.inputs|] == tx.inputs;
    var outputSum := CheckedSum(tx.outputs);
    if outputSum == None {
      return Err(OutputsOverflow);
    }
    if inputSum < outputSum.value {
      return Err(InsufficientInputs);
    }
    return Ok(inputSum - outputSum.value);
  }

  // ---- The signed message ----

  function InputBytes(input: TxIn): (s: seq<byte>)
    ensures |s| == 44
  {
    Raw(input.outpoint.txid) + (LittleEndian(input.outpoint.index, 4)
      + (LittleEndian(0, 4) + LittleEndian(input.sequence, 4)))
  }

  function OutputBytes(output: TxOut): seq<byte> {
    LittleEndian(output.value, 8) + (LittleEndian(|output.script|, 4) + output.script)
  }

  function InputsBytes(inputs: seq<TxIn>): seq<byte> {
    if inputs == [] then [] else InputsBytes(inputs[..|inputs| - 1]) + InputBytes(inputs[|inputs| - 1])
  }

  function OutputsBytes(outputs: seq<TxOut>): seq<byte> {
    if outputs == [] then [] else OutputBytes(outputs[0]) + OutputsBytes(outputs[1..])
  }

  const SIGHASH_ALL: nat := 1

  function SighashPreimage(tx: RawTx): seq<byte> {
    LittleEndian(tx.version, 4) + (LittleEndian(|tx.inputs|, 4) + (InputsBytes(tx.inputs)
      + (LittleEndian(|tx.outputs|, 4) + (OutputsBytes(tx.outputs)
      + (LittleEndian(tx.locktime, 4) + LittleEndian(SIGHASH_ALL, 4))))))
  }

  // The index only selects whether there is anything to sign.
  function Sighash(c: Crypto, tx: RawTx, inputIndex: nat): Hash32 {
    if inputIndex >= |tx.inputs| then ZERO_HASH else c.sha(Raw(c.sha(SighashPreimage(tx))))
  }

  method ComputeSighash(c: Crypto, tx: Transaction, inputIndex: nat) returns (h: Hash32)
    ensures h == Sighash(c, tx, inputIndex)
  {
    if inputIndex >= |tx.inputs| {
      return ZERO_HASH;
    }
    var inputBytes: seq<byte> := [];
    for i := 0 to |tx.inputs|
      invariant inputBytes == InputsBytes(tx.inputs[..i])
    {
      assert tx.inputs[..i + 1][..i] == tx.inputs[..i];
      inputBytes := inputBytes + InputBytes(tx.inputs[i]);
    }
    assert tx.inputs[..|tx.inputs|] == tx.inputs;
    var outputBytes: seq<byte> := [];
    for i := 0 to |tx.outputs|
      invariant outputBytes + OutputsBytes(tx.outputs[i..]) == OutputsBytes(tx.outputs)
    {
      assert tx.outputs[i..][1..] == tx.outputs[i + 1..];
      AppendAssoc(outputBytes, OutputBytes(tx.outputs[i]), OutputsBytes(tx.outputs[i + 1..]));
      outputBytes := outputBytes + OutputBytes(tx.outputs[i]);
    }
    var data := LittleEndian(tx.version, 4) + (LittleEndian(|tx.inputs|, 4) + (inputBytes
      + (LittleEndian(|tx.outputs|, 4) + (outputBytes
      + (LittleEndian(tx.locktime, 4) + LittleEndian(SIGHASH_ALL, 4))))));
    assert outputBytes == OutputsBytes(tx.outputs);
    return c.sha(Raw(c.sha(data)));
  }

  lemma AppendAssoc<T>(a: seq<T>, b: seq<T>, c: seq<T>)
    ensures (a + b) + c == a + (b + c)
  {}

  // Everything but the scripts of the inputs.
  function Stripped(tx: RawTx): RawTx {
    tx.(inputs := StrippedInputs(tx.inputs))
  }

  function StrippedInputs(inputs: seq<TxIn>): (r: seq<TxIn>)
    ensures |r| == |inputs|
    ensures forall i :: 0 <= i < |inputs| ==> r[i] == inputs[i].(scriptSig := [])
  {
    seq(|inputs|, i requires 0 <= i < |inputs| => inputs[i].(scriptSig := []))
  }

  lemma InputsBytesLength(inputs: seq<TxIn>)
    ensures |InputsBytes(inputs)| == 44 * |inputs|
  {}

  lemma InputBytesInjective(a: TxIn, b: TxIn)
    requires InputBytes(a) == InputBytes(b)
    ensures a.(scriptSig := []) == b.(scriptSig := [])
  {
    PowValues();
    var a2, b2 := LittleEndian(0, 4) + LittleEndian(a.sequence, 4), LittleEndian(0, 4) + LittleEndian(b.sequence, 4);
    var a1, b1 := LittleEndian(a.outpoint.index, 4) + a2, LittleEndian(b.outpoint.index, 4) + b2;
    SplitConcat(Raw(a.outpoint.txid), a1, Raw(b.outpoint.txid), b1);
    SplitConcat(LittleEndian(a.outpoint.index, 4), a2, LittleEndian(b.outpoint.index, 4), b2);
    SplitConcat(LittleEndian(0, 4), LittleEndian(a.sequence, 4), LittleEndian(0, 4), LittleEndian(b.sequence, 4));
    LittleEndianInjective(a.outpoint.index, b.outpoint.index, 4);
    LittleEndianInjective(a.sequence, b.sequence, 4);
  }

  lemma {:induction false} InputsBytesInjective(xs: seq<TxIn>, ys: seq<TxIn>)
    requires |xs| == |ys| && InputsBytes(xs) == InputsBytes(ys)
    ensures StrippedInputs(xs) == StrippedInputs(ys)
  {
    if xs != [] {
      var n := |xs| - 1;
      InputsBytesLength(xs[..n]);
      InputsBytesLength(ys[..n]);
      SplitConcat(InputsBytes(xs[..n]), InputBytes(xs[n]), InputsBytes(ys[..n]), InputBytes(ys[n]));
      InputBytesInjective(xs[n], ys[n]);
      InputsBytesInjective(xs[..n], ys[..n]);
      assert StrippedInputs(xs) == StrippedInputs(xs[..n]) + [xs[n].(scriptSig := [])];
      assert StrippedInputs(ys) == StrippedInputs(ys[..n]) + [ys[n].(scriptSig := [])];
    }
  }

  lemma InputsBytesIgnoreScripts(xs: seq<TxIn>)
    ensures InputsBytes(StrippedInputs(xs)) == InputsBytes(xs)
  {
    if xs != [] {
      var n := |xs| - 1;
      InputsBytesIgnoreScripts(xs[..n]);
      assert StrippedInputs(xs)[..n] == StrippedInputs(xs[..n]);
    }
  }

  // Output encodings are self-delimiting.
  lemma OutputBytesPrefix(a: TxOut, r: seq<byte>, b: TxOut, s: seq<byte>)
    requires |a.script| < U32_LIMIT && |b.script| < U32_LIMIT
    requires OutputBytes(a) + r == OutputBytes(b) + s
    ensures a == b && r == s
  {
    PowValues();
    var la, lb := LittleEndian(|a.script|, 4), LittleEndian(|b.script|, 4);
    var va, vb := LittleEndian(a.value, 8), LittleEndian(b.value, 8);
    assert OutputBytes(a) + r == va + (la + (a.script + r));
    assert OutputBytes(b) + s == vb + (lb + (b.script + s));
    SplitConcat(va, la + (a.script + r), vb, lb + (b.script + s));
    SplitConcat(la, a.script + r, lb, b.script + s);
    LittleEndianInjective(a.value, b.value, 8);
    LittleEndianInjective(|a.script|, |b.script|, 4);
    SplitConcat(a.script, r, b.script, s);
  }

  lemma {:induction false} OutputsBytesPrefix(xs: seq<TxOut>, r: seq<byte>, ys: seq<TxOut>, s: seq<byte>)
    requires |xs| == |ys|
    requires forall i :: 0 <= i < |xs| ==> |xs[i].script| < U32_LIMIT
    requires forall i :: 0 <= i < |ys| ==> |ys[i].script| < U32_LIMIT
    requires OutputsBytes(xs) + r == OutputsBytes(ys) + s
    ensures xs == ys && r == s
    decreases |xs|
  {
    if xs != [] {
      AppendAssoc(OutputBytes(xs[0]), OutputsBytes(xs[1..]), r);
      AppendAssoc(OutputBytes(ys[0]), OutputsBytes(ys[1..]), s);
      OutputBytesPrefix(xs[0], OutputsBytes(xs[1..]) + r, ys[0], OutputsBytes(ys[1..]) + s);
      OutputsBytesPrefix(xs[1..], r, ys[1..], s);
      assert xs == [xs[0]] + xs[1..] && ys == [ys[0]] + ys[1..];
    } else {
      assert OutputsBytes(xs) + r == r && OutputsBytes(ys) + s == s;
    }
  }

  lemma PreimageInjective(t: Transaction, u: Transaction)
    requires SighashPreimage(t) == SighashPreimage(u)
    ensures Stripped(t) == Stripped(u)
  {
    PowValues();
    var one := LittleEndian(SIGHASH_ALL, 4);
    var t5, u5 := LittleEndian(t.locktime, 4) + one, LittleEndian(u.locktime, 4) + one;
    var t4, u4 := OutputsBytes(t.outputs) + t5, OutputsBytes(u.outputs) + u5;
    var t3, u3 := LittleEndian(|t.outputs|, 4) + t4, LittleEndian(|u.outputs|, 4) + u4;
    var t2, u2 := InputsBytes(t.inputs) + t3, InputsBytes(u.inputs) + u3;
    var t1, u1 := LittleEndian(|t.inputs|, 4) + t2, LittleEndian(|u.inputs|, 4) + u2;
    SplitConcat(LittleEndian(t.version, 4), t1, LittleEndian(u.version, 4), u1);
    SplitConcat(LittleEndian(|t.inputs|, 4), t2, LittleEndian(|u.inputs|, 4), u2);
    LittleEndianInjective(t.version, u.version, 4);
    LittleEndianInjective(|t.inputs|, |u.inputs|, 4);
    InputsBytesLength(t.inputs);
    InputsBytesLength(u.inputs);
    SplitConcat(InputsBytes(t.inputs), t3, InputsBytes(u.inputs), u3);
    InputsBytesInjective(t.inputs, u.inputs);
    SplitConcat(LittleEndian(|t.outputs|, 4), t4, LittleEndian(|u.outputs|, 4), u4);
    LittleEndianInjective(|t.outputs|, |u.outputs|, 4);
    OutputsBytesPrefix(t.outputs, t5, u.outputs, u5);
    SplitConcat(LittleEndian(t.locktime, 4), one, LittleEndian(u.locktime, 4), one);
    LittleEndianInjective(t.locktime, u.locktime, 4);
  }

  // What a signature covers: everything but the input scripts, and nothing less.
  lemma PreimageCoversExactly(t: Transaction, u: Transaction)
    ensures SighashPreimage(t) == SighashPreimage(u) <==> Stripped(t) == Stripped(u)
  {
    if SighashPreimage(t) == SighashPreimage(u) {
      PreimageInjective(t, u);
    }
    if Stripped(t) == Stripped(u) {
      InputsBytesIgnoreScripts(t.inputs);
      InputsBytesIgnoreScripts(u.inputs);
      assert |StrippedInputs(t.inputs)| == |StrippedInputs(u.inputs)|;
    }
  }

  // ---- Script signatures ----

  function ParseScriptSig(s: seq<byte>): Option<(seq<byte>, seq<byte>)> {
    if |s| < 2 then None
    else
      var pos := if s[0] == 0 then 1 else 0;
      var sigEnd: nat := s[pos] as int + pos + 1;
      if sigEnd >= |s| then None
      else if s[sigEnd] as int + sigEnd + 1 != |s| then None
      else Some((s[pos + 1..sigEnd], s[sigEnd + 1..]))
  }

  function ScriptSig(sig: seq<byte>, pubkey: seq<byte>): seq<byte> {
    [|sig| % 256] + sig + [|pubkey| % 256] + pubkey
  }

  // Parsing gives back what was written, for every nonempty signature that fits a length byte.
  lemma ParseWritten(sig: seq<byte>, pubkey: seq<byte>)
    requires 0 < |sig| < 256 && |pubkey| < 256
    ensures ParseScriptSig(ScriptSig(sig, pubkey)) == Some((sig, pubkey))
  {
    var s := ScriptSig(sig, pubkey);
    assert s[0] == |sig| && s[1 + |sig|] == |pubkey|;
    assert s[1..1 + |sig|] == sig && s[2 + |sig|..] == pubkey;
  }

  function VerifyInput(c: Crypto, tx: RawTx, index: nat, utxo: TxOut): bool
    requires index < |tx.inputs|
  {
    var input := tx.inputs[index];
    if IsCoinbaseInput(input) then true
    else
      match ParseScriptSig(input.scriptSig)
      case None => false
      case Some((sig, pubkey)) =>
        if IsP2pkh(utxo.script) then
          Raw(c.hash160(pubkey)) == utxo.script[3..23] && c.ecdsa(pubkey, sig, Sighash(c, tx, index))
        else if IsBond(utxo.script) then
          c.minerIdOf(pubkey) == BondMiner(utxo.script) && c.ecdsa(pubkey, sig, Sighash(c, tx, index))
        else false
  }

  // ---- Validation ----

  datatype TxError =
    | EmptyTransaction | DoubleSpendWithin | DustOutput | OutputOverflow | SumAboveMaxSupply
    | UtxoNotFound | InputOverflow | InvalidSignature | OutputsExceedInputs | FeeBelowMinimum

  // The outpoints of the first n inputs that are not coinbase-like, in order.
  function SpendingUpTo(inputs: seq<TxIn>, n: nat): seq<OutPoint>
    requires n <= |inputs|
  {
    if n == 0 then []
    else if IsCoinbaseInput(inputs[n - 1]) then SpendingUpTo(inputs, n - 1)
    else SpendingUpTo(inputs, n - 1) + [inputs[n - 1].outpoint]
  }

  function SpendingOutpoints(inputs: seq<TxIn>): seq<OutPoint> {
    SpendingUpTo(inputs, |inputs|)
  }

  ghost function BasicError(tx: RawTx): Option<TxError> {
    if tx.inputs == [] || tx.outputs == [] then Some(EmptyTransaction)
    else if !Distinct(SpendingOutpoints(tx.inputs)) then Some(DoubleSpendWithin)
    else if exists i :: 0 <= i < |tx.outputs| && tx.outputs[i].value < DUST_LIMIT_LYT then Some(DustOutput)
    else if ValueSum(tx.outputs) >= U64_LIMIT then Some(OutputOverflow)
    else if ValueSum(tx.outputs) > MAX_SUPPLY_LYT then Some(SumAboveMaxSupply)
    else None
  }

  method ValidateBasic(tx: Transaction) returns (error: Option<TxError>)
    ensures error == BasicError(tx)
  {
    if tx.inputs == [] || tx.outputs == [] {
      return Some(EmptyTransaction);
    }
    var distinct := InputsDistinct(tx.inputs);
    if !distinct {
      return Some(DoubleSpendWithin);
    }
    for i := 0 to |tx.outputs|
      invariant forall k :: 0 <= k < i ==> tx.outputs[k].value >= DUST_LIMIT_LYT
    {
      if tx.outputs[i].value < DUST_LIMIT_LYT {
        return Some(DustOutput);
      }
    }
    var total := CheckedSum(tx.outputs);
    if total == None {
      return Some(OutputOverflow);
    }
    if total.value > MAX_SUPPLY_LYT {
      return Some(SumAboveMaxSupply);
    }
    return None;
  }

  method InputsDistinct(inputs: seq<TxIn>) returns (distinct: bool)
    ensures distinct <==> Distinct(SpendingOutpoints(inputs))
  {
    var seen: set<OutPoint> := {};
    for i := 0 to |inputs|
      invariant Distinct(SpendingUpTo(inputs, i))
      invariant forall o :: o in seen <==> o in SpendingUpTo(inputs, i)
    {
      if !IsCoinbaseInput(inputs[i]) {
        if inputs[i].outpoint in seen {
          RepeatedSpend(inputs, i);
          return false;
        }
        seen := seen + {inputs[i].outpoint};
      }
    }
    return true;
  }

  lemma {:induction false} RepeatedSpend(inputs: seq<TxIn>, i: nat)
    requires i < |inputs| && !IsCoinbaseInput(inputs[i]) && inputs[i].outpoint in SpendingUpTo(inputs, i)
    ensures !Distinct(SpendingOutpoints(inputs))
  {
    var before, all := SpendingUpTo(inputs, i), SpendingOutpoints(inputs);
    SpendingPrefix(inputs, i + 1, |inputs|);
    var a :| 0 <= a < |before| && before[a] == inputs[i].outpoint;
    assert all[a] == (before + [inputs[i].outpoint])[a] && all[|before|] == inputs[i].outpoint;
  }

  lemma {:induction false} SpendingPrefix(inputs: seq<TxIn>, m: nat, n: nat)
    requires m <= n <= |inputs|
    ensures SpendingUpTo(inputs, m) <= SpendingUpTo(inputs, n)
    decreases n
  {
    if m < n {
      SpendingPrefix(inputs, m, n - 1);
    }
  }

  // Inputs are looked up, added and verified one after the other.
  function CheckInputs(c: Crypto, tx: RawTx, utxos: Utxos, n: nat): Result<u64, TxError>
    requires n <= |tx.inputs|
  {
    if n == 0 then Ok(0)
    else
      match CheckInputs(c, tx, utxos, n - 1)
      case Err(e) => Err(e)
      case Ok(sum) =>
        var outpoint := tx.inputs[n - 1].outpoint;
        if outpoint !in utxos then Err(UtxoNotFound)
        else if sum + utxos[outpoint].value >= U64_LIMIT then Err(InputOverflow)
        else if !VerifyInput(c, tx, n - 1, utxos[outpoint]) then Err(InvalidSignature)
        else Ok(sum + utxos[outpoint].value)
  }

  ghost function Validation(c: Crypto, tx: RawTx, utxos: Utxos): Result<u64, TxError> {
    match BasicError(tx)
    case Some(e) => Err(e)
    case None =>
      if IsCoinbase(tx) then Ok(0)
      else
        FeeLeft(CheckInputs(c, tx, utxos, |tx.inputs|), ValueSum(tx.outputs))
  }

  function FeeLeft(inputs: Result<u64, TxError>, spent: nat): Result<u64, TxError> {
    match inputs
    case Err(e) => Err(e)
    case Ok(inputSum) =>
      if spent > inputSum then Err(OutputsExceedInputs)
      else if inputSum - spent < MINIMUM_FEE_LYT then Err(FeeBelowMinimum)
      else Ok(inputSum - spent)
  }

  lemma CheckInputsError(c: Crypto, tx: RawTx, utxos: Utxos, n: nat, m: nat)
    requires n <= m <= |tx.inputs| && CheckInputs(c, tx, utxos, n).Err?
    ensures CheckInputs(c, tx, utxos, m) == CheckInputs(c, tx, utxos, n)
  {}

  method ValidateInputs(c: Crypto, tx: RawTx, utxos: Utxos) returns (r: Result<u64, TxError>)
    ensures r == CheckInputs(c, tx, utxos, |tx.inputs|)
  {
    var inputSum: u64 := 0;
    for i := 0 to |tx.inputs|
      invariant CheckInputs(c, tx, utxos, i) == Ok(inputSum)
    {
      var outpoint := tx.inputs[i].outpoint;
      if outpoint !in utxos {
        CheckInputsError(c, tx, utxos, i + 1, |tx.inputs|);
        return Err(UtxoNotFound);
      }
      var utxo := utxos[outpoint];
      if inputSum + utxo.value >= U64_LIMIT {
        CheckInputsError(c, tx, utxos, i + 1, |tx.inputs|);
        return Err(InputOverflow);
      }
      if !VerifyInput(c, tx, i, utxo) {
        CheckInputsError(c, tx, utxos, i + 1, |tx.inputs|);
        return Err(InvalidSignature);
      }
      inputSum := inputSum + utxo.value;
    }
    return Ok(inputSum);
  }

  method Validate(c: Crypto, tx: Transaction, utxos: Utxos) returns (r: Result<u64, TxError>)
    ensures r == Validation(c, tx, utxos)
  {
    var basic := ValidateBasic(tx);
    if basic != None {
      return Err(basic.value);
    }
    if IsCoinbase(tx) {
      return Ok(0);
    }
    r := ValidateFee(c, tx, utxos);
  }

  // The part of the validation that looks at the stored outputs.
  method ValidateFee(c: Crypto, tx: Transaction, utxos: Utxos) returns (r: Result<u64, TxError>)
    requires ValueSum(tx.outputs) < U64_LIMIT
    ensures r == FeeLeft(CheckInputs(c, tx, utxos, |tx.inputs|), ValueSum(tx.outputs))
  {
    var checked := ValidateInputs(c, tx, utxos);
    if checked.Err? {
      return Err(checked.error);
    }
    var inputSum := checked.value;
    var outputSum := CheckedSum(tx.outputs);
    if outputSum.value > inputSum {
      return Err(OutputsExceedInputs);
    }
    var fee := inputSum - outputSum.value;
    if fee < MINIMUM_FEE_LYT {
      return Err(FeeBelowMinimum);
    }
    return Ok(fee);
  }

  // A valid spending transaction pays exactly the fee that the fee routine reports.
  lemma ValidatedFee(c: Crypto, tx: RawTx, utxos: Utxos)
    requires Validation(c, tx, utxos).Ok?
    ensures Fee(tx, utxos).Ok? && Fee(tx, utxos).value == Validation(c, tx, utxos).value
  {
    if !IsCoinbase(tx) {
      CheckedSumAgrees(c, tx, utxos, |tx.inputs|);
      assert tx.inputs[..|tx.inputs|] == tx.inputs;
    }
  }

  lemma {:induction false} CheckedSumAgrees(c: Crypto, tx: RawTx, utxos: Utxos, n: nat)
    requires n <= |tx.inputs| && CheckInputs(c, tx, utxos, n).Ok?
    ensures InputSum(tx.inputs[..n], utxos) == Ok(CheckInputs(c, tx, utxos, n).value)
  {
    if n > 0 {
      CheckedSumAgrees(c, tx, utxos, n - 1);
      assert tx.inputs[..n][..n - 1] == tx.inputs[..n - 1];
    }
  }
}
