// Scaling a target by a Q32.32 fixed-point factor on four 64-bit words.

module FixedPoint {
  import opened Bytes
  import opened Targets

  const Q32: nat := 0x1_0000_0000

  // The integer core of the float interface: `factor` is the rounded Q32.32 value.
  method AdjustFixed(t: Target, factor: nat) returns (r: Target)
    ensures 1 <= factor < U64_LIMIT ==> r == Scaled(t, factor, Q32)
    ensures factor == 0 || factor >= U64_LIMIT ==> r == MAX_TARGET
  {
    if factor == 0 || factor >= U64_LIMIT {
      return MAX_TARGET;
    }
    var words := PackWords(t);
    var product := MultiplyWords(words, factor);
    r := DropFraction(product);
    ScaledBy(t, factor, Q32, r);
  }

  method DropFraction(product: array<u64>) returns (r: Target)
    requires product.Length == 5
    ensures Num(r) == Min(Pow(256, 32) - 1, Words(product[..]) / Q32)
  {
    ShiftedProduct(product[..]);
    if product[0] / Q32 != 0 {
      MaxTargetVal(32);
      return MAX_TARGET;
    }
    ghost var shifted := Shifted(product[..]);
    ValBound(shifted, U64_LIMIT);
    WordPower();
    var words := new u64[4];
    for i := 0 to 4
      invariant words[..i] == shifted[..i]
    {
      words[i] := ShiftedWord(product[i], product[i + 1]);
      assert words[..i + 1] == words[..i] + [words[i]];
    }
    assert words[..] == words[..4] == shifted;
    r := UnpackWords(words);
  }

  // The low half of one word joined with the high half of the next.
  function ShiftedWord(high: u64, low: u64): u64 {
    high % Q32 * Q32 + low / Q32
  }

  function Shifted(p: seq<u64>): (w: seq<u64>)
    requires |p| == 5
    ensures |w| == 4 && forall i :: 0 <= i < 4 ==> w[i] == ShiftedWord(p[i], p[i + 1])
  {
    [ShiftedWord(p[0], p[1]), ShiftedWord(p[1], p[2]), ShiftedWord(p[2], p[3]), ShiftedWord(p[3], p[4])]
  }

  // Value of big-endian 64-bit words.
  function Words(w: seq<int>): int { Val(w, U64_LIMIT) }

  lemma JoinSlices(t: seq<byte>, a: nat, b: nat)
    requires a <= b <= |t|
    ensures t[..b] == t[..a] + t[a..b]
  {}

  method PackWords(t: Target) returns (words: array<u64>)
    ensures fresh(words) && words.Length == 4
    ensures Words(words[..]) == Num(t)
  {
    words := new u64[4];
    for i := 0 to 4
      invariant Words(words[..i]) == Val(t[..i * 8], 256)
    {
      var w := PackWord(t, i * 8);
      ghost var before := words[..i];
      words[i] := w;
      assert words[..i + 1] == before + [w];
      JoinSlices(t, i * 8, i * 8 + 8);
      WordAppended(before, w, t[..i * 8], t[i * 8..i * 8 + 8]);
    }
    assert words[..4] == words[..] && t[..32] == t;
  }

  method PackWord(t: Target, at: nat) returns (w: u64)
    requires at + 8 <= 32
    ensures w == Val(t[at..at + 8], 256)
  {
    PowValues();
    var word: nat := 0;
    for j := 0 to 8
      invariant word < Pow(256, j)
      invariant word == Val(t[at..at + j], 256)
    {
      assert t[at..at + j + 1] == t[at..at + j] + [t[at + j]];
      ValSnoc(t[at..at + j], t[at + j], 256);
      word := word * 256 + t[at + j];
    }
    w := word;
  }

  // One more word stands for eight more bytes.
  lemma {:induction false} WordAppended(words: seq<u64>, w: u64, bytes: seq<byte>, eight: seq<byte>)
    requires |eight| == 8 && Val(eight, 256) == w && Val(bytes, 256) == Words(words)
    ensures Val(bytes + eight, 256) == Words(words + [w])
  {
    PowValues();
    ValConcat(bytes, eight, 256);
    ValSnoc(words, w, U64_LIMIT);
  }

  method MultiplyWords(words: array<u64>, factor: u64) returns (product: array<u64>)
    requires words.Length == 4
    ensures fresh(product) && product.Length == 5
    ensures Words(product[..]) == Words(words[..]) * factor
  {
    product := new u64[5];
    var carry: nat := 0;
    var i := 4;
    assert words[4..] == [] && product[5..] == [];
    while i > 0
      invariant 0 <= i <= 4
      invariant carry < U64_LIMIT
      invariant Words(words[i..]) * factor == carry * Pow(U64_LIMIT, 4 - i) + Words(product[i + 1..])
    {
      i := i - 1;
      var val: nat := WideProduct(words[i], factor, carry);
      ghost var before := product[i + 2..];
      product[i + 1] := val % U64_LIMIT;
      assert product[i + 1..] == [val % U64_LIMIT] + before;
      assert words[i..] == [words[i]] + words[i + 1..];
      WordStep(words[i], words[i + 1..], before, factor, carry, val);
      carry := val / U64_LIMIT;
    }
    product[0] := carry;
    assert product[..] == [carry] + product[1..] && words[0..] == words[..];
    ValCons(carry, product[1..], U64_LIMIT);
  }

  // A 128-bit multiply-accumulate of words never leaves 128 bits.
  function WideProduct(a: u64, b: u64, c: u64): (r: nat)
    ensures r == a * b + c && r / U64_LIMIT < U64_LIMIT
  {
    MulMono(a, U64_LIMIT - 1, b);
    MulMono(0, a, b);
    a * b + c
  }

  lemma WordStep(d: u64, tail: seq<u64>, product: seq<u64>, n: nat, carry: nat, cur: nat)
    requires |product| == |tail| && cur == d * n + carry
    requires Words(tail) * n == carry * Pow(U64_LIMIT, |tail|) + Words(product)
    ensures Words([d] + tail) * n
         == cur / U64_LIMIT * Pow(U64_LIMIT, |tail| + 1) + Words([cur % U64_LIMIT] + product)
  {
    var p := Pow(U64_LIMIT, |tail|);
    ValCons(d, tail, U64_LIMIT);
    ValCons(cur % U64_LIMIT, product, U64_LIMIT);
    MulDistrib(d * p, Words(tail), n);
    DigitTimes(d, p, n, carry, cur);
    DivModOf(cur, U64_LIMIT);
    MulDistrib(cur / U64_LIMIT * U64_LIMIT, cur % U64_LIMIT, p);
    MulAssoc(cur / U64_LIMIT, U64_LIMIT, p);
  }

  method UnpackWords(words: array<u64>) returns (t: Target)
    requires words.Length == 4
    ensures Num(t) == Words(words[..])
  {
    var out := new byte[32];
    for i := 0 to 4
      invariant Val(out[..i * 8], 256) == Words(words[..i])
    {
      UnpackWord(words[i], out, i * 8);
      assert out[..(i + 1) * 8] == out[..i * 8] + out[i * 8..i * 8 + 8];
      assert words[..i + 1] == words[..i] + [words[i]];
      WordAppended(words[..i], words[i], out[..i * 8], out[i * 8..i * 8 + 8]);
    }
    assert out[..32] == out[..] && words[..4] == words[..];
    return out[..];
  }

  method UnpackWord(word: u64, out: array<byte>, at: nat)
    requires at + 8 <= out.Length
    modifies out
    ensures Val(out[at..at + 8], 256) == word
    ensures out[..at] == old(out[..at])
  {
    PowValues();
    var j := 8;
    var w: nat := word;
    assert out[at + 8..at + 8] == [];
    while j > 0
      invariant 0 <= j <= 8
      invariant w < Pow(256, j)
      invariant out[..at] == old(out[..at])
      invariant word == w * Pow(256, 8 - j) + Val(out[at + j..at + 8], 256)
    {
      j := j - 1;
      ghost var before := out[at + j + 1..at + 8];
      out[at + j] := w % 256;
      assert out[at + j..at + 8] == [w % 256] + before;
      ValCons(w % 256, before, 256);
      SplitDigit(w, Pow(256, 7 - j));
      w := w / 256;
    }
  }

  // Dropping the 32 fraction bits of a five-word product.
  lemma ShiftedProduct(p: seq<u64>)
    requires |p| == 5
    ensures p[0] / Q32 != 0 <==> Words(p) / Q32 >= Pow(256, 32)
    ensures p[0] / Q32 == 0 ==> Words(Shifted(p)) == Words(p) / Q32
  {
    var w := Shifted(p);
    FiveWords(p);
    FourWords(w);
    ValBound(w, U64_LIMIT);
    WordPower();
    var q := p[0] / Q32 * Pow(256, 32) + Words(w);
    ShiftArithmetic(p[0], p[1], p[2], p[3], p[4]);
    DivUnique(Words(p), Q32, q, p[4] % Q32);
  }

  lemma WordPower()
    ensures Pow(U64_LIMIT, 4) == Pow(256, 32)
           == 0x1_0000_0000_0000_0000_0000_0000_0000_0000_0000_0000_0000_0000_0000_0000_0000_0000
  {
    PowValues();
    PowAdd(256, 8, 8);
    PowAdd(256, 16, 16);
    assert Pow(U64_LIMIT, 1) == U64_LIMIT;
    assert Pow(U64_LIMIT, 2) == U64_LIMIT * U64_LIMIT;
    assert Pow(U64_LIMIT, 3) == U64_LIMIT * (U64_LIMIT * U64_LIMIT);
  }

  lemma FourWords(w: seq<int>)
    requires |w| == 4
    ensures Words(w) == ((w[0] * U64_LIMIT + w[1]) * U64_LIMIT + w[2]) * U64_LIMIT + w[3]
  {
    assert w[..3][..2] == w[..2] && w[..2][..1] == w[..1] && w[..1][..0] == [];
    assert Val(w[..1], U64_LIMIT) == w[0];
    assert Val(w[..2], U64_LIMIT) == w[0] * U64_LIMIT + w[1];
    assert Val(w[..3], U64_LIMIT) == (w[0] * U64_LIMIT + w[1]) * U64_LIMIT + w[2];
  }

  lemma FiveWords(w: seq<int>)
    requires |w| == 5
    ensures Words(w) == (((w[0] * U64_LIMIT + w[1]) * U64_LIMIT + w[2]) * U64_LIMIT + w[3]) * U64_LIMIT + w[4]
  {
    FourWords(w[..4]);
  }

  lemma ShiftArithmetic(a: u64, b: u64, c: u64, d: u64, e: u64)
    ensures (((a * U64_LIMIT + b) * U64_LIMIT + c) * U64_LIMIT + d) * U64_LIMIT + e
         == (a / Q32 * 0x1_0000_0000_0000_0000_0000_0000_0000_0000_0000_0000_0000_0000_0000_0000_0000_0000
             + (((a % Q32 * Q32 + b / Q32) * U64_LIMIT + (b % Q32 * Q32 + c / Q32)) * U64_LIMIT
             + (c % Q32 * Q32 + d / Q32)) * U64_LIMIT + (d % Q32 * Q32 + e / Q32)) * Q32 + e % Q32
  {}

  // The byte-array routine and the word routine are interchangeable on every factor for
  // which the byte-array routine cannot overflow.
  method ScaleBothWays(t: Target, factor: u64) returns (byWords: Target, byBytes: Target)
    requires 1 <= factor <= SAFE_NUMERATOR
    ensures byWords == byBytes
  {
    byWords := AdjustFixed(t, factor);
    var overflow;
    byBytes, overflow := ScaledInteger(t, factor, Q32);
  }
}
