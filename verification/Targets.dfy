// 256-bit targets: comparison, scaling and saturation over big-endian byte arrays.

module Targets {
  import opened Bytes

  type Target = Hash32

  const SHARE_DIFFICULTY_RATIO: nat := 256
  const SHARE_PREFILTER_RATIO: nat := 16
  const MAX_TARGET: Target := FULL_HASH
  const GENESIS_TARGET: Target := [0] + Repeat(255, 31)

  // The 256-bit number a target or a hash stands for.
  function Num(t: Hash32): (v: nat)
    ensures v < Pow(256, 32)
  {
    ValBound(t, 256);
    Val(t, 256)
  }

  // The target that stands for v, saturating at the largest one.
  function Saturated(v: nat): (t: Target)
    ensures Num(t) == Min(Pow(256, 32) - 1, v)
  {
    if v < Pow(256, 32) then
      BigEndianExact(v);
      BigEndian(v, 32)
    else
      MaxTargetVal(32);
      MAX_TARGET
  }

  lemma BigEndianExact(v: nat)
    requires v < Pow(256, 32)
    ensures Val(BigEndian(v, 32), 256) == v
  {
    BigEndianVal(v, 32);
    DivUnique(v, Pow(256, 32), 0, v);
  }

  lemma MaxTargetVal(n: nat)
    ensures Val(Repeat(255, n), 256) == Pow(256, n) - 1
  {}

  lemma NumInjective(s: Hash32, t: Hash32)
    requires Num(s) == Num(t)
    ensures s == t
  {
    ValInjective(s, t, 256);
  }

  // ---- Comparison ----

  // The byte scan decides the order of the numbers.
  method IsMetBy(target: Target, hash: Hash32) returns (met: bool)
    ensures met <==> Num(hash) <= Num(target)
  {
    for i := 0 to 32
      invariant hash[..i] == target[..i]
    {
      if hash[i] < target[i] {
        FirstDifference(hash, target, i);
        return true;
      } else if hash[i] > target[i] {
        FirstDifference(target, hash, i);
        return false;
      }
      assert hash[..i + 1] == hash[..i] + [hash[i]];
      assert target[..i + 1] == target[..i] + [target[i]];
    }
    assert hash == hash[..32] && target == target[..32];
    return true;
  }

  lemma {:induction false} FirstDifference(s: seq<byte>, t: seq<byte>, i: nat)
    requires |s| == |t| && i < |s|
    requires s[..i] == t[..i] && s[i] < t[i]
    ensures Val(s, 256) < Val(t, 256)
  {
    SplitAtDigit(s, i);
    SplitAtDigit(t, i);
    ValBound(s[i + 1..], 256);
    ValBound(t[i + 1..], 256);
    var p := Pow(256, |s| - i - 1);
    MulMono(s[i] + 1, t[i], p);
    MulDistrib(s[i], 1, p);
  }

  lemma {:induction false} SplitAtDigit(s: seq<byte>, i: nat)
    requires i < |s|
    ensures Val(s, 256) == Val(s[..i], 256) * Pow(256, |s| - i) + s[i] * Pow(256, |s| - i - 1) + Val(s[i + 1..], 256)
  {
    var a := s[i + 1..];
    assert s == s[..i] + ([s[i]] + a);
    ValConcat(s[..i], [s[i]] + a, 256);
    ValCons(s[i], a, 256);
  }

  // ---- Multiplication by a small ratio: share and prefilter targets ----

  method MulRatio(t: Target, ratio: nat) returns (r: Target)
    requires ratio <= 256
    ensures Num(r) == Min(Pow(256, 32) - 1, Num(t) * ratio)
  {
    var result := new byte[32];
    var carry := 0;
    var i := 32;
    while i > 0
      invariant 0 <= i <= 32
      invariant 0 <= carry < 256
      invariant Val(t[i..], 256) * ratio == carry * Pow(256, 32 - i) + Val(result[i..], 256)
    {
      i := i - 1;
      var val := ByteProduct(t[i], ratio, carry);
      ghost var before := result[i + 1..];
      result[i] := val % 256;
      assert result[i..] == [val % 256] + before;
      assert t[i..] == [t[i]] + t[i + 1..];
      CarryStep(t[i], t[i + 1..], before, ratio, carry, val);
      carry := val / 256;
    }
    assert t[0..] == t && result[0..] == result[..];
    ValBound(result[..], 256);
    var p := Pow(256, 32);
    if carry > 0 {
      MulMono(1, carry, p);
      MaxTargetVal(32);
      return MAX_TARGET;
    }
    return result[..];
  }

  function ByteProduct(digit: byte, ratio: nat, carry: byte): (r: nat)
    requires ratio <= 256
    ensures r == digit * ratio + carry && r / 256 < 256
  {
    MulMono(digit, 255, ratio);
    MulMono(0, digit, ratio);
    digit * ratio + carry
  }

  // One step of schoolbook multiplication from the least significant byte.
  lemma CarryStep(d: byte, tail: seq<byte>, product: seq<byte>, n: nat, carry: nat, cur: nat)
    requires |product| == |tail|
    requires Val(tail, 256) * n == carry * Pow(256, |tail|) + Val(product, 256)
    requires cur == d * n + carry
    ensures Val([d] + tail, 256) * n
         == cur / 256 * Pow(256, |tail| + 1) + Val([cur % 256] + product, 256)
  {
    var p := Pow(256, |tail|);
    ValCons(d, tail, 256);
    ValCons(cur % 256, product, 256);
    MulDistrib(d * p, Val(tail, 256), n);
    DigitTimes(d, p, n, carry, cur);
    SplitDigit(cur, p);
  }

  lemma DigitTimes(d: int, p: int, n: int, carry: int, cur: int)
    requires cur == d * n + carry
    ensures d * p * n + carry * p == cur * p
  {
    calc {
      d * p * n;
      { MulAssoc(d, p, n); MulAssoc(d, n, p); }
      (d * n) * p;
    }
    MulDistrib(d * n, carry, p);
  }

  lemma SplitDigit(c: nat, p: int)
    ensures c * p == c / 256 * (256 * p) + c % 256 * p
  {
    DivModOf(c, 256);
    MulDistrib(c / 256 * 256, c % 256, p);
    MulAssoc(c / 256, 256, p);
  }

  method ShareTarget(t: Target) returns (r: Target)
    ensures Num(r) == Min(Pow(256, 32) - 1, 256 * Num(t))
  {
    r := MulRatio(t, SHARE_DIFFICULTY_RATIO);
  }

  // Applied to a share target it loosens it by a further factor 16.
  method PrefilterTarget(t: Target) returns (r: Target)
    ensures Num(r) == Min(Pow(256, 32) - 1, 16 * 256 * Num(t))
  {
    var share := ShareTarget(t);
    r := MulRatio(share, SHARE_PREFILTER_RATIO);
  }

  // ---- Scaling by a fraction ----

  // The target t * n / d, rounded down and saturated: what both scaling routines compute.
  function Scaled(t: Target, n: nat, d: nat): (r: Target)
    requires d > 0
    ensures Num(r) == Min(Pow(256, 32) - 1, Num(t) * n / d)
  {
    MulMono(0, Num(t), n);
    Saturated(Num(t) * n / d)
  }

  lemma ScaledBy(t: Target, n: nat, d: nat, r: Target)
    requires d > 0 && Num(r) == Min(Pow(256, 32) - 1, Num(t) * n / d)
    ensures r == Scaled(t, n, d)
  {
    NumInjective(r, Scaled(t, n, d));
  }

  // Some u64 step of the byte multiplication exceeds the word.
  ghost predicate CarryOverflows(t: Target, n: nat) {
    OverflowsFrom(t, n, 0)
  }

  ghost predicate OverflowsFrom(t: Target, n: nat, from: nat) {
    exists i :: from <= i < 32 && StepOverflows(t, n, i)
  }

  lemma OverflowsUnfold(t: Target, n: nat, i: nat)
    requires i < 32
    ensures OverflowsFrom(t, n, i) <==> StepOverflows(t, n, i) || OverflowsFrom(t, n, i + 1)
  {}

  ghost predicate StepOverflows(t: Target, n: nat, i: nat)
    requires i < 32
  {
    Val(t[i..], 256) * n >= U64_LIMIT * Pow(256, 31 - i)
  }

  // The source computes modulo 2^64 in a release build and stops in a checked one;
  // `overflow` reports that some step left the word.
  method ScaledInteger(t: Target, numerator: u64, denominator: u64) returns (r: Target, overflow: bool)
    ensures denominator == 0 ==> r == ZERO_HASH && !overflow
    ensures denominator != 0 && numerator == denominator ==> r == t && !overflow
    ensures denominator != 0 && numerator != denominator ==> (overflow <==> CarryOverflows(t, numerator))
    ensures denominator != 0 && !overflow ==> r == Scaled(t, numerator, denominator)
    ensures numerator <= SAFE_NUMERATOR ==> !overflow
  {
    overflow := false;
    if denominator == 0 {
      return ZERO_HASH, false;
    }
    if numerator == denominator {
      DivUnique(Num(t) * numerator, denominator, Num(t), 0);
      ScaledBy(t, numerator, denominator, t);
      return t, false;
    }
    if numerator <= SAFE_NUMERATOR {
      SafeNumerator(t, numerator);
    }
    var product;
    product, overflow := Product(t, numerator);
    var quotient := DivideBytes(product, denominator);
    if exists j :: 0 <= j < 8 && quotient[j] != 0 {
      HighDigits(quotient);
      MaxTargetVal(32);
      r := MAX_TARGET;
    } else {
      LowDigits(quotient);
      r := quotient[8..];
    }
    if !overflow {
      ScaledBy(t, numerator, denominator, r);
    }
  }

  const SAFE_NUMERATOR: nat := 0x100_0000_0000_0000

  lemma SafeNumerator(t: Target, n: nat)
    requires n <= SAFE_NUMERATOR
    ensures !CarryOverflows(t, n)
  {
    forall i | 0 <= i < 32
      ensures !StepOverflows(t, n, i)
    {
      var v, p := Val(t[i..], 256), Pow(256, 31 - i);
      ValBound(t[i..], 256);
      assert Pow(256, 32 - i) == 256 * p;
      MulMono(n, SAFE_NUMERATOR, v);
      assert v * n == n * v;
    }
  }

  // The multiplication is safe for every target exactly when the numerator is at most 2^56.
  lemma NumeratorBoundIsExact(n: nat)
    ensures (forall t: Target :: !CarryOverflows(t, n)) <==> n <= SAFE_NUMERATOR
  {
    if n <= SAFE_NUMERATOR {
      forall t: Target ensures !CarryOverflows(t, n) { SafeNumerator(t, n); }
    } else {
      var v: nat := Num(MAX_TARGET);
      MaxTargetVal(32);
      PowAdd(256, 8, 23);
      PowPositive(256, 23);
      PowValues();
      assert MAX_TARGET[0..] == MAX_TARGET;
      MulMono(SAFE_NUMERATOR + 1, n, v);
      assert v * n == n * v;
      assert StepOverflows(MAX_TARGET, n, 0);
      assert CarryOverflows(MAX_TARGET, n);
    }
  }

  // The digits of t from position i on, times n, are in product and carry.
  ghost predicate PartialProduct(t: Target, n: nat, i: nat, carry: nat, product: seq<byte>)
    requires i <= 32 && |product| == 32 - i
  {
    Val(t[i..], 256) * n == carry * Pow(256, 32 - i) + Val(product, 256)
  }

  lemma PartialStep(t: Target, n: nat, i: nat, carry: nat, product: seq<byte>)
    requires i < 32 && |product| == 31 - i
    requires PartialProduct(t, n, i + 1, carry, product)
    ensures t[i] * n + carry >= U64_LIMIT <==> StepOverflows(t, n, i)
    ensures t[i] * n + carry >= 0
    ensures var cur := t[i] * n + carry;
      PartialProduct(t, n, i, cur / 256, [cur % 256] + product)
  {
    MulMono(0, t[i], n);
    assert t[i..] == [t[i]] + t[i + 1..];
    CarryStep(t[i], t[i + 1..], product, n, carry, t[i] * n + carry);
    StepValue(t, n, i, carry, product);
  }

  // The 40-byte product of a target and a numerator.
  method Product(t: Target, numerator: u64) returns (product: array<byte>, overflow: bool)
    ensures fresh(product) && product.Length == 40
    ensures overflow <==> CarryOverflows(t, numerator)
    ensures !overflow ==> Val(product[..], 256) == Num(t) * numerator
  {
    product := new byte[40];
    var carry;
    carry, overflow := MultiplyInto(t, numerator, product);
    assert t[0..] == t;
    SpillCarry(product, carry);
  }

  method MultiplyInto(t: Target, n: u64, product: array<byte>) returns (carry: u64, overflow: bool)
    requires product.Length == 40
    modifies product
    ensures overflow <==> CarryOverflows(t, n)
    ensures !overflow ==> PartialProduct(t, n, 0, carry, product[8..])
  {
    carry, overflow := 0, false;
    var i := 32;
    while i > 0
      invariant 0 <= i <= 32
      invariant overflow <==> OverflowsFrom(t, n, i)
      invariant !overflow ==> PartialProduct(t, n, i, carry, product[i + 8..])
    {
      i := i - 1;
      OverflowsUnfold(t, n, i);
      if !overflow {
        PartialStep(t, n, i, carry, product[i + 9..]);
      }
      var digit, left := MultiplyStep(t[i], n, carry);
      ghost var before := product[i + 9..];
      product[i + 8] := digit;
      assert product[i + 8..] == [digit] + before;
      overflow := overflow || left.1;
      carry := left.0;
    }
  }

  // One u64 step: the digit produced, and the next carry with the overflow flag.
  method MultiplyStep(d: byte, n: u64, carry: u64) returns (digit: byte, left: (u64, bool))
    ensures left.1 <==> d * n + carry >= U64_LIMIT
    ensures !left.1 ==> digit == (d * n + carry) % 256 && left.0 == (d * n + carry) / 256
  {
    MulMono(0, d, n);
    var exact: nat := d * n + carry;
    var cur := exact % U64_LIMIT;
    return cur % 256, (cur / 256, exact >= U64_LIMIT);
  }

  // The remaining carry fills the eight most significant bytes.
  method SpillCarry(product: array<byte>, carry: u64)
    requires product.Length == 40
    modifies product
    ensures product[8..] == old(product[8..])
    ensures Val(product[..], 256) == carry * Pow(256, 32) + Val(product[8..], 256)
  {
    PowValues();
    var c: nat := carry;
    var i := 8;
    assert product[8..8] == [];
    while i > 0
      invariant 0 <= i <= 8
      invariant product[8..] == old(product[8..])
      invariant 0 <= c < Pow(256, i)
      invariant carry == c * Pow(256, 8 - i) + Val(product[i..8], 256)
    {
      i := i - 1;
      ghost var before := product[i + 1..8];
      product[i] := c % 256;
      assert product[i..8] == [c % 256] + before;
      ValCons(c % 256, before, 256);
      SplitDigit(c, Pow(256, 7 - i));
      c := c / 256;
    }
    assert product[..] == product[0..8] + product[8..];
    ValConcat(product[0..8], product[8..], 256);
  }

  lemma HighDigits(q: seq<byte>)
    requires |q| == 40 && exists j :: 0 <= j < 8 && q[j] != 0
    ensures Val(q, 256) >= Pow(256, 32)
  {
    assert q == q[..8] + q[8..];
    ValConcat(q[..8], q[8..], 256);
    ValBound(q[8..], 256);
    var j :| 0 <= j < 8 && q[j] != 0;
    assert q[..8][j] != 0;
    NonzeroDigit(q[..8]);
    PowPositive(256, 32);
    MulMono(1, Val(q[..8], 256), Pow(256, 32));
  }

  lemma LowDigits(q: seq<byte>)
    requires |q| == 40 && forall j :: 0 <= j < 8 ==> q[j] == 0
    ensures Val(q, 256) == Val(q[8..], 256)
  {
    assert q == q[..8] + q[8..];
    ValConcat(q[..8], q[8..], 256);
    assert q[..8] == Repeat(0, 8);
    ValZeros(8, 256);
  }

  // The value of a multiplication step, read off the digits already processed.
  lemma StepValue(t: Target, n: nat, i: nat, carry: nat, product: seq<byte>)
    requires i < 32 && |product| == 31 - i
    requires Val(t[i + 1..], 256) * n == carry * Pow(256, 31 - i) + Val(product, 256)
    ensures t[i] * n + carry >= U64_LIMIT <==> StepOverflows(t, n, i)
  {
    assert t[i..] == [t[i]] + t[i + 1..];
    ValCons(t[i], t[i + 1..], 256);
    ValBound(product, 256);
    DigitDecides(t[i], Pow(256, 31 - i), Val(t[i + 1..], 256), n, carry, Val(product, 256), U64_LIMIT);
  }

  // A digit in front of a known product decides whether the limit is reached.
  lemma DigitDecides(d: int, p: int, low: int, n: int, carry: int, rest: int, limit: int)
    requires low * n == carry * p + rest && 0 <= rest < p
    ensures (d * p + low) * n >= limit * p <==> d * n + carry >= limit
  {
    MulDistrib(d * p, low, n);
    MulAssoc(d, p, n);
    MulAssoc(d, n, p);
    MulDistrib(d * n, carry, p);
    if d * n + carry >= limit {
      MulMono(limit, d * n + carry, p);
    } else {
      MulMono(d * n + carry + 1, limit, p);
      MulDistrib(d * n + carry, 1, p);
    }
  }

  lemma NonzeroDigit(s: seq<byte>)
    requires exists j :: 0 <= j < |s| && s[j] != 0
    ensures Val(s, 256) >= 1
  {
    var j :| 0 <= j < |s| && s[j] != 0;
    ValBound(s[..|s| - 1], 256);
    if j < |s| - 1 {
      assert s[..|s| - 1][j] != 0;
      NonzeroDigit(s[..|s| - 1]);
    }
  }

  // Byte-wise long division.
  method DivideBytes(product: array<byte>, denominator: u64) returns (q: seq<byte>)
    requires denominator > 0
    ensures |q| == product.Length
    ensures Val(q, 256) == Val(product[..], 256) / denominator
  {
    var quotient := new byte[product.Length];
    var rem := 0;
    for i := 0 to product.Length
      invariant 0 <= rem < denominator
      invariant Val(product[..i], 256) == Val(quotient[..i], 256) * denominator + rem
    {
      var cur := rem * 256 + product[i];
      DivModOf(cur, denominator);
      assert 0 <= cur / denominator < 256 by {
        if cur / denominator >= 256 {
          MulMono(256, cur / denominator, denominator);
        }
      }
      ghost var before := quotient[..i];
      quotient[i] := cur / denominator;
      assert quotient[..i + 1] == before + [cur / denominator];
      assert product[..i + 1] == product[..i] + [product[i]];
      ValSnoc(before, cur / denominator, 256);
      ValSnoc(product[..i], product[i], 256);
      MulDistrib(Val(before, 256) * 256, cur / denominator, denominator);
      MulAssoc(Val(before, 256), 256, denominator);
      MulAssoc(Val(before, 256), denominator, 256);
      rem := cur % denominator;
    }
    assert product[..product.Length] == product[..] && quotient[..product.Length] == quotient[..];
    DivUnique(Val(product[..], 256), denominator, Val(quotient[..], 256), rem);
    return quotient[..];
  }
}
