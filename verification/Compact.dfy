// The 32-bit compact (nBits) encoding of targets.

module Compact {
  import opened Bytes
  import opened Targets

  // `Panic` is an index outside the 32 bytes.
  datatype Outcome<+T> = Panic | Value(value: T)

  function Mantissa(a: byte, b: byte, c: byte): (m: nat)
    ensures m < 0x100_0000
    ensures m / 0x1_0000 == a && m / 0x100 % 0x100 == b && m % 0x100 == c
  {
    var low, m := b as int * 0x100 + c, a as int * 0x1_0000 + b as int * 0x100 + c;
    DivUnique(m, 0x1_0000, a, low);
    DivUnique(m, 0x100, a as int * 0x100 + b, c);
    DivUnique(a as int * 0x100 + b, 0x100, a, b);
    m
  }

  function Code(exponent: nat, mantissa: nat): (c: u32)
    requires exponent < 256 && mantissa < 0x100_0000
    ensures c / 0x100_0000 == exponent && c % 0x100_0000 == mantissa
  {
    exponent * 0x100_0000 + mantissa
  }

  // Number of leading zero bytes.
  function LeadingZeros(s: seq<byte>): (z: nat)
    ensures z <= |s|
    ensures forall i :: 0 <= i < z ==> s[i] == 0
    ensures z < |s| ==> s[z] != 0
  {
    if s == [] || s[0] != 0 then 0 else 1 + LeadingZeros(s[1..])
  }

  method Encode(t: Target) returns (c: Outcome<u32>)
    ensures c == Encoded(t)
  {
    var size := 32;
    for i := 0 to 32
      invariant forall k :: 0 <= k < i ==> t[k] == 0
      invariant size == 32
    {
      if t[i] != 0 {
        size := i;
        break;
      }
    }
    LeadingZerosUnique(t, size);
    if size == 32 {
      return Value(0);
    }
    if size + 2 >= 32 {
      return Panic;
    }
    return Value(Code(32 - size, Mantissa(t[size], t[size + 1], t[size + 2])));
  }

  lemma LeadingZerosUnique(s: seq<byte>, z: nat)
    requires z <= |s| && (forall i :: 0 <= i < z ==> s[i] == 0) && (z < |s| ==> s[z] != 0)
    ensures z == LeadingZeros(s)
  {}

  // The exponent counts the significant bytes; the mantissa is the top three of them.
  function Encoded(t: Target): Outcome<u32> {
    var z := LeadingZeros(t);
    if z == 32 then Value(0)
    else if z > 29 then Panic
    else Value(Code(32 - z, Mantissa(t[z], t[z + 1], t[z + 2])))
  }

  // Exponents over 32 make the position negative: a checked build stops, a release build
  // wraps it beyond the array and writes nothing.
  method Decode(compact: u32, checked: bool) returns (t: Outcome<Target>)
    ensures t == Decoded(compact, checked)
  {
    var exponent, mantissa := compact / 0x100_0000, compact % 0x100_0000;
    var bytes := new byte[32](_ => 0);
    if exponent <= 3 {
      bytes[31 - exponent] := mantissa / 0x1_0000;
      if exponent > 1 {
        bytes[32 - exponent] := mantissa / 0x100 % 0x100;
      }
      if exponent > 2 {
        bytes[33 - exponent] := mantissa % 0x100;
      }
      PlacedFrom(bytes[..], mantissa, 31 - exponent, Max(exponent, 1));
    } else {
      if exponent > 32 {
        return if checked then Panic else Value(ZERO_HASH);
      }
      var pos := 32 - exponent;
      bytes[pos] := mantissa / 0x1_0000;
      if pos + 1 < 32 {
        bytes[pos + 1] := mantissa / 0x100 % 0x100;
      }
      if pos + 2 < 32 {
        bytes[pos + 2] := mantissa % 0x100;
      }
      PlacedFrom(bytes[..], mantissa, pos, 3);
    }
    return Value(bytes[..]);
  }

  lemma PlacedFrom(s: Target, mantissa: nat, at: nat, kept: nat)
    requires mantissa < 0x100_0000 && 1 <= kept <= 3 && at + kept <= 32
    requires forall i :: 0 <= i < at || at + kept <= i < 32 ==> s[i] == 0
    requires s[at] == mantissa / 0x1_0000
    requires kept > 1 ==> s[at + 1] == mantissa / 0x100 % 0x100
    requires kept > 2 ==> s[at + 2] == mantissa % 0x100
    ensures s == Placed(mantissa, at, kept)
  {}

  // The first `kept` mantissa bytes written from position `at` on.
  function Placed(mantissa: nat, at: nat, kept: nat): (t: Target)
    requires mantissa < 0x100_0000 && kept <= 3 && at + kept <= 32
  {
    Repeat(0, at)
      + [mantissa / 0x1_0000, mantissa / 0x100 % 0x100, mantissa % 0x100][..kept]
      + Repeat(0, 32 - at - kept)
  }

  function Decoded(compact: u32, checked: bool): Outcome<Target> {
    var exponent, mantissa := compact / 0x100_0000, compact % 0x100_0000;
    if exponent > 32 then (if checked then Panic else Value(ZERO_HASH))
    else if exponent > 3 then Value(Placed(mantissa, 32 - exponent, 3))
    else if exponent == 0 then Value(Placed(mantissa, 31, 1))
    else Value(Placed(mantissa, 31 - exponent, exponent))
  }

  // ---- What the pair of encodings preserves ----

  // t with everything below its top three significant bytes cleared.
  function Truncated(t: Target): (r: Target)
    requires LeadingZeros(t) <= 29
  {
    var z := LeadingZeros(t);
    t[..z + 3] + Repeat(0, 29 - z)
  }

  lemma {:induction false} LeadingZerosOfNum(t: Target, k: nat)
    requires k <= 32
    ensures LeadingZeros(t) <= 32 - k - 1 <==> Num(t) >= Pow(256, k)
  {
    var z := LeadingZeros(t);
    assert t[..z] == Repeat(0, z);
    assert t == t[..z] + t[z..];
    ValConcat(t[..z], t[z..], 256);
    ValZeros(z, 256);
    assert Num(t) == Val(t[z..], 256);
    ValBound(t[z..], 256);
    PowPositive(256, k);
    if z < 32 {
      LeadingDigit(t[z..]);
      if z <= 31 - k {
        PowMono(k, 31 - z);
      } else {
        PowMono(32 - z, k);
      }
    }
  }

  lemma {:induction false} LeadingDigit(s: seq<byte>)
    requires s != [] && s[0] != 0
    ensures Val(s, 256) >= Pow(256, |s| - 1)
  {
    var p := Pow(256, |s| - 1);
    PowPositive(256, |s| - 1);
    assert s == [s[0]] + s[1..];
    ValCons(s[0], s[1..], 256);
    ValBound(s[1..], 256);
    MulMono(1, s[0], p);
  }

  lemma PowMono(m: nat, n: nat)
    requires m <= n
    ensures Pow(256, m) <= Pow(256, n)
  {}

  // What the decoder makes of an encoded target.
  ghost predicate KeepsTopBytes(t: Target, checked: bool) {
    Encoded(t).Value? && Decoded(Encoded(t).value, checked).Value?
    && var r := Decoded(Encoded(t).value, checked).value;
       if LeadingZeros(t) == 32 then r == t else LeadingZeros(t) <= 29 && r == Truncated(t)
  }

  lemma {:induction false} DecodeEncoded(t: Target, checked: bool)
    requires LeadingZeros(t) <= 29
    ensures var z := LeadingZeros(t);
      Decoded(Encoded(t).value, checked)
        == Value(Repeat(0, Min(z, 28)) + t[z..z + 3] + Repeat(0, 29 - Min(z, 28)))
  {
    var z := LeadingZeros(t);
    assert Encoded(t).value == Code(32 - z, Mantissa(t[z], t[z + 1], t[z + 2]));
    assert [t[z], t[z + 1], t[z + 2]] == t[z..z + 3] == t[z..z + 3][..3];
  }

  // Encoding then decoding keeps exactly the top three significant bytes, if and only if
  // the target is zero or at least 2^24: below that an index leaves the array or the
  // decoder puts the mantissa one byte too high.
  lemma {:induction false} RoundTripExactly(t: Target, checked: bool)
    ensures KeepsTopBytes(t, checked) <==> Num(t) == 0 || Num(t) >= 0x100_0000
  {
    LeadingZerosOfNum(t, 0);
    LeadingZerosOfNum(t, 3);
    assert Pow(256, 1) == 256 && Pow(256, 2) == 0x1_0000 && Pow(256, 3) == 0x100_0000;
    var z := LeadingZeros(t);
    if z == 32 {
      assert t == Repeat(0, 32);
      assert Decoded(0, checked) == Value(Placed(0, 31, 1));
      assert Placed(0, 31, 1) == t;
    } else if z <= 28 {
      LargeTarget(t, checked);
    } else if z == 29 {
      SmallTarget(t, checked);
    }
  }

  lemma LargeTarget(t: Target, checked: bool)
    requires LeadingZeros(t) <= 28
    ensures KeepsTopBytes(t, checked)
  {
    var z := LeadingZeros(t);
    DecodeEncoded(t, checked);
    assert t[..z] == Repeat(0, z);
    assert Truncated(t) == Repeat(0, z) + t[z..z + 3] + Repeat(0, 29 - z);
  }

  lemma SmallTarget(t: Target, checked: bool)
    requires LeadingZeros(t) == 29
    ensures !KeepsTopBytes(t, checked)
  {
    DecodeEncoded(t, checked);
    assert Decoded(Encoded(t).value, checked).value[28] == t[29];
    assert Truncated(t)[28] == t[28] == 0;
  }

  // Truncation loses less than one part in 2^16.
  lemma {:induction false} TruncationError(t: Target)
    requires Num(t) >= 0x100_0000
    ensures LeadingZeros(t) <= 28
    ensures 0 <= Num(t) - Num(Truncated(t))
    ensures (Num(t) - Num(Truncated(t))) * 0x1_0000 < Num(t)
  {
    assert Pow(256, 1) == 256 && Pow(256, 2) == 0x1_0000 && Pow(256, 3) == 0x100_0000;
    LeadingZerosOfNum(t, 3);
    var z := LeadingZeros(t);
    TruncationLoss(t);
    LeadingZerosOfNum(t, 31 - z);
    PowAdd(256, 2, 29 - z);
  }

  lemma {:induction false} TruncationLoss(t: Target)
    requires LeadingZeros(t) <= 28
    ensures 0 <= Num(t) - Num(Truncated(t)) < Pow(256, 29 - LeadingZeros(t))
  {
    var z := LeadingZeros(t);
    assert t == t[..z + 3] + t[z + 3..];
    ZeroedLoss(t[..z + 3], t[z + 3..], 29 - z);
  }

  // Zeroing the low n digits loses less than 256^n.
  lemma {:induction false} ZeroedLoss(high: seq<byte>, low: seq<byte>, n: nat)
    requires |low| == n
    ensures 0 <= Val(high + low, 256) - Val(high + Repeat(0, n), 256) < Pow(256, n)
  {
    ValConcat(high, low, 256);
    ValConcat(high, Repeat(0, n), 256);
    ValZeros(n, 256);
    ValBound(low, 256);
  }

  predicate Canonical(c: u32) {
    4 <= c / 0x100_0000 <= 32 && c % 0x100_0000 >= 0x1_0000
  }

  // Decoding then encoding gives the code back exactly on zero and the canonical codes.
  lemma CodeRoundTripExactly(c: u32, checked: bool)
    ensures Decoded(c, checked).Value? && Encoded(Decoded(c, checked).value) == Value(c) <==> c == 0 || Canonical(c)
  {
    if c / 0x100_0000 <= 3 {
      SmallExponent(c, checked);
    } else if c / 0x100_0000 <= 32 {
      LargeExponent(c, checked);
    } else {
      LeadingZerosUnique(ZERO_HASH, 32);
    }
  }

  lemma MantissaOfParts(m: nat)
    requires m < 0x100_0000
    ensures Mantissa(m / 0x1_0000, m / 0x100 % 0x100, m % 0x100) == m
  {
    DivModOf(m, 0x100);
    DivModOf(m / 0x100, 0x100);
    DivUnique(m, 0x1_0000, m / 0x100 / 0x100, m / 0x100 % 0x100 * 0x100 + m % 0x100);
  }

  lemma {:induction false} LargeExponent(c: u32, checked: bool)
    requires 3 < c / 0x100_0000 <= 32
    ensures Encoded(Decoded(c, checked).value) == Value(c) <==> Canonical(c)
  {
    var exponent, mantissa := c / 0x100_0000, c % 0x100_0000;
    var pos := 32 - exponent;
    var t := Placed(mantissa, pos, 3);
    var z := LeadingZeros(t);
    assert t[pos] == mantissa / 0x1_0000 && t[pos + 1] == mantissa / 0x100 % 0x100 && t[pos + 2] == mantissa % 0x100;
    if mantissa >= 0x1_0000 {
      LeadingZerosUnique(t, pos);
      MantissaOfParts(mantissa);
    } else {
      assert forall i :: 0 <= i <= pos ==> t[i] == 0;
      assert z > pos;
      assert z <= 29 ==> Encoded(t).value / 0x100_0000 == 32 - z;
    }
  }

  lemma {:induction false} SmallExponent(c: u32, checked: bool)
    requires c / 0x100_0000 <= 3
    ensures Encoded(Decoded(c, checked).value) == Value(c) <==> c == 0
  {
    var exponent, mantissa := c / 0x100_0000, c % 0x100_0000;
    var at := if exponent == 0 then 31 else 31 - exponent;
    var t := Placed(mantissa, at, if exponent == 0 then 1 else exponent);
    var z := LeadingZeros(t);
    assert forall i :: 0 <= i < at ==> t[i] == 0;
    assert z >= at;
    if c == 0 {
      assert t == Repeat(0, 32);
      LeadingZerosUnique(t, 32);
    } else if z == 29 && exponent == 3 {
      assert t[28] == mantissa / 0x1_0000 == 0 != t[29];
      assert Encoded(t).value % 0x100_0000 / 0x1_0000 == t[29];
    } else if z <= 29 {
      assert Encoded(t).value / 0x100_0000 == 32 - z != exponent;
    }
  }
}
