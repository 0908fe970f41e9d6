// Bytes, fixed-width words and positional number representations.

module Bytes {

  const U32_LIMIT: nat := 0x1_0000_0000
  const U64_LIMIT: nat := 0x1_0000_0000_0000_0000

  type byte = b: int | 0 <= b < 256
  type u32 = n: int | 0 <= n < 0x1_0000_0000
  type u64 = n: int | 0 <= n < 0x1_0000_0000_0000_0000

  function Repeat(d: byte, n: nat): (s: seq<byte>)
    ensures |s| == n
    ensures forall i :: 0 <= i < n ==> s[i] == d
  {
    if n == 0 then [] else Repeat(d, n - 1) + [d]
  }

  type Hash32 = s: seq<byte> | |s| == 32 witness Repeat(0, 32)
  type MinerId = s: seq<byte> | |s| == 20 witness Repeat(0, 20)

  // A fixed-length string seen as a plain one.
  function Raw(s: seq<byte>): seq<byte> { s }

  const ZERO_HASH: Hash32 := Repeat(0, 32)
  const FULL_HASH: Hash32 := Repeat(255, 32)

  function Min(a: int, b: int): int { if a <= b then a else b }

  function Max(a: int, b: int): int { if a <= b then b else a }

  ghost predicate Distinct<T>(s: seq<T>) {
    forall i, j :: 0 <= i < j < |s| ==> s[i] != s[j]
  }

  // ---- Big-endian positional numbers in base b ----

  function Pow(b: nat, n: nat): nat {
    if n == 0 then 1 else b * Pow(b, n - 1)
  }

  // The number written by the digits s, most significant digit first.
  function Val(s: seq<int>, b: nat): int {
    if s == [] then 0 else Val(s[..|s| - 1], b) * b + s[|s| - 1]
  }

  ghost predicate Digits(s: seq<int>, b: nat) {
    forall i :: 0 <= i < |s| ==> 0 <= s[i] < b
  }

  lemma PowPositive(b: nat, n: nat)
    requires b > 0
    ensures Pow(b, n) > 0
  {}

  lemma PowAdd(b: nat, m: nat, n: nat)
    ensures Pow(b, m + n) == Pow(b, m) * Pow(b, n)
  {
    if m > 0 {
      PowAdd(b, m - 1, n);
      calc {
        Pow(b, m + n);
        b * (Pow(b, m - 1) * Pow(b, n));
        { MulAssoc(b, Pow(b, m - 1), Pow(b, n)); }
        Pow(b, m) * Pow(b, n);
      }
    }
  }

  lemma MulMono(a: int, b: int, c: nat)
    requires a <= b
    ensures a * c <= b * c
  {}

  lemma MulDistrib(a: int, b: int, c: int)
    ensures (a + b) * c == a * c + b * c
  {}

  lemma MulAssoc(a: int, b: int, c: int)
    ensures a * (b * c) == (a * b) * c
  {}

  lemma {:induction false} ValConcat(s: seq<int>, t: seq<int>, b: nat)
    ensures Val(s + t, b) == Val(s, b) * Pow(b, |t|) + Val(t, b)
    decreases |t|
  {
    if t == [] {
      assert s + t == s;
    } else {
      var t' := t[..|t| - 1];
      assert (s + t)[..|s + t| - 1] == s + t';
      ValConcat(s, t', b);
      MulAssoc(Val(s, b), Pow(b, |t'|), b);
    }
  }

  lemma ValCons(d: int, t: seq<int>, b: nat)
    ensures Val([d] + t, b) == d * Pow(b, |t|) + Val(t, b)
  {
    ValConcat([d], t, b);
    assert [d][..0] == [];
  }

  lemma ValSnoc(s: seq<int>, d: int, b: nat)
    ensures Val(s + [d], b) == Val(s, b) * b + d
  {
    assert (s + [d])[..|s|] == s;
  }

  lemma ValBound(s: seq<int>, b: nat)
    requires Digits(s, b)
    ensures 0 <= Val(s, b) < Pow(b, |s|)
  {
    if s != [] {
      var s' := s[..|s| - 1];
      ValBound(s', b);
      MulMono(Val(s', b), Pow(b, |s'|) - 1, b);
      MulMono(0, Val(s', b), b);
      MulDistrib(Pow(b, |s'|), -1, b);
    }
  }

  lemma {:induction false} ValInjective(s: seq<int>, t: seq<int>, b: nat)
    requires |s| == |t| && Digits(s, b) && Digits(t, b)
    requires Val(s, b) == Val(t, b)
    ensures s == t
  {
    if s != [] {
      var s', t' := s[..|s| - 1], t[..|t| - 1];
      DivModUnique(Val(s', b), s[|s| - 1], Val(t', b), t[|t| - 1], b);
      ValInjective(s', t', b);
      assert s == s' + [s[|s| - 1]] && t == t' + [t[|t| - 1]];
    }
  }

  lemma DivModUnique(q: int, r: int, q': int, r': int, b: nat)
    requires 0 <= r < b && 0 <= r' < b && q * b + r == q' * b + r'
    ensures q == q' && r == r'
  {
    MulDistrib(q', -q, b);
    if q < q' {
      MulMono(1, q' - q, b);
    } else if q > q' {
      MulMono(q' - q, -1, b);
    }
  }

  // The quotient is determined by its defining inequality.
  lemma DivUnique(n: int, d: int, q: int, r: int)
    requires d > 0 && n == q * d + r && 0 <= r < d
    ensures q == n / d && r == n % d
  {
    DivModUnique(q, r, n / d, n % d, d);
  }

  lemma DivModOf(n: int, d: int)
    requires d > 0
    ensures n == n / d * d + n % d && 0 <= n % d < d
  {}

  lemma ValZeros(n: nat, b: nat)
    ensures Val(Repeat(0, n), b) == 0
  {}

  // The n lowest base-256 digits of v, most significant first.
  function BigEndian(v: nat, n: nat): (s: seq<byte>)
    ensures |s| == n
  {
    if n == 0 then [] else BigEndian(v / 256, n - 1) + [v % 256]
  }

  lemma BigEndianVal(v: nat, n: nat)
    ensures Pow(256, n) > 0 && Val(BigEndian(v, n), 256) == v % Pow(256, n)
  {
    PowPositive(256, n);
    if n > 0 {
      BigEndianVal(v / 256, n - 1);
      ValSnoc(BigEndian(v / 256, n - 1), v % 256, 256);
      var p := Pow(256, n - 1);
      PowPositive(256, n - 1);
      var q, r := v / 256 / p, v / 256 % p;
      DivModOf(v / 256, p);
      MulAssoc(q, p, 256);
      assert v == (q * p) * 256 + r * 256 + v % 256;
      assert 256 * p == p * 256;
      DivUnique(v, 256 * p, q, r * 256 + v % 256);
    }
  }

  // ---- Little-endian integer encodings used inside hash preimages ----

  function LittleEndian(v: nat, n: nat): (s: seq<byte>)
    ensures |s| == n
  {
    if n == 0 then [] else [v % 256] + LittleEndian(v / 256, n - 1)
  }

  lemma {:induction false} LittleEndianInjective(v: nat, w: nat, n: nat)
    requires v < Pow(256, n) && w < Pow(256, n)
    requires LittleEndian(v, n) == LittleEndian(w, n)
    ensures v == w
  {
    if n > 0 {
      assert LittleEndian(v, n)[0] == LittleEndian(w, n)[0];
      assert LittleEndian(v, n)[1..] == LittleEndian(v / 256, n - 1);
      assert LittleEndian(w, n)[1..] == LittleEndian(w / 256, n - 1);
      LittleEndianInjective(v / 256, w / 256, n - 1);
    }
  }

  lemma PowValues()
    ensures Pow(256, 4) == U32_LIMIT
    ensures Pow(256, 8) == U64_LIMIT
  {
    assert Pow(256, 1) == 256;
    assert Pow(256, 2) == 0x1_0000;
    assert Pow(256, 3) == 0x100_0000;
    assert Pow(256, 4) == U32_LIMIT;
    assert Pow(256, 5) == 0x100_0000_0000;
    assert Pow(256, 6) == 0x1_0000_0000_0000;
    assert Pow(256, 7) == 0x100_0000_0000_0000;
  }

  // Two equal concatenations whose first parts have equal length split at the same place.
  lemma SplitConcat<T>(a: seq<T>, r: seq<T>, b: seq<T>, s: seq<T>)
    requires |a| == |b| && a + r == b + s
    ensures a == b && r == s
  {
    assert a == (a + r)[..|a|] && b == (b + s)[..|b|];
    assert r == (a + r)[|a|..] && s == (b + s)[|b|..];
  }

  // ---- Lexicographic order on byte strings ----

  predicate LexLess(a: seq<byte>, b: seq<byte>) {
    if b == [] then false
    else if a == [] then true
    else a[0] < b[0] || (a[0] == b[0] && LexLess(a[1..], b[1..]))
  }

  lemma LexIrreflexive(a: seq<byte>)
    ensures !LexLess(a, a)
  {}

  lemma LexTransitive(a: seq<byte>, b: seq<byte>, c: seq<byte>)
    requires LexLess(a, b) && LexLess(b, c)
    ensures LexLess(a, c)
  {}

  lemma LexTotal(a: seq<byte>, b: seq<byte>)
    ensures LexLess(a, b) || LexLess(b, a) || a == b
  {
    if a != [] && b != [] && a[0] == b[0] {
      LexTotal(a[1..], b[1..]);
      if a[1..] == b[1..] {
        assert a == [a[0]] + a[1..] && b == [b[0]] + b[1..];
      }
    }
  }
}
