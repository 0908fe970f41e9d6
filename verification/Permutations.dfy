// Sums, maps and listings that do not depend on the order of a list.

module Permutations {
  import opened Bytes

  ghost predicate Permuted<T>(r: seq<T>, s: seq<T>) { multiset(r) == multiset(s) }

  lemma {:induction false} SameSize<T>(r: seq<T>, s: seq<T>)
    requires Permuted(r, s)
    ensures |r| == |s|
  {
    assert |r| == |multiset(r)| == |multiset(s)| == |s|;
  }

  // Where the other list holds an element.
  lemma {:induction false} Counterpart<T>(r: seq<T>, s: seq<T>, i: nat) returns (j: nat)
    requires Permuted(r, s) && i < |r|
    ensures j < |s| && s[j] == r[i]
  {
    assert r[i] in multiset(s);
    j :| 0 <= j < |s| && s[j] == r[i];
  }

  function Without<T>(s: seq<T>, j: nat): (t: seq<T>)
    requires j < |s|
    ensures |t| == |s| - 1
  {
    s[..j] + s[j + 1..]
  }

  lemma {:induction false} WithoutLast<T>(r: seq<T>, s: seq<T>, j: nat)
    requires Permuted(r, s) && r != [] && j < |s| && s[j] == r[|r| - 1]
    ensures Permuted(r[..|r| - 1], Without(s, j))
  {
    var rest, t := Without(s, j), r[..|r| - 1];
    assert s == s[..j] + [s[j]] + s[j + 1..];
    assert multiset(s) == multiset(rest) + multiset{s[j]};
    assert r == t + [r[|r| - 1]];
    assert multiset(r) == multiset(t) + multiset{r[|r| - 1]};
    assert multiset(t) == multiset(r) - multiset{s[j]} == multiset(rest);
  }

  // ---- Sums ----

  function SumBy<T>(f: T -> nat, s: seq<T>): nat {
    if s == [] then 0 else SumBy(f, s[..|s| - 1]) + f(s[|s| - 1])
  }

  lemma {:induction false} SumWithout<T>(f: T -> nat, s: seq<T>, j: nat)
    requires j < |s|
    ensures SumBy(f, s) == SumBy(f, Without(s, j)) + f(s[j])
    decreases |s|
  {
    var n := |s| - 1;
    if j == n {
      assert Without(s, j) == s[..n];
    } else {
      SumWithout(f, s[..n], j);
      assert Without(s, j)[..n - 1] == Without(s[..n], j);
    }
  }

  lemma {:induction false} SumPermuted<T>(f: T -> nat, r: seq<T>, s: seq<T>)
    requires Permuted(r, s)
    ensures SumBy(f, r) == SumBy(f, s)
    decreases |r|
  {
    SameSize(r, s);
    if r != [] {
      var j := Counterpart(r, s, |r| - 1);
      WithoutLast(r, s, j);
      SumWithout(f, s, j);
      SumPermuted(f, r[..|r| - 1], Without(s, j));
    }
  }

  // ---- Maps ----

  function Mapped<T, U>(f: T -> U, s: seq<T>): (r: seq<U>)
    ensures |r| == |s| && forall i :: 0 <= i < |s| ==> r[i] == f(s[i])
  {
    seq(|s|, i requires 0 <= i < |s| => f(s[i]))
  }

  lemma {:induction false} MapSnoc<T, U>(f: T -> U, s: seq<T>)
    ensures s != [] ==> multiset(Mapped(f, s)) == multiset(Mapped(f, s[..|s| - 1])) + multiset{f(s[|s| - 1])}
  {
    if s != [] {
      assert Mapped(f, s) == Mapped(f, s[..|s| - 1]) + [f(s[|s| - 1])];
    }
  }

  lemma {:induction false} MapWithout<T, U>(f: T -> U, s: seq<T>, j: nat)
    requires j < |s|
    ensures multiset(Mapped(f, s)) == multiset(Mapped(f, Without(s, j))) + multiset{f(s[j])}
  {
    var left, right := Mapped(f, s[..j]), Mapped(f, s[j + 1..]);
    assert Mapped(f, s) == left + [f(s[j])] + right;
    assert Mapped(f, Without(s, j)) == left + right;
  }

  lemma {:induction false} MapPermuted<T, U>(f: T -> U, r: seq<T>, s: seq<T>)
    requires Permuted(r, s)
    ensures Permuted(Mapped(f, r), Mapped(f, s))
    decreases |r|
  {
    SameSize(r, s);
    if r != [] {
      var j := Counterpart(r, s, |r| - 1);
      WithoutLast(r, s, j);
      MapWithout(f, s, j);
      MapSnoc(f, r);
      MapPermuted(f, r[..|r| - 1], Without(s, j));
    }
  }

  // ---- Listings of a set ----

  lemma {:induction false} HeldOnce<T>(s: seq<T>, x: T)
    requires Distinct(s)
    ensures multiset(s)[x] == if x in s then 1 else 0
    decreases |s|
  {
    if s != [] {
      var n := |s| - 1;
      assert s == s[..n] + [s[n]];
      HeldOnce(s[..n], x);
    }
  }

  // Two lists of the same distinct elements differ only in their order.
  lemma {:induction false} SameListing<T>(r: seq<T>, s: seq<T>)
    requires Distinct(r) && Distinct(s) && forall x :: x in r <==> x in s
    ensures Permuted(r, s)
  {
    forall x
      ensures multiset(r)[x] == multiset(s)[x]
    {
      HeldOnce(r, x);
      HeldOnce(s, x);
    }
  }
}
