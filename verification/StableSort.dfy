// The stable insertion sort behind every ordering the node makes.

module StableSort {

  // x goes behind everything it does not come before.
  function Placed<T>(before: (T, T) -> bool, s: seq<T>, x: T): (r: seq<T>)
    ensures |r| == |s| + 1
  {
    if s == [] || !before(x, s[|s| - 1]) then s + [x] else Placed(before, s[..|s| - 1], x) + [s[|s| - 1]]
  }

  function Sorted<T>(before: (T, T) -> bool, s: seq<T>): (r: seq<T>)
    ensures |r| == |s|
  {
    if s == [] then [] else Placed(before, Sorted(before, s[..|s| - 1]), s[|s| - 1])
  }

  method Sort<T>(before: (T, T) -> bool, s: seq<T>) returns (r: seq<T>)
    ensures r == Sorted(before, s)
  {
    r := [];
    for i := 0 to |s|
      invariant r == Sorted(before, s[..i])
    {
      assert s[..i + 1][..i] == s[..i];
      r := Place(before, r, s[i]);
    }
    assert s[..|s|] == s;
  }

  method Place<T>(before: (T, T) -> bool, s: seq<T>, x: T) returns (r: seq<T>)
    ensures r == Placed(before, s, x)
  {
    var at := |s|;
    assert s[..at] == s && s[at..] == [];
    while at > 0 && before(x, s[at - 1])
      invariant 0 <= at <= |s|
      invariant Placed(before, s, x) == Placed(before, s[..at], x) + s[at..]
    {
      assert s[..at][..at - 1] == s[..at - 1];
      assert [s[at - 1]] + s[at..] == s[at - 1..];
      assert Placed(before, s[..at], x) + s[at..] == Placed(before, s[..at - 1], x) + ([s[at - 1]] + s[at..]);
      at := at - 1;
    }
    r := s[..at] + [x] + s[at..];
  }

  // ---- Nothing is lost ----

  lemma {:induction false} PlacedKeepsAll<T>(before: (T, T) -> bool, s: seq<T>, x: T)
    ensures multiset(Placed(before, s, x)) == multiset(s) + multiset{x}
    decreases |s|
  {
    if s != [] && before(x, s[|s| - 1]) {
      PlacedKeepsAll(before, s[..|s| - 1], x);
      assert s == s[..|s| - 1] + [s[|s| - 1]];
    }
  }

  lemma {:induction false} SortedKeepsAll<T>(before: (T, T) -> bool, s: seq<T>)
    ensures multiset(Sorted(before, s)) == multiset(s)
  {
    if s != [] {
      SortedKeepsAll(before, s[..|s| - 1]);
      PlacedKeepsAll(before, Sorted(before, s[..|s| - 1]), s[|s| - 1]);
      assert s == s[..|s| - 1] + [s[|s| - 1]];
    }
  }

  lemma {:induction false} SameElements<T>(s: seq<T>, t: seq<T>)
    requires multiset(s) == multiset(t)
    ensures forall x :: x in s <==> x in t
  {
    assert forall x :: x in s <==> x in multiset(s);
    assert forall x :: x in t <==> x in multiset(t);
  }

  // ---- The result is in order ----

  ghost predicate InOrder<T>(before: (T, T) -> bool, s: seq<T>) {
    forall i, j :: 0 <= i < j < |s| ==> !before(s[j], s[i])
  }

  // Asymmetric, and not coming before is transitive.
  ghost predicate WeakOrder<T(!new)>(before: (T, T) -> bool) {
    && (forall x, y :: before(x, y) ==> !before(y, x))
    && (forall x, y, z :: !before(x, y) && !before(y, z) ==> !before(x, z))
  }

  lemma SnocInOrder<T>(before: (T, T) -> bool, s: seq<T>, x: T)
    requires InOrder(before, s) && forall i :: 0 <= i < |s| ==> !before(x, s[i])
    ensures InOrder(before, s + [x])
  {}

  lemma {:induction false} PlacedInOrder<T(!new)>(before: (T, T) -> bool, s: seq<T>, x: T)
    requires WeakOrder(before) && InOrder(before, s)
    ensures InOrder(before, Placed(before, s, x))
    decreases |s|
  {
    if s == [] || !before(x, s[|s| - 1]) {
      forall i | 0 <= i < |s|
        ensures !before(x, s[i])
      {
        if i < |s| - 1 {
          assert !before(s[|s| - 1], s[i]);
        }
      }
      SnocInOrder(before, s, x);
    } else {
      var n := |s| - 1;
      var r := Placed(before, s[..n], x);
      PlacedInOrder(before, s[..n], x);
      PlacedKeepsAll(before, s[..n], x);
      forall i | 0 <= i < |r|
        ensures !before(s[n], r[i])
      {
        assert r[i] in multiset(r);
      }
      SnocInOrder(before, r, s[n]);
    }
  }

  lemma {:induction false} SortedInOrder<T(!new)>(before: (T, T) -> bool, s: seq<T>)
    requires WeakOrder(before)
    ensures InOrder(before, Sorted(before, s))
  {
    if s != [] {
      SortedInOrder(before, s[..|s| - 1]);
      PlacedInOrder(before, Sorted(before, s[..|s| - 1]), s[|s| - 1]);
    }
  }

  lemma {:induction false} SortedOfInOrder<T>(before: (T, T) -> bool, s: seq<T>)
    requires InOrder(before, s)
    ensures Sorted(before, s) == s
  {
    if s != [] {
      var n := |s| - 1;
      SortedOfInOrder(before, s[..n]);
      LastStays(before, s[..n], s[n]);
      assert s == s[..n] + [s[n]];
    }
  }

  lemma LastStays<T>(before: (T, T) -> bool, s: seq<T>, x: T)
    requires InOrder(before, s + [x])
    ensures Placed(before, s, x) == s + [x]
  {
    if s != [] {
      assert (s + [x])[|s|] == x && (s + [x])[|s| - 1] == s[|s| - 1];
    }
  }

  // ---- Symmetric relations between any two elements survive sorting ----

  ghost predicate Pairwise<T>(apart: (T, T) -> bool, s: seq<T>) {
    forall i, j :: 0 <= i < j < |s| ==> apart(s[i], s[j])
  }

  ghost predicate Symmetric<T(!new)>(apart: (T, T) -> bool) {
    forall x, y :: apart(x, y) ==> apart(y, x)
  }

  lemma SnocPairwise<T>(apart: (T, T) -> bool, s: seq<T>, x: T)
    requires Pairwise(apart, s) && forall i :: 0 <= i < |s| ==> apart(s[i], x)
    ensures Pairwise(apart, s + [x])
  {}

  lemma {:induction false} PlacedPairwise<T(!new)>(before: (T, T) -> bool, apart: (T, T) -> bool, s: seq<T>, x: T)
    requires Symmetric(apart) && Pairwise(apart, s) && forall i :: 0 <= i < |s| ==> apart(s[i], x)
    ensures Pairwise(apart, Placed(before, s, x))
    decreases |s|
  {
    if s == [] || !before(x, s[|s| - 1]) {
      SnocPairwise(apart, s, x);
    } else {
      var n := |s| - 1;
      var r := Placed(before, s[..n], x);
      PlacedPairwise(before, apart, s[..n], x);
      PlacedKeepsAll(before, s[..n], x);
      forall i | 0 <= i < |r|
        ensures apart(r[i], s[n])
      {
        assert r[i] in multiset(r);
        assert apart(s[n], x);
      }
      SnocPairwise(apart, r, s[n]);
    }
  }

  lemma {:induction false} SortedPairwise<T(!new)>(before: (T, T) -> bool, apart: (T, T) -> bool, s: seq<T>)
    requires Symmetric(apart) && Pairwise(apart, s)
    ensures Pairwise(apart, Sorted(before, s))
  {
    if s != [] {
      var n := |s| - 1;
      var r := Sorted(before, s[..n]);
      SortedPairwise(before, apart, s[..n]);
      SortedKeepsAll(before, s[..n]);
      forall i | 0 <= i < |r|
        ensures apart(r[i], s[n])
      {
        assert r[i] in multiset(r);
        assert r[i] in multiset(s[..n]);
      }
      PlacedPairwise(before, apart, r, s[n]);
    }
  }
}
