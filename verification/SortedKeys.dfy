// Lists of byte strings in lexicographic order.

module SortedKeys {
  import opened Bytes

  ghost predicate Ascending(ks: seq<seq<byte>>) {
    forall i, j :: 0 <= i < j < |ks| ==> !LexLess(ks[j], ks[i])
  }

  ghost predicate StrictlyAscending(ks: seq<seq<byte>>) {
    forall i, j :: 0 <= i < j < |ks| ==> LexLess(ks[i], ks[j])
  }

  // A sorted list is determined by what it holds and how often.
  lemma {:induction false} AscendingUnique(ks: seq<seq<byte>>, ls: seq<seq<byte>>)
    requires Ascending(ks) && Ascending(ls) && multiset(ks) == multiset(ls)
    ensures ks == ls
    decreases |ks|
  {
    assert |ks| == |multiset(ks)| == |multiset(ls)| == |ls|;
    if ks != [] {
      var n := |ks| - 1;
      SameLast(ks, ls);
      AscendingUnique(ks[..n], ls[..n]);
      assert ks == ks[..n] + [ks[n]] && ls == ls[..n] + [ls[n]];
    }
  }

  lemma {:induction false} SameLast(ks: seq<seq<byte>>, ls: seq<seq<byte>>)
    requires Ascending(ks) && Ascending(ls) && multiset(ks) == multiset(ls) && ks != [] && |ks| == |ls|
    ensures ks[|ks| - 1] == ls[|ls| - 1]
    ensures multiset(ks[..|ks| - 1]) == multiset(ls[..|ls| - 1])
  {
    var n := |ks| - 1;
    LastIsGreatest(ks, ls);
    LastIsGreatest(ls, ks);
    LexTotal(ks[n], ls[n]);
    WithoutLast(ks);
    WithoutLast(ls);
  }

  lemma WithoutLast(ks: seq<seq<byte>>)
    requires ks != []
    ensures multiset(ks[..|ks| - 1]) == multiset(ks) - multiset{ks[|ks| - 1]}
  {
    assert ks == ks[..|ks| - 1] + [ks[|ks| - 1]];
  }

  lemma {:induction false} LastIsGreatest(ks: seq<seq<byte>>, ls: seq<seq<byte>>)
    requires Ascending(ks) && ks != [] && |ks| == |ls| && multiset(ks) == multiset(ls)
    ensures !LexLess(ks[|ks| - 1], ls[|ls| - 1])
  {
    assert ls[|ls| - 1] in multiset(ks);
    var i :| 0 <= i < |ks| && ks[i] == ls[|ls| - 1];
    LexIrreflexive(ks[i]);
  }

  lemma {:induction false} StrictIsWeak(ks: seq<seq<byte>>)
    requires StrictlyAscending(ks)
    ensures Ascending(ks)
  {
    forall i, j | 0 <= i < j < |ks|
      ensures !LexLess(ks[j], ks[i])
    {
      LexAsymmetric(ks[i], ks[j]);
    }
  }

  lemma LexAsymmetric(a: seq<byte>, b: seq<byte>)
    requires LexLess(a, b)
    ensures !LexLess(b, a)
  {
    if LexLess(b, a) {
      LexTransitive(a, b, a);
      LexIrreflexive(a);
    }
  }

  lemma {:induction false} StrictHoldsOnce(ks: seq<seq<byte>>, k: seq<byte>)
    requires StrictlyAscending(ks)
    ensures multiset(ks)[k] == if k in ks then 1 else 0
    decreases |ks|
  {
    if ks != [] {
      var n := |ks| - 1;
      assert ks == ks[..n] + [ks[n]];
      StrictHoldsOnce(ks[..n], k);
      if k == ks[n] && k in ks[..n] {
        var i :| 0 <= i < n && ks[i] == k;
        LexIrreflexive(k);
      }
    }
  }

  // A strictly sorted list is determined by the set of what it holds.
  lemma {:induction false} StrictUnique(ks: seq<seq<byte>>, ls: seq<seq<byte>>)
    requires StrictlyAscending(ks) && StrictlyAscending(ls)
    requires forall k :: k in ks <==> k in ls
    ensures ks == ls
  {
    StrictIsWeak(ks);
    StrictIsWeak(ls);
    forall k
      ensures multiset(ks)[k] == multiset(ls)[k]
    {
      StrictHoldsOnce(ks, k);
      StrictHoldsOnce(ls, k);
    }
    assert multiset(ks) == multiset(ls);
    AscendingUnique(ks, ls);
  }

  // Comparing two pairs of equal-length parts is comparing their concatenations.
  lemma {:induction false} LexOfPairs(a: seq<byte>, b: seq<byte>, a': seq<byte>, b': seq<byte>)
    requires |a| == |a'|
    ensures LexLess(a + b, a' + b') <==> LexLess(a, a') || (a == a' && LexLess(b, b'))
    decreases |a|
  {
    if a == [] {
      assert a + b == b && a' + b' == b';
    } else {
      assert (a + b)[1..] == a[1..] + b && (a' + b')[1..] == a'[1..] + b';
      LexOfPairs(a[1..], b, a'[1..], b');
      assert a == [a[0]] + a[1..] && a' == [a'[0]] + a'[1..];
    }
  }
}
