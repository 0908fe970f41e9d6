// Proof of contribution index: integer square root and fixed-point weights.

module Poci {
  import opened Bytes
  import opened Records
  import opened Wrappers

  const POCI_SCALE: nat := 1_000_000_000
  const POCI_WEIGHT_SHARES: nat := 600_000_000
  const POCI_WEIGHT_LOYALTY: nat := 200_000_000
  const POCI_WEIGHT_BOND: nat := 200_000_000
  const MAX_SHARES_PER_MINER_PER_EPOCH: nat := 5000
  const MAX_LOYALTY_VALUE: nat := 730
  const MAX_BOND_LYT: nat := 10_000_000_000

  // ---- Integer square root ----

  ghost predicate IsSqrt(r: nat, n: nat) {
    r * r <= n < (r + 1) * (r + 1)
  }

  lemma SqrtExists(n: nat)
    ensures exists r: nat :: IsSqrt(r, n)
  {
    if n == 0 {
      assert IsSqrt(0, 0);
    } else {
      SqrtExists(n - 1);
      var r: nat :| IsSqrt(r, n - 1);
      if n < (r + 1) * (r + 1) {
        assert IsSqrt(r, n);
      } else {
        assert IsSqrt(r + 1, n);
      }
    }
  }

  ghost function Sqrt(n: nat): (r: nat)
    ensures IsSqrt(r, n)
  {
    SqrtExists(n);
    var r: nat :| IsSqrt(r, n);
    r
  }

  lemma SquareMono(a: nat, b: nat)
    requires a <= b
    ensures a * a <= b * b
  {
    MulMono(a, b, a);
    MulMono(a, b, b);
  }

  lemma SqrtUnique(r: nat, n: nat)
    requires IsSqrt(r, n)
    ensures r == Sqrt(n)
  {
    if r < Sqrt(n) { SquareMono(r + 1, Sqrt(n)); }
    if Sqrt(n) < r { SquareMono(Sqrt(n) + 1, r); }
  }

  lemma SqrtMonotone(m: nat, n: nat)
    requires m <= n
    ensures Sqrt(m) <= Sqrt(n)
  {
    if Sqrt(n) < Sqrt(m) { SquareMono(Sqrt(n) + 1, Sqrt(m)); }
  }

  // Newton's step from above never falls below the root.
  lemma NewtonStaysAbove(x: nat, n: nat)
    requires x > 0
    ensures var y := (x + n / x) / 2; (y + 1) * (y + 1) > n
  {
    var q := n / x;
    var y := (x + q) / 2;
    DivModOf(n, x);
    MulDistrib(q, 1, x);
    assert n < (q + 1) * x;
    SquareMono(x + q + 1, 2 * y + 2);
    var d := x - (q + 1);
    assert d * d >= 0;
    assert (x + (q + 1)) * (x + (q + 1)) == 4 * ((q + 1) * x) + d * d;
    assert (2 * y + 2) * (2 * y + 2) == 4 * ((y + 1) * (y + 1));
  }

  // At the largest word the source's x + 1 wraps to zero and the next step divides by zero,
  // so that one argument is excluded; every sum below fits the word.
  method Isqrt(n: u64) returns (r: u64)
    requires n < U64_LIMIT - 1
    ensures r == Sqrt(n)
  {
    if n == 0 {
      SqrtUnique(0, 0);
      return 0;
    }
    var x: u64 := n;
    var y: u64 := (x + 1) / 2;
    DivUnique(n, n, 1, 0);
    MulMono(1, n + 1, n + 1);
    while y < x
      invariant 1 <= x <= n && y == (x + n / x) / 2
      invariant (x + 1) * (x + 1) > n
      decreases x
    {
      NewtonStaysAbove(x, n);
      x := y;
      y := NextGuess(x, n);
    }
    RootReached(x, n);
    return x;
  }

  method NextGuess(x: u64, n: u64) returns (y: u64)
    requires 1 <= x <= n < U64_LIMIT - 1
    ensures y == (x + n / x) / 2
  {
    SumFits(x, n);
    y := (x + n / x) / 2;
  }

  // When the next guess is no smaller, the root is reached.
  lemma RootReached(x: nat, n: nat)
    requires x > 0 && (x + n / x) / 2 >= x && (x + 1) * (x + 1) > n
    ensures x == Sqrt(n)
  {
    DivModOf(n, x);
    MulMono(x, n / x, x);
    SqrtUnique(x, n);
  }

  lemma SumFits(x: nat, n: nat)
    requires 1 <= x <= n
    ensures x + n / x <= n + 1
  {
    var q := n / x;
    DivModOf(n, x);
    MulMono(0, q - 1, x - 1) by {
      if q == 0 { DivUnique(n, x, 0, n); }
    }
  }

  // ---- The index ----

  datatype PociResult = PociResult(id: MinerId, poci: nat, shares: nat, loyalty: nat, bond: nat, reward: u64)

  function Norm(value: nat, max: nat): (n: nat)
    requires max > 0
    ensures n <= POCI_SCALE
  {
    Min(value * POCI_SCALE / max, POCI_SCALE)
  }

  function Weighted(shareNorm: nat, loyaltyNorm: nat, bondNorm: nat): nat {
    (POCI_WEIGHT_SHARES * shareNorm + POCI_WEIGHT_LOYALTY * loyaltyNorm + POCI_WEIGHT_BOND * bondNorm) / POCI_SCALE
  }

  ghost function PociOf(shares: nat, loyalty: nat, bond: nat): nat {
    Weighted(
      if shares > 0 then Norm(Sqrt(shares), 70) else 0,
      Norm(loyalty, MAX_LOYALTY_VALUE),
      if bond >= MINIMUM_BOND_LYT then Norm(Sqrt(bond), 100_000) else 0)
  }

  function BondAmount(bonds: map<MinerId, Bond>, id: MinerId): nat {
    if id in bonds then bonds[id].amount else 0
  }

  function LoyaltyValue(loyalty: map<MinerId, nat>, id: MinerId): nat {
    if id in loyalty then loyalty[id] else 0
  }

  // The result for one miner looks at that miner alone.
  ghost function ResultOf(id: MinerId, miner: Miner, bonds: map<MinerId, Bond>, loyalty: map<MinerId, nat>): PociResult {
    var l, b := LoyaltyValue(loyalty, id), BondAmount(bonds, id);
    PociResult(id, PociOf(miner.shares, l, b), miner.shares, l, b, 0)
  }

  // `order` is the order in which the map of miners happens to iterate.
  ghost predicate Enumerates<T(!new)>(order: seq<T>, keys: set<T>) {
    && (forall i, j :: 0 <= i < j < |order| ==> order[i] != order[j])
    && (forall k :: k in order <==> k in keys)
  }

  function MinerOf(miners: map<MinerId, Miner>, id: MinerId): Miner {
    if id in miners then miners[id] else Miner(0, None)
  }

  ghost function Results(miners: map<MinerId, Miner>, bonds: map<MinerId, Bond>, loyalty: map<MinerId, nat>,
                         order: seq<MinerId>): (r: seq<PociResult>)
    ensures |r| == |order|
    ensures forall i :: 0 <= i < |order| ==> r[i] == ResultOf(order[i], MinerOf(miners, order[i]), bonds, loyalty)
  {
    seq(|order|, i requires 0 <= i < |order| => ResultOf(order[i], MinerOf(miners, order[i]), bonds, loyalty))
  }

  // No share count or bond of these miners is the one number the square root does not survive.
  ghost predicate RootsFit(miners: map<MinerId, Miner>, bonds: map<MinerId, Bond>) {
    forall id :: id in miners ==> miners[id].shares < U64_LIMIT - 1 && BondAmount(bonds, id) < U64_LIMIT - 1
  }

  method CalculatePoci(miners: map<MinerId, Miner>, bonds: map<MinerId, Bond>, loyalty: map<MinerId, nat>,
                       order: seq<MinerId>)
    returns (results: seq<PociResult>)
    requires forall id :: id in order ==> id in miners
    requires RootsFit(miners, bonds)
    ensures results == Results(miners, bonds, loyalty, order)
  {
    results := [];
    var maxSharesSqrt, maxBondSqrt := MaxRoots();
    for i := 0 to |order|
      invariant results == Results(miners, bonds, loyalty, order)[..i]
    {
      var id := order[i];
      var shares, bond := miners[id].shares, BondAmount(bonds, id);
      var loyaltyValue := LoyaltyValue(loyalty, id);
      var shareNorm := 0;
      if shares > 0 {
        var root := Isqrt(shares);
        shareNorm := Norm(root, maxSharesSqrt);
      }
      var bondNorm := 0;
      if bond >= MINIMUM_BOND_LYT {
        var root := Isqrt(bond);
        bondNorm := Norm(root, maxBondSqrt);
      }
      var poci := Weighted(shareNorm, Norm(loyaltyValue, MAX_LOYALTY_VALUE), bondNorm);
      results := results + [PociResult(id, poci, shares, loyaltyValue, bond, 0)];
    }
  }

  method MaxRoots() returns (shares: nat, bond: nat)
    ensures shares == 70 && bond == 100_000
  {
    shares := Isqrt(MAX_SHARES_PER_MINER_PER_EPOCH);
    SqrtUnique(70, MAX_SHARES_PER_MINER_PER_EPOCH);
    bond := Isqrt(MAX_BOND_LYT);
    SqrtUnique(100_000, MAX_BOND_LYT);
  }

  // ---- Laws of the index ----

  // An index is at most one unit, so the 64-bit result never truncates.
  lemma PociBounded(shares: nat, loyalty: nat, bond: nat)
    ensures PociOf(shares, loyalty, bond) <= POCI_SCALE
  {}

  lemma NormMonotone(v: nat, w: nat, max: nat)
    requires v <= w && max > 0
    ensures Norm(v, max) <= Norm(w, max)
  {
    var a, b := v * POCI_SCALE, w * POCI_SCALE;
    DivModOf(a, max);
    DivModOf(b, max);
    if b / max < a / max {
      MulMono(b / max + 1, a / max, max);
      MulDistrib(b / max, 1, max);
    }
  }

  // More shares, loyalty or bond never lower the index.
  lemma PociMonotone(shares: nat, loyalty: nat, bond: nat, shares': nat, loyalty': nat, bond': nat)
    requires shares <= shares' && loyalty <= loyalty' && bond <= bond'
    ensures PociOf(shares, loyalty, bond) <= PociOf(shares', loyalty', bond')
  {
    SqrtMonotone(shares, shares');
    SqrtMonotone(bond, bond');
    NormMonotone(Sqrt(shares), Sqrt(shares'), 70);
    NormMonotone(loyalty, loyalty', MAX_LOYALTY_VALUE);
    NormMonotone(Sqrt(bond), Sqrt(bond'), 100_000);
  }

  // Each component alone: it gives its whole weight exactly from its cap on, and nothing exactly
  // without shares, without loyalty, or below the minimum bond.
  lemma ComponentsAlone(v: nat)
    ensures PociOf(v, 0, 0) <= 600_000_000 && (PociOf(v, 0, 0) == 600_000_000 <==> v >= 4900) && (PociOf(v, 0, 0) == 0 <==> v == 0)
    ensures PociOf(0, v, 0) <= 200_000_000 && (PociOf(0, v, 0) == 200_000_000 <==> v >= 730) && (PociOf(0, v, 0) == 0 <==> v == 0)
    ensures PociOf(0, 0, v) <= 200_000_000 && (PociOf(0, 0, v) == 200_000_000 <==> v >= 10_000_000_000)
    ensures PociOf(0, 0, v) == 0 <==> v < 10_000_000
  {
    RootReaches(70, v);
    RootReaches(1, v);
    RootReaches(100_000, v);
    RootReaches(3162, v);
  }

  lemma RootReaches(r: nat, n: nat)
    ensures Sqrt(n) >= r <==> n >= r * r
  {
    if Sqrt(n) >= r {
      SquareMono(r, Sqrt(n));
    } else {
      SquareMono(Sqrt(n) + 1, r);
    }
  }

  // Shares and bonds count by their square roots, loyalty in proportion: a quarter of the first
  // two and half of the last give half the weight.
  lemma HalfWeights()
    ensures PociOf(1225, 0, 0) == 300_000_000 && PociOf(0, 365, 0) == 100_000_000 && PociOf(0, 0, 2_500_000_000) == 100_000_000
  {
    SqrtUnique(35, 1225);
    SqrtUnique(50_000, 2_500_000_000);
  }

  // Together they add up, but for rounding.
  lemma ComponentsAdd(shares: nat, loyalty: nat, bond: nat)
    ensures var sum := PociOf(shares, 0, 0) + PociOf(0, loyalty, 0) + PociOf(0, 0, bond);
      sum <= PociOf(shares, loyalty, bond) <= sum + 2
  {}

  // A miner's result survives adding and removing any other miners, and any iteration order.
  lemma OthersDoNotMatter(id: MinerId, miners: map<MinerId, Miner>, miners': map<MinerId, Miner>,
                          bonds: map<MinerId, Bond>, bonds': map<MinerId, Bond>,
                          loyalty: map<MinerId, nat>, loyalty': map<MinerId, nat>,
                          order: seq<MinerId>, order': seq<MinerId>)
    requires Enumerates(order, miners.Keys) && Enumerates(order', miners'.Keys)
    requires id in miners && id in miners' && miners[id] == miners'[id]
    requires BondAmount(bonds, id) == BondAmount(bonds', id)
    requires LoyaltyValue(loyalty, id) == LoyaltyValue(loyalty', id)
    ensures exists i, j ::
      (0 <= i < |order| && 0 <= j < |order'| && order[i] == order'[j] == id
       && Results(miners, bonds, loyalty, order)[i] == Results(miners', bonds', loyalty', order')[j])
  {
    var i :| 0 <= i < |order| && order[i] == id;
    var j :| 0 <= j < |order'| && order'[j] == id;
    assert Results(miners, bonds, loyalty, order)[i] == Results(miners', bonds', loyalty', order')[j];
  }
}
