// Deterministic difficulty adjustment.

module Difficulty {
  import opened Bytes
  import opened Targets
  import opened Wrappers

  const TARGET_BLOCK_TIME: nat := 60
  const DIFFICULTY_ADJUSTMENT_INTERVAL: nat := 120
  const MIN_TARGET_NUMERATOR: nat := 75
  const MIN_TARGET_DENOMINATOR: nat := 100
  const MAX_TARGET_NUMERATOR: nat := 125
  const MAX_TARGET_DENOMINATOR: nat := 100

  function SaturatingMul(a: nat, b: nat): nat {
    Min(a * b, U64_LIMIT - 1)
  }

  function Clamp(x: int, lower: int, upper: int): int {
    Max(lower, Min(x, upper))
  }

  function TimeSpan(timestamps: seq<u64>, interval: nat): Option<nat> {
    if interval < 2 || |timestamps| < interval then None
    else
      var start, end := timestamps[|timestamps| - interval], timestamps[|timestamps| - 1];
      if end < start then None else Some(end - start)
  }

  function ClampedTime(actual: nat, expected: nat): (t: nat) {
    var lower := Max(SaturatingMul(expected, MIN_TARGET_NUMERATOR) / MIN_TARGET_DENOMINATOR, 1);
    var upper := Max(SaturatingMul(expected, MAX_TARGET_NUMERATOR) / MAX_TARGET_DENOMINATOR, lower);
    Clamp(actual, lower, upper)
  }

  function AdjustWithInterval(timestamps: seq<u64>, current: Target, interval: nat): Target {
    match TimeSpan(timestamps, interval)
    case None => current
    case Some(actual) =>
      var expected := TARGET_BLOCK_TIME * (interval - 1);
      if actual == 0 || expected >= U64_LIMIT then current
      else AtMostGenesis(Scaled(current, ClampedTime(actual, expected), expected))
  }

  function AtMostGenesis(t: Target): Target {
    if Num(t) > Num(GENESIS_TARGET) then GENESIS_TARGET else t
  }

  function Adjust(timestamps: seq<u64>, current: Target): Target {
    AdjustWithInterval(timestamps, current, DIFFICULTY_ADJUSTMENT_INTERVAL)
  }

  // Windows short enough for the byte multiplication; memory allows no longer ones.
  predicate SafeInterval(interval: nat) {
    interval >= 2 && 75 * (interval - 1) <= SAFE_NUMERATOR
  }

  // The multiplication inside a retarget never overflows, so the byte-array routine returns
  // exactly the scaled target used above.
  method ScaleForRetarget(current: Target, actual: u64, interval: nat) returns (scaled: Target)
    requires SafeInterval(interval) && actual > 0
    ensures var expected := TARGET_BLOCK_TIME * (interval - 1);
      scaled == Scaled(current, ClampedTime(actual, expected), expected)
  {
    var expected := TARGET_BLOCK_TIME * (interval - 1);
    ExactClamp(actual, interval - 1);
    var overflow;
    scaled, overflow := ScaledInteger(current, ClampedTime(actual, expected), expected);
  }

  lemma ExactClamp(actual: nat, k: nat)
    requires actual > 0 && k > 0 && 75 * k <= SAFE_NUMERATOR
    ensures ClampedTime(actual, TARGET_BLOCK_TIME * k) == Clamp(actual, 45 * k, 75 * k)
  {
    assert SaturatingMul(60 * k, 75) == 4500 * k && SaturatingMul(60 * k, 125) == 7500 * k;
    DivUnique(4500 * k, 100, 45 * k, 0);
    DivUnique(7500 * k, 100, 75 * k, 0);
  }

  // ---- The numeric law ----

  // Both clamp bounds are exact: three quarters and five quarters of the expected time, with
  // no rounding.
  lemma {:induction false} RetargetLaw(timestamps: seq<u64>, current: Target, interval: nat, actual: nat)
    requires SafeInterval(interval)
    requires TimeSpan(timestamps, interval) == Some(actual) && actual > 0
    ensures var k, expected := interval - 1, 60 * (interval - 1);
      && 4 * (45 * k) == 3 * expected && 4 * (75 * k) == 5 * expected
      && Num(AdjustWithInterval(timestamps, current, interval))
           == Min(Num(GENESIS_TARGET), Num(current) * Clamp(actual, 45 * k, 75 * k) / expected)
  {
    RetargetForm(timestamps, current, interval, actual);
    CapNum(current, Clamp(actual, 45 * (interval - 1), 75 * (interval - 1)), 60 * (interval - 1));
  }

  lemma {:induction false} RetargetForm(timestamps: seq<u64>, current: Target, interval: nat, actual: nat)
    requires SafeInterval(interval)
    requires TimeSpan(timestamps, interval) == Some(actual) && actual > 0
    ensures AdjustWithInterval(timestamps, current, interval)
         == AtMostGenesis(Scaled(current, Clamp(actual, 45 * (interval - 1), 75 * (interval - 1)), 60 * (interval - 1)))
  {
    var k := interval - 1;
    var expected := TARGET_BLOCK_TIME * k;
    assert expected == 60 * k < U64_LIMIT;
    ExactClamp(actual, k);
    assert AdjustWithInterval(timestamps, current, interval) == AtMostGenesis(Scaled(current, ClampedTime(actual, expected), expected));
  }

  lemma {:induction false} CapNum(t: Target, n: nat, d: nat)
    requires d > 0
    ensures Num(AtMostGenesis(Scaled(t, n, d))) == Min(Num(GENESIS_TARGET), Num(t) * n / d)
  {
    GenesisNum();
  }

  lemma GenesisNum()
    ensures Num(GENESIS_TARGET) == Pow(256, 31) - 1
    ensures Num(GENESIS_TARGET) < Pow(256, 32) - 1
  {
    ValCons(0, Repeat(255, 31), 256);
    MaxTargetVal(31);
    PowPositive(256, 31);
  }

  // One retarget over the protocol window, on numbers; an elapsed time of zero keeps the target.
  function Step(t: nat, elapsed: nat): nat {
    if elapsed == 0 then t
    else Min(Num(GENESIS_TARGET), t * Clamp(elapsed, 5355, 8925) / 7140)
  }

  lemma AdjustIsStep(timestamps: seq<u64>, current: Target)
    requires Num(current) <= Num(GENESIS_TARGET)
    ensures Num(Adjust(timestamps, current)) ==
      match TimeSpan(timestamps, DIFFICULTY_ADJUSTMENT_INTERVAL)
      case None => Num(current)
      case Some(actual) => Step(Num(current), actual)
  {
    match TimeSpan(timestamps, DIFFICULTY_ADJUSTMENT_INTERVAL)
    case None =>
    case Some(actual) =>
      if actual > 0 {
        RetargetLaw(timestamps, current, DIFFICULTY_ADJUSTMENT_INTERVAL, actual);
      }
  }

  // Slower blocks never give a smaller target, among windows with some elapsed time.
  lemma StepMonotone(t: nat, elapsed: nat, elapsed': nat)
    requires 0 < elapsed <= elapsed'
    ensures Step(t, elapsed) <= Step(t, elapsed')
  {
    var c, c' := Clamp(elapsed, 5355, 8925), Clamp(elapsed', 5355, 8925);
    MulMono(c, c', t);
    DivMono(t * c, t * c', 7140);
  }

  lemma DivMono(a: nat, b: nat, d: nat)
    requires a <= b && d > 0
    ensures a / d <= b / d
  {
    DivModOf(a, d);
    DivModOf(b, d);
    if a / d > b / d {
      MulMono(b / d + 1, a / d, d);
      MulDistrib(b / d, 1, d);
    }
  }

  // A window of zero elapsed time breaks monotonicity for every nonzero target: it keeps
  // the target, while one second already tightens it.
  lemma ZeroElapsedIsNotMonotone(t: nat)
    requires t <= Num(GENESIS_TARGET)
    ensures Step(t, 0) <= Step(t, 1) <==> t == 0
  {
    DivModOf(t * 5355, 7140);
    GenesisNum();
  }

  function Run(t: nat, elapsed: seq<nat>): nat {
    if elapsed == [] then t else Step(Run(t, elapsed[..|elapsed| - 1]), elapsed[|elapsed| - 1])
  }

  // The +-25% rule over whole runs of retargets.
  lemma {:induction false} RunBounds(t: nat, elapsed: seq<nat>)
    requires t <= Num(GENESIS_TARGET)
    ensures var k, r := |elapsed|, Run(t, elapsed);
      && r <= Num(GENESIS_TARGET)
      && Pow(4, k) * r <= Pow(5, k) * t
      && Pow(4, k) * (r + 3) >= Pow(3, k) * (t + 3)
  {
    if elapsed != [] {
      var k := |elapsed| - 1;
      var prev, e := Run(t, elapsed[..k]), elapsed[k];
      var r := Step(prev, e);
      RunBounds(t, elapsed[..k]);
      StepBounds(prev, e);
      var f4, f5, f3 := Pow(4, k), Pow(5, k), Pow(3, k);
      PowPositive(4, k);
      MulMono(4 * r, 5 * prev, f4);
      MulMono(3 * (prev + 3), 4 * (r + 3), f4);
      Regroup(f4, 4, r);
      Regroup(f4, 5, prev);
      Regroup(f5, 5, t);
      Regroup(f4, 4, r + 3);
      Regroup(f4, 3, prev + 3);
      Regroup(f3, 3, t + 3);
    }
  }

  lemma Regroup(f: int, c: int, x: int)
    ensures (c * f) * x == c * (f * x) == (c * x) * f
  {
    MulAssoc(c, f, x);
  }

  lemma StepBounds(t: nat, elapsed: nat)
    requires t <= Num(GENESIS_TARGET)
    ensures Step(t, elapsed) <= Num(GENESIS_TARGET)
    ensures 4 * Step(t, elapsed) <= 5 * t
    ensures 4 * (Step(t, elapsed) + 3) >= 3 * (t + 3)
  {
    if elapsed > 0 {
      var c := Clamp(elapsed, 5355, 8925);
      MulMono(5355, c, t);
      MulMono(c, 8925, t);
      DivModOf(t * c, 7140);
      assert t * c == c * t;
    }
  }
}
