// Loyalty of a miner: growth by participation, decay over missed epochs.

module Loyalty {
  import opened Bytes

  const LOYALTY_GRACE_PERIOD: nat := 3

  datatype State = State(value: nat, lastEpoch: nat, missed: nat, consecutive: nat, grace: nat)

  const NEW: State := State(0, 0, 0, 0, 0)

  // ---- What an update does ----

  function Decayed(v: nat, useGrace: bool): nat {
    if useGrace then v / 2 else Max(v * 7 / 10, v / 2)
  }

  // `times` decays; only the first may be a grace decay.
  function DecayedBy(v: nat, times: nat, graceFirst: bool): nat {
    if times == 0 then v
    else Decayed(DecayedBy(v, times - 1, graceFirst), times == 1 && graceFirst)
  }

  function Updated(s: State, epoch: nat, participated: bool): State {
    if epoch <= s.lastEpoch then s
    else
      var passed := epoch - s.lastEpoch;
      if participated then
        State(DecayedBy(s.value, passed - 1, s.grace > 0) + 1, epoch, 0, s.consecutive + 1,
              Max(s.grace, LOYALTY_GRACE_PERIOD))
      else
        State(DecayedBy(s.value, passed, s.grace > 0), epoch, s.missed + passed, 0,
              if s.grace > 0 then s.grace - 1 else 0)
  }

  class LoyaltyData {
    var value: u64
    var lastEpoch: u32
    var missedEpochs: u32
    var consecutiveEpochs: u32
    var graceRemaining: u32

    ghost function Abs(): State
      reads this
    {
      State(value, lastEpoch, missedEpochs, consecutiveEpochs, graceRemaining)
    }

    ghost predicate Valid()
      reads this
    {
      Bounded(Abs())
    }

    constructor ()
      ensures Abs() == NEW && Valid()
    {
      value, lastEpoch, missedEpochs, consecutiveEpochs, graceRemaining := 0, 0, 0, 0, 0;
    }

    // Validity is what keeps every addition and the multiplication by seven inside its word.
    method Update(currentEpoch: u32, participated: bool)
      requires Valid()
      modifies this
      ensures Abs() == Updated(old(Abs()), currentEpoch, participated) && Valid()
    {
      BoundedPreserved(Abs(), currentEpoch, participated);
      if currentEpoch <= lastEpoch {
        return;
      }
      var epochsPassed := currentEpoch - lastEpoch;
      var decays := if participated then epochsPassed - 1 else epochsPassed;
      Decay(decays);
      if participated {
        value := value + 1;
        consecutiveEpochs := consecutiveEpochs + 1;
        missedEpochs := 0;
        if graceRemaining < LOYALTY_GRACE_PERIOD {
          graceRemaining := LOYALTY_GRACE_PERIOD;
        }
      } else {
        missedEpochs := missedEpochs + epochsPassed;
        consecutiveEpochs := 0;
        if graceRemaining > 0 {
          graceRemaining := graceRemaining - 1;
        }
      }
      lastEpoch := currentEpoch;
    }

    method Decay(times: nat)
      requires value <= lastEpoch
      modifies this`value
      ensures value == DecayedBy(old(value), times, graceRemaining > 0) <= old(value)
    {
      for i := 0 to times
        invariant value == DecayedBy(old(value), i, graceRemaining > 0) <= old(value)
      {
        ApplyDecay(i == 0 && graceRemaining > 0);
      }
    }

    method ApplyDecay(useGrace: bool)
      requires value * 7 < U64_LIMIT
      modifies this`value
      ensures value == Decayed(old(value), useGrace) <= old(value)
    {
      if useGrace {
        value := value / 2;
      } else {
        var decayed70 := value * 7 / 10;
        var decayed50 := value / 2;
        value := Max(decayed70, decayed50);
      }
    }
  }

  // ---- Histories ----

  ghost predicate Bounded(s: State) {
    && s.value <= s.lastEpoch && s.missed <= s.lastEpoch && s.consecutive <= s.lastEpoch
    && s.grace <= LOYALTY_GRACE_PERIOD
  }

  datatype Event = Event(epoch: nat, participated: bool)

  function History(s: State, events: seq<Event>): State {
    if events == [] then s
    else
      var last := events[|events| - 1];
      Updated(History(s, events[..|events| - 1]), last.epoch, last.participated)
  }

  lemma DecayShrinks(v: nat, times: nat, graceFirst: bool)
    ensures DecayedBy(v, times, graceFirst) <= v
  {}

  lemma BoundedPreserved(s: State, epoch: nat, participated: bool)
    requires Bounded(s)
    ensures Bounded(Updated(s, epoch, participated))
  {
    if epoch > s.lastEpoch {
      var passed := epoch - s.lastEpoch;
      DecayShrinks(s.value, passed, s.grace > 0);
      DecayShrinks(s.value, passed - 1, s.grace > 0);
    }
  }

  // Over every history, value never exceeds the last epoch and grace never exceeds three.
  lemma {:induction false} HistoryBounded(s: State, events: seq<Event>)
    requires Bounded(s)
    ensures Bounded(History(s, events))
  {
    if events != [] {
      var n := |events| - 1;
      HistoryBounded(s, events[..n]);
      BoundedPreserved(History(s, events[..n]), events[n].epoch, events[n].participated);
    }
  }

  // A second update for an epoch already accounted for changes nothing, whatever it says.
  lemma RepeatIsIgnored(s: State, epoch: nat, first: bool, again: bool)
    ensures Updated(Updated(s, epoch, first), epoch, again) == Updated(s, epoch, first)
  {}

  lemma {:induction false} DecayMonotone(v: nat, w: nat, times: nat, graceFirst: bool)
    requires v <= w
    ensures DecayedBy(v, times, graceFirst) <= DecayedBy(w, times, graceFirst)
  {
    if times > 0 {
      DecayMonotone(v, w, times - 1, graceFirst);
    }
  }

  // A larger starting value stays at least as large through any history; the other fields agree.
  lemma {:induction false} HistoryMonotone(s: State, w: nat, events: seq<Event>)
    requires s.value <= w
    ensures var a, b := History(s, events), History(s.(value := w), events);
      a.value <= b.value && b == a.(value := b.value)
  {
    if events != [] {
      var n := |events| - 1;
      HistoryMonotone(s, w, events[..n]);
      UpdateMonotone(History(s, events[..n]), History(s.(value := w), events[..n]).value, events[n].epoch, events[n].participated);
    }
  }

  lemma {:induction false} UpdateMonotone(a: State, w: nat, epoch: nat, participated: bool)
    requires a.value <= w
    ensures var x, y := Updated(a, epoch, participated), Updated(a.(value := w), epoch, participated);
      x.value <= y.value && y == x.(value := y.value)
  {
    if epoch > a.lastEpoch {
      var passed := epoch - a.lastEpoch;
      DecayMonotone(a.value, w, if participated then passed - 1 else passed, a.grace > 0);
    }
  }

  // The lower bound by one half never applies, so outside grace a decay is exactly seven tenths
  // rounded down; the grace decay takes at least as much, and the same only from 0, 1, 2 and 4.
  lemma GraceDecaysFasterExactly(v: nat)
    ensures Decayed(v, false) == 7 * v / 10
    ensures Decayed(v, true) <= Decayed(v, false)
    ensures Decayed(v, true) == Decayed(v, false) <==> v in {0, 1, 2, 4}
  {
    DivModOf(7 * v, 10);
    DivModOf(v, 2);
    assert v * 7 == 7 * v;
  }

  lemma DecayedIsSevenTenths(v: nat, useGrace: bool)
    ensures 10 * Decayed(v, useGrace) <= 7 * v
  {}

  lemma {:induction false} DecayBound(v: nat, times: nat, graceFirst: bool)
    ensures Pow(10, times) * DecayedBy(v, times, graceFirst) <= Pow(7, times) * v
  {
    if times > 0 {
      var prev := DecayedBy(v, times - 1, graceFirst);
      var p, q := Pow(10, times - 1), Pow(7, times - 1);
      DecayBound(v, times - 1, graceFirst);
      DecayedIsSevenTenths(prev, times == 1 && graceFirst);
      PowPositive(10, times - 1);
      ScaleStep(p, q, DecayedBy(v, times, graceFirst), prev, v);
    }
  }

  lemma ScaleStep(p: nat, q: nat, x: nat, prev: nat, v: nat)
    requires 10 * x <= 7 * prev && p * prev <= q * v
    ensures (10 * p) * x <= (7 * q) * v
  {
    MulMono(10 * x, 7 * prev, p);
    assert (10 * p) * x == (10 * x) * p;
    assert (7 * prev) * p == 7 * (p * prev);
    assert (7 * q) * v == 7 * (q * v);
  }

  // k missed epochs leave at most (7/10)^k of the value, with or without grace.
  lemma MissedEpochsBound(s: State, k: nat)
    ensures Pow(10, k) * Updated(s, s.lastEpoch + k, false).value <= Pow(7, k) * s.value
  {
    DecayBound(s.value, k, s.grace > 0);
  }

  // Taking part adds one to what the epochs before left, and one to the streak whatever the gap.
  lemma ParticipationAddsOne(s: State, epoch: nat)
    requires epoch > s.lastEpoch
    ensures Updated(s, epoch, true).value == Updated(s, epoch - 1, false).value + 1
    ensures Updated(s, epoch, true).consecutive == s.consecutive + 1 && Updated(s, epoch, true).missed == 0
  {}

  // k updates that each take part in the next epoch.
  function TakePartOneByOne(s: State, k: nat): State {
    if k == 0 then s
    else
      var t := TakePartOneByOne(s, k - 1);
      Updated(t, t.lastEpoch + 1, true)
  }

  // Taking part k times in a row raises value and streak by k.
  lemma {:induction false} ParticipationsCount(s: State, k: nat)
    ensures TakePartOneByOne(s, k) ==
      if k == 0 then s else State(s.value + k, s.lastEpoch + k, 0, s.consecutive + k, Max(s.grace, LOYALTY_GRACE_PERIOD))
  {
    if k > 0 {
      ParticipationsCount(s, k - 1);
    }
  }

  // k updates that each miss one epoch.
  function MissOneByOne(s: State, k: nat): State {
    if k == 0 then s
    else
      var t := MissOneByOne(s, k - 1);
      Updated(t, t.lastEpoch + 1, false)
  }

  lemma MissFields(s: State, k: nat)
    ensures var t := MissOneByOne(s, k);
      && t.lastEpoch == s.lastEpoch + k && t.missed == s.missed + k
      && t.grace == Max(s.grace - k, 0) && (k > 0 ==> t.consecutive == 0)
  {}

  lemma MissValue(s: State, k: nat)
    requires s.grace <= 1
    ensures MissOneByOne(s, k).value == DecayedBy(s.value, k, s.grace > 0)
  {
    if k > 0 {
      MissValue(s, k - 1);
      MissFields(s, k - 1);
      var t := MissOneByOne(s, k - 1);
      assert DecayedBy(t.value, 1, t.grace > 0) == Decayed(DecayedBy(t.value, 0, t.grace > 0), t.grace > 0);
    }
  }

  // One catch-up over k epochs equals k single updates exactly when at most one epoch is
  // missed or at most one grace epoch is left: a catch-up spends one grace epoch in all.
  lemma CatchUpExactly(s: State, k: nat)
    ensures Updated(s, s.lastEpoch + k, false) == MissOneByOne(s, k) <==> k <= 1 || s.grace <= 1
  {
    MissFields(s, k);
    if k == 1 {
      assert MissOneByOne(s, 0) == s;
    } else if s.grace <= 1 {
      MissValue(s, k);
    }
  }
}
