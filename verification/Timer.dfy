/** Splitting a 32-bit number of input pulses into the prescaler and reload registers of a 16-bit timer. */
module Timer {
  import opened Bytes

  const U16_MAX: nat := 0xFFFF

  /** The largest number of pulses that can be split. */
  const LARGEST: nat := 0xFFFF * 0xFFFE

  datatype Registers = Registers(prescaler: nat, reload: nat)

  /** The pulses after which a timer with these registers fires. */
  function AsTarget32(r: Registers): nat {
    (r.prescaler + 1) * r.reload + 1
  }

  function Adjusted(target: nat): (t: nat)
    ensures t >= 1
  {
    if target < 2 then 2 else target - 1
  }

  /** The search for the first divider that works; None where the source panics. It panics exactly for targets that are
      too large. What it finds is the smallest divider whose quotient fits, both registers fit 16 bits, and the timer
      never runs at zero. */
  method TransformTarget32(target: nat) returns (r: Option<Registers>)
    ensures r.None? <==> target > LARGEST
    ensures r.Some? ==>
      var (d, reload) := (r.value.prescaler + 1, r.value.reload);
      && d < U16_MAX && 1 <= reload < U16_MAX && reload == Adjusted(target) / d
      && forall smaller | 1 <= smaller < d :: Adjusted(target) / smaller >= U16_MAX
  {
    var t := Adjusted(target);
    var prescaler := 1;
    while prescaler < U16_MAX
      invariant 1 <= prescaler <= U16_MAX
      invariant forall smaller | 1 <= smaller < prescaler :: t / smaller >= U16_MAX
    {
      var reload := t / prescaler;
      if reload < U16_MAX {
        QuotientNotZero(t, prescaler);
        SmallEnough(t, prescaler);
        return Some(Registers(prescaler - 1, reload));
      }
      prescaler := prescaler + 1;
    }
    assert t / 0xFFFE >= U16_MAX;
    return None;
  }

  lemma QuotientNotZero(t: nat, d: nat)
    requires t >= 1 && 1 <= d < U16_MAX && (d > 1 ==> t / (d - 1) >= U16_MAX)
    ensures t / d >= 1
  {
    if d > 1 {
      EnoughPulses(t, d);
    }
    assert t == d * (t / d) + t % d;
  }

  /** If a divider was too small, there are at least that many pulses. */
  lemma EnoughPulses(t: nat, d: nat)
    requires d > 1 && t / (d - 1) >= U16_MAX
    ensures 65535 * (d - 1) <= t
  {
    assert t == (d - 1) * (t / (d - 1)) + t % (d - 1);
    MulMono(d - 1, 65535, t / (d - 1));
  }

  lemma SmallEnough(t: nat, d: nat)
    requires 1 <= d < U16_MAX && t / d < U16_MAX
    ensures t < 65535 * 65534
  {
    assert t == d * (t / d) + t % d;
    MulMono(d, t / d, 65534);
    MulMono(65535, d, 65534);
    assert d * 65534 + d == 65535 * d;
  }

  /** The timer fires at most one divider step before the target and never after it. */
  lemma TargetReached(target: nat, r: Registers)
    requires target >= 2 && r.reload == Adjusted(target) / (r.prescaler + 1)
    ensures AsTarget32(r) <= target < AsTarget32(r) + r.prescaler + 1
  {
    var t, d := target - 1, r.prescaler + 1;
    assert t == d * (t / d) + t % d;
  }

  /** The error is less than one part in 65535, and there is none without a prescaler. */
  lemma RelativeError(target: nat, r: Registers)
    requires target >= 2 && r.reload == Adjusted(target) / (r.prescaler + 1)
    requires forall smaller | 1 <= smaller < r.prescaler + 1 :: Adjusted(target) / smaller >= U16_MAX
    ensures 65535 * (target - AsTarget32(r)) < target
    ensures r.prescaler == 0 ==> AsTarget32(r) == target
  {
    TargetReached(target, r);
    if r.prescaler > 0 {
      EnoughPulses(target - 1, r.prescaler + 1);
    }
  }
}
