/** The PID controller of main/pid.c over the reals: saturation and conditional integral freeze. */
module Pid {

  datatype Gains = Gains(kp: real, ki: real, kd: real, dt: real, outMin: real, outMax: real)

  /** The two values a controller carries from one sample to the next. */
  datatype Memory = Memory(integral: real, prevErr: real)

  const DEFAULT_DT := 0.1
  const DEFAULT := Gains(2.0, 0.8, 0.02, 0.1, 0.0, 255.0)
  const FRESH := Memory(0.0, 0.0)

  /** The unsaturated output for error `err`. */
  function Raw(g: Gains, m: Memory, err: real): real
    requires g.dt > 0.0
  {
    g.kp * err + g.ki * (m.integral + err * g.dt) + g.kd * ((err - m.prevErr) / g.dt)
  }

  function Saturated(g: Gains, raw: real): real {
    if raw > g.outMax then g.outMax else if raw < g.outMin then g.outMin else raw
  }

  /** The integral is held while the output is saturated in the direction of the error. */
  predicate Frozen(g: Gains, raw: real, err: real) {
    (raw > g.outMax && err > 0.0) || (raw <= g.outMax && raw < g.outMin && err < 0.0)
  }

  function Output(g: Gains, m: Memory, err: real): real
    requires g.dt > 0.0
  {
    Saturated(g, Raw(g, m, err))
  }

  function Next(g: Gains, m: Memory, err: real): Memory
    requires g.dt > 0.0
  {
    Memory(if Frozen(g, Raw(g, m, err), err) then m.integral else m.integral + err * g.dt, err)
  }

  class Controller {
    var kp: real
    var ki: real
    var kd: real
    var dt: real
    var outMin: real
    var outMax: real
    var integral: real
    var prevErr: real

    ghost predicate Valid()
      reads this
    {
      dt > 0.0
    }

    ghost function TheGains(): Gains
      reads this
    {
      Gains(kp, ki, kd, dt, outMin, outMax)
    }

    ghost function TheMemory(): Memory
      reads this
    {
      Memory(integral, prevErr)
    }

    constructor (kp: real, ki: real, kd: real, dt: real, outMin: real, outMax: real)
      ensures Valid() && TheMemory() == FRESH
      ensures TheGains() == Gains(kp, ki, kd, if dt > 0.0 then dt else DEFAULT_DT, outMin, outMax)
    {
      this.kp := kp;
      this.ki := ki;
      this.kd := kd;
      this.dt := if dt > 0.0 then dt else DEFAULT_DT;
      this.outMin := outMin;
      this.outMax := outMax;
      integral := 0.0;
      prevErr := 0.0;
    }

    method Reset()
      requires Valid()
      modifies this`integral, this`prevErr
      ensures Valid() && TheMemory() == FRESH && TheGains() == old(TheGains())
    {
      integral := 0.0;
      prevErr := 0.0;
    }

    method Compute(setpoint: real, measure: real) returns (output: real)
      requires Valid()
      modifies this`integral, this`prevErr
      ensures Valid() && TheGains() == old(TheGains())
      ensures output == Output(TheGains(), old(TheMemory()), setpoint - measure)
      ensures TheMemory() == Next(TheGains(), old(TheMemory()), setpoint - measure)
    {
      var err := setpoint - measure;
      var candidate := integral + err * dt;
      var derivative := (err - prevErr) / dt;
      output := kp * err + ki * candidate + kd * derivative;
      assert output == Raw(TheGains(), TheMemory(), err);
      if output > outMax {
        output := outMax;
        if err > 0.0 {
          candidate := integral;
        }
      } else if output < outMin {
        output := outMin;
        if err < 0.0 {
          candidate := integral;
        }
      }
      integral := candidate;
      prevErr := err;
    }
  }

  // ----- The integral over whole runs -----

  /** Errors between `lo` and `hi`, gains of the right sign, and room for the resting integral. */
  predicate WellTuned(g: Gains, lo: real, hi: real) {
    && g.dt > 0.0 && g.ki > 0.0 && g.kp >= 0.0 && g.kd >= 0.0 && g.outMin <= g.outMax
    && lo <= 0.0 <= hi
    && g.outMin + g.kd / g.dt * lo <= 0.0 <= g.outMax + g.kd / g.dt * hi
  }

  function IntegralMin(g: Gains, lo: real): real
    requires g.dt > 0.0 && g.ki > 0.0
  {
    (g.outMin + g.kd / g.dt * lo) / g.ki
  }

  function IntegralMax(g: Gains, hi: real): real
    requires g.dt > 0.0 && g.ki > 0.0
  {
    (g.outMax + g.kd / g.dt * hi) / g.ki
  }

  predicate Bounded(g: Gains, lo: real, hi: real, m: Memory)
    requires WellTuned(g, lo, hi)
  {
    IntegralMin(g, lo) <= m.integral <= IntegralMax(g, hi) && lo <= m.prevErr <= hi
  }

  datatype Op = Sample(setpoint: real, measure: real) | Restart

  function Step(g: Gains, m: Memory, op: Op): Memory
    requires g.dt > 0.0
  {
    match op
    case Sample(s, v) => Next(g, m, s - v)
    case Restart => FRESH
  }

  function RunOps(g: Gains, m: Memory, ops: seq<Op>): Memory
    requires g.dt > 0.0
    decreases |ops|
  {
    if |ops| == 0 then m else RunOps(g, Step(g, m, ops[0]), ops[1..])
  }

  predicate ErrorsWithin(ops: seq<Op>, lo: real, hi: real) {
    forall i :: 0 <= i < |ops| && ops[i].Sample? ==> lo <= ops[i].setpoint - ops[i].measure <= hi
  }

  lemma ScaleLe(c: real, a: real, b: real)
    requires c >= 0.0 && a <= b
    ensures c * a <= c * b
  {
  }

  lemma DivLe(x: real, y: real, k: real)
    requires k > 0.0 && k * x <= y
    ensures x <= y / k
  {
    assert (y / k) * k == y;
    if x > y / k {
      ScaleLt(k, y / k, x);
    }
  }

  lemma DivGe(x: real, y: real, k: real)
    requires k > 0.0 && k * x >= y
    ensures x >= y / k
  {
    assert (y / k) * k == y;
    if x < y / k {
      ScaleLt(k, x, y / k);
    }
  }

  lemma ScaleLt(k: real, a: real, b: real)
    requires k > 0.0 && a < b
    ensures k * a < k * b
  {
  }

  /** The derivative term with the constant factor in front. */
  lemma DerivativeTerm(kd: real, d: real, dt: real)
    requires dt > 0.0
    ensures kd * (d / dt) == kd / dt * d
  {
    var q := d / dt;
    var c := kd / dt;
    assert q * dt == d && c * dt == kd;
    assert kd * q == c * dt * q == c * (q * dt) == c * d;
  }

  lemma Nonneg(a: real, b: real)
    requires a >= 0.0 && b > 0.0
    ensures a / b >= 0.0
  {
  }

  lemma Negate(c: real, x: real)
    ensures c * -x == -(c * x)
  {
  }

  lemma DerivativeAtLeast(kd: real, dt: real, err: real, prev: real, hi: real)
    requires dt > 0.0 && kd >= 0.0 && err >= 0.0 && prev <= hi
    ensures kd * ((err - prev) / dt) >= -(kd / dt * hi)
  {
    DerivativeTerm(kd, err - prev, dt);
    Nonneg(kd, dt);
    ScaleLe(kd / dt, -hi, err - prev);
    Negate(kd / dt, hi);
  }

  lemma DerivativeAtMost(kd: real, dt: real, err: real, prev: real, lo: real)
    requires dt > 0.0 && kd >= 0.0 && err <= 0.0 && prev >= lo
    ensures kd * ((err - prev) / dt) <= -(kd / dt * lo)
  {
    DerivativeTerm(kd, err - prev, dt);
    Nonneg(kd, dt);
    ScaleLe(kd / dt, err - prev, -lo);
    Negate(kd / dt, lo);
  }

  /** A growing integral stops at the upper bound: beyond it the output saturates. */
  lemma GrowthStops(g: Gains, hi: real, m: Memory, err: real)
    requires g.dt > 0.0 && g.ki > 0.0 && g.kp >= 0.0 && g.kd >= 0.0
    requires 0.0 < err && m.prevErr <= hi && Raw(g, m, err) <= g.outMax
    ensures m.integral + err * g.dt <= IntegralMax(g, hi)
  {
    var cand := m.integral + err * g.dt;
    ScaleLe(g.kp, 0.0, err);
    DerivativeAtLeast(g.kd, g.dt, err, m.prevErr, hi);
    DivLe(cand, g.outMax + g.kd / g.dt * hi, g.ki);
  }

  lemma DecayStops(g: Gains, lo: real, m: Memory, err: real)
    requires g.dt > 0.0 && g.ki > 0.0 && g.kp >= 0.0 && g.kd >= 0.0
    requires err < 0.0 && m.prevErr >= lo && Raw(g, m, err) >= g.outMin
    ensures m.integral + err * g.dt >= IntegralMin(g, lo)
  {
    var cand := m.integral + err * g.dt;
    ScaleLe(g.kp, err, 0.0);
    DerivativeAtMost(g.kd, g.dt, err, m.prevErr, lo);
    DivGe(cand, g.outMin + g.kd / g.dt * lo, g.ki);
  }

  lemma NextIsBounded(g: Gains, lo: real, hi: real, m: Memory, err: real)
    requires WellTuned(g, lo, hi) && Bounded(g, lo, hi, m) && lo <= err <= hi
    ensures Bounded(g, lo, hi, Next(g, m, err))
  {
    hide Raw, IntegralMin, IntegralMax;
    var raw := Raw(g, m, err);
    if err > 0.0 {
      if raw <= g.outMax {
        GrowthStops(g, hi, m, err);
      }
      ScaleLe(err, 0.0, g.dt);
    } else if err < 0.0 {
      if raw >= g.outMin {
        DecayStops(g, lo, m, err);
      }
      ScaleLe(-err, 0.0, g.dt);
    }
  }

  lemma FreshIsBounded(g: Gains, lo: real, hi: real)
    requires WellTuned(g, lo, hi)
    ensures Bounded(g, lo, hi, FRESH)
  {
    DivLe(0.0, g.outMax + g.kd / g.dt * hi, g.ki);
    DivGe(0.0, g.outMin + g.kd / g.dt * lo, g.ki);
  }

  /** Anti-windup: over every run of samples and resets the integral keeps within its bounds. */
  lemma {:induction false} IntegralStaysBounded(g: Gains, lo: real, hi: real, m: Memory, ops: seq<Op>)
    requires WellTuned(g, lo, hi) && Bounded(g, lo, hi, m) && ErrorsWithin(ops, lo, hi)
    ensures Bounded(g, lo, hi, RunOps(g, m, ops))
    decreases |ops|
  {
    hide Bounded, Next;
    if |ops| > 0 {
      match ops[0] {
        case Sample(s, v) => NextIsBounded(g, lo, hi, m, s - v);
        case Restart => FreshIsBounded(g, lo, hi);
      }
      IntegralStaysBounded(g, lo, hi, Step(g, m, ops[0]), ops[1..]);
    }
  }

  /** With the default gains and errors of a speed in [0, 242] against a setpoint in [0, 220]. */
  lemma DefaultIntegralBounds(ops: seq<Op>)
    requires ErrorsWithin(ops, -242.0, 220.0)
    ensures -60.5 <= RunOps(DEFAULT, FRESH, ops).integral <= 373.75
  {
    DefaultBounds();
    FreshIsBounded(DEFAULT, -242.0, 220.0);
    IntegralStaysBounded(DEFAULT, -242.0, 220.0, FRESH, ops);
  }

  lemma DefaultBounds()
    ensures WellTuned(DEFAULT, -242.0, 220.0)
    ensures IntegralMin(DEFAULT, -242.0) == -60.5 && IntegralMax(DEFAULT, 220.0) == 373.75
  {
  }

  // ----- Recovery from saturation -----

  /** The memory after `n` samples with the constant error `-e`, and the `n`-th output. */
  function After(m: Memory, e: real, n: nat): Memory {
    if n == 0 then m else Next(DEFAULT, After(m, e, n - 1), -e)
  }

  function OutputAt(m: Memory, e: real, n: nat): real
    requires n > 0
  {
    Output(DEFAULT, After(m, e, n - 1), -e)
  }

  lemma SteadyRaw(m: Memory, e: real)
    requires m.prevErr == -e
    ensures Raw(DEFAULT, m, -e) == 0.8 * m.integral - 2.08 * e
  {
  }

  lemma SteadyNext(m: Memory, e: real)
    requires m.prevErr == -e && e > 0.0
    ensures var m' := Next(DEFAULT, m, -e);
      && m'.prevErr == -e
      && m'.integral == if 0.8 * m.integral < 2.08 * e then m.integral else m.integral - 0.1 * e
  {
    SteadyRaw(m, e);
  }

  lemma AfterIsSteady(m: Memory, e: real, n: nat)
    requires n > 0
    ensures After(m, e, n).prevErr == -e
  {
  }

  /** From the second sample on, the output never rises. */
  lemma OutputNonIncreasing(m: Memory, e: real, n: nat)
    requires e > 0.0 && n >= 2
    ensures OutputAt(m, e, n + 1) <= OutputAt(m, e, n)
  {
    var a := After(m, e, n - 1);
    AfterIsSteady(m, e, n - 1);
    SteadyNext(a, e);
    SteadyRaw(a, e);
    SteadyRaw(Next(DEFAULT, a, -e), e);
  }

  /** While the output is positive the integral falls by 0.1 e a sample. */
  lemma {:induction false} IntegralFalls(m: Memory, e: real, n: nat)
    requires m.prevErr == -e && e > 0.0
    ensures OutputAt(m, e, n + 1) == 0.0 || After(m, e, n).integral <= m.integral - 0.1 * e * (n as real)
    decreases n
  {
    if n > 0 {
      IntegralFalls(m, e, n - 1);
      var a := After(m, e, n - 1);
      if n > 1 {
        AfterIsSteady(m, e, n - 1);
      }
      SteadyNext(a, e);
      SteadyRaw(a, e);
      SteadyRaw(Next(DEFAULT, a, -e), e);
      assert e * (n as real) == e * ((n - 1) as real) + e;
    }
  }

  lemma IntegralNeverRises(m: Memory, e: real, n: nat)
    requires e > 0.0
    ensures After(m, e, n + 1).integral <= After(m, e, n).integral
  {
  }

  lemma {:induction false} ZeroStaysZero(m: Memory, e: real, n: nat, k: nat)
    requires e > 0.0 && 2 <= n <= k && OutputAt(m, e, n) == 0.0
    ensures OutputAt(m, e, k) == 0.0
    decreases k
  {
    if k > n {
      ZeroStaysZero(m, e, n, k - 1);
      OutputNonIncreasing(m, e, k - 1);
    }
  }

  lemma {:induction false} AfterShift(m: Memory, e: real, n: nat)
    ensures After(m, e, n + 1) == After(Next(DEFAULT, m, -e), e, n)
    decreases n
  {
    if n > 0 {
      AfterShift(m, e, n - 1);
    }
  }

  lemma ExhaustedIsZero(a: Memory, e: real)
    requires a.prevErr == -e && e > 0.0 && a.integral <= 0.0
    ensures Output(DEFAULT, a, -e) == 0.0
  {
    SteadyRaw(a, e);
  }

  /**
   * Recovery: whatever a run has left in the controller, a constant overspeed `e` brings the
   * output to zero within `n + 2` samples once n * e >= 3737.5, and it stays there.
   */
  lemma Recovery(m: Memory, e: real, n: nat, k: nat)
    requires m.integral <= 373.75 && e > 0.0
    requires (n as real) * e >= 3737.5 && k >= n + 2
    ensures OutputAt(m, e, k) == 0.0
  {
    var m1 := Next(DEFAULT, m, -e);
    IntegralNeverRises(m, e, 0);
    IntegralFalls(m1, e, n);
    AfterShift(m, e, n);
    AfterIsSteady(m, e, n + 1);
    assert e * (n as real) == (n as real) * e;
    if After(m1, e, n).integral <= 0.0 {
      ExhaustedIsZero(After(m1, e, n), e);
    }
    ZeroStaysZero(m, e, n + 2, k);
  }

  /** In particular after any run of plausible samples and resets, and it never rises on the way. */
  lemma RecoveryOfRun(ops: seq<Op>, e: real, n: nat)
    requires ErrorsWithin(ops, -242.0, 220.0) && e > 0.0 && (n as real) * e >= 3737.5
    ensures var m := RunOps(DEFAULT, FRESH, ops);
      && (forall k :: k >= n + 2 ==> OutputAt(m, e, k) == 0.0)
      && (forall k :: k >= 2 ==> OutputAt(m, e, k + 1) <= OutputAt(m, e, k))
  {
    hide OutputAt;
    DefaultIntegralBounds(ops);
    var m := RunOps(DEFAULT, FRESH, ops);
    forall k | k >= n + 2 ensures OutputAt(m, e, k) == 0.0 {
      Recovery(m, e, n, k);
    }
    forall k | k >= 2 ensures OutputAt(m, e, k + 1) <= OutputAt(m, e, k) {
      OutputNonIncreasing(m, e, k);
    }
  }
}
