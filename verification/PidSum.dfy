/**
 * What the PID controller returns, in closed form over whole runs (main/pid.c:49-91): from a fresh
 * controller, the sums over the errors written out. Errors of both signs and all gains.
 */
module PidSum {
  import opened Pid

  function Sum(e: seq<real>): real
    decreases |e|
  {
    if |e| == 0 then 0.0 else Sum(e[..|e| - 1]) + e[|e| - 1]
  }

  function Last(e: seq<real>): real
  {
    if |e| == 0 then 0.0 else e[|e| - 1]
  }

  /** kp e_n + ki dt (kept errors + e_n) + kd (e_n - e_{n-1}) / dt. */
  function Demand(g: Gains, e: seq<real>): real
    requires g.dt > 0.0 && |e| > 0
    decreases |e|, 0
  {
    var before, err := e[..|e| - 1], e[|e| - 1];
    g.kp * err + g.ki * (g.dt * (KeptSum(g, before) + err)) + g.kd * ((err - Last(before)) / g.dt)
  }

  /** The last error pushes the demand further beyond the limit it has passed. */
  predicate Withheld(g: Gains, e: seq<real>)
    requires g.dt > 0.0 && |e| > 0
    decreases |e|, 1
  {
    if Demand(g, e) > g.outMax then e[|e| - 1] > 0.0 else Demand(g, e) < g.outMin && e[|e| - 1] < 0.0
  }

  /** The errors summed, without those withheld. */
  function KeptSum(g: Gains, e: seq<real>): real
    requires g.dt > 0.0
    decreases |e|, 2
  {
    if |e| == 0 then 0.0
    else KeptSum(g, e[..|e| - 1]) + (if Withheld(g, e) then 0.0 else e[|e| - 1])
  }

  /** The controller after a run of errors. */
  function MemoryAfter(g: Gains, e: seq<real>): Memory
    requires g.dt > 0.0
    decreases |e|
  {
    if |e| == 0 then FRESH else Next(g, MemoryAfter(g, e[..|e| - 1]), e[|e| - 1])
  }

  /** What the controller returns for the last error of a run. */
  function Returned(g: Gains, e: seq<real>): real
    requires g.dt > 0.0 && |e| > 0
  {
    Output(g, MemoryAfter(g, e[..|e| - 1]), e[|e| - 1])
  }

  lemma AddedUp(dt: real, sum: real, err: real)
    ensures dt * sum + err * dt == dt * (sum + err)
  {
  }

  lemma RawIsDemand(g: Gains, e: seq<real>)
    requires g.dt > 0.0 && |e| > 0
    requires var m := MemoryAfter(g, e[..|e| - 1]);
      m.integral == g.dt * KeptSum(g, e[..|e| - 1]) && m.prevErr == Last(e[..|e| - 1])
    ensures Raw(g, MemoryAfter(g, e[..|e| - 1]), e[|e| - 1]) == Demand(g, e)
  {
    hide MemoryAfter, KeptSum;
    AddedUp(g.dt, KeptSum(g, e[..|e| - 1]), e[|e| - 1]);
  }

  /** The integral is dt times the errors kept. */
  lemma {:induction false} IntegralIsKeptSum(g: Gains, e: seq<real>)
    requires g.dt > 0.0
    ensures MemoryAfter(g, e).integral == g.dt * KeptSum(g, e) && MemoryAfter(g, e).prevErr == Last(e)
    decreases |e|
  {
    hide Raw, Demand;
    if |e| > 0 {
      IntegralIsKeptSum(g, e[..|e| - 1]);
      RawIsDemand(g, e);
      AddedUp(g.dt, KeptSum(g, e[..|e| - 1]), e[|e| - 1]);
    }
  }

  /**
   * For all gains and all runs of errors: within the limits the controller returns the demand,
   * beyond one of them that limit.
   */
  lemma ReturnedExactly(g: Gains, e: seq<real>)
    requires g.dt > 0.0 && |e| > 0
    ensures g.outMin <= Demand(g, e) <= g.outMax ==> Returned(g, e) == Demand(g, e)
    ensures Demand(g, e) > g.outMax ==> Returned(g, e) == g.outMax
    ensures Demand(g, e) <= g.outMax && Demand(g, e) < g.outMin ==> Returned(g, e) == g.outMin
    ensures MemoryAfter(g, e).integral == g.dt * KeptSum(g, e)
  {
    hide Raw, Demand, MemoryAfter, KeptSum;
    IntegralIsKeptSum(g, e[..|e| - 1]);
    IntegralIsKeptSum(g, e);
    RawIsDemand(g, e);
  }

  // ----- Runs that never saturate -----

  /** kp e_n + ki dt (e_1 + ... + e_n) + kd (e_n - e_{n-1}) / dt. */
  function Plain(g: Gains, e: seq<real>): real
    requires g.dt > 0.0 && |e| > 0
  {
    g.kp * e[|e| - 1] + g.ki * (g.dt * Sum(e)) + g.kd * ((e[|e| - 1] - Last(e[..|e| - 1])) / g.dt)
  }

  predicate NeverSaturates(g: Gains, e: seq<real>)
    requires g.dt > 0.0
  {
    forall k :: 0 < k <= |e| ==> g.outMin <= Plain(g, e[..k]) <= g.outMax
  }

  lemma PlainIsDemand(g: Gains, e: seq<real>)
    requires g.dt > 0.0 && |e| > 0 && KeptSum(g, e[..|e| - 1]) == Sum(e[..|e| - 1])
    ensures Demand(g, e) == Plain(g, e)
  {
    hide KeptSum;
  }

  lemma KeptWithinLimits(g: Gains, e: seq<real>)
    requires g.dt > 0.0 && |e| > 0 && g.outMin <= Demand(g, e) <= g.outMax
    ensures KeptSum(g, e) == KeptSum(g, e[..|e| - 1]) + e[|e| - 1]
  {
    hide Demand;
  }

  lemma {:induction false} NothingWithheld(g: Gains, e: seq<real>)
    requires g.dt > 0.0 && NeverSaturates(g, e)
    ensures KeptSum(g, e) == Sum(e)
    ensures |e| > 0 ==> Demand(g, e) == Plain(g, e)
    decreases |e|
  {
    hide Demand, Plain;
    if |e| == 0 {
      NoErrors(g);
    } else {
      hide KeptSum;
      var before := e[..|e| - 1];
      forall k | 0 < k <= |before| ensures g.outMin <= Plain(g, before[..k]) <= g.outMax {
        assert before[..k] == e[..k];
      }
      NothingWithheld(g, before);
      assert e[..|e|] == e;
      assert g.outMin <= Plain(g, e) <= g.outMax;
      PlainIsDemand(g, e);
      KeptWithinLimits(g, e);
    }
  }

  lemma NoErrors(g: Gains)
    requires g.dt > 0.0
    ensures KeptSum(g, []) == Sum([])
  {
  }

  lemma ErrorBefore(e: seq<real>)
    requires |e| > 0
    ensures Last(e[..|e| - 1]) == if |e| == 1 then 0.0 else e[|e| - 2]
  {
  }

  lemma PlainInFull(g: Gains, e: seq<real>)
    requires g.dt > 0.0 && |e| > 0
    ensures var n := |e| - 1; var prev := if n == 0 then 0.0 else e[n - 1];
      Plain(g, e) == g.kp * e[n] + g.ki * (g.dt * Sum(e)) + g.kd * ((e[n] - prev) / g.dt)
  {
    hide Sum, Last;
    ErrorBefore(e);
  }

  /** As long as no sum passes a limit, the controller returns that sum, and the integral is dt times the errors. */
  lemma ReturnedUnsaturated(g: Gains, e: seq<real>)
    requires g.dt > 0.0 && |e| > 0 && NeverSaturates(g, e)
    ensures var n := |e| - 1; var prev := if n == 0 then 0.0 else e[n - 1];
      Returned(g, e) == g.kp * e[n] + g.ki * (g.dt * Sum(e)) + g.kd * ((e[n] - prev) / g.dt)
    ensures MemoryAfter(g, e).integral == g.dt * Sum(e)
  {
    hide Demand, KeptSum, MemoryAfter, Returned, Sum, Plain;
    assert e[..|e|] == e;
    assert g.outMin <= Plain(g, e) <= g.outMax;
    NothingWithheld(g, e);
    ReturnedExactly(g, e);
    PlainInFull(g, e);
  }

  // ----- The controller of the ECU, in numbers -----

  /** With the default gains: 2 e_n + 0.08 (kept errors + e_n) + 0.2 (e_n - e_{n-1}), within 0 and 255. */
  lemma DefaultInNumbers(e: seq<real>)
    requires |e| > 0
    ensures var n := |e| - 1; var prev := if n == 0 then 0.0 else e[n - 1];
      var demand := 2.0 * e[n] + 0.08 * (KeptSum(DEFAULT, e[..n]) + e[n]) + 0.2 * (e[n] - prev);
      && Demand(DEFAULT, e) == demand
      && Returned(DEFAULT, e) == (if demand > 255.0 then 255.0 else if demand < 0.0 then 0.0 else demand)
  {
    hide KeptSum, Returned;
    ReturnedExactly(DEFAULT, e);
  }

  /** A fresh controller, 64 km/h short of the setpoint. */
  lemma FirstOutput()
    ensures Output(DEFAULT, FRESH, 64.0) == 145.92
    ensures Next(DEFAULT, FRESH, 64.0) == Memory(6.4, 64.0)
  {
  }

  // ----- Runs of operations -----

  /** The errors of a run of samples. */
  function Errors(ops: seq<Op>): (e: seq<real>)
    requires forall i :: 0 <= i < |ops| ==> ops[i].Sample?
    ensures |e| == |ops|
  {
    seq(|ops|, i requires 0 <= i < |ops| => ops[i].setpoint - ops[i].measure)
  }

  lemma {:induction false} RunSnoc(g: Gains, m: Memory, ops: seq<Op>, op: Op)
    requires g.dt > 0.0
    ensures RunOps(g, m, ops + [op]) == Step(g, RunOps(g, m, ops), op)
    decreases |ops|
  {
    hide Step;
    if |ops| == 0 {
      assert ops + [op] == [op] && [op][1..] == [];
    } else {
      assert (ops + [op])[1..] == ops[1..] + [op];
      RunSnoc(g, Step(g, m, ops[0]), ops[1..], op);
    }
  }

  lemma {:induction false} RunIsMemoryAfter(g: Gains, ops: seq<Op>)
    requires g.dt > 0.0 && forall i :: 0 <= i < |ops| ==> ops[i].Sample?
    ensures RunOps(g, FRESH, ops) == MemoryAfter(g, Errors(ops))
    decreases |ops|
  {
    hide Next;
    if |ops| > 0 {
      var n := |ops| - 1;
      RunIsMemoryAfter(g, ops[..n]);
      RunSnoc(g, FRESH, ops[..n], ops[n]);
      assert ops[..n] + [ops[n]] == ops;
      assert Errors(ops)[..n] == Errors(ops[..n]);
    }
  }
}
