/**
 * What drives the motor, in every interleaving (main/ecu_command.c:28-34,
 * main/task_control.c:91-110, main/task_control.c:150-211, main/pid.c:49-91): each command enqueued
 * is zero, or the PID sum over the current stretch of AUTO cycles, of the last plausible setpoint
 * and speed received.
 */
module EcuDrive {
  import opened Protocol
  import opened Command
  import opened Ecu
  import opened EcuLock
  import opened EcuOutput
  import opened EcuControl
  import D = EcuDelivery
  import Pid
  import S = PidSum

  // ----- Single critical sections, outright -----

  /** A commit sets the request in AUTO and zero otherwise, and enqueues that value if there is room. */
  lemma CommitExactly(s: State)
    requires s.ctl.pc.CtlCommit?
    ensures var t := CtlStep(s); var v := if s.cmd.mode == Auto then s.ctl.pc.requested else 0.0;
      && t.cmd == s.cmd.(output := v)
      && t.outs == (if |s.txq| < 8 then s.outs + [v] else s.outs)
      && t.txq == (if |s.txq| < 8 then s.txq + [Output(v)] else s.txq)
  {
  }

  /** Each cycle samples the mode of the ECU, and computes in AUTO only. */
  lemma SampleExactly(s: State)
    requires s.ctl.pc.CtlSample?
    ensures var t := CtlStep(s);
      && t.ctl.modes == s.ctl.modes + [s.cmd.mode] && t.ctl.prevMode == s.cmd.mode
      && t.ctl.pc == (if s.cmd.mode == Auto then CtlSetpoint else CtlCommit(0.0))
      && t.ctl.pid == (if s.cmd.mode == s.ctl.prevMode then s.ctl.pid else Pid.Memory(0.0, 0.0))
  {
  }

  /** In AUTO, the sample is the setpoint and the speed read. */
  lemma ReadExactly(s: State)
    ensures s.ctl.pc.CtlSetpoint? ==> CtlStep(s).ctl.pc == CtlSpeed(s.setpoint)
    ensures s.ctl.pc.CtlSpeed? ==>
      CtlStep(s).ctl.samples == s.ctl.samples + [Pid.Sample(s.ctl.pc.setpoint, s.speed)]
  {
    hide Dispatch;
  }

  // ----- The samples -----

  predicate Sampled(s: State) {
    && (forall i :: 0 <= i < |s.ctl.samples| ==> s.ctl.samples[i].Sample?)
    && (s.ctl.pc.CtlSpeed? ==> s.ctl.pc.setpoint == s.setpoint)
    && (s.ctl.pc.CtlCommit? && s.ctl.prevMode == Auto ==>
          |s.ctl.samples| > 0 && s.ctl.samples[|s.ctl.samples| - 1] == Pid.Sample(s.setpoint, s.speed))
  }

  lemma SamplingSampled(s: State)
    requires Sampled(s) && s.ctl.pc.CtlSample?
    ensures Sampled(CtlStep(s))
  {
  }

  lemma ComputingSampled(s: State)
    requires Sampled(s) && s.ctl.pc.CtlSpeed?
    ensures Sampled(CtlStep(s))
  {
    hide Pid.Output, Pid.Next;
  }

  lemma OtherStepsSampled(s: State)
    requires Sampled(s) && !s.ctl.pc.CtlSample? && !s.ctl.pc.CtlSpeed?
    ensures Sampled(CtlStep(s))
  {
    hide Dispatch, CommitStep, SampleMode, ComputePid;
  }

  lemma StepKeepsSampled(s: State, step: Step)
    requires Sampled(s)
    ensures Sampled(Next(s, step))
  {
    hide RxStep, CtlStep, FsStep, TxStep;
    match step {
      case RxTask(input) => RxFrame(s, input);
      case CtlTask =>
        if s.ctl.pc.CtlSample? {
          SamplingSampled(s);
        } else if s.ctl.pc.CtlSpeed? {
          ComputingSampled(s);
        } else {
          OtherStepsSampled(s);
        }
      case FsTask(open, due) => FsFrame(s, open, due);
      case TxTask(written) => TxFrame(s, written);
      case _ =>
    }
  }

  lemma InitiallySampled()
    ensures Sampled(INITIAL_STATE)
  {
  }

  lemma {:induction false} SampledAfter(steps: seq<Step>)
    ensures Sampled(Exec(INITIAL_STATE, steps))
    decreases |steps|
  {
    hide Next, Sampled;
    if |steps| == 0 {
      InitiallySampled();
    } else {
      var n := |steps| - 1;
      SampledAfter(steps[..n]);
      StepKeepsSampled(Exec(INITIAL_STATE, steps[..n]), steps[n]);
    }
  }

  // ----- The request, in numbers -----

  /** The errors of the current stretch of AUTO cycles. */
  function StretchErrors(c: Ctl): seq<real>
    requires forall i :: 0 <= i < |c.samples| ==> c.samples[i].Sample?
  {
    S.Errors(Stretch(c))
  }

  /** 2 e_n + 0.08 (kept errors + e_n) + 0.2 (e_n - e_{n-1}), within 0 and 255. */
  predicate IsPidSum(e: seq<real>, v: real) {
    && |e| > 0
    && var n := |e| - 1; var prev := if n == 0 then 0.0 else e[n - 1];
       var demand := 2.0 * e[n] + 0.08 * (S.KeptSum(Pid.DEFAULT, e[..n]) + e[n]) + 0.2 * (e[n] - prev);
       v == (if demand > 255.0 then 255.0 else if demand < 0.0 then 0.0 else demand)
  }

  /**
   * The request of a cycle: in a stretch of n AUTO cycles, the PID sum over the n errors of that
   * stretch, the last being that of the last plausible setpoint and speed dispatched.
   */
  predicate RequestExplained(s: State)
    requires s.ctl.pc.CtlCommit?
  {
    var n := TrailingAutos(s.ctl.modes);
    if n == 0 then s.ctl.pc.requested == 0.0
    else
      && (forall i :: 0 <= i < |s.ctl.samples| ==> s.ctl.samples[i].Sample?)
      && var e := StretchErrors(s.ctl);
      && |e| == n && IsPidSum(e, s.ctl.pc.requested)
      && e[n - 1] == D.LastValue(s.ctl.dispatched, SETPOINT, 220.0) - D.LastValue(s.ctl.dispatched, SPEED, 242.0)
  }

  lemma StretchLength(c: Ctl)
    requires Folds(c) && c.pc.CtlCommit? && TrailingAutos(c.modes) > 0
    requires forall i :: 0 <= i < |c.samples| ==> c.samples[i].Sample?
    ensures var ops := Stretch(c); var n := TrailingAutos(c.modes);
      && |ops| == n <= |c.samples| && ops[n - 1] == c.samples[|c.samples| - 1]
      && (forall i :: 0 <= i < |ops| ==> ops[i].Sample?)
      && LastOutput(ops, c.pc.requested)
  {
    hide TrailingAutos, LastOutput, Folded;
  }

  lemma LastOutputIsReturned(ops: seq<Pid.Op>, v: real)
    requires (forall i :: 0 <= i < |ops| ==> ops[i].Sample?) && LastOutput(ops, v)
    ensures v == S.Returned(Pid.DEFAULT, S.Errors(ops))
  {
    hide Pid.Output, Pid.RunOps, S.MemoryAfter;
    var n := |ops| - 1;
    S.RunIsMemoryAfter(Pid.DEFAULT, ops[..n]);
    assert S.Errors(ops)[..n] == S.Errors(ops[..n]);
  }

  lemma SaneRequest(s: State)
    requires s.ctl.pc.CtlCommit? && Folds(s.ctl) && Sampled(s) && D.Delivered(s)
    ensures RequestExplained(s)
  {
    hide TrailingAutos, LastOutput, Folded, Stretch, S.Returned, S.KeptSum, D.LastValue, D.Kept, D.Losses;
    if TrailingAutos(s.ctl.modes) > 0 {
      StretchLength(s.ctl);
      LastOutputIsReturned(Stretch(s.ctl), s.ctl.pc.requested);
      S.DefaultInNumbers(StretchErrors(s.ctl));
    }
  }

  /** In every run, the request about to be committed is explained. */
  lemma RequestInNumbers(steps: seq<Step>)
    requires Exec(INITIAL_STATE, steps).ctl.pc.CtlCommit?
    ensures RequestExplained(Exec(INITIAL_STATE, steps))
  {
    hide Exec, Folds, Booted, Plausible, Sampled, D.Delivered, RequestExplained;
    SaneAfter(steps);
    SampledAfter(steps);
    D.DeliveredAfter(steps);
    SaneRequest(Exec(INITIAL_STATE, steps));
  }

  // ----- Every command enqueued -----

  /** The step of state `s` that enqueued `v`: a failsafe entry, or a commit of an explained request. */
  predicate Explains(s: State, step: Step, v: real) {
    || (Enters(s, step) && v == 0.0)
    || (step.CtlTask? && s.ctl.pc.CtlCommit? && RequestExplained(s)
        && v == if s.cmd.mode == Auto then s.ctl.pc.requested else 0.0)
  }

  lemma EmissionExplained(s: State, step: Step)
    requires Next(s, step).outs != s.outs
    requires s.ctl.pc.CtlCommit? ==> RequestExplained(s)
    ensures |s.txq| < 8 && |Next(s, step).outs| == |s.outs| + 1
    ensures Next(s, step).outs[..|s.outs|] == s.outs
    ensures Explains(s, step, Next(s, step).outs[|s.outs|])
  {
    hide Next, RequestExplained;
    StepQueues(s, step);
  }

  lemma RequestIfAny(steps: seq<Step>)
    ensures var s := Exec(INITIAL_STATE, steps); s.ctl.pc.CtlCommit? ==> RequestExplained(s)
  {
    hide Exec, RequestExplained;
    if Exec(INITIAL_STATE, steps).ctl.pc.CtlCommit? {
      RequestInNumbers(steps);
    }
  }

  /**
   * In every run, the i-th command ever enqueued was enqueued by one step `k`, with room in
   * queue_tx: a failsafe entry enqueueing zero, or a commit, in AUTO of the PID sum of its stretch.
   */
  lemma {:induction false} EveryCommandIsExplained(steps: seq<Step>, i: nat) returns (k: nat)
    requires i < |Exec(INITIAL_STATE, steps).outs|
    ensures k < |steps|
    ensures var s := Exec(INITIAL_STATE, steps[..k]);
      |s.outs| == i && |s.txq| < 8 && Explains(s, steps[k], Exec(INITIAL_STATE, steps).outs[i])
    decreases |steps|
  {
    hide Next, Explains;
    var n := |steps| - 1;
    var s := Exec(INITIAL_STATE, steps[..n]);
    assert |steps| > 0;
    if Next(s, steps[n]).outs == s.outs {
      k := EveryCommandIsExplained(steps[..n], i);
      PrefixOfPrefix(INITIAL_STATE, steps, n, k);
    } else {
      RequestIfAny(steps[..n]);
      EmissionExplained(s, steps[n]);
      if i < |s.outs| {
        k := EveryCommandIsExplained(steps[..n], i);
        PrefixOfPrefix(INITIAL_STATE, steps, n, k);
      } else {
        k := n;
      }
    }
  }
}
