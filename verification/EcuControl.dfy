/**
 * What task_control computes, in every interleaving (main/task_control.c:91-110,
 * main/task_control.c:150-211): measurements stay plausible, each request in AUTO is the fold of
 * the PID over the current stretch of AUTO cycles, and every command is within its range.
 */
module EcuControl {
  import opened Bytes
  import opened Protocol
  import opened Command
  import opened Payload
  import opened Ecu
  import opened EcuLock
  import opened EcuOutput
  import Pid

  const SETPOINT_MAX := 220.0
  const SPEED_MAX := 242.0
  const OUTPUT_MAX := 255.0

  /** How many cycles, up to the last, sampled AUTO without interruption. */
  function TrailingAutos(modes: seq<Mode>): nat
    decreases |modes|
  {
    if |modes| == 0 || modes[|modes| - 1] != Auto then 0 else 1 + TrailingAutos(modes[..|modes| - 1])
  }

  /** AUTO sampled, PID not yet computed. */
  predicate Computing(pc: CtlPc) {
    pc.CtlSetpoint? || pc.CtlSpeed?
  }

  /** The samples computed in the current stretch of AUTO cycles. */
  function Stretch(c: Ctl): seq<Pid.Op> {
    var n := TrailingAutos(c.modes) - (if Computing(c.pc) then 1 else 0);
    if 0 <= n <= |c.samples| then c.samples[|c.samples| - n..] else []
  }

  function Folded(ops: seq<Pid.Op>): Pid.Memory {
    Pid.RunOps(Pid.DEFAULT, Pid.FRESH, ops)
  }

  /** What the PID returned for the last sample of a stretch. */
  predicate LastOutput(ops: seq<Pid.Op>, v: real) {
    var n := |ops| - 1;
    && n >= 0 && ops[n].Sample?
    && v == Pid.Output(Pid.DEFAULT, Folded(ops[..n]), ops[n].setpoint - ops[n].measure)
  }

  predicate Folds(c: Ctl) {
    && (if Computing(c.pc) then 1 else 0) <= TrailingAutos(c.modes)
    && TrailingAutos(c.modes) - (if Computing(c.pc) then 1 else 0) <= |c.samples|
    && c.pid == Folded(Stretch(c))
    && (c.prevMode == Auto <==> TrailingAutos(c.modes) > 0)
    && (c.pc.CtlCommit? ==> if c.prevMode == Auto then LastOutput(Stretch(c), c.pc.requested) else c.pc.requested == 0.0)
  }

  predicate Plausible(s: State) {
    && 0.0 <= s.setpoint <= SETPOINT_MAX && 0.0 <= s.speed <= SPEED_MAX
    && (s.ctl.pc.CtlSpeed? ==> 0.0 <= s.ctl.pc.setpoint <= SETPOINT_MAX)
    && Pid.ErrorsWithin(s.ctl.samples, -SPEED_MAX, SETPOINT_MAX)
  }

  predicate Booted(s: State) {
    s.ctl.pc.CtlBoot? ==> s.cmd.mode != Auto && |s.ctl.modes| == 0
  }

  // ----- One step -----

  lemma {:induction false} FoldSnoc(m: Pid.Memory, ops: seq<Pid.Op>, op: Pid.Op)
    ensures Pid.RunOps(Pid.DEFAULT, m, ops + [op]) == Pid.Step(Pid.DEFAULT, Pid.RunOps(Pid.DEFAULT, m, ops), op)
    decreases |ops|
  {
    hide Pid.Step;
    if |ops| == 0 {
      assert ops + [op] == [op] && [op][1..] == [];
    } else {
      assert (ops + [op])[1..] == ops[1..] + [op];
      FoldSnoc(Pid.Step(Pid.DEFAULT, m, ops[0]), ops[1..], op);
    }
  }

  lemma FoldedSnoc(ops: seq<Pid.Op>, setpoint: real, speed: real)
    ensures Folded(ops + [Pid.Sample(setpoint, speed)]) == Pid.Next(Pid.DEFAULT, Folded(ops), setpoint - speed)
  {
    hide Pid.Next;
    FoldSnoc(Pid.FRESH, ops, Pid.Sample(setpoint, speed));
  }

  lemma OneMoreMode(modes: seq<Mode>, mode: Mode)
    ensures TrailingAutos(modes + [mode]) == if mode == Auto then TrailingAutos(modes) + 1 else 0
  {
    assert (modes + [mode])[..|modes|] == modes;
  }

  lemma SamplingFolds(c: Ctl, mode: Mode)
    requires Folds(c) && c.pc.CtlSample?
    ensures Folds(SampleMode(c, mode))
  {
    hide TrailingAutos, Folded, LastOutput;
    OneMoreMode(c.modes, mode);
    var d := SampleMode(c, mode);
    if mode == c.prevMode {
      assert Stretch(d) == Stretch(c);
    } else {
      assert Stretch(d) == [];
      FreshFold();
    }
  }

  lemma FreshFold()
    ensures Folded([]) == Pid.FRESH
  {
  }

  lemma ComputingFolds(c: Ctl, setpoint: real, speed: real)
    requires Folds(c) && c.pc.CtlSpeed?
    ensures Folds(ComputePid(c, setpoint, speed))
  {
    hide Pid.Output, Pid.Next, TrailingAutos, Folded;
    var ops := Stretch(c);
    var op := Pid.Sample(setpoint, speed);
    FoldedSnoc(ops, setpoint, speed);
    var d := ComputePid(c, setpoint, speed);
    assert Stretch(d) == ops + [op];
    assert (ops + [op])[..|ops|] == ops;
  }

  /** The steps that neither sample the mode nor compute the PID leave the fold alone. */
  lemma OtherControlSteps(s: State)
    requires !s.ctl.pc.CtlSample? && !s.ctl.pc.CtlSpeed? && !s.ctl.pc.CtlBoot?
    ensures var c := s.ctl; var d := CtlStep(s).ctl;
      && d.modes == c.modes && d.samples == c.samples && d.pid == c.pid && d.prevMode == c.prevMode
      && Computing(d.pc) == Computing(c.pc) && !d.pc.CtlCommit?
  {
    hide Dispatch, CommitStep, SampleMode, ComputePid;
  }

  lemma BootFolds(s: State)
    requires Folds(s.ctl) && Booted(s) && s.ctl.pc.CtlBoot?
    ensures Folds(CtlStep(s).ctl)
  {
    hide Folded, LastOutput;
  }

  lemma ControlFolds(s: State)
    requires Folds(s.ctl) && Booted(s)
    ensures Folds(CtlStep(s).ctl)
  {
    hide CtlStep, SampleMode, ComputePid, Folded, LastOutput, TrailingAutos;
    match s.ctl.pc {
      case CtlSample =>
        assert CtlStep(s).ctl == SampleMode(s.ctl, s.cmd.mode) by { SamplingStep(s); }
        SamplingFolds(s.ctl, s.cmd.mode);
      case CtlSpeed(setpoint) =>
        assert CtlStep(s).ctl == ComputePid(s.ctl, setpoint, s.speed) by { SamplingStep(s); }
        ComputingFolds(s.ctl, setpoint, s.speed);
      case CtlBoot => BootFolds(s);
      case _ => OtherControlSteps(s);
    }
  }

  lemma SamplingStep(s: State)
    ensures s.ctl.pc.CtlSample? ==> CtlStep(s).ctl == SampleMode(s.ctl, s.cmd.mode)
    ensures s.ctl.pc.CtlSpeed? ==> CtlStep(s).ctl == ComputePid(s.ctl, s.ctl.pc.setpoint, s.speed)
  {
    hide Dispatch, Emit, SampleMode, ComputePid;
  }

  lemma NeverBootsAgain(s: State)
    ensures !CtlStep(s).ctl.pc.CtlBoot?
  {
    hide Dispatch, Emit;
  }

  lemma ControlPlausible(s: State)
    requires Plausible(s)
    ensures Plausible(CtlStep(s))
  {
    hide ParseFloat, Emit, Pid.Output, Pid.Next;
  }

  predicate Sane(s: State) {
    Folds(s.ctl) && Booted(s) && Plausible(s)
  }

  lemma StepKeepsSane(s: State, step: Step)
    requires Sane(s)
    ensures Sane(Next(s, step))
  {
    hide RxStep, CtlStep, FsStep, TxStep, Folds;
    match step {
      case RxTask(input) => RxFrame(s, input);
      case CtlTask =>
        ControlFolds(s);
        NeverBootsAgain(s);
        ControlPlausible(s);
      case FsTask(open, due) =>
        FsFrame(s, open, due);
        FailsafeMayUnlock(s, open, due);
      case TxTask(written) => TxFrame(s, written);
      case _ =>
    }
  }

  lemma InitiallySane()
    ensures Sane(INITIAL_STATE)
  {
  }

  lemma {:induction false} SaneAfter(steps: seq<Step>)
    ensures Sane(Exec(INITIAL_STATE, steps))
    decreases |steps|
  {
    hide Next, Sane;
    if |steps| == 0 {
      InitiallySane();
    } else {
      var n := |steps| - 1;
      SaneAfter(steps[..n]);
      StepKeepsSane(Exec(INITIAL_STATE, steps[..n]), steps[n]);
    }
  }

  // ----- All runs -----

  /**
   * In every interleaving, a request about to be committed is the PID folded over the samples of
   * the current stretch of AUTO cycles, from a fresh controller, or zero when the cycle did not
   * sample AUTO. A failsafe that control never samples does not end the stretch.
   */
  lemma RequestIsTheFold(steps: seq<Step>)
    ensures var c := Exec(INITIAL_STATE, steps).ctl;
      && c.pid == Folded(Stretch(c))
      && (c.pc.CtlCommit? ==>
            if TrailingAutos(c.modes) > 0 then LastOutput(Stretch(c), c.pc.requested) else c.pc.requested == 0.0)
  {
    hide Exec, Folded, LastOutput, Stretch, TrailingAutos;
    SaneAfter(steps);
  }

  /**
   * Such a failsafe: entered, and lifted by a request for AUTO that was waiting, within one cycle.
   * The ECU was in OFF in between and announced a zero command, but the integral is kept.
   */
  lemma UnsampledFailsafeKeepsIntegral(s: State, open: bool, due: bool)
    requires s.fs.pc.FsSilent? && s.modeq == Some(Auto) && |s.rxq| == 0 && !s.cmd.locked
    requires s.ctl.pc.CtlMode? && s.ctl.prevMode == Auto
    ensures var stopped := FsStep(s, open, due);
      var t := CtlStep(CtlStep(CtlStep(CtlStep(stopped))));
      && stopped.cmd.mode == Off
      && t.ctl.pc.CtlSetpoint? && t.cmd.mode == Auto && t.ctl.pid == s.ctl.pid
  {
    hide Emit;
  }

  /** Setpoint and speed stay plausible, so the integral and the request stay within bounds. */
  lemma ControllerStaysBounded(steps: seq<Step>)
    ensures var s := Exec(INITIAL_STATE, steps);
      && 0.0 <= s.setpoint <= 220.0 && 0.0 <= s.speed <= 242.0
      && -60.5 <= s.ctl.pid.integral <= 373.75
      && (s.ctl.pc.CtlCommit? ==> 0.0 <= s.ctl.pc.requested <= OUTPUT_MAX)
  {
    hide Exec, TrailingAutos;
    SaneAfter(steps);
    SaneIsBounded(Exec(INITIAL_STATE, steps));
  }

  lemma SaneIsBounded(s: State)
    requires Sane(s)
    ensures -60.5 <= s.ctl.pid.integral <= 373.75
    ensures s.ctl.pc.CtlCommit? ==> 0.0 <= s.ctl.pc.requested <= OUTPUT_MAX
  {
    hide TrailingAutos, Pid.RunOps, Pid.Raw;
    Pid.DefaultIntegralBounds(Stretch(s.ctl));
  }

  predicate InRange(v: seq<real>) {
    forall i :: 0 <= i < |v| ==> 0.0 <= v[i] <= OUTPUT_MAX
  }

  /** Every command ever enqueued is within the range of the actuator. */
  lemma {:induction false} CommandsAreInRange(steps: seq<Step>)
    ensures InRange(Exec(INITIAL_STATE, steps).outs)
    decreases |steps|
  {
    hide Next, Sane;
    if |steps| > 0 {
      var n := |steps| - 1;
      CommandsAreInRange(steps[..n]);
      var s := Exec(INITIAL_STATE, steps[..n]);
      SaneAfter(steps[..n]);
      SaneIsBounded(s);
      StepQueues(s, steps[n]);
    }
  }
}
