/**
 * Silence of the line (main/failsafe.c:118-135, main/task_rx.c:183-196, main/task_control.c:120-128):
 * exactly when a poll trips on wrapping 32-bit ticks, and what continued silence leads to.
 */
module EcuSilence {
  import opened Protocol
  import opened Command
  import opened Ecu
  import opened EcuLock
  import opened Stream
  import opened Payload

  // ----- When a poll trips -----

  /** The stamp is the tick counter at the time it was taken. */
  predicate Stamped(s: State) {
    s.lastRx == TickOf(s.lastRxTime)
  }

  lemma TickDifference(now: nat, last: nat)
    ensures (TickOf(now) - TickOf(last)) % TICK_RANGE == (now - last) % TICK_RANGE
  {
    var d := (now - last) - (TickOf(now) - TickOf(last));
    assert d == TICK_RANGE * (now / TICK_RANGE - last / TICK_RANGE);
    SameResidue(TickOf(now) - TickOf(last), now / TICK_RANGE - last / TICK_RANGE);
  }

  lemma SameResidue(a: int, k: int)
    ensures (a + TICK_RANGE * k) % TICK_RANGE == a % TICK_RANGE
  {
    var q := a / TICK_RANGE;
    assert a + TICK_RANGE * k == TICK_RANGE * (q + k) + a % TICK_RANGE;
  }

  /**
   * The test of a poll, on times: the mode sampled is not OFF and the age of the last stamp is at
   * least 200 ticks modulo 2^32; without a wrap, it is that old, or newer than the reading.
   */
  lemma TripsExactly(s: State, open: bool, due: bool)
    requires Stamped(s) && s.fs.pc.FsLast?
    ensures var age := s.fs.pc.now - s.lastRxTime; var trips := FsStep(s, open, due).fs.pc.FsSilent?;
      && (trips <==> s.fs.pc.mode != Off && age % 0x1_0000_0000 >= 200)
      && (200 - 0x1_0000_0000 <= age < 0x1_0000_0000 ==>
            (trips <==> s.fs.pc.mode != Off && (age < 0 || age >= 200)))
  {
    TickDifference(s.fs.pc.now, s.lastRxTime);
  }

  /**
   * A frame stamped between the two reads of a poll makes it trip, although the frame is the
   * freshest possible: in this run it is stamped at the very moment of the trip.
   */
  lemma FreshFrameTrips(s: State, input: Input, open: bool, due: bool)
    requires s.fs.pc.FsNow? && s.fs.pc.mode != Off && s.rx.pc.RxTick?
    ensures var read := Next(FsStep(s, open, due), Tick);
      var stamped := RxStep(RxStep(read, input), input);
      stamped.lastRxTime == stamped.time && FsStep(stamped, open, due).fs.pc.FsSilent?
  {
    hide Elapsed;
    var read := Next(FsStep(s, open, due), Tick);
    assert read.fs.pc == FsLast(s.fs.pc.mode, s.time) && read.time == s.time + 1;
    var stamped := RxStep(RxStep(read, input), input);
    assert Stamped(stamped) && stamped.lastRxTime == s.time + 1;
    TripsExactly(stamped, open, due);
  }

  // ----- Silence: no frame is accepted -----

  predicate AcceptsFrame(s: State, step: Step) {
    step.RxTask? && s.rx.pc.RxRead? && !RxStep(s, step.input).rx.pc.RxRead?
  }

  predicate Silent(s: State, steps: seq<Step>) {
    forall i :: 0 <= i < |steps| ==> !AcceptsFrame(Exec(s, steps[..i]), steps[i])
  }

  lemma ShorterSilence(s: State, steps: seq<Step>, n: nat)
    requires n <= |steps| && Silent(s, steps)
    ensures Silent(s, steps[..n])
  {
    hide AcceptsFrame;
    forall i | 0 <= i < n
      ensures !AcceptsFrame(Exec(s, steps[..n][..i]), steps[..n][i])
    {
      PrefixOfPrefix(s, steps, n, i);
    }
  }

  /** No mode request is waiting or in hand, and no frame that could carry one. */
  predicate Drained(s: State) {
    s.rx.pc.RxRead? && s.modeq.None? && !s.ctl.pc.CtlTry?
  }

  /** How many steps of control, at most, until the pending request has been tried. */
  function UntilDrained(s: State): nat {
    if s.modeq.None? && !s.ctl.pc.CtlTry? then 0 else
    match s.ctl.pc
    case CtlTry(_) => if s.modeq.None? then 1 else 8 + 2 * |s.rxq|
    case CtlBoot => 3
    case CtlMode => 2
    case CtlDispatch => 7 + 2 * |s.rxq|
    case CtlHeld(_) => 8 + 2 * |s.rxq|
    case CtlSample => 6
    case CtlSetpoint => 5
    case CtlSpeed(_) => 4
    case CtlCommit(_) => 3
  }

  lemma SilentRx(s: State, step: Step)
    requires s.rx.pc.RxRead? && step.RxTask? && !AcceptsFrame(s, step)
    ensures Next(s, step) == s.(rx := Next(s, step).rx) && Next(s, step).rx.pc.RxRead?
  {
    hide RxInput;
  }

  lemma ControlDrains(s: State)
    ensures UntilDrained(CtlStep(s)) < UntilDrained(s) || UntilDrained(CtlStep(s)) == 0
  {
    hide Dispatch, SampleMode, ComputePid, Emit;
    if s.ctl.pc.CtlSample? {
      SampleGoesOn(s.ctl, s.cmd.mode);
    }
  }

  lemma SampleGoesOn(c: Ctl, mode: Mode)
    ensures SampleMode(c, mode).pc.CtlSetpoint? || SampleMode(c, mode).pc.CtlCommit?
  {
  }

  function Count(steps: seq<Step>, ctl: bool): nat
    decreases |steps|
  {
    if |steps| == 0 then 0
    else
      var last := steps[|steps| - 1];
      Count(steps[..|steps| - 1], ctl) + (if (if ctl then last.CtlTask? else last.FsTask?) then 1 else 0)
  }

  /** A step without an accepted frame. */
  lemma SilentStep(s: State, step: Step)
    requires s.rx.pc.RxRead? && !AcceptsFrame(s, step)
    ensures var t := Next(s, step);
      && t.rx.pc.RxRead? && t.lastRx == s.lastRx && t.lastRxTime == s.lastRxTime && s.time <= t.time
      && (step.CtlTask? || (t.modeq == s.modeq && t.ctl == s.ctl && t.rxq == s.rxq))
  {
    hide RxStep, CtlStep, FsStep, TxStep, AcceptsFrame;
    match step {
      case RxTask(input) => SilentRx(s, step);
      case CtlTask => CtlFrame(s);
      case FsTask(open, due) => FsFrame(s, open, due);
      case TxTask(written) => TxFrame(s, written);
      case _ =>
    }
  }

  lemma {:induction false} SilenceDrains(s: State, steps: seq<Step>)
    requires s.rx.pc.RxRead? && Silent(s, steps)
    ensures var t := Exec(s, steps);
      && t.rx.pc.RxRead? && t.lastRx == s.lastRx && t.lastRxTime == s.lastRxTime && s.time <= t.time
      && (UntilDrained(t) == 0 || UntilDrained(t) + Count(steps, true) <= UntilDrained(s))
    decreases |steps|
  {
    hide Next, AcceptsFrame, UntilDrained;
    if |steps| > 0 {
      var n := |steps| - 1;
      ShorterSilence(s, steps, n);
      SilenceDrains(s, steps[..n]);
      DrainStep(Exec(s, steps[..n]), steps[n]);
    }
  }

  lemma DrainStep(s: State, step: Step)
    requires s.rx.pc.RxRead? && !AcceptsFrame(s, step)
    ensures var t := Next(s, step);
      && t.rx.pc.RxRead? && t.lastRx == s.lastRx && t.lastRxTime == s.lastRxTime && s.time <= t.time
      && (UntilDrained(t) == 0 || UntilDrained(t) + (if step.CtlTask? then 1 else 0) <= UntilDrained(s))
  {
    hide CtlStep, AcceptsFrame;
    SilentStep(s, step);
    if step.CtlTask? {
      ControlDrains(s);
    } else {
      SameDistance(s, Next(s, step));
    }
  }

  lemma SameDistance(s: State, t: State)
    requires t.modeq == s.modeq && t.ctl == s.ctl && t.rxq == s.rxq
    ensures UntilDrained(t) == UntilDrained(s)
  {
  }

  /** In silence, the pending mode request has been tried after at most 40 steps of control. */
  lemma DrainedInTime(s: State, steps: seq<Step>)
    requires s.rx.pc.RxRead? && |s.rxq| <= RX_DEPTH && Silent(s, steps) && Count(steps, true) >= 40
    ensures Drained(Exec(s, steps))
  {
    hide Exec, Silent, Count;
    SilenceDrains(s, steps);
  }

  // ----- One poll in silence -----

  /** Steps left in the poll; zero outside it. */
  function Left(pc: FsPc): nat {
    match pc
    case FsMode => 4
    case FsNow(_) => 3
    case FsLast(_, _) => 2
    case FsSilent => 1
    case _ => 0
  }

  predicate WillTrip(s: State) {
    && Left(s.fs.pc) > 0
    && (s.fs.pc.FsNow? || s.fs.pc.FsLast? ==> s.fs.pc.mode != Off)
    && (s.fs.pc.FsLast? ==> TIMEOUT_TICKS <= s.fs.pc.now - s.lastRxTime < TICK_RANGE)
  }

  lemma PollStep(s: State, open: bool, due: bool)
    requires Stamped(s) && s.cmd.mode != Off && WillTrip(s)
    requires TIMEOUT_TICKS <= s.time - s.lastRxTime < TICK_RANGE
    ensures var t := FsStep(s, open, due);
      t.cmd.mode == Off || (WillTrip(t) && Left(t.fs.pc) == Left(s.fs.pc) - 1)
  {
    hide Elapsed, LineEvent, Emit;
    if s.fs.pc.FsLast? {
      TripsExactly(s, open, due);
    }
  }

  lemma ControlKeepsMode(s: State)
    requires !s.ctl.pc.CtlTry?
    ensures CtlStep(s).cmd.mode == s.cmd.mode && CtlStep(s).fs == s.fs
    ensures s.modeq.None? ==> !CtlStep(s).ctl.pc.CtlTry? && CtlStep(s).modeq.None?
  {
    hide Dispatch, SampleMode, ComputePid, Emit;
  }

  lemma FailsafeKeepsOff(s: State, open: bool, due: bool)
    ensures FsStep(s, open, due).cmd.mode == s.cmd.mode || FsStep(s, open, due).cmd.mode == Off
  {
    hide Elapsed, LineEvent, Emit;
  }

  lemma DrainedStep(s: State, step: Step)
    requires Drained(s) && Stamped(s) && !AcceptsFrame(s, step)
    ensures var t := Next(s, step);
      && Drained(t) && Stamped(t) && t.lastRxTime == s.lastRxTime && s.time <= t.time
      && (s.cmd.mode == Off ==> t.cmd.mode == Off)
  {
    hide RxStep, CtlStep, FsStep, TxStep, AcceptsFrame;
    SilentStep(s, step);
    match step {
      case RxTask(input) => RxFrame(s, input);
      case CtlTask => ControlKeepsMode(s);
      case FsTask(open, due) => FailsafeKeepsOff(s, open, due);
      case TxTask(written) => TxFrame(s, written);
      case _ =>
    }
  }

  lemma StoppingStep(s: State, step: Step)
    requires Drained(s) && Stamped(s) && !AcceptsFrame(s, step) && WillTrip(s) && s.cmd.mode != Off
    requires TIMEOUT_TICKS <= s.time - s.lastRxTime < TICK_RANGE
    ensures var t := Next(s, step);
      t.cmd.mode == Off || (WillTrip(t) && Left(t.fs.pc) == Left(s.fs.pc) - (if step.FsTask? then 1 else 0))
  {
    hide RxStep, CtlStep, FsStep, TxStep, AcceptsFrame;
    SilentStep(s, step);
    match step {
      case RxTask(input) => RxFrame(s, input);
      case CtlTask => ControlKeepsMode(s);
      case FsTask(open, due) => PollStep(s, open, due);
      case TxTask(written) => TxFrame(s, written);
      case _ =>
    }
  }

  /** OFF stays OFF for as long as no frame is accepted. */
  lemma {:induction false} SilenceKeepsOff(s: State, steps: seq<Step>)
    requires Drained(s) && Stamped(s) && Silent(s, steps)
    ensures var t := Exec(s, steps);
      && Drained(t) && Stamped(t) && t.lastRxTime == s.lastRxTime && s.time <= t.time
      && (s.cmd.mode == Off ==> t.cmd.mode == Off)
    decreases |steps|
  {
    hide Next, AcceptsFrame, Drained, Stamped;
    if |steps| > 0 {
      var n := |steps| - 1;
      ShorterSilence(s, steps, n);
      SilenceKeepsOff(s, steps[..n]);
      DrainedStep(Exec(s, steps[..n]), steps[n]);
    }
  }

  lemma {:induction false} PollInSilence(s: State, steps: seq<Step>)
    requires Drained(s) && Stamped(s) && s.fs.pc.FsMode? && Silent(s, steps)
    requires TIMEOUT_TICKS <= s.time - s.lastRxTime && Exec(s, steps).time - s.lastRxTime < TICK_RANGE
    ensures var t := Exec(s, steps);
      t.cmd.mode == Off || (WillTrip(t) && Left(t.fs.pc) + Count(steps, false) == 4)
    decreases |steps|
  {
    hide Next, AcceptsFrame, Drained, Stamped;
    if |steps| > 0 {
      var n := |steps| - 1;
      var t := Exec(s, steps[..n]);
      ShorterSilence(s, steps, n);
      SilenceKeepsOff(s, steps[..n]);
      DrainedStep(t, steps[n]);
      PollInSilence(s, steps[..n]);
      if t.cmd.mode != Off {
        StoppingStep(t, steps[n]);
      }
    }
  }

  /**
   * In silence, whatever was pending: after 40 steps of control, a poll that starts at least 200
   * ticks after the last accepted frame has put the ECU in OFF when its four steps are done,
   * in every interleaving, and it stays there.
   */
  lemma SilenceStops(s: State, draining: seq<Step>, polling: seq<Step>)
    requires Stamped(s) && s.rx.pc.RxRead? && |s.rxq| <= RX_DEPTH
    requires Silent(s, draining) && Count(draining, true) >= 40
    requires var d := Exec(s, draining);
      && d.fs.pc.FsMode? && 200 <= d.time - s.lastRxTime
      && Silent(d, polling) && Count(polling, false) >= 4
      && Exec(d, polling).time - s.lastRxTime < 0x1_0000_0000
    ensures Exec(Exec(s, draining), polling).cmd.mode == Off
  {
    hide Exec, Silent, Count;
    SilenceDrains(s, draining);
    DrainedInTime(s, draining);
    PollInSilence(Exec(s, draining), polling);
  }

  // ----- Polls in every run -----

  /** Stamps are taken in order, and none lies in the future. */
  predicate Timely(s: State) {
    && Stamped(s) && s.lastRxTime <= s.time
    && (s.rx.pc.RxStamp? ==> s.lastRxTime <= s.rx.pc.time <= s.time)
  }

  lemma TimelyStep(s: State, step: Step)
    requires Timely(s)
    ensures Timely(Next(s, step))
  {
    hide CtlStep, FsStep, TxStep, RxInput, RxRouteStep, TickOf;
    match step {
      case RxTask(input) =>
        if s.rx.pc.RxRoute? {
          RoutingKeepsTimes(s, s.rx.pc.frame);
        } else if s.rx.pc.RxRead? {
          InputStampsNothing(s.rx, input);
        }
      case CtlTask => CtlFrame(s);
      case FsTask(open, due) => FsFrame(s, open, due);
      case TxTask(written) => TxFrame(s, written);
      case _ =>
    }
  }

  lemma RoutingKeepsTimes(s: State, f: Frame)
    ensures var t := RxRouteStep(s, f);
      t.lastRx == s.lastRx && t.lastRxTime == s.lastRxTime && t.time == s.time && !t.rx.pc.RxStamp?
  {
    hide ParseMode;
  }

  lemma InputStampsNothing(r: Rx, input: Input)
    requires r.pc.RxRead?
    ensures !RxInput(r, input).pc.RxStamp?
  {
    hide Stream.Step;
  }

  lemma {:induction false} TimelyAfter(steps: seq<Step>)
    ensures Timely(Exec(INITIAL_STATE, steps))
    decreases |steps|
  {
    hide Next, Timely;
    if |steps| == 0 {
      InitiallyTimely();
    } else {
      var n := |steps| - 1;
      TimelyAfter(steps[..n]);
      TimelyStep(Exec(INITIAL_STATE, steps[..n]), steps[n]);
    }
  }

  lemma InitiallyTimely()
    ensures Timely(INITIAL_STATE)
  {
  }

  predicate NoFailsafeStep(steps: seq<Step>) {
    forall i :: 0 <= i < |steps| ==> !steps[i].FsTask?
  }

  /** The step stores the stamp of a frame that arrived after `now`. */
  predicate StampsAfter(s: State, step: Step, now: nat) {
    step.RxTask? && s.rx.pc.RxStamp? && s.rx.pc.time > now
  }

  predicate StampedInBetween(s: State, steps: seq<Step>, now: nat) {
    exists i :: 0 <= i < |steps| && StampsAfter(Exec(s, steps[..i]), steps[i], now)
  }

  lemma OtherStep(s: State, step: Step, now: nat)
    requires Timely(s) && !step.FsTask?
    ensures var t := Next(s, step);
      t.fs == s.fs && (t.lastRxTime > now <==> s.lastRxTime > now || StampsAfter(s, step, now))
  {
    hide CtlStep, TxStep, RxInput, RxRouteStep, TickOf;
    match step {
      case RxTask(input) =>
        if s.rx.pc.RxRoute? {
          RxFrame(s, input);
          RoutingKeepsTimes(s, s.rx.pc.frame);
        }
      case CtlTask => CtlFrame(s);
      case TxTask(written) => TxFrame(s, written);
      case _ =>
    }
  }

  lemma OneMoreStep(s: State, steps: seq<Step>, now: nat)
    requires |steps| > 0
    ensures var n := |steps| - 1;
      StampedInBetween(s, steps, now)
      <==> StampedInBetween(s, steps[..n], now) || StampsAfter(Exec(s, steps[..n]), steps[n], now)
  {
    hide Exec, StampsAfter;
    var n := |steps| - 1;
    forall i | 0 <= i < n ensures steps[..n][..i] == steps[..i] && steps[..n][i] == steps[i] {
      PrefixOfPrefix(s, steps, n, i);
    }
    if StampedInBetween(s, steps, now) {
      var i :| 0 <= i < |steps| && StampsAfter(Exec(s, steps[..i]), steps[i], now);
      if i < n {
        assert StampsAfter(Exec(s, steps[..n][..i]), steps[..n][i], now);
      }
    }
    if StampedInBetween(s, steps[..n], now) {
      var i :| 0 <= i < n && StampsAfter(Exec(s, steps[..n][..i]), steps[..n][i], now);
      assert StampsAfter(Exec(s, steps[..i]), steps[i], now);
    }
  }

  /** While task_failsafe is between two reads, the stamp passes `now` exactly by a later frame. */
  lemma {:induction false} StampInWindow(s: State, steps: seq<Step>, now: nat)
    requires Timely(s) && s.lastRxTime <= now && NoFailsafeStep(steps)
    ensures var t := Exec(s, steps);
      t.fs == s.fs && Timely(t) && (t.lastRxTime > now <==> StampedInBetween(s, steps, now))
    decreases |steps|
  {
    hide Next, Timely, StampsAfter;
    if |steps| > 0 {
      var n := |steps| - 1;
      StampInWindow(s, steps[..n], now);
      TimelyStep(Exec(s, steps[..n]), steps[n]);
      OtherStep(Exec(s, steps[..n]), steps[n], now);
      OneMoreStep(s, steps, now);
    }
  }

  lemma ReadingStep(s: State, step: Step)
    requires Timely(s) && step.FsTask?
    ensures s.fs.pc.FsMode? ==> Next(s, step).fs.pc == FsNow(s.cmd.mode)
    ensures s.fs.pc.FsNow? ==> Next(s, step).fs.pc == FsLast(s.fs.pc.mode, s.time)
    ensures Next(s, step).lastRxTime == s.lastRxTime && Next(s, step).time == s.time
    ensures Timely(Next(s, step))
  {
    hide FsStep, TickOf;
    TimelyStep(s, step);
    FsFrame(s, step.open, step.due);
    assert s.fs.pc.FsMode? ==> FsStep(s, step.open, step.due).fs.pc == FsNow(s.cmd.mode) by { ReadingPc(s, step); }
    assert s.fs.pc.FsNow? ==> FsStep(s, step.open, step.due).fs.pc == FsLast(s.fs.pc.mode, s.time) by {
      ReadingPc(s, step);
    }
  }

  lemma ReadingPc(s: State, step: Step)
    requires step.FsTask?
    ensures s.fs.pc.FsMode? ==> FsStep(s, step.open, step.due).fs.pc == FsNow(s.cmd.mode)
    ensures s.fs.pc.FsNow? ==> FsStep(s, step.open, step.due).fs.pc == FsLast(s.fs.pc.mode, s.time)
  {
    hide LineEvent, EnterStep, AlarmStep, Elapsed;
  }

  /**
   * A whole poll in any run: task_failsafe samples the mode, reads the counter and reads the last
   * stamp, and the other tasks do anything in between. It trips if and only if the mode sampled
   * is not OFF and either a frame that arrived after the counter was read is stamped before the
   * stamp is read, or the stamp is at least 200 ticks old. Across a wrap of the 32-bit counter the
   * age modulo 2^32 decides.
   */
  lemma PollTripsExactly(before: seq<Step>, sampling: Step, w: seq<Step>, reading: Step, w': seq<Step>, testing: Step)
    requires sampling.FsTask? && reading.FsTask? && testing.FsTask? && NoFailsafeStep(w) && NoFailsafeStep(w')
    requires Exec(INITIAL_STATE, before).fs.pc.FsMode?
    ensures var s := Exec(INITIAL_STATE, before);
      var a := Exec(Next(s, sampling), w);
      var b := Exec(Next(a, reading), w');
      var age := a.time - b.lastRxTime;
      var trips := Next(b, testing).fs.pc.FsSilent?;
      && (trips <==> s.cmd.mode != Off && age % 0x1_0000_0000 >= 200)
      && (200 - 0x1_0000_0000 <= age < 0x1_0000_0000 ==>
            (trips <==> s.cmd.mode != Off
                        && (StampedInBetween(Next(a, reading), w', a.time) || age >= 200)))
  {
    hide Exec, FsStep, Timely, StampedInBetween;
    var s := Exec(INITIAL_STATE, before);
    TimelyAfter(before);
    ReadingStep(s, sampling);
    var s' := Next(s, sampling);
    assert s'.lastRxTime <= s'.time by { NotInFuture(s'); }
    StampInWindow(s', w, s'.time);
    var a := Exec(s', w);
    ReadingStep(a, reading);
    var a' := Next(a, reading);
    assert a'.lastRxTime <= a.time by { NotInFuture(a'); }
    StampInWindow(a', w', a.time);
    var b := Exec(a', w');
    assert Stamped(b) by { NotInFuture(b); }
    TripsExactly(b, testing.open, testing.due);
  }

  lemma NotInFuture(s: State)
    requires Timely(s)
    ensures Stamped(s) && s.lastRxTime <= s.time
  {
  }

  // ----- The UART latch in every run -----

  /** A poll finds the line silent. */
  predicate FindsSilence(s: State, step: Step) {
    step.FsTask? && s.fs.pc.FsLast? && Next(s, step).fs.pc.FsSilent?
  }

  /** A poll samples a mode other than OFF: the ECU has been resumed. */
  predicate SeesResumed(s: State, step: Step) {
    step.FsTask? && s.fs.pc.FsMode? && s.cmd.mode != Off
  }

  /** The last poll to find silence, or the ECU resumed, found silence. */
  function SilenceFoundLast(s: State, steps: seq<Step>): bool
    decreases |steps|
  {
    if |steps| == 0 then false
    else
      var n := |steps| - 1;
      var t := Exec(s, steps[..n]);
      if FindsSilence(t, steps[n]) then true
      else if SeesResumed(t, steps[n]) then false
      else SilenceFoundLast(s, steps[..n])
  }

  lemma UartLatchStep(s: State, step: Step)
    ensures Next(s, step).fs.uartLatched
         == if FindsSilence(s, step) then true else if SeesResumed(s, step) then false else s.fs.uartLatched
  {
    hide RxStep, CtlStep, TxStep, LineEvent, EnterStep, AlarmStep, Elapsed;
    match step {
      case RxTask(input) => RxFrame(s, input);
      case CtlTask => CtlFrame(s);
      case TxTask(written) => TxFrame(s, written);
      case FsTask(open, due) => AlarmKeepsUartLatch(s);
      case _ =>
    }
  }

  lemma AlarmKeepsUartLatch(s: State)
    ensures forall back: Return :: AlarmStep(s, back).fs.uartLatched == s.fs.uartLatched
  {
  }

  /** In every run the UART latch is set exactly if a poll has found silence and none has seen the ECU resumed since. */
  lemma {:induction false} UartLatchHistory(steps: seq<Step>)
    ensures Exec(INITIAL_STATE, steps).fs.uartLatched == SilenceFoundLast(INITIAL_STATE, steps)
    decreases |steps|
  {
    hide Next, FindsSilence, SeesResumed;
    if |steps| > 0 {
      var n := |steps| - 1;
      UartLatchHistory(steps[..n]);
      UartLatchStep(Exec(INITIAL_STATE, steps[..n]), steps[n]);
    }
  }
}
