/**
 * Runs from the initial state into the corners that the other modules speak of: the frames are
 * real encodings, fed byte by byte, and the five tasks are interleaved step by step.
 */
module EcuWitness {
  import opened Bytes
  import opened Protocol
  import P = Parser
  import opened Stream
  import opened Command
  import opened Payload
  import opened Ecu
  import opened EcuOutput
  import N = Nonce
  import R = RoundTrip
  import L = FailsafeLine
  import Pid
  import EcuSilence
  import EcuControl
  import EcuBalance
  import EcuDrive
  import PidSum

  predicate Leads(steps: seq<Step>, s: State) {
    Exec(INITIAL_STATE, steps) == s
  }

  ghost predicate Reachable(s: State) {
    exists steps :: Leads(steps, s)
  }

  lemma Begins()
    ensures Reachable(INITIAL_STATE)
  {
    assert Leads([], INITIAL_STATE);
  }

  lemma Reaches(s: State, step: Step)
    requires Reachable(s)
    ensures Reachable(Next(s, step))
  {
    hide Next;
    var steps :| Leads(steps, s);
    assert (steps + [step])[..|steps|] == steps;
    assert Leads(steps + [step], Next(s, step));
  }

  // ----- A frame arrives -----

  function BytesRead(r: Rx, p: seq<byte>): Rx {
    r.(pending := p, starts := r.starts + (if |p| > 0 then 1 else 0))
  }

  lemma PlausibleFrame(f: Frame, k: nat)
    requires f.Valid() && k < |Encode(f)|
    ensures P.Partial(Encode(f)[..k])
  {
    hide Encode, LoByte, HiByte, Word;
    R.EncodedHead(f);
    WordOfBytes(|f.payload| + 3);
    StartOfBlock(Encode(f), k);
  }

  lemma FeedsPrefix(f: Frame, k: nat)
    requires f.Valid() && k + 1 < |Encode(f)|
    ensures P.Feed(Encode(f)[..k], Encode(f)[k]) == (Encode(f)[..k + 1], P.Nothing)
  {
    hide Encode, P.Feed, Run;
    var e := Encode(f);
    PlausibleFrame(f, k);
    PlausibleFrame(f, k + 1);
    PrefixIsPending(e, k);
    PrefixIsPending(e, k + 1);
    RunSnoc(e, k);
  }

  lemma ReadsOne(s: State, f: Frame, k: nat)
    requires s.rx.pc.RxRead? && s.rx.pending == [] && f.Valid() && k + 1 < |Encode(f)|
    ensures var r := s.rx; var e := Encode(f);
      RxStep(s.(rx := BytesRead(r, e[..k])), Byte(e[k])) == s.(rx := BytesRead(r, e[..k + 1]))
  {
    hide Encode, P.Feed;
    FeedsPrefix(f, k);
  }

  lemma {:induction false} ReadsPrefix(s: State, f: Frame, k: nat)
    requires Reachable(s) && s.rx.pc.RxRead? && s.rx.pending == [] && f.Valid() && k < |Encode(f)|
    ensures Reachable(s.(rx := BytesRead(s.rx, Encode(f)[..k])))
    decreases k
  {
    hide Encode, RxStep, Reachable;
    if k == 0 {
      assert s.(rx := BytesRead(s.rx, Encode(f)[..0])) == s;
    } else {
      ReadsPrefix(s, f, k - 1);
      ReadsOne(s, f, k - 1);
      Reaches(s.(rx := BytesRead(s.rx, Encode(f)[..k - 1])), RxTask(Byte(Encode(f)[k - 1])));
    }
  }

  function Arrived(r: Rx, f: Frame): Rx {
    r.(pc := RxTick(f), lastNonce := f.nonce, valid := r.valid + 1, starts := r.starts + 1)
  }

  lemma ReadsLast(s: State, f: Frame)
    requires s.rx.pc.RxRead? && s.rx.pending == [] && f.Valid() && N.Newer(s.rx.lastNonce, f.nonce)
    ensures var e := Encode(f); var n := |e| - 1;
      RxStep(s.(rx := BytesRead(s.rx, e[..n])), Byte(e[n])) == s.(rx := Arrived(s.rx, f))
  {
    hide Encode, P.Feed, N.Newer;
    var e := Encode(f);
    var n := |e| - 1;
    PlausibleFrame(f, n);
    assert e[..n] + [e[n]] == e;
    P.ReadyIsEncoded(e[..n], e[n], f);
    ReadyEmpties(e[..n], e[n]);
  }

  lemma ReadyEmpties(p: seq<byte>, b: byte)
    requires |p| > 0
    ensures P.Feed(p, b).1.Ready? ==> P.Feed(p, b).0 == []
  {
    hide Word, Decode;
  }

  /** Fed with the bytes of a fresh frame, a waiting task_rx accepts it. */
  lemma FrameArrives(s: State, f: Frame)
    requires Reachable(s) && s.rx.pc.RxRead? && s.rx.pending == []
    requires f.Valid() && N.Newer(s.rx.lastNonce, f.nonce)
    ensures Reachable(s.(rx := Arrived(s.rx, f)))
  {
    hide Encode, RxStep, Reachable, N.Newer;
    var n := |Encode(f)| - 1;
    ReadsPrefix(s, f, n);
    ReadsLast(s, f);
    Reaches(s.(rx := BytesRead(s.rx, Encode(f)[..n])), RxTask(Byte(Encode(f)[n])));
  }

  /** The frame is stamped and about to be routed. */
  lemma FrameIsStamped(s: State, f: Frame) returns (t: State)
    requires Reachable(s) && s.rx.pc.RxRead? && s.rx.pending == []
    requires f.Valid() && N.Newer(s.rx.lastNonce, f.nonce)
    ensures Reachable(t)
    ensures t == s.(rx := Arrived(s.rx, f).(pc := RxRoute(f)), lastRx := TickOf(s.time), lastRxTime := s.time)
  {
    hide Reachable, N.Newer, TickOf;
    FrameArrives(s, f);
    t := s.(rx := Arrived(s.rx, f));
    Reaches(t, RxTask(Timeout));
    t := RxStep(t, Timeout);
    Reaches(t, RxTask(Timeout));
    t := RxStep(t, Timeout);
  }

  // ----- The frames of the runs -----

  function ModeFrame(m: Mode, nonce: u16): Frame {
    Frame(MODE_SET, nonce, [ModeByte(m)])
  }

  /** A setpoint of 64.0. */
  const SETPOINT_64 := Frame(SETPOINT, 1, [0x00, 0x00, 0x80, 0x42])

  lemma SixtyFour()
    ensures ParseBounded(SETPOINT_64, 0.0, 220.0) == Ok(64.0)
  {
    hide Pow2, Value;
    SixtyFourBytes();
    SeventeenBits();
  }

  lemma SixtyFourBytes()
    ensures Value(0x00) == 0 && Value(0x80) == 128 && Value(0x42) == 66
  {
  }

  lemma SeventeenBits()
    ensures Pow2(17) == 131072.0
  {
    SixteenBits();
  }

  /** `m` is requested while no request waits, and posted. */
  lemma ModePosted(s: State, m: Mode, nonce: u16) returns (t: State)
    requires Reachable(s) && s.rx.pc.RxRead? && s.rx.pending == [] && s.modeq.None?
    requires N.Newer(s.rx.lastNonce, nonce)
    ensures Reachable(t)
    ensures t == s.(rx := t.rx, modeq := Some(m), lastRx := TickOf(s.time), lastRxTime := s.time)
    ensures t.rx.pc.RxRead? && t.rx.pending == [] && t.rx.lastNonce == nonce
    ensures t.rx.modeOverwritten == s.rx.modeOverwritten && t.rx.realOverwrites == s.rx.realOverwrites
  {
    hide Reachable, N.Newer, TickOf;
    var f := ModeFrame(m, nonce);
    ParseModeIff(f, m);
    t := FrameIsStamped(s, f);
    Reaches(t, RxTask(Timeout));
    t := RxStep(t, Timeout);
    Reaches(t, RxTask(Timeout));
    t := RxStep(t, Timeout);
  }

  lemma FrameQueued(s: State, f: Frame) returns (t: State)
    requires Reachable(s) && s.rx.pc.RxRead? && s.rx.pending == [] && |s.rxq| < RX_DEPTH
    requires f.Valid() && f.typ != MODE_SET && N.Newer(s.rx.lastNonce, f.nonce)
    ensures Reachable(t)
    ensures t == s.(rx := t.rx, rxq := s.rxq + [f], lastRx := TickOf(s.time), lastRxTime := s.time)
    ensures t.rx.pc.RxRead? && t.rx.pending == [] && t.rx.lastNonce == f.nonce
  {
    hide Reachable, N.Newer, TickOf, ParseMode;
    t := FrameIsStamped(s, f);
    Reaches(t, RxTask(Timeout));
    t := RxStep(t, Timeout);
  }

  // ----- task_control and task_failsafe -----

  lemma ControlReaches(s: State)
    requires Reachable(s)
    ensures Reachable(CtlStep(s))
  {
    hide CtlStep, Reachable;
    Reaches(s, CtlTask);
  }

  lemma FailsafeReaches(s: State, open: bool, due: bool)
    requires Reachable(s)
    ensures Reachable(FsStep(s, open, due))
  {
    hide FsStep, Reachable;
    Reaches(s, FsTask(open, due));
  }

  /** Control starts, takes the request and applies it. */
  lemma ControlStarts(s: State, m: Mode) returns (t: State)
    requires Reachable(s) && s.ctl.pc.CtlBoot? && s.modeq == Some(m) && !s.cmd.locked
    ensures Reachable(t)
    ensures t == s.(modeq := None, cmd := s.cmd.(mode := m), ctl := t.ctl)
    ensures t.ctl == s.ctl.(pc := CtlDispatch, prevMode := s.cmd.mode, taken := t.ctl.taken, tried := t.ctl.tried,
                            modeAccepted := t.ctl.modeAccepted, modeRefused := t.ctl.modeRefused)
  {
    hide Reachable;
    ControlReaches(s);
    t := CtlStep(s);
    ControlReaches(t);
    t := CtlStep(t);
    ControlReaches(t);
    t := CtlStep(t);
  }

  /** task_failsafe comes to its first silence poll and samples the mode. */
  lemma PollStarts(s: State) returns (t: State)
    requires Reachable(s) && s.fs == INITIAL_STATE.fs && !s.edge
    ensures Reachable(t)
    ensures t == s.(fs := s.fs.(pc := FsNow(s.cmd.mode)))
  {
    hide Reachable, Elapsed, EnterStep, AlarmStep;
    FailsafeReaches(s, false, false);
    t := FsStep(s, false, false);
    FailsafeReaches(t, false, true);
    t := FsStep(t, false, true);
    FailsafeReaches(t, false, true);
    t := FsStep(t, false, true);
    FailsafeReaches(t, false, true);
    t := FsStep(t, false, true);
  }

  lemma {:induction false} TimePasses(s: State, n: nat)
    requires Reachable(s)
    ensures Reachable(s.(time := s.time + n))
    decreases n
  {
    hide Reachable;
    if n > 0 {
      TimePasses(s, n - 1);
      Reaches(s.(time := s.time + (n - 1)), Tick);
    } else {
      assert s.(time := s.time + 0) == s;
    }
  }

  // ----- The runs -----

  lemma RunTo(s: State) returns (steps: seq<Step>)
    requires Reachable(s)
    ensures Exec(INITIAL_STATE, steps) == s
  {
    steps :| Leads(steps, s);
  }

  /** MANUAL is requested and applied, a poll samples it, and another frame arrives. */
  lemma PollMeetsFrame() returns (s: State)
    ensures Reachable(s) && s.fs.pc == FsNow(Manual) && s.rx.pc.RxTick?
  {
    hide Reachable, Exec, TickOf;
    Begins();
    s := ModePosted(INITIAL_STATE, Manual, 1);
    s := ControlStarts(s, Manual);
    s := PollStarts(s);
    FrameArrives(s, ModeFrame(Manual, 2));
    s := s.(rx := Arrived(s.rx, ModeFrame(Manual, 2)));
  }

  lemma FrameIsStampedInBetween(s: State) returns (t: State)
    requires Reachable(s) && s.fs.pc.FsNow? && s.fs.pc.mode != Off && s.rx.pc.RxTick?
    ensures Reachable(t) && t.fs.pc.FsLast? && t.lastRxTime == t.time && FsStep(t, false, false).fs.pc.FsSilent?
  {
    hide Reachable, RxStep, FsStep, TickOf;
    EcuSilence.FreshFrameTrips(s, Timeout, false, false);
    FailsafeReaches(s, false, false);
    NowIsRead(s);
    t := FsStep(s, false, false);
    Reaches(t, Tick);
    t := Next(t, Tick);
    RxFrame(t, Timeout);
    Reaches(t, RxTask(Timeout));
    t := RxStep(t, Timeout);
    RxFrame(t, Timeout);
    Reaches(t, RxTask(Timeout));
    t := RxStep(t, Timeout);
  }

  /** A run in which the silence poll trips on a frame stamped at the very moment of the trip. */
  lemma FreshFrameTripsInARun() returns (steps: seq<Step>)
    ensures var s := Exec(INITIAL_STATE, steps);
      s.fs.pc.FsLast? && s.lastRxTime == s.time && FsStep(s, false, false).fs.pc.FsSilent?
  {
    hide Reachable, Exec, FsStep;
    var s := PollMeetsFrame();
    s := FrameIsStampedInBetween(s);
    steps := RunTo(s);
    assert Exec(INITIAL_STATE, steps) == s;
  }

  lemma NowIsRead(s: State)
    requires s.fs.pc.FsNow?
    ensures FsStep(s, false, false).fs.pc.FsLast?
  {
  }

  /** A run that counts an overwritten request where none was overwritten. */
  lemma OvercountInARun() returns (steps: seq<Step>)
    ensures var r := Exec(INITIAL_STATE, steps).rx;
      r.pc.RxRead? && r.modeOverwritten == 1 && r.realOverwrites == 0
  {
    hide Reachable, Exec, TickOf, RxStep, CtlStep;
    Begins();
    var s := ModePosted(INITIAL_STATE, Manual, 1);
    ControlReaches(s);
    assert CtlStep(s) == s.(ctl := s.ctl.(pc := CtlMode, prevMode := s.cmd.mode)) by { ControlBoots(s); }
    s := FrameIsStamped(CtlStep(s), ModeFrame(Manual, 2));
    ParseModeIff(ModeFrame(Manual, 2), Manual);
    EcuBalance.OverwriteCanBeOvercounted(s, ModeFrame(Manual, 2), Timeout);
    Reaches(s, RxTask(Timeout));
    s := RxStep(s, Timeout);
    ControlReaches(s);
    s := CtlStep(s);
    Reaches(s, RxTask(Timeout));
    steps := RunTo(RxStep(s, Timeout));
  }

  lemma ControlBoots(s: State)
    requires s.ctl.pc.CtlBoot?
    ensures CtlStep(s) == s.(ctl := s.ctl.(pc := CtlMode, prevMode := s.cmd.mode))
  {
  }

  /** Control, in AUTO for the first time, applies the queued setpoint and computes. */
  lemma FirstCycle(s: State) returns (t: State)
    requires Reachable(s) && s.ctl.pc.CtlDispatch? && s.rxq == [SETPOINT_64] && s.cmd.mode == Auto && !s.cmd.locked
    requires s.ctl.prevMode == Off && s.speed == 0.0 && s.txq == []
    ensures Reachable(t) && t.outs == s.outs + [145.92]
    ensures t == s.(rxq := [], ctl := t.ctl, setpoint := 64.0, cmd := t.cmd, txq := t.txq, outs := t.outs)
    ensures t.ctl.pc.CtlMode? && t.ctl.prevMode == Auto && t.ctl.pid.integral == 6.4
    ensures t.cmd.mode == Auto && !t.cmd.locked
  {
    hide Reachable, ParseBounded, Pid.Output, Pid.Next, Emit;
    SixtyFour();
    PidSum.FirstOutput();
    ControlReaches(s);
    t := CtlStep(s);
    assert t.ctl.pc == CtlHeld(SETPOINT_64) && t.rxq == [];
    ControlReaches(t);
    t := CtlStep(t);
    t := CycleComputes(t);
  }

  lemma CycleComputes(s: State) returns (t: State)
    requires Reachable(s) && s.ctl.pc.CtlDispatch? && s.rxq == [] && s.cmd.mode == Auto && !s.cmd.locked
    requires s.ctl.prevMode == Off && s.txq == []
    ensures Reachable(t) && t.outs == s.outs + [Pid.Output(Pid.DEFAULT, Pid.FRESH, s.setpoint - s.speed)]
    ensures t == s.(ctl := t.ctl, cmd := t.cmd, txq := t.txq, outs := t.outs)
    ensures t.ctl.pc.CtlMode? && t.ctl.prevMode == Auto
    ensures t.ctl.pid == Pid.Next(Pid.DEFAULT, Pid.FRESH, s.setpoint - s.speed)
    ensures t.cmd.mode == Auto && !t.cmd.locked
  {
    hide Reachable, Pid.Output, Pid.Next, CommitStep, Dispatch;
    ControlReaches(s);
    t := CtlStep(s);
    ControlReaches(t);
    t := CtlStep(t);
    ControlReaches(t);
    t := CtlStep(t);
    ControlReaches(t);
    t := CtlStep(t);
    EcuDrive.CommitExactly(t);
    ControlReaches(t);
    t := CtlStep(t);
  }

  /** A run from reset in which a requested setpoint of 64 drives the motor: the first command is 145.92. */
  lemma MotorIsDrivenInARun() returns (steps: seq<Step>)
    ensures var s := Exec(INITIAL_STATE, steps); s.outs == [145.92] && s.cmd.mode == Auto
  {
    hide Reachable, Exec;
    Begins();
    var s := FrameQueued(INITIAL_STATE, SETPOINT_64);
    s := ModePosted(s, Auto, 2);
    s := ControlStarts(s, Auto);
    s := FirstCycle(s);
    steps := RunTo(s);
  }

  lemma SilenceIsSeen(s: State) returns (t: State)
    requires Reachable(s) && s.fs.pc == FsNow(Auto) && s.lastRx == 0 && s.time == 200
    ensures Reachable(t) && t == s.(fs := t.fs) && t.fs.pc.FsSilent?
  {
    hide Reachable;
    FailsafeReaches(s, false, false);
    t := FsStep(s, false, false);
    FailsafeReaches(t, false, false);
    t := FsStep(t, false, false);
  }

  /** Silence is detected in AUTO, and a new request for AUTO arrives before the entry. */
  lemma SilenceMeetsRequest() returns (s: State)
    ensures Reachable(s) && s.fs.pc.FsSilent? && s.modeq == Some(Auto) && |s.rxq| == 0 && !s.cmd.locked
    ensures s.ctl.pc.CtlMode? && s.ctl.prevMode == Auto && s.ctl.pid.integral == 6.4
  {
    hide Reachable;
    Begins();
    s := FrameQueued(INITIAL_STATE, SETPOINT_64);
    s := ModePosted(s, Auto, 2);
    s := ControlStarts(s, Auto);
    s := FirstCycle(s);
    TimePasses(s, 200);
    s := PollStarts(s.(time := s.time + 200));
    s := SilenceIsSeen(s);
    s := ModePosted(s, Auto, 3);
  }

  /** A run through OFF, announced as a zero command, back to AUTO with the integral of before. */
  lemma IntegralSurvivesInARun() returns (steps: seq<Step>)
    ensures var s := Exec(INITIAL_STATE, steps); var stopped := FsStep(s, false, false);
      var t := CtlStep(CtlStep(CtlStep(CtlStep(stopped))));
      && s.fs.pc.FsSilent? && s.ctl.pid.integral == 6.4
      && stopped.cmd.mode == Off
      && t.cmd.mode == Auto && t.ctl.pc.CtlSetpoint? && t.ctl.pid.integral == 6.4
  {
    hide Reachable, Exec, CtlStep, FsStep;
    var s := SilenceMeetsRequest();
    EcuControl.UnsampledFailsafeKeepsIntegral(s, false, false);
    steps := RunTo(s);
  }

  lemma {:induction false} StatsQueue(s: State, n: nat) returns (t: State)
    requires Reachable(s) && s.txq == [] && n <= TX_DEPTH
    ensures Reachable(t) && t == s.(txq := t.txq) && |t.txq| == n
    decreases n
  {
    hide Reachable;
    t := s;
    if n > 0 {
      t := StatsQueue(s, n - 1);
      Reaches(t, Telemetry);
      t := Next(t, Telemetry);
    }
  }

  lemma OpenAtBoot() returns (s: State)
    ensures Reachable(s) && s.fs.pc.FsTrip? && s.tx.inFlight.Some? && s.tx.done == [] && s.txq == []
  {
    hide Reachable;
    Begins();
    FailsafeReaches(INITIAL_STATE, true, false);
    s := FsStep(INITIAL_STATE, true, false);
    Reaches(s, Telemetry);
    s := Next(s, Telemetry);
    assert s.txq == [Stats];
    Reaches(s, TxTask(true));
    s := Next(s, TxTask(true));
  }

  /** A failsafe entry with one message in flight and seven queued in front of its OUTPUT(0). */
  lemma SevenQueuedInARun() returns (steps: seq<Step>)
    ensures var s := Exec(INITIAL_STATE, steps); var t := Next(s, FsTask(true, false));
      && Enters(s, FsTask(true, false)) && s.tx.inFlight.Some? && |s.txq| == 7 && s.tx.done == []
      && |Outgoing(t)| == 9 && Outgoing(t)[8] == Output(0.0)
  {
    hide Reachable, Exec, FsStep;
    var s := OpenAtBoot();
    s := StatsQueue(s, 7);
    EntryStops(s, FsTask(true, false));
    steps := RunTo(s);
  }

  /** A run in which an edge of the line, signalled while task_failsafe waits, locks the ECU two steps later. */
  lemma EdgeLocksInARun() returns (steps: seq<Step>)
    ensures var s := Exec(INITIAL_STATE, steps); var t := Next(s, LineEdge);
      && s.fs.pc.FsWait? && !s.cmd.locked
      && FsStep(FsStep(t, false, false), false, false).cmd.locked
  {
    hide Reachable, Exec, Elapsed;
    Begins();
    FailsafeReaches(INITIAL_STATE, false, false);
    steps := RunTo(FsStep(INITIAL_STATE, false, false));
  }
}
