/**
 * The bodies of task_control, task_failsafe and task_rx over their own and the shared variables.
 * Run without interruption, each is a run of that task's steps in the transition system, so the
 * atomic steps of `Ecu` are those of the code.
 */
module Tasks {
  import opened Bytes
  import opened Protocol
  import opened Stream
  import opened Command
  import opened Payload
  import opened Ecu
  import P = Parser
  import N = Nonce
  import L = FailsafeLine
  import R = RoundTrip
  import Pid

  // ----- A task left alone until its next blocking point -----

  function ControlRank(s: Ecu.State): nat {
    match s.ctl.pc
    case CtlMode => 0
    case CtlBoot => 1
    case CtlTry(_) => 7 + 2 * |s.rxq|
    case CtlDispatch => 5 + 2 * |s.rxq|
    case CtlHeld(_) => 6 + 2 * |s.rxq|
    case CtlSample => 4
    case CtlSetpoint => 3
    case CtlSpeed(_) => 2
    case CtlCommit(_) => 1
  }

  function ReturnRank(back: Return): nat {
    match back
    case ToWait => 0
    case ToPoll => 10
    case ToSilence => 6
  }

  function FailsafeRank(pc: FsPc): nat {
    match pc
    case FsWait => 0
    case FsTrip(back) => ReturnRank(back) + 3
    case FsAlarm(back) => ReturnRank(back) + 2
    case FsUnlock(back) => ReturnRank(back) + 1
    case FsBoot => 4
    case FsPoll => 10
    case FsMode => 6
    case FsNow(_) => 5
    case FsLast(_, _) => 4
    case FsSilent => 3
  }

  function ReceiveRank(pc: RxPc): nat {
    match pc
    case RxRead => 0
    case RxTick(_) => 4
    case RxStamp(_, _) => 3
    case RxRoute(_) => 2
    case RxOverwrite(_, _) => 1
  }

  lemma ControlProgress(s: Ecu.State)
    requires !s.ctl.pc.CtlMode?
    ensures ControlRank(CtlStep(s)) < ControlRank(s)
  {
    hide Dispatch, ComputePid, Emit;
  }

  lemma FailsafeProgress(s: Ecu.State, open: bool, due: bool)
    requires !s.fs.pc.FsWait?
    ensures FailsafeRank(FsStep(s, open, due).fs.pc) < FailsafeRank(s.fs.pc)
  {
    hide Elapsed, EnterStep, AlarmStep, LineEvent;
    match s.fs.pc {
      case FsBoot => LineEventRank(s.fs, L.Level(true), ToWait);
      case FsPoll => LineEventRank(s.fs, L.Level(open), ToSilence);
      case FsTrip(back) => EnterRank(s, true, back);
      case FsSilent => EnterRank(s, false, ToWait);
      case FsAlarm(back) => EnterRank(s, true, back);
      case _ =>
    }
  }

  lemma LineEventRank(f: Fs, e: L.Event, back: Return)
    ensures FailsafeRank(LineEvent(f, e, back).pc) <= ReturnRank(back) + 3
  {
    hide L.OnEvent;
  }

  lemma EnterRank(s: Ecu.State, lock: bool, back: Return)
    ensures EnterStep(s, lock, back).fs.pc == FsAlarm(back)
    ensures FailsafeRank(AlarmStep(s, back).fs.pc) == ReturnRank(back)
  {
    hide Emit;
  }

  lemma ReceiveProgress(s: Ecu.State)
    requires !s.rx.pc.RxRead?
    ensures ReceiveRank(RxStep(s, Timeout).rx.pc) < ReceiveRank(s.rx.pc)
  {
    hide ParseMode;
  }

  /** The rest of a control cycle. */
  function Finish(s: Ecu.State): Ecu.State
    decreases ControlRank(s)
  {
    if s.ctl.pc.CtlMode? then s else
      ControlProgress(s);
      Finish(CtlStep(s))
  }

  /** The rest of a pass of task_failsafe. */
  function Settle(s: Ecu.State, open: bool, due: bool): Ecu.State
    decreases FailsafeRank(s.fs.pc)
  {
    if s.fs.pc.FsWait? then s else
      FailsafeProgress(s, open, due);
      Settle(FsStep(s, open, due), open, due)
  }

  /** The rest of the handling of one input. */
  function Deliver(s: Ecu.State): Ecu.State
    decreases ReceiveRank(s.rx.pc)
  {
    if s.rx.pc.RxRead? then s else
      ReceiveProgress(s);
      Deliver(RxStep(s, Timeout))
  }

  lemma FinishNext(s: Ecu.State)
    requires !s.ctl.pc.CtlMode?
    ensures Finish(CtlStep(s)) == Finish(s)
  {
    hide CtlStep;
  }

  lemma SettleNext(s: Ecu.State, open: bool, due: bool)
    requires !s.fs.pc.FsWait?
    ensures Settle(FsStep(s, open, due), open, due) == Settle(s, open, due)
  {
    hide FsStep;
  }

  lemma DeliverNext(s: Ecu.State)
    requires !s.rx.pc.RxRead?
    ensures Deliver(RxStep(s, Timeout)) == Deliver(s)
  {
    hide RxStep;
  }

  datatype Task = Control | Failsafe | Receive

  predicate Belongs(task: Task, step: Ecu.Step) {
    match task
    case Control => step.CtlTask?
    case Failsafe => step.FsTask?
    case Receive => step.RxTask?
  }

  /** Steps of one task only. */
  predicate Only(task: Task, run: seq<Ecu.Step>) {
    forall i :: 0 <= i < |run| ==> Belongs(task, run[i])
  }

  lemma ExecNext(s: Ecu.State, run: seq<Ecu.Step>, step: Ecu.Step)
    ensures Exec(s, run + [step]) == Next(Exec(s, run), step)
  {
    hide Next;
    assert (run + [step])[..|run|] == run;
  }

  /** An uninterrupted cycle is a run of the transition system. */
  lemma {:induction false} FinishIsRun(s: Ecu.State, run: seq<Ecu.Step>) returns (whole: seq<Ecu.Step>)
    requires Only(Control, run)
    ensures Only(Control, whole) && Exec(s, whole) == Finish(Exec(s, run))
    decreases ControlRank(Exec(s, run))
  {
    hide CtlStep, Exec;
    whole := run;
    var t := Exec(s, run);
    if !t.ctl.pc.CtlMode? {
      ControlProgress(t);
      ExecNext(s, run, CtlTask);
      whole := FinishIsRun(s, run + [CtlTask]);
    }
  }

  /** So is an uninterrupted pass of task_failsafe. */
  lemma {:induction false} SettleIsRun(s: Ecu.State, run: seq<Ecu.Step>, open: bool, due: bool)
    returns (whole: seq<Ecu.Step>)
    requires Only(Failsafe, run)
    ensures Only(Failsafe, whole) && Exec(s, whole) == Settle(Exec(s, run), open, due)
    decreases FailsafeRank(Exec(s, run).fs.pc)
  {
    hide FsStep, Exec;
    whole := run;
    var t := Exec(s, run);
    if !t.fs.pc.FsWait? {
      FailsafeProgress(t, open, due);
      ExecNext(s, run, FsTask(open, due));
      whole := SettleIsRun(s, run + [FsTask(open, due)], open, due);
    }
  }

  /** And the uninterrupted handling of one input by task_rx. */
  lemma {:induction false} DeliverIsRun(s: Ecu.State, run: seq<Ecu.Step>) returns (whole: seq<Ecu.Step>)
    requires Only(Receive, run)
    ensures Only(Receive, whole) && Exec(s, whole) == Deliver(Exec(s, run))
    decreases ReceiveRank(Exec(s, run).rx.pc)
  {
    hide RxStep, Exec;
    whole := run;
    var t := Exec(s, run);
    if !t.rx.pc.RxRead? {
      ReceiveProgress(t);
      ExecNext(s, run, RxTask(Timeout));
      whole := DeliverIsRun(s, run + [RxTask(Timeout)]);
    }
  }

  /** The record of main/ecu_state.c and the queues between the tasks. */
  class Shared {
    const command: EcuCommand
    const txQueue: TxQueue
    var setpoint: real
    var speed: real
    var lastRxTick: nat
    var modeRequest: Option<Mode>
    var frames: seq<Frame>

    constructor ()
      ensures Is(INITIAL_STATE) && fresh(command) && fresh(txQueue)
    {
      command := new EcuCommand();
      txQueue := new TxQueue();
      setpoint, speed, lastRxTick := 0.0, 0.0, 0;
      modeRequest, frames := None, [];
    }

    ghost predicate Is(s: Ecu.State)
      reads this, command, txQueue
    {
      && command.TheCommand() == s.cmd && txQueue.messages == s.txq
      && setpoint == s.setpoint && speed == s.speed && lastRxTick == s.lastRx
      && modeRequest == s.modeq && frames == s.rxq
    }
  }

  class ControlTask {
    const shared: Shared
    const pid: Pid.Controller
    var prevMode: Mode
    var countTxDropped: nat
    var countRxInvalid: nat
    var countOutOfRange: nat
    var countModeRefused: nat

    ghost predicate Is(s: Ecu.State)
      reads this, shared, shared.command, shared.txQueue, pid
    {
      && shared.Is(s)
      && pid.Valid() && pid.TheGains() == Pid.DEFAULT && pid.TheMemory() == s.ctl.pid
      && prevMode == s.ctl.prevMode && countTxDropped == s.ctl.txDropped
      && countRxInvalid == s.ctl.rxInvalid && countOutOfRange == s.ctl.outOfRange
      && countModeRefused == s.ctl.modeRefused
    }

    constructor (shared: Shared, ghost s: Ecu.State)
      requires shared.Is(s) && s.ctl == INITIAL_STATE.ctl
      ensures this.shared == shared && fresh(pid) && Is(CtlStep(s))
    {
      this.shared := shared;
      pid := new Pid.Controller(2.0, 0.8, 0.02, 0.1, 0.0, 255.0);
      prevMode := shared.command.mode;
      countTxDropped, countRxInvalid, countOutOfRange, countModeRefused := 0, 0, 0, 0;
    }

    method ApplyPendingMode(ghost s: Ecu.State) returns (ghost t: Ecu.State)
      requires Is(s) && s.ctl.pc.CtlMode?
      modifies this, shared, shared.command
      ensures Is(t) && t.ctl.pc.CtlDispatch? && Finish(t) == Finish(CtlStep(s))
    {
      hide Finish;
      t := CtlStep(s);
      if shared.modeRequest.Some? {
        var mode := shared.modeRequest.value;
        shared.modeRequest := None;
        var accepted := shared.command.TryToSetMode(mode);
        if !accepted {
          countModeRefused := countModeRefused + 1;
        }
        FinishNext(t);
        t := CtlStep(t);
      }
    }

    method CountRejection(status: Status)
      requires !status.Ok?
      modifies this
      ensures countOutOfRange == old(countOutOfRange) + (if status.OutOfRange? then 1 else 0)
      ensures countRxInvalid == old(countRxInvalid) + (if status.Invalid? then 1 else 0)
      ensures prevMode == old(prevMode) && countTxDropped == old(countTxDropped)
      ensures countModeRefused == old(countModeRefused)
    {
      if status.OutOfRange? {
        countOutOfRange := countOutOfRange + 1;
      } else {
        countRxInvalid := countRxInvalid + 1;
      }
    }

    method DispatchFrame(f: Frame, ghost s: Ecu.State)
      requires Is(s)
      modifies this, shared
      ensures Is(Dispatch(s, f))
    {
      hide ParseBounded;
      if f.typ == SETPOINT {
        var status := ParseBounded(f, 0.0, 220.0);
        if status.Ok? {
          shared.setpoint := status.value;
        } else {
          CountRejection(status);
        }
      } else if f.typ == SPEED {
        var status := ParseBounded(f, 0.0, 242.0);
        if status.Ok? {
          shared.speed := status.value;
        } else {
          CountRejection(status);
        }
      } else {
        countRxInvalid := countRxInvalid + 1;
      }
    }

    method DispatchPendingFrames(ghost s: Ecu.State) returns (ghost t: Ecu.State)
      requires Is(s) && s.ctl.pc.CtlDispatch?
      modifies this, shared
      ensures Is(t) && t.ctl.pc.CtlSample? && Finish(t) == Finish(s)
    {
      hide Dispatch, Finish;
      t := s;
      while |shared.frames| > 0
        invariant Is(t) && t.ctl.pc.CtlDispatch? && Finish(t) == Finish(s)
        decreases |shared.frames|
      {
        var frame := shared.frames[0];
        shared.frames := shared.frames[1..];
        FinishNext(t);
        t := CtlStep(t);
        DispatchFrame(frame, t);
        FinishNext(t);
        t := CtlStep(t);
      }
      FinishNext(t);
      t := CtlStep(t);
    }

    method ComputeRequestedOutput(mode: Mode, ghost s: Ecu.State) returns (requested: real, ghost t: Ecu.State)
      requires Is(s) && s.ctl.pc == (if mode == Auto then CtlSetpoint else CtlCommit(0.0))
      modifies pid
      ensures Is(t) && t.ctl.pc == CtlCommit(requested) && Finish(t) == Finish(s)
    {
      hide Finish, Pid.Output, Pid.Next;
      t := s;
      if mode != Auto {
        return 0.0, t;
      }
      var setpoint := shared.setpoint;
      var speed := shared.speed;
      FinishNext(t);
      t := CtlStep(t);
      requested := pid.Compute(setpoint, speed);
      FinishNext(t);
      t := CtlStep(t);
    }

    method EmitOutput(requested: real, ghost s: Ecu.State)
      requires Is(s) && s.ctl.pc == CtlCommit(requested)
      modifies this, shared.command, shared.txQueue
      ensures Is(CtlStep(s)) && CtlStep(s).ctl.pc.CtlMode?
    {
      var queued := shared.command.CommitOutput(requested, shared.txQueue);
      if !queued {
        countTxDropped := countTxDropped + 1;
      }
    }

    /** One cycle: exactly the steps of task_control up to the next one. */
    method Cycle(ghost s: Ecu.State)
      requires Is(s) && s.ctl.pc.CtlMode?
      modifies this, shared, shared.command, shared.txQueue, pid
      ensures Is(Finish(CtlStep(s)))
    {
      hide Finish, Next, Dispatch, ComputePid;
      var mode, requested;
      ghost var t := ApplyPendingMode(s);
      t := DispatchPendingFrames(t);
      mode := shared.command.mode;
      if mode != prevMode {
        pid.Reset();
        prevMode := mode;
      }
      FinishNext(t);
      t := CtlStep(t);
      requested, t := ComputeRequestedOutput(mode, t);
      EmitOutput(requested, t);
      FinishNext(t);
      FinishedAtMode(CtlStep(t));
    }
  }

  lemma FinishedAtMode(s: Ecu.State)
    requires s.ctl.pc.CtlMode?
    ensures Finish(s) == s
  {
    hide CtlStep;
  }

  const POLLING_TICKS := 10

  class FailsafeTask {
    const shared: Shared
    const line: L.LineLatch
    var lastPoll: nat
    var uartLatched: bool
    var countAlarmDropped: nat
    var countOutputDropped: nat

    ghost predicate Is(s: Ecu.State)
      reads this, shared, shared.command, shared.txQueue, line
    {
      && shared.Is(s)
      && line.TheLine() == s.fs.line && uartLatched == s.fs.uartLatched
      && countAlarmDropped == s.fs.alarmDropped && countOutputDropped == s.fs.outputDropped
    }

    /** `now` is the tick counter as the loop starts. */
    constructor (shared: Shared, now: nat, ghost s: Ecu.State)
      requires shared.Is(s) && s.fs == INITIAL_STATE.fs
      ensures this.shared == shared && fresh(line) && Is(s) && lastPoll == now
    {
      this.shared := shared;
      line := new L.LineLatch();
      lastPoll := now;
      uartLatched, countAlarmDropped, countOutputDropped := false, 0, 0;
    }

    method SendAlarm(back: Return, ghost s: Ecu.State)
      requires Is(s)
      modifies this, shared.txQueue
      ensures lastPoll == old(lastPoll)
      ensures Is(AlarmStep(s, back))
    {
      var queued := shared.txQueue.SendToFront(Alarm);
      if !queued {
        countAlarmDropped := countAlarmDropped + 1;
      }
    }

    method TriggerFailsafe(lock: bool, back: Return, ghost s: Ecu.State)
      requires Is(s)
      modifies this, shared.command, shared.txQueue
      ensures lastPoll == old(lastPoll)
      ensures Is(AlarmStep(EnterStep(s, lock, back), back))
    {
      var queued := shared.command.EnterFailsafeMode(lock, shared.txQueue);
      if !queued {
        countOutputDropped := countOutputDropped + 1;
      }
      SendAlarm(back, EnterStep(s, lock, back));
    }

    method ApplyLineAction(a: L.Action, back: Return, open: bool, due: bool, ghost s: Ecu.State)
      returns (ghost t: Ecu.State)
      requires Is(s)
      requires s.fs.pc == (match a case Trip => FsTrip(back) case Unlock => FsUnlock(back) case NoAction => Resume(back))
      modifies this, shared.command, shared.txQueue
      ensures lastPoll == old(lastPoll)
      ensures Is(t) && t.fs.pc == Resume(back) && t.time == s.time
      ensures Settle(t, open, due) == Settle(s, open, due)
    {
      hide Settle, EnterFailsafe;
      t := s;
      match a {
        case Trip =>
          TriggerFailsafe(true, back, s);
          SettleNext(t, open, due);
          t := FsStep(t, open, due);
          SettleNext(t, open, due);
          t := FsStep(t, open, due);
        case Unlock =>
          shared.command.SetFailsafeLocked(false);
          SettleNext(t, open, due);
          t := FsStep(t, open, due);
        case NoAction =>
      }
    }

    method PollUartSilence(now: nat, open: bool, due: bool, ghost s: Ecu.State)
      requires Is(s) && s.fs.pc.FsMode? && now == TickOf(s.time)
      modifies this, shared.command, shared.txQueue
      ensures lastPoll == old(lastPoll)
      ensures Is(Settle(s, open, due))
    {
      hide Settle, PollReads, TickOf, EnterStep, AlarmStep, FsStep;
      var mode := shared.command.mode;
      if uartLatched && mode != Off {
        uartLatched := false;
      }
      ghost var t := PollReads(s);
      PollSettles(s, open, due);
      if (now - shared.lastRxTick) % TICK_RANGE >= TIMEOUT_TICKS && mode != Off {
        uartLatched := true;
        assert Is(t) && t.fs.pc.FsSilent? by { PollLeaves(s); }
        TriggerFailsafe(false, ToWait, t);
        EntrySettles(t, open, due);
      } else {
        assert Is(t) && t.fs.pc.FsWait? by { PollLeaves(s); }
        SettledAtWait(t, open, due);
      }
    }

    /** One pass of the loop: `edge` was signalled or not; the poll is due 100 ms after the last. */
    method Iterate(edge: bool, open: bool, now: nat, ghost s: Ecu.State)
      requires Is(s) && s.fs.pc.FsWait? && s.edge == edge && now == TickOf(s.time)
      modifies this, shared.command, shared.txQueue, line
      ensures var due := (now - old(lastPoll)) % 0x1_0000_0000 >= 10;
        Is(Settle(FsStep(s, open, due), open, due)) && lastPoll == if due then now else old(lastPoll)
    {
      hide Settle, TickOf, L.OnEvent, EnterStep, AlarmStep, Elapsed;
      var due := (now - lastPoll) % TICK_RANGE >= POLLING_TICKS;
      ghost var t := FsStep(s, open, due);
      if edge {
        var a := line.OnEdge();
        t := ApplyLineAction(a, ToPoll, open, due, t);
      }
      SettleNext(t, open, due);
      t := FsStep(t, open, due);
      if due {
        lastPoll := now;
        var a := line.OnLevel(open);
        t := ApplyLineAction(a, ToSilence, open, due, t);
        PollUartSilence(now, open, due, t);
      } else {
        SettledAtWait(t, open, due);
      }
    }
  }

  /** The poll up to its verdict: the mode, the tick counter and the last stamp are read. */
  function PollReads(s: Ecu.State): Ecu.State {
    FsStep(FsStep(FsStep(s, false, false), false, false), false, false)
  }

  lemma PollLeaves(s: Ecu.State)
    requires s.fs.pc.FsMode?
    ensures var trips := Elapsed(s.time, s.lastRx) && s.cmd.mode != Off;
      PollReads(s) == s.(fs := s.fs.(pc := if trips then FsSilent else FsWait,
                                     uartLatched := trips || (s.fs.uartLatched && s.cmd.mode == Off)))
  {
    hide Elapsed;
  }

  lemma PollSettles(s: Ecu.State, open: bool, due: bool)
    requires s.fs.pc.FsMode?
    ensures Settle(PollReads(s), open, due) == Settle(s, open, due)
  {
    hide Settle, Elapsed;
    SettleNext(s, open, due);
    var t := FsStep(s, open, due);
    SettleNext(t, open, due);
    SettleNext(FsStep(t, open, due), open, due);
  }

  lemma EntrySettles(s: Ecu.State, open: bool, due: bool)
    requires s.fs.pc.FsSilent?
    ensures Settle(s, open, due) == AlarmStep(EnterStep(s, false, ToWait), ToWait)
  {
    hide Settle, Emit;
    SettleNext(s, open, due);
    var t := FsStep(s, open, due);
    SettleNext(t, open, due);
    SettledAtWait(FsStep(t, open, due), open, due);
  }

  lemma SettledAtWait(s: Ecu.State, open: bool, due: bool)
    requires s.fs.pc.FsWait?
    ensures Settle(s, open, due) == s
  {
    hide FsStep;
  }

  class ReceiveTask {
    const shared: Shared
    const parser: P.FrameParser
    const nonceCtx: N.NonceCtx
    const frame: FrameBuffer
    var countValid: nat
    var countReplay: nat
    var countModeInvalid: nat
    var countModeOverwritten: nat

    ghost predicate Own(x: Rx)
      reads this, parser, parser.buf, nonceCtx, frame
    {
      && parser.Valid() && frame.Valid() && parser.buf != frame.payload
      && parser.Pending() == x.pending && nonceCtx.lastNonce == x.lastNonce
      && parser.countCrcErr == x.crcErr && parser.countDropped == x.dropped
      && countValid == x.valid && countReplay == x.replay
      && countModeInvalid == x.modeInvalid && countModeOverwritten == x.modeOverwritten
    }

    ghost predicate Is(s: Ecu.State)
      reads this, shared, shared.command, shared.txQueue, parser, parser.buf, nonceCtx, frame
    {
      shared.Is(s) && Own(s.rx)
    }

    constructor (shared: Shared, ghost s: Ecu.State)
      requires shared.Is(s) && s.rx == INITIAL_STATE.rx
      ensures this.shared == shared && Is(s)
      ensures fresh(parser) && fresh(parser.buf) && fresh(nonceCtx) && fresh(frame) && fresh(frame.payload)
    {
      this.shared := shared;
      parser := new P.FrameParser();
      nonceCtx := new N.NonceCtx();
      frame := new FrameBuffer();
      countValid, countReplay, countModeInvalid, countModeOverwritten := 0, 0, 0, 0;
    }

    method PostModeRequest(f: Frame, ghost s: Ecu.State)
      requires Is(s) && s.rx.pc == RxRoute(f) && f.typ == MODE_SET
      modifies this, shared
      ensures Is(Deliver(s))
    {
      hide Deliver, ParseMode;
      DeliverNext(s);
      ghost var t := RxStep(s, Timeout);
      var mode := ParseMode(f);
      if mode.None? {
        countModeInvalid := countModeInvalid + 1;
        DeliveredAtRead(t);
        return;
      }
      if shared.modeRequest.Some? {
        countModeOverwritten := countModeOverwritten + 1;
      }
      shared.modeRequest := mode;
      DeliverNext(t);
      DeliveredAtRead(RxStep(t, Timeout));
    }

    /** A frame that passed the window: stamp it, then post or queue it. */
    method Route(f: Frame, now: nat, ghost s: Ecu.State)
      requires Is(s) && s.rx.pc == RxTick(f) && now == TickOf(s.time)
      modifies this, shared, parser`countDropped
      ensures Is(Deliver(s))
    {
      hide Deliver, TickOf, ParseMode;
      shared.lastRxTick := now;
      DeliverNext(s);
      ghost var t := RxStep(s, Timeout);
      DeliverNext(t);
      t := RxStep(t, Timeout);
      if f.typ == MODE_SET {
        PostModeRequest(f, t);
        return;
      }
      DeliverNext(t);
      DeliveredAtRead(RxStep(t, Timeout));
      if |shared.frames| < RX_DEPTH {
        shared.frames := shared.frames + [f];
      } else {
        parser.countDropped := parser.countDropped + 1;
      }
    }

    /** The parser and the window on one byte. */
    method Accept(b: byte, ghost x: Rx) returns (accepted: bool)
      requires Own(x) && x.pc.RxRead?
      modifies this, parser, parser.buf, nonceCtx, frame, frame.payload
      ensures Own(RxInput(x, Byte(b)))
      ensures RxInput(x, Byte(b)).pc == if accepted then RxTick(frame.Contents()) else RxRead
    {
      hide P.Feed, N.Newer;
      accepted := false;
      var ready := parser.FeedByte(b, frame);
      if ready {
        accepted := nonceCtx.CheckAndUpdate(frame.nonce);
        if accepted {
          countValid := countValid + 1;
        } else {
          countReplay := countReplay + 1;
        }
      }
    }

    /** One pass of the loop. */
    method OnInput(input: Input, now: nat, ghost s: Ecu.State)
      requires Is(s) && s.rx.pc.RxRead? && now == TickOf(s.time)
      modifies this, shared, parser, parser.buf, nonceCtx, frame, frame.payload
      ensures Is(Deliver(RxStep(s, input)))
    {
      hide Deliver, TickOf, RxInput;
      ghost var t := RxStep(s, input);
      match input {
        case Byte(b) =>
          var accepted := Accept(b, s.rx);
          if accepted {
            Route(CopyOf(frame), now, t);
          } else {
            DeliveredAtRead(t);
          }
        case Timeout =>
          OnSilence(s.rx);
          DeliveredAtRead(t);
      }
    }

    method OnSilence(ghost x: Rx)
      requires Own(x) && x.pc.RxRead?
      modifies parser
      ensures Own(RxInput(x, Timeout)) && RxInput(x, Timeout).pc == x.pc
    {
      if parser.state != P.WaitStart {
        parser.Reset();
        parser.countDropped := parser.countDropped + 1;
      }
    }
  }

  lemma DeliveredAtRead(s: Ecu.State)
    requires s.rx.pc.RxRead?
    ensures Deliver(s) == s
  {
    hide RxStep;
  }

  function TypeOf(m: Message): byte {
    match m
    case Output(_) => OUTPUT
    case Alarm => ALARM
    case Stats => STATS
  }

  class TransmitTask {
    const shared: Shared
    const sender: R.Sender
    const frameBuf: array<byte>
    var countOutput: nat

    ghost predicate Is(s: Ecu.State)
      reads this, shared, shared.command, shared.txQueue, sender
    {
      && shared.Is(s) && frameBuf.Length == MAX_FRAME
      && sender.nonce == s.tx.nonce && countOutput == s.tx.txOutput
    }

    constructor (shared: Shared, ghost s: Ecu.State)
      requires shared.Is(s) && s.tx == INITIAL_STATE.tx
      ensures this.shared == shared && fresh(sender) && fresh(frameBuf) && Is(s)
    {
      this.shared := shared;
      sender := new R.Sender();
      frameBuf := new byte[MAX_FRAME](_ => 0);
      countOutput := 0;
    }

    /**
     * One pass of the loop: take a message, encode it under the next nonce, write it. `payload`
     * holds the raw bytes of the message taken, for a command those of its value, and `writable`
     * is what the UART answers. A receiver of the frame reads the value of the command.
     */
    method Pass(payload: array<byte>, payloadLen: u16, writable: bool, ghost s: Ecu.State)
      returns (n: nat)
      requires Is(s) && s.tx.inFlight.None?
      requires payload.Length == MAX_PAYLOAD && payload != frameBuf && payloadLen <= MAX_PAYLOAD
      requires |s.txq| > 0 && s.txq[0].Output? ==>
        payloadLen == 4 && Float32(payload[..4]) == Some(s.txq[0].value)
      modifies this, shared.txQueue, sender, frameBuf
      ensures if |s.txq| == 0 then n == 0 && Is(s) else
        var t := TxStep(TxStep(s, writable), writable);
        && Is(t) && t.tx.done == s.tx.done + [Done(s.txq[0], writable)]
        && n <= MAX_FRAME
        && var f := Frame(TypeOf(s.txq[0]), t.tx.nonce, payload[..payloadLen]);
        && frameBuf[..n] == Encode(f) && Decode(frameBuf[..n]) == Some(f)
        && (s.txq[0].Output? ==> ParseFloat(f) == Some(s.txq[0].value))
        && f.typ == match s.txq[0] case Output(_) => 0x80 case Alarm => 0x85 case Stats => 0x83
    {
      hide Encode, Decode, Float32;
      if |shared.txQueue.messages| == 0 {
        return 0;
      }
      var m := shared.txQueue.messages[0];
      shared.txQueue.messages := shared.txQueue.messages[1..];
      n := sender.Transmit(TypeOf(m), payload, payloadLen, frameBuf);
      DecodeOfEncode(Frame(TypeOf(m), sender.nonce, payload[..payloadLen]));
      if writable && m.Output? {
        countOutput := countOutput + 1;
      }
    }
  }

  /** The value of a decoded frame. */
  function CopyOf(f: FrameBuffer): (g: Frame)
    requires f.Valid()
    reads f, f.payload
    ensures g == f.Contents()
  {
    Frame(f.typ, f.nonce, f.payload[..f.payloadLen])
  }
}
