/**
 * The five tasks as one transition system. Every step is one atomic action of one task: a
 * critical section of `mutex_ecu_state`, a queue operation, or the reading of the tick counter.
 * Local computation is merged into the neighbouring atomic action. Program counters expose every
 * point at which another task can run in between.
 */
module Ecu {
  import opened Bytes
  import opened Protocol
  import opened Nonce
  import P = Parser
  import opened Stream
  import opened Command
  import opened Payload
  import L = FailsafeLine
  import Pid

  const RX_DEPTH := 16
  const TIMEOUT_TICKS := 200
  const TICK_RANGE := 0x1_0000_0000

  // ----- State -----

  /** task_rx: reading bytes, then for an accepted frame stamping the tick and routing it. */
  datatype RxPc =
    | RxRead
    | RxTick(frame: Frame)
    | RxStamp(frame: Frame, time: nat)
    | RxRoute(frame: Frame)
    | RxOverwrite(mode: Mode, counted: bool)

  /** What became of an accepted frame: a mode request posted or rejected, or queue_frames or its drop. */
  datatype Fate = Posted(mode: Mode) | Rejected | Enqueued | Lost

  datatype Routed = Routed(frame: Frame, fate: Fate)

  datatype Rx = Rx(
    pc: RxPc, pending: seq<byte>, lastNonce: u16,
    valid: nat, crcErr: nat, dropped: nat, replay: nat, modeInvalid: nat, modeOverwritten: nat,
    // history
    starts: nat, queued: nat, queueFull: nat, posted: seq<Mode>, realOverwrites: nat, routed: seq<Routed>)

  /** task_control: one 100 ms cycle. */
  datatype CtlPc =
    | CtlBoot
    | CtlMode
    | CtlTry(request: Mode)
    | CtlDispatch
    | CtlHeld(frame: Frame)
    | CtlSample
    | CtlSetpoint
    | CtlSpeed(setpoint: real)
    | CtlCommit(requested: real)

  /** `taken` has the position, among the requests posted, of each one taken from queue_mode. */
  datatype Ctl = Ctl(
    pc: CtlPc, prevMode: Mode, pid: Pid.Memory,
    txDropped: nat, rxInvalid: nat, outOfRange: nat, modeRefused: nat,
    // history
    setpoints: nat, speeds: nat, taken: seq<int>, tried: seq<Mode>, modeAccepted: nat, commits: nat,
    dispatched: seq<Frame>, modes: seq<Mode>, samples: seq<Pid.Op>)

  /** Where task_failsafe goes after carrying out an action. */
  datatype Return = ToWait | ToPoll | ToSilence

  /** task_failsafe: line actions, then the UART silence poll. */
  datatype FsPc =
    | FsBoot
    | FsWait
    | FsPoll
    | FsTrip(back: Return)
    | FsAlarm(back: Return)
    | FsUnlock(back: Return)
    | FsMode
    | FsNow(mode: Mode)
    | FsLast(mode: Mode, now: nat)
    | FsSilent

  datatype Fs = Fs(
    pc: FsPc, line: L.Line, uartLatched: bool, alarmDropped: nat, outputDropped: nat,
    // history
    entries: nat, alarms: nat)

  datatype Done = Done(message: Message, written: bool)

  /** task_tx: the message taken from the queue and not yet written. */
  datatype Tx = Tx(
    inFlight: Option<Message>, nonce: u16, txOutput: nat,
    // history
    done: seq<Done>)

  datatype State = State(
    time: nat, edge: bool,
    cmd: Command, setpoint: real, speed: real, lastRx: nat, lastRxTime: nat,
    txq: seq<Message>, modeq: Option<Mode>, rxq: seq<Frame>,
    rx: Rx, ctl: Ctl, fs: Fs, tx: Tx,
    // history: the OUTPUT values enqueued, in critical-section order
    outs: seq<real>)

  const INITIAL_STATE := State(
    0, false, INITIAL, 0.0, 0.0, 0, 0, [], None, [],
    Rx(RxRead, [], 0, 0, 0, 0, 0, 0, 0, 0, 0, 0, [], 0, []),
    Ctl(CtlBoot, Off, Pid.FRESH, 0, 0, 0, 0, 0, 0, [], [], 0, 0, [], [], []),
    Fs(FsBoot, L.FRESH, false, 0, 0, 0, 0),
    Tx(None, 0, 0, []),
    [])

  /** `TickType_t`: the 32-bit tick counter. */
  function TickOf(time: nat): nat { time % TICK_RANGE }

  // ----- Emission under the mutex -----

  function Emit(s: State, v: real): (t: State)
    ensures t == s.(txq := t.txq, outs := t.outs)
  {
    if |s.txq| < TX_DEPTH then s.(txq := PushBack(s.txq, Output(v)), outs := s.outs + [v]) else s
  }

  predicate CanEmit(s: State) { |s.txq| < TX_DEPTH }

  // ----- task_rx -----

  function StartsWith(pending: seq<byte>, input: Input): bool {
    |pending| == 0 && input == Byte(START)
  }

  function RxEvent(r: Rx, e: P.Event): Rx {
    match e
    case Nothing => r
    case Dropped => r.(dropped := r.dropped + 1)
    case CrcError => r.(crcErr := r.crcErr + 1)
    case Ready(f) =>
      if Newer(r.lastNonce, f.nonce) then
        r.(lastNonce := f.nonce, valid := r.valid + 1, pc := RxTick(f))
      else
        r.(replay := r.replay + 1)
  }

  /** `uart_read_bytes`, the parser and the nonce check: all local to task_rx. */
  function RxInput(r: Rx, input: Input): Rx {
    var (p, e) := Stream.Step(r.pending, input);
    var r1 := r.(pending := p, starts := r.starts + (if StartsWith(r.pending, input) then 1 else 0));
    RxEvent(r1, e)
  }

  function Route(r: Rx, f: Frame, fate: Fate): (q: Rx)
    ensures q == r.(routed := q.routed)
  {
    r.(routed := r.routed + [Routed(f, fate)])
  }

  function RxRouteStep(s: State, f: Frame): State {
    var r := s.rx;
    if f.typ == MODE_SET then
      match ParseMode(f)
      case None => s.(rx := Route(r, f, Rejected).(pc := RxRead, modeInvalid := r.modeInvalid + 1))
      case Some(m) =>
        // the occupancy test; the write is a separate step
        s.(rx := Route(r, f, Posted(m)).(pc := RxOverwrite(m, s.modeq.Some?),
                    modeOverwritten := r.modeOverwritten + (if s.modeq.Some? then 1 else 0)))
    else if |s.rxq| < RX_DEPTH then
      s.(rxq := s.rxq + [f], rx := Route(r, f, Enqueued).(pc := RxRead, queued := r.queued + 1))
    else
      s.(rx := Route(r, f, Lost).(pc := RxRead, dropped := r.dropped + 1, queueFull := r.queueFull + 1))
  }

  function RxStep(s: State, input: Input): State {
    match s.rx.pc
    case RxRead => s.(rx := RxInput(s.rx, input))
    case RxTick(f) => s.(rx := s.rx.(pc := RxStamp(f, s.time)))
    case RxStamp(f, t) => s.(lastRx := TickOf(t), lastRxTime := t, rx := s.rx.(pc := RxRoute(f)))
    case RxRoute(f) => RxRouteStep(s, f)
    case RxOverwrite(m, counted) =>
      s.(modeq := Some(m),
         rx := s.rx.(pc := RxRead, posted := s.rx.posted + [m],
                     realOverwrites := s.rx.realOverwrites + (if s.modeq.Some? then 1 else 0)))
  }

  // ----- task_control -----

  /**
   * Every dispatched frame moves exactly one counter, by one. Setpoint and speed change only with
   * their counter, to the value of the payload, within its bounds.
   */
  function Dispatch(s: State, f: Frame): (t: State)
    ensures t == s.(setpoint := t.setpoint, speed := t.speed,
                    ctl := s.ctl.(pc := CtlDispatch, setpoints := t.ctl.setpoints, speeds := t.ctl.speeds,
                                  rxInvalid := t.ctl.rxInvalid, outOfRange := t.ctl.outOfRange,
                                  dispatched := s.ctl.dispatched + [f]))
    ensures t.ctl.setpoints + t.ctl.speeds + t.ctl.rxInvalid + t.ctl.outOfRange
         == s.ctl.setpoints + s.ctl.speeds + s.ctl.rxInvalid + s.ctl.outOfRange + 1
    ensures t.ctl.setpoints >= s.ctl.setpoints && t.ctl.speeds >= s.ctl.speeds
    ensures t.ctl.rxInvalid >= s.ctl.rxInvalid && t.ctl.outOfRange >= s.ctl.outOfRange
    ensures if t.ctl.setpoints > s.ctl.setpoints
            then f.typ == SETPOINT && ParseFloat(f) == Some(t.setpoint) && 0.0 <= t.setpoint <= 220.0
            else t.setpoint == s.setpoint
    ensures if t.ctl.speeds > s.ctl.speeds
            then f.typ == SPEED && ParseFloat(f) == Some(t.speed) && 0.0 <= t.speed <= 242.0
            else t.speed == s.speed
    ensures t.ctl.outOfRange > s.ctl.outOfRange ==> ParseFloat(f).Some?
  {
    var c := s.ctl.(pc := CtlDispatch, dispatched := s.ctl.dispatched + [f]);
    if f.typ == SETPOINT then
      match ParseBounded(f, 0.0, 220.0)
      case Ok(v) => s.(setpoint := v, ctl := c.(setpoints := c.setpoints + 1))
      case Invalid => s.(ctl := c.(rxInvalid := c.rxInvalid + 1))
      case OutOfRange => s.(ctl := c.(outOfRange := c.outOfRange + 1))
    else if f.typ == SPEED then
      match ParseBounded(f, 0.0, 242.0)
      case Ok(v) => s.(speed := v, ctl := c.(speeds := c.speeds + 1))
      case Invalid => s.(ctl := c.(rxInvalid := c.rxInvalid + 1))
      case OutOfRange => s.(ctl := c.(outOfRange := c.outOfRange + 1))
    else
      s.(ctl := c.(rxInvalid := c.rxInvalid + 1))
  }

  /** `ecu_state_get_mode`, then the PID reset on a change of the sampled mode. */
  function SampleMode(c: Ctl, mode: Mode): (d: Ctl)
    ensures d == c.(pc := d.pc, prevMode := d.prevMode, pid := d.pid, modes := d.modes)
    ensures !d.pc.CtlHeld? && !d.pc.CtlTry?
  {
    var c1 := if mode != c.prevMode then c.(pid := Pid.FRESH, prevMode := mode) else c;
    c1.(modes := c.modes + [mode], pc := if mode == Auto then CtlSetpoint else CtlCommit(0.0))
  }

  function ComputePid(c: Ctl, setpoint: real, speed: real): (d: Ctl)
    ensures d == c.(pc := d.pc, pid := d.pid, samples := d.samples)
    ensures d.pc.CtlCommit?
  {
    c.(pc := CtlCommit(Pid.Output(Pid.DEFAULT, c.pid, setpoint - speed)),
       pid := Pid.Next(Pid.DEFAULT, c.pid, setpoint - speed),
       samples := c.samples + [Pid.Sample(setpoint, speed)])
  }

  function CommitStep(s: State, requested: real): (t: State)
    ensures t == s.(cmd := t.cmd, txq := t.txq, outs := t.outs, ctl := t.ctl)
    ensures t.ctl == s.ctl.(pc := CtlMode, commits := s.ctl.commits + 1, txDropped := t.ctl.txDropped)
    ensures t.ctl.txDropped == s.ctl.txDropped + (if CanEmit(s) then 0 else 1)
  {
    var cmd := Commit(s.cmd, requested);
    var c := s.ctl.(pc := CtlMode, commits := s.ctl.commits + 1,
                    txDropped := s.ctl.txDropped + (if CanEmit(s) then 0 else 1));
    Emit(s.(cmd := cmd, ctl := c), cmd.output)
  }

  function CtlStep(s: State): State {
    var c := s.ctl;
    match c.pc
    case CtlBoot => s.(ctl := c.(pc := CtlMode, prevMode := s.cmd.mode))
    case CtlMode =>
      (match s.modeq
       case None => s.(ctl := c.(pc := CtlDispatch))
       case Some(m) => s.(modeq := None, ctl := c.(pc := CtlTry(m), taken := c.taken + [|s.rx.posted| - 1])))
    case CtlTry(m) =>
      s.(cmd := TrySetMode(s.cmd, m),
         ctl := c.(pc := CtlDispatch, tried := c.tried + [m],
                   modeAccepted := c.modeAccepted + (if Accepts(s.cmd, m) then 1 else 0),
                   modeRefused := c.modeRefused + (if Accepts(s.cmd, m) then 0 else 1)))
    case CtlDispatch =>
      if |s.rxq| > 0 then s.(rxq := s.rxq[1..], ctl := c.(pc := CtlHeld(s.rxq[0])))
      else s.(ctl := c.(pc := CtlSample))
    case CtlHeld(f) => Dispatch(s, f)
    case CtlSample => s.(ctl := SampleMode(c, s.cmd.mode))
    case CtlSetpoint => s.(ctl := c.(pc := CtlSpeed(s.setpoint)))
    case CtlSpeed(setpoint) => s.(ctl := ComputePid(c, setpoint, s.speed))
    case CtlCommit(requested) => CommitStep(s, requested)
  }

  // ----- task_failsafe -----

  function Resume(back: Return): FsPc {
    match back
    case ToWait => FsWait
    case ToPoll => FsPoll
    case ToSilence => FsMode
  }

  /** `failsafe_line_on_edge` / `_on_level`: the latch changes here, the lock only later. */
  function LineEvent(f: Fs, e: L.Event, back: Return): (g: Fs)
    ensures g == f.(line := g.line, pc := g.pc)
  {
    var (line, a) := L.OnEvent(f.line, e);
    f.(line := line,
       pc := match a
             case NoAction => Resume(back)
             case Trip => FsTrip(back)
             case Unlock => FsUnlock(back))
  }

  /** `trigger_failsafe` up to the end of its critical section. */
  function EnterStep(s: State, lock: bool, back: Return): (t: State)
    ensures t == s.(cmd := t.cmd, txq := t.txq, outs := t.outs, fs := t.fs)
    ensures t.fs == s.fs.(pc := FsAlarm(back), entries := s.fs.entries + 1, outputDropped := t.fs.outputDropped)
    ensures t.fs.outputDropped == s.fs.outputDropped + (if CanEmit(s) then 0 else 1)
  {
    var f := s.fs.(pc := FsAlarm(back), entries := s.fs.entries + 1,
                   outputDropped := s.fs.outputDropped + (if CanEmit(s) then 0 else 1));
    Emit(s.(cmd := EnterFailsafe(s.cmd, lock), fs := f), 0.0)
  }

  function AlarmStep(s: State, back: Return): State {
    if |s.txq| < TX_DEPTH then
      s.(txq := PushFront(s.txq, Alarm), fs := s.fs.(pc := Resume(back), alarms := s.fs.alarms + 1))
    else
      s.(fs := s.fs.(pc := Resume(back), alarmDropped := s.fs.alarmDropped + 1))
  }

  /** The test of `poll_uart_silence`, on 32-bit ticks. */
  predicate Elapsed(now: nat, last: nat) {
    (TickOf(now) - last) % TICK_RANGE >= TIMEOUT_TICKS
  }

  /** `open` is the level read on the pin, `due` whether the polling period has elapsed. */
  function FsStep(s: State, open: bool, due: bool): State {
    var f := s.fs;
    match f.pc
    case FsBoot => s.(fs := if open then LineEvent(f, L.Level(true), ToWait) else f.(pc := FsWait))
    case FsWait =>
      if s.edge then s.(edge := false, fs := LineEvent(f, L.Edge, ToPoll)) else s.(fs := f.(pc := FsPoll))
    case FsPoll => s.(fs := if due then LineEvent(f, L.Level(open), ToSilence) else f.(pc := FsWait))
    case FsTrip(back) => EnterStep(s, true, back)
    case FsAlarm(back) => AlarmStep(s, back)
    case FsUnlock(back) => s.(cmd := s.cmd.(locked := false), fs := f.(pc := Resume(back)))
    case FsMode =>
      s.(fs := f.(pc := FsNow(s.cmd.mode), uartLatched := f.uartLatched && s.cmd.mode == Off))
    case FsNow(m) => s.(fs := f.(pc := FsLast(m, s.time)))
    case FsLast(m, now) =>
      if Elapsed(now, s.lastRx) && m != Off then
        s.(fs := f.(pc := FsSilent, uartLatched := true))
      else
        s.(fs := f.(pc := FsWait))
    case FsSilent => EnterStep(s, false, ToWait)
  }

  // ----- task_tx, task_telemetry and the environment -----

  /** Take a message and encode it under the next nonce; or write the one taken. */
  function TxStep(s: State, written: bool): State {
    var t := s.tx;
    match t.inFlight
    case None =>
      if |s.txq| == 0 then s
      else s.(txq := s.txq[1..], tx := t.(inFlight := Some(s.txq[0]), nonce := (t.nonce + 1) % 0x1_0000))
    case Some(m) =>
      s.(tx := t.(inFlight := None, done := t.done + [Done(m, written)],
                  txOutput := t.txOutput + (if written && m.Output? then 1 else 0)))
  }

  datatype Step =
    | Tick
    | LineEdge
    | RxTask(input: Input)
    | CtlTask
    | FsTask(open: bool, due: bool)
    | TxTask(written: bool)
    | Telemetry

  function Next(s: State, step: Step): State {
    match step
    case Tick => s.(time := s.time + 1)
    case LineEdge => s.(edge := true)
    case RxTask(input) => RxStep(s, input)
    case CtlTask => CtlStep(s)
    case FsTask(open, due) => FsStep(s, open, due)
    case TxTask(written) => TxStep(s, written)
    case Telemetry => s.(txq := PushBack(s.txq, Stats))
  }

  /** Any interleaving of the tasks. */
  function Exec(s: State, steps: seq<Step>): State
    decreases |steps|
  {
    if |steps| == 0 then s else Next(Exec(s, steps[..|steps| - 1]), steps[|steps| - 1])
  }

  // ----- Which parts of the state a task can write -----

  lemma RxFrame(s: State, input: Input)
    ensures var t := RxStep(s, input);
      t == s.(rx := t.rx, modeq := t.modeq, rxq := t.rxq, lastRx := t.lastRx, lastRxTime := t.lastRxTime)
  {
    hide RxInput, ParseMode;
  }

  lemma CtlFrame(s: State)
    ensures var t := CtlStep(s);
      t == s.(ctl := t.ctl, cmd := t.cmd, setpoint := t.setpoint, speed := t.speed,
              modeq := t.modeq, rxq := t.rxq, txq := t.txq, outs := t.outs)
  {
    hide ComputePid, SampleMode, ParseBounded;
  }

  lemma FsFrame(s: State, open: bool, due: bool)
    ensures var t := FsStep(s, open, due);
      t == s.(fs := t.fs, cmd := t.cmd, edge := t.edge, txq := t.txq, outs := t.outs)
  {
    hide LineEvent, Elapsed;
  }

  lemma TxFrame(s: State, written: bool)
    ensures var t := TxStep(s, written);
      t == s.(tx := t.tx, txq := t.txq)
  {
  }
}
