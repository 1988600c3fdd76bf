/**
 * Nothing is lost uncounted: where every received frame and every command went, in every
 * interleaving (main/task_rx.c:67-205, main/task_control.c:131-184, main/task_control.c:198-211,
 * main/failsafe.c:79-85, main/task_tx.c:85-128).
 */
module EcuBalance {
  import opened Bytes
  import opened Protocol
  import P = Parser
  import Nonce
  import opened Stream
  import opened Command
  import opened Payload
  import opened Ecu
  import opened EcuOutput
  import EcuDelay
  import L = FailsafeLine

  // ----- Commands -----

  /** Commands taken by task_tx whose write failed. */
  function Failures(done: seq<Done>): nat
    decreases |done|
  {
    if |done| == 0 then 0
    else
      var d := done[|done| - 1];
      Failures(done[..|done| - 1]) + (if d.message.Output? && !d.written then 1 else 0)
  }

  predicate TxBalanced(s: State) {
    && s.ctl.commits + s.fs.entries == |s.outs| + s.ctl.txDropped + s.fs.outputDropped
    && |HandedOver(s)| == s.tx.txOutput + Failures(s.tx.done)
    && s.tx.nonce == |Taken(s.tx)| % 0x1_0000
  }

  lemma ControlCounts(s: State)
    ensures var t := CtlStep(s);
      && t.ctl.commits == s.ctl.commits + (if s.ctl.pc.CtlCommit? then 1 else 0)
      && t.ctl.txDropped == s.ctl.txDropped + (if s.ctl.pc.CtlCommit? && !CanEmit(s) then 1 else 0)
  {
    hide Dispatch, SampleMode, ComputePid, Emit;
  }

  lemma FailsafeCounts(s: State, open: bool, due: bool)
    ensures var t := FsStep(s, open, due); var entry := s.fs.pc.FsTrip? || s.fs.pc.FsSilent?;
      && t.fs.entries == s.fs.entries + (if entry then 1 else 0)
      && t.fs.outputDropped == s.fs.outputDropped + (if entry && !CanEmit(s) then 1 else 0)
  {
    hide LineEvent, Elapsed, EnterStep;
  }

  lemma WriterBalance(s: State, written: bool)
    requires TxBalanced(s)
    ensures TxBalanced(TxStep(s, written))
  {
    hide Values, ValueOf;
    var t := s.tx;
    match t.inFlight {
      case None =>
      case Some(m) =>
        var d := Done(m, written);
        assert Messages(t.done + [d]) == Messages(t.done) + [m];
        AppendMessage(Messages(t.done), m);
        ValueLength(m);
        assert (t.done + [d])[..|t.done|] == t.done;
    }
  }

  lemma ValueLength(m: Message)
    ensures |ValueOf(m)| == if m.Output? then 1 else 0
  {
  }

  lemma StepTxBalance(s: State, step: Step)
    requires TxBalanced(s)
    ensures TxBalanced(Next(s, step))
  {
    hide RxStep, CtlStep, FsStep, TxStep, Failures, Values;
    match step {
      case RxTask(input) => RxFrame(s, input);
      case CtlTask =>
        CtlFrame(s);
        ControlQueues(s);
        ControlCounts(s);
      case FsTask(open, due) =>
        FsFrame(s, open, due);
        FailsafeQueues(s, open, due);
        FailsafeCounts(s, open, due);
      case TxTask(written) => WriterBalance(s, written);
      case _ =>
    }
  }

  lemma {:induction false} TxBalanceAfter(steps: seq<Step>)
    ensures TxBalanced(Exec(INITIAL_STATE, steps))
    decreases |steps|
  {
    hide Next, TxBalanced;
    if |steps| == 0 {
      InitiallyTxBalanced();
    } else {
      var n := |steps| - 1;
      TxBalanceAfter(steps[..n]);
      StepTxBalance(Exec(INITIAL_STATE, steps[..n]), steps[n]);
    }
  }

  lemma NoMessages()
    ensures Messages([]) == [] && Values([]) == [] && Failures([]) == 0
  {
  }

  lemma InitiallyTxBalanced()
    ensures TxBalanced(INITIAL_STATE)
  {
    hide Values, Messages, Failures;
    NoMessages();
    var s := INITIAL_STATE;
    assert Taken(s.tx) == [];
    assert s.ctl.commits + s.fs.entries == |s.outs| + s.ctl.txDropped + s.fs.outputDropped;
    assert |HandedOver(s)| == s.tx.txOutput + Failures(s.tx.done);
  }

  /**
   * Every commit and every failsafe entry is a command enqueued or a drop counted; every command
   * enqueued is written, failed, in flight or queued; and the nonce counts the messages taken.
   */
  lemma CommandsAreConserved(steps: seq<Step>)
    ensures var s := Exec(INITIAL_STATE, steps);
      && s.ctl.commits + s.fs.entries == |s.outs| + s.ctl.txDropped + s.fs.outputDropped
      && |s.outs| == s.tx.txOutput + Failures(s.tx.done) + |Values(Flight(s.tx))| + |Values(s.txq)|
      && s.tx.nonce == (|s.tx.done| + |Flight(s.tx)|) % 0x1_0000
  {
    hide Exec, Values, Failures;
    var s := Exec(INITIAL_STATE, steps);
    TxBalanceAfter(steps);
    CommandsKeepTheirOrder(steps);
    LineValues(s);
    ValuesConcat(Flight(s.tx), s.txq);
  }

  // ----- Received frames -----

  predicate RxBalanced(s: State) {
    var r := s.rx;
    var c := s.ctl;
    && r.queueFull <= r.dropped
    && r.starts == r.valid + r.replay + r.crcErr + (r.dropped - r.queueFull) + (if |r.pending| > 0 then 1 else 0)
    && r.valid == r.queued + r.queueFull + r.modeInvalid + |r.posted| + (if r.pc.RxRead? then 0 else 1)
    && r.queued == c.setpoints + c.speeds + c.rxInvalid + c.outOfRange
                   + (if c.pc.CtlHeld? then 1 else 0) + |s.rxq|
    && |s.rxq| <= RX_DEPTH
    && P.Partial(r.pending)
  }

  lemma EventOfStep(pending: seq<byte>, input: Input)
    requires P.Partial(pending)
    ensures var (p, e) := Stream.Step(pending, input);
      && P.Partial(p)
      && (if |p| > 0 then 1 else 0) + (if e.Nothing? then 0 else 1)
         == (if |pending| > 0 then 1 else 0) + (if StartsWith(pending, input) then 1 else 0)
  {
    hide Word, Decode;
    match input {
      case Byte(b) => P.FeedKeepsPartial(pending, b);
      case Timeout =>
    }
  }

  lemma InputBalance(s: State, input: Input)
    requires RxBalanced(s) && s.rx.pc.RxRead?
    ensures RxBalanced(RxStep(s, input))
  {
    hide Stream.Step, P.Partial, StartsWith, Nonce.Newer;
    EventOfStep(s.rx.pending, input);
  }

  lemma RouteBalance(s: State, f: Frame)
    requires RxBalanced(s) && s.rx.pc.RxRoute?
    ensures RxBalanced(RxRouteStep(s, f))
  {
    hide P.Partial, ParseMode;
  }

  lemma RoutingBalance(s: State, input: Input)
    requires RxBalanced(s) && !s.rx.pc.RxRead?
    ensures RxBalanced(RxStep(s, input))
  {
    hide P.Partial, ParseMode, RxRouteStep;
    if s.rx.pc.RxRoute? {
      RouteBalance(s, s.rx.pc.frame);
    }
  }

  lemma ControlRxBalance(s: State)
    requires RxBalanced(s)
    ensures RxBalanced(CtlStep(s))
  {
    hide P.Partial, Dispatch, SampleMode, ComputePid;
  }

  lemma StepRxBalance(s: State, step: Step)
    requires RxBalanced(s)
    ensures RxBalanced(Next(s, step))
  {
    hide RxStep, CtlStep, FsStep, TxStep, P.Partial;
    match step {
      case RxTask(input) =>
        if s.rx.pc.RxRead? {
          InputBalance(s, input);
        } else {
          RoutingBalance(s, input);
        }
      case CtlTask => ControlRxBalance(s);
      case FsTask(open, due) => FsFrame(s, open, due);
      case TxTask(written) => TxFrame(s, written);
      case _ =>
    }
  }

  /**
   * Every START is one frame valid, replayed, corrupt or dropped, or still arriving; every valid
   * frame is queued, dropped for a full queue, a bad mode request, a posted one, or in hand; and
   * every queued one is applied, rejected, held or among the at most 16 waiting.
   */
  lemma {:induction false} FramesAreConserved(steps: seq<Step>)
    ensures RxBalanced(Exec(INITIAL_STATE, steps))
    decreases |steps|
  {
    hide Next, RxBalanced;
    if |steps| == 0 {
      InitiallyRxBalanced();
    } else {
      var n := |steps| - 1;
      FramesAreConserved(steps[..n]);
      StepRxBalance(Exec(INITIAL_STATE, steps[..n]), steps[n]);
    }
  }

  lemma InitiallyRxBalanced()
    ensures RxBalanced(INITIAL_STATE)
  {
  }

  // ----- The counter of overwritten mode requests -----

  /** Control took the request that was counted as about to be overwritten. */
  predicate TakenInBetween(s: State, step: Step) {
    step.RxTask? && s.rx.pc.RxOverwrite? && s.rx.pc.counted && s.modeq.None?
  }

  function Races(s: State, steps: seq<Step>): nat
    decreases |steps|
  {
    if |steps| == 0 then 0
    else
      var n := |steps| - 1;
      Races(s, steps[..n]) + (if TakenInBetween(Exec(s, steps[..n]), steps[n]) then 1 else 0)
  }

  /** The counter against the requests really overwritten, the one about to be written included. */
  predicate Overcount(s: State, excess: nat) {
    && s.rx.modeOverwritten
       == s.rx.realOverwrites + excess + (if s.rx.pc.RxOverwrite? && s.rx.pc.counted then 1 else 0)
    && (s.rx.pc.RxOverwrite? && !s.rx.pc.counted ==> s.modeq.None?)
  }

  lemma RoutingOvercount(s: State, input: Input, excess: nat)
    requires Overcount(s, excess)
    ensures Overcount(RxStep(s, input), excess + if TakenInBetween(s, RxTask(input)) then 1 else 0)
  {
    hide Stream.Step, StartsWith, ParseMode, Nonce.Newer;
  }

  lemma ControlOvercount(s: State, excess: nat)
    requires Overcount(s, excess)
    ensures Overcount(CtlStep(s), excess)
  {
    hide Dispatch, SampleMode, ComputePid;
  }

  lemma StepOvercount(s: State, step: Step, excess: nat)
    requires Overcount(s, excess)
    ensures Overcount(Next(s, step), excess + if TakenInBetween(s, step) then 1 else 0)
  {
    hide RxStep, CtlStep, FsStep, TxStep;
    match step {
      case RxTask(input) => RoutingOvercount(s, input, excess);
      case CtlTask => ControlOvercount(s, excess);
      case FsTask(open, due) => FsFrame(s, open, due);
      case TxTask(written) => TxFrame(s, written);
      case _ =>
    }
  }

  /**
   * In any interleaving the counter never misses an overwritten request, and exceeds their number
   * by one for each request that control takes between the test and the write.
   */
  lemma {:induction false} OverwritesAreOvercounted(steps: seq<Step>)
    ensures Overcount(Exec(INITIAL_STATE, steps), Races(INITIAL_STATE, steps))
    decreases |steps|
  {
    hide Next, Overcount, TakenInBetween;
    if |steps| == 0 {
      InitiallyExact();
    } else {
      var n := |steps| - 1;
      OverwritesAreOvercounted(steps[..n]);
      StepOvercount(Exec(INITIAL_STATE, steps[..n]), steps[n], Races(INITIAL_STATE, steps[..n]));
    }
  }

  lemma InitiallyExact()
    ensures Overcount(INITIAL_STATE, 0)
  {
  }

  /** Such a race happens from any state in which a request waits and control starts its cycle. */
  lemma OverwriteCanBeOvercounted(s: State, f: Frame, input: Input)
    requires s.rx.pc == RxRoute(f) && f.typ == MODE_SET && ParseMode(f).Some?
    requires s.modeq.Some? && s.ctl.pc.CtlMode?
    ensures var t := RxStep(CtlStep(RxStep(s, input)), input);
      && t.rx.pc.RxRead? && t.rx.modeOverwritten == s.rx.modeOverwritten + 1
      && t.rx.realOverwrites == s.rx.realOverwrites
  {
  }

  // ----- Mode requests and alarms -----

  /** Every posted request is overwritten, tried, taken or waiting; every tried one accepted or refused. */
  predicate RequestsBalanced(s: State) {
    && |s.rx.posted| == s.rx.realOverwrites + |s.ctl.tried|
         + (if s.ctl.pc.CtlTry? then 1 else 0) + (if s.modeq.Some? then 1 else 0)
    && |s.ctl.tried| == s.ctl.modeAccepted + s.ctl.modeRefused
  }

  lemma RoutingRequests(s: State, input: Input)
    requires RequestsBalanced(s)
    ensures RequestsBalanced(RxStep(s, input))
  {
    hide RxInput, RxRouteStep;
    RoutingPostsNothing(s, input);
  }

  lemma RoutingPostsNothing(s: State, input: Input)
    ensures var r := RxInput(s.rx, input); r.posted == s.rx.posted && r.realOverwrites == s.rx.realOverwrites
    ensures s.rx.pc.RxRoute? ==>
      var t := RxRouteStep(s, s.rx.pc.frame);
      && t.rx.posted == s.rx.posted && t.rx.realOverwrites == s.rx.realOverwrites
      && t.modeq == s.modeq && t.ctl == s.ctl
  {
    hide Stream.Step, StartsWith, ParseMode, Nonce.Newer, Route;
  }

  lemma ControlRequests(s: State)
    requires RequestsBalanced(s)
    ensures RequestsBalanced(CtlStep(s))
  {
    hide Dispatch, SampleMode, ComputePid, Emit;
  }

  /** Every failsafe entry sends its alarm, counts it as dropped, or is about to. */
  predicate AlarmsBalanced(s: State) {
    && s.fs.entries == s.fs.alarms + s.fs.alarmDropped + (if s.fs.pc.FsAlarm? then 1 else 0)
    && s.fs.alarms == Alarms(Outgoing(s))
  }

  function Alarms(q: seq<Message>): nat
    decreases |q|
  {
    if |q| == 0 then 0 else (if q[0] == Alarm then 1 else 0) + Alarms(q[1..])
  }

  lemma {:induction false} AlarmsConcat(a: seq<Message>, b: seq<Message>)
    ensures Alarms(a + b) == Alarms(a) + Alarms(b)
    decreases |a|
  {
    if |a| == 0 {
      assert a + b == b;
    } else {
      assert (a + b)[1..] == a[1..] + b;
      AlarmsConcat(a[1..], b);
    }
  }

  lemma AlarmsOne(m: Message)
    ensures Alarms([m]) == if m == Alarm then 1 else 0
  {
    assert [m][1..] == [];
  }

  lemma AlarmsInLine(s: State, step: Step)
    ensures Alarms(Outgoing(Next(s, step))) - Alarms(Outgoing(s))
         == if OpOf(s, step).Front? && CanEmit(s) then 1 else 0
  {
    hide Next, Taken, Alarms;
    var t := Next(s, step);
    StepQueues(s, step);
    match OpOf(s, step) {
      case Back(m) =>
        AlarmsConcat(Outgoing(s), [m]);
        AlarmsOne(m);
        assert Taken(s.tx) + (s.txq + [m]) == Outgoing(s) + [m];
      case Front(m) =>
        AlarmsConcat(Taken(s.tx), s.txq);
        AlarmsConcat(Taken(s.tx), [m] + s.txq);
        AlarmsConcat([m], s.txq);
        AlarmsOne(m);
      case _ =>
    }
  }

  lemma FailsafeAlarms(s: State, open: bool, due: bool)
    ensures var t := FsStep(s, open, due);
      t.fs.entries - s.fs.entries
        == (t.fs.alarms - s.fs.alarms) + (t.fs.alarmDropped - s.fs.alarmDropped)
           + (if t.fs.pc.FsAlarm? then 1 else 0) - (if s.fs.pc.FsAlarm? then 1 else 0)
  {
    hide LineEvent, Elapsed, Emit;
    if s.fs.pc.FsBoot? || s.fs.pc.FsWait? || s.fs.pc.FsPoll? {
      NoAlarmYet(s.fs, L.Edge, ToPoll);
      NoAlarmYet(s.fs, L.Level(true), ToWait);
      NoAlarmYet(s.fs, L.Level(open), ToSilence);
    }
  }

  lemma NoAlarmYet(f: Fs, e: L.Event, back: Return)
    ensures !LineEvent(f, e, back).pc.FsAlarm?
  {
    hide L.OnEvent;
  }

  lemma StepConserves(s: State, step: Step)
    requires RequestsBalanced(s) && AlarmsBalanced(s)
    ensures RequestsBalanced(Next(s, step)) && AlarmsBalanced(Next(s, step))
  {
    hide RxStep, CtlStep, FsStep, TxStep, Alarms, Outgoing;
    AlarmsInLine(s, step);
    EcuDelay.AlarmCount(s, step);
    match step {
      case RxTask(input) =>
        RxFrame(s, input);
        RoutingRequests(s, input);
      case CtlTask =>
        CtlFrame(s);
        ControlRequests(s);
      case FsTask(open, due) =>
        FsFrame(s, open, due);
        FailsafeAlarms(s, open, due);
      case TxTask(written) => TxFrame(s, written);
      case _ =>
    }
  }

  /** In every interleaving, no mode request and no alarm is lost uncounted. */
  lemma {:induction false} RequestsAndAlarmsAreConserved(steps: seq<Step>)
    ensures var s := Exec(INITIAL_STATE, steps); RequestsBalanced(s) && AlarmsBalanced(s)
    decreases |steps|
  {
    hide Next, RequestsBalanced, AlarmsBalanced;
    if |steps| == 0 {
      InitiallyConserved();
    } else {
      var n := |steps| - 1;
      RequestsAndAlarmsAreConserved(steps[..n]);
      StepConserves(Exec(INITIAL_STATE, steps[..n]), steps[n]);
    }
  }

  lemma InitiallyConserved()
    ensures RequestsBalanced(INITIAL_STATE) && AlarmsBalanced(INITIAL_STATE)
  {
    assert Outgoing(INITIAL_STATE) == [];
  }
}
