/**
 * The commands on their way to the motor controller, in every interleaving (main/ecu_command.c:28-46,
 * main/failsafe.c:44-85, main/task_control.c:198-211, main/task_tx.c:53-128): their order on the
 * line, what may still follow a failsafe, and where every command went.
 */
module EcuOutput {
  import opened Protocol
  import opened Command
  import opened Ecu
  import opened EcuLock

  // ----- What has left, is leaving and will leave, front first -----

  function ValueOf(m: Message): seq<real> {
    if m.Output? then [m.value] else []
  }

  /** The command values among messages. */
  function Values(q: seq<Message>): seq<real> {
    if |q| == 0 then [] else ValueOf(q[0]) + Values(q[1..])
  }

  function Messages(done: seq<Done>): (q: seq<Message>)
    ensures |q| == |done|
  {
    seq(|done|, i requires 0 <= i < |done| => done[i].message)
  }

  function Flight(t: Tx): seq<Message> {
    if t.inFlight.Some? then [t.inFlight.value] else []
  }

  function Taken(t: Tx): seq<Message> {
    Messages(t.done) + Flight(t)
  }

  function Outgoing(s: State): seq<Message> {
    Taken(s.tx) + s.txq
  }

  lemma {:induction false} ValuesConcat(a: seq<Message>, b: seq<Message>)
    ensures Values(a + b) == Values(a) + Values(b)
    decreases |a|
  {
    hide ValueOf;
    if |a| == 0 {
      assert a + b == b;
    } else {
      var tail := a[1..];
      assert a + b == [a[0]] + (tail + b) && (a + b)[1..] == tail + b;
      ValuesConcat(tail, b);
      assert Values(a + b) == ValueOf(a[0]) + Values(tail + b);
    }
  }

  lemma ValuesOne(m: Message)
    ensures Values([m]) == ValueOf(m)
  {
    assert [m][1..] == [];
  }

  lemma {:induction false} ValuesLength(q: seq<Message>)
    ensures |Values(q)| <= |q|
  {
    if |q| > 0 {
      ValuesLength(q[1..]);
    }
  }

  // ----- The effect of each step on the output queue -----

  datatype QueueOp = Untouched | Back(m: Message) | Front(m: Message) | Take

  function OpOf(s: State, step: Step): QueueOp {
    match step
    case CtlTask => if s.ctl.pc.CtlCommit? then Back(Output(Commit(s.cmd, s.ctl.pc.requested).output)) else Untouched
    case FsTask(_, _) =>
      if s.fs.pc.FsTrip? || s.fs.pc.FsSilent? then Back(Output(0.0))
      else if s.fs.pc.FsAlarm? then Front(Alarm)
      else Untouched
    case TxTask(_) => Take
    case Telemetry => Back(Stats)
    case _ => Untouched
  }

  function Emitted(s: State, op: QueueOp): seq<real> {
    if op.Back? && op.m.Output? && CanEmit(s) then [op.m.value] else []
  }

  predicate Applied(s: State, op: QueueOp, t: State) {
    && t.outs == s.outs + Emitted(s, op)
    && match op
       case Untouched => t.txq == s.txq && t.tx == s.tx
       case Back(m) => t.txq == PushBack(s.txq, m) && t.tx == s.tx
       case Front(m) => t.txq == PushFront(s.txq, m) && t.tx == s.tx
       case Take => Taken(t.tx) + t.txq == Taken(s.tx) + s.txq && |t.txq| <= |s.txq|
  }

  lemma ControlQueues(s: State)
    ensures Applied(s, OpOf(s, CtlTask), CtlStep(s))
  {
    hide Dispatch, ComputePid, SampleMode;
  }

  lemma FailsafeQueues(s: State, open: bool, due: bool)
    ensures Applied(s, OpOf(s, FsTask(open, due)), FsStep(s, open, due))
  {
    hide LineEvent, Elapsed;
  }

  lemma TxQueues(s: State, written: bool)
    ensures Applied(s, Take, TxStep(s, written))
  {
    var t := s.tx;
    match t.inFlight {
      case None =>
        if |s.txq| > 0 {
          assert s.txq == [s.txq[0]] + s.txq[1..];
        }
      case Some(m) =>
        assert Messages(t.done + [Done(m, written)]) == Messages(t.done) + [m];
    }
  }

  lemma StepQueues(s: State, step: Step)
    ensures Applied(s, OpOf(s, step), Next(s, step))
  {
    hide RxStep, CtlStep, FsStep, TxStep;
    match step {
      case RxTask(input) => RxFrame(s, input);
      case CtlTask => ControlQueues(s);
      case FsTask(open, due) => FailsafeQueues(s, open, due);
      case TxTask(written) => TxQueues(s, written);
      case _ =>
    }
  }

  // ----- Order -----

  predicate Ordered(s: State) {
    Values(Outgoing(s)) == s.outs && |s.txq| <= TX_DEPTH
  }

  lemma InsertAlarm(a: seq<Message>, b: seq<Message>)
    ensures Values(a + ([Alarm] + b)) == Values(a + b)
  {
    ValuesConcat(a, [Alarm] + b);
    ValuesConcat([Alarm], b);
    ValuesOne(Alarm);
    ValuesConcat(a, b);
  }

  lemma AppendMessage(a: seq<Message>, m: Message)
    ensures Values(a + [m]) == Values(a) + ValueOf(m)
  {
    ValuesConcat(a, [m]);
    ValuesOne(m);
  }

  lemma AppliedKeepsOrdered(s: State, op: QueueOp, t: State)
    requires Ordered(s) && Applied(s, op, t) && (op.Front? ==> op.m == Alarm)
    ensures Ordered(t)
  {
    hide Taken;
    match op {
      case Untouched =>
      case Back(m) =>
        AppendMessage(Outgoing(s), m);
        assert Taken(s.tx) + (s.txq + [m]) == Outgoing(s) + [m];
      case Front(m) => InsertAlarm(Taken(s.tx), s.txq);
      case Take =>
    }
  }

  lemma OrderedStep(s: State, step: Step)
    requires Ordered(s)
    ensures Ordered(Next(s, step))
  {
    hide Next, Ordered, Applied;
    StepQueues(s, step);
    AppliedKeepsOrdered(s, OpOf(s, step), Next(s, step));
  }

  lemma {:induction false} OrderedAfter(s: State, steps: seq<Step>)
    requires Ordered(s)
    ensures Ordered(Exec(s, steps))
    decreases |steps|
  {
    hide Next, Ordered;
    if |steps| > 0 {
      var n := |steps| - 1;
      OrderedAfter(s, steps[..n]);
      OrderedStep(Exec(s, steps[..n]), steps[n]);
    }
  }

  /**
   * Handed to the UART, in flight and in queue_tx, the commands are exactly those enqueued, in
   * critical-section order, whatever is pushed to the front meanwhile.
   */
  lemma CommandsKeepTheirOrder(steps: seq<Step>)
    ensures var s := Exec(INITIAL_STATE, steps);
      Values(Messages(s.tx.done) + Flight(s.tx) + s.txq) == s.outs && |s.txq| <= TX_DEPTH
  {
    hide Exec;
    OrderedAfter(INITIAL_STATE, steps);
  }

  // ----- After a failsafe -----

  /** No request for AUTO is accepted during the run. */
  predicate NeverResumed(s: State, steps: seq<Step>) {
    forall i :: 0 <= i < |steps| ==> !ResumesAuto(Exec(s, steps[..i]), steps[i])
  }

  predicate AllZero(v: seq<real>) {
    forall i :: 0 <= i < |v| ==> v[i] == 0.0
  }

  lemma ShorterRun(s: State, steps: seq<Step>, n: nat)
    requires n <= |steps| && NeverResumed(s, steps)
    ensures NeverResumed(s, steps[..n])
  {
    forall i | 0 <= i < n
      ensures !ResumesAuto(Exec(s, steps[..n][..i]), steps[..n][i])
    {
      PrefixOfPrefix(s, steps, n, i);
    }
  }

  lemma ZeroUnlessAuto(s: State, step: Step)
    requires s.cmd.mode != Auto
    ensures AllZero(Emitted(s, OpOf(s, step)))
  {
  }

  /**
   * Out of AUTO, and until a request for AUTO is accepted, every command enqueued is zero, even
   * one computed by a control cycle that had sampled AUTO before.
   */
  lemma {:induction false} StoppedStaysStopped(s: State, steps: seq<Step>) returns (zeros: seq<real>)
    requires s.cmd.mode != Auto && NeverResumed(s, steps)
    ensures Exec(s, steps).cmd.mode != Auto
    ensures Exec(s, steps).outs == s.outs + zeros && AllZero(zeros)
    decreases |steps|
  {
    hide Next, ResumesAuto, OpOf, Emitted;
    if |steps| == 0 {
      zeros := [];
    } else {
      var n := |steps| - 1;
      ShorterRun(s, steps, n);
      zeros := StoppedStaysStopped(s, steps[..n]);
      var t := Exec(s, steps[..n]);
      StepQueues(t, steps[n]);
      OnlyResumeAndUnlock(t, steps[n]);
      ZeroUnlessAuto(t, steps[n]);
      zeros := zeros + Emitted(t, OpOf(t, steps[n]));
    }
  }

  /** A step that is a failsafe entry: the critical section of `trigger_failsafe`. */
  predicate Enters(s: State, step: Step) {
    step.FsTask? && (s.fs.pc.FsTrip? || s.fs.pc.FsSilent?)
  }

  lemma EntryStops(s: State, step: Step)
    requires Enters(s, step)
    ensures var t := Next(s, step);
      && t.cmd.mode == Off && t.cmd.output == 0.0
      && (s.fs.pc.FsTrip? ==> t.cmd.locked)
      && t.tx == s.tx && t.txq == (if |s.txq| < 8 then s.txq + [Output(0.0)] else s.txq)
      && t.outs == s.outs + (if |s.txq| < 8 then [0.0] else [])
  {
  }

  /** The commands that had not left when the failsafe was entered. */
  function Residue(s: State): seq<real> {
    Values(Flight(s.tx) + s.txq)
  }

  /** The commands handed to the UART so far, front first, whether or not the write succeeded. */
  function HandedOver(s: State): seq<real> {
    Values(Messages(s.tx.done))
  }

  lemma LineValues(s: State)
    requires Ordered(s)
    ensures HandedOver(s) + Residue(s) == s.outs
  {
    assert Outgoing(s) == Messages(s.tx.done) + (Flight(s.tx) + s.txq);
    ValuesConcat(Messages(s.tx.done), Flight(s.tx) + s.txq);
  }

  lemma ResidueBound(s: State)
    requires |s.txq| <= TX_DEPTH
    ensures |Residue(s)| <= |s.txq| + 1 <= 9
    ensures |s.txq| < TX_DEPTH ==> |Residue(s)| <= 8
  {
    ValuesLength(Flight(s.tx) + s.txq);
  }

  lemma {:induction false} DoneGrows(s: State, steps: seq<Step>) returns (more: seq<Done>)
    ensures Exec(s, steps).tx.done == s.tx.done + more
    decreases |steps|
  {
    hide RxStep, CtlStep, FsStep;
    more := [];
    if |steps| > 0 {
      var n := |steps| - 1;
      more := DoneGrows(s, steps[..n]);
      var t := Exec(s, steps[..n]);
      DoneGrowsByStep(t, steps[n]);
      more := more + Next(t, steps[n]).tx.done[|t.tx.done|..];
    }
  }

  lemma DoneGrowsByStep(s: State, step: Step)
    ensures |s.tx.done| <= |Next(s, step).tx.done|
    ensures Next(s, step).tx.done[..|s.tx.done|] == s.tx.done
  {
    hide RxStep, CtlStep, FsStep;
    match step {
      case RxTask(input) => RxFrame(s, input);
      case CtlTask => CtlFrame(s);
      case FsTask(open, due) => FsFrame(s, open, due);
      case _ =>
    }
  }

  lemma HandedOverGrows(s: State, steps: seq<Step>) returns (sent: seq<real>)
    ensures HandedOver(Exec(s, steps)) == HandedOver(s) + sent
  {
    hide Exec;
    var more := DoneGrows(s, steps);
    assert Messages(s.tx.done + more) == Messages(s.tx.done) + Messages(more);
    ValuesConcat(Messages(s.tx.done), Messages(more));
    sent := Values(Messages(more));
  }

  /**
   * From a failsafe entry until AUTO is accepted again, what the UART is handed is the residue of
   * that moment, in order, and then zeros: at most nine commands other than zero, at most
   * eight when OUTPUT(0) was enqueued.
   */
  lemma FailsafeResidue(s: State, entry: Step, steps: seq<Step>) returns (sent: seq<real>)
    requires Ordered(s) && Enters(s, entry) && NeverResumed(Next(s, entry), steps)
    ensures HandedOver(Exec(Next(s, entry), steps)) == HandedOver(s) + sent
    ensures forall k :: 0 <= k < |sent| ==>
      sent[k] == if k < |Residue(s)| then Residue(s)[k] else 0.0
    ensures |Residue(s)| <= 9 && (|s.txq| < TX_DEPTH ==> |Residue(s)| <= 8)
  {
    hide Exec, Next, Ordered, Residue, HandedOver, Values, NeverResumed, Enters;
    var t := Next(s, entry);
    assert t.outs == s.outs + (if |s.txq| < TX_DEPTH then [0.0] else []) && t.tx == s.tx && t.cmd.mode == Off by {
      EntryStops(s, entry);
    }
    var u := Exec(t, steps);
    var zeros := StoppedStaysStopped(t, steps);
    sent := HandedOverGrows(t, steps);
    assert HandedOver(t) == HandedOver(s) by { HandedOverOfTx(s, t); }
    StepQueues(s, entry);
    assert Ordered(t) by { OrderedStep(s, entry); }
    OrderedAfter(t, steps);
    LineValues(u);
    LineValues(s);
    assert |s.txq| <= TX_DEPTH by { OrderedRoom(s); }
    ResidueBound(s);
    var tail := (if |s.txq| < TX_DEPTH then [0.0] else []) + zeros;
    SentIsPrefix(HandedOver(s), sent, Residue(u), Residue(s), tail);
  }

  lemma SentIsPrefix(w: seq<real>, sent: seq<real>, rest: seq<real>, residue: seq<real>, zeros: seq<real>)
    requires w + sent + rest == w + residue + zeros && AllZero(zeros)
    ensures forall k :: 0 <= k < |sent| ==> sent[k] == if k < |residue| then residue[k] else 0.0
  {
    forall k | 0 <= k < |sent|
      ensures sent[k] == if k < |residue| then residue[k] else 0.0
    {
      assert sent[k] == (w + sent + rest)[|w| + k];
      assert (w + residue + zeros)[|w| + k] == if k < |residue| then residue[k] else zeros[k - |residue|];
    }
  }

  lemma HandedOverOfTx(s: State, t: State)
    requires t.tx == s.tx
    ensures HandedOver(t) == HandedOver(s)
  {
  }

  lemma OrderedRoom(s: State)
    requires Ordered(s)
    ensures |s.txq| <= TX_DEPTH
  {
  }
}
