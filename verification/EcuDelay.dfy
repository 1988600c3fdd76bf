/**
 * How long OUTPUT(0) waits: counted in messages, since the time a message takes depends on the
 * line. The bound covers what was queued, what was in flight and the alarms pushed in front
 * (main/failsafe.c:44-85, main/task_tx.c:66-69, main/main.c:21).
 */
module EcuDelay {
  import opened Protocol
  import opened Command
  import opened Ecu
  import opened EcuOutput

  /** Position `p` of the line holds a zero command, after the commands `before`. */
  predicate ZeroAt(line: seq<Message>, p: nat, before: seq<real>) {
    p < |line| && line[p] == Output(0.0) && Values(line[..p]) == before
  }

  lemma AlarmCount(s: State, step: Step)
    ensures Next(s, step).fs.alarms == s.fs.alarms + (if OpOf(s, step).Front? && CanEmit(s) then 1 else 0)
  {
    hide RxStep, CtlStep, TxStep, LineEvent, Elapsed;
    match step {
      case RxTask(input) => RxFrame(s, input);
      case CtlTask => CtlFrame(s);
      case TxTask(written) => TxFrame(s, written);
      case _ =>
    }
  }

  lemma BackKeepsZero(line: seq<Message>, m: Message, p: nat, before: seq<real>)
    requires ZeroAt(line, p, before)
    ensures ZeroAt(line + [m], p, before)
  {
    assert (line + [m])[..p] == line[..p];
  }

  lemma FrontKeepsZero(taken: seq<Message>, queue: seq<Message>, p: nat, before: seq<real>)
    requires ZeroAt(taken + queue, p, before)
    ensures ZeroAt(taken + ([Alarm] + queue), if p < |taken| then p else p + 1, before)
  {
    hide Values;
    var line := taken + ([Alarm] + queue);
    if p < |taken| {
      assert line[..p] == (taken + queue)[..p];
    } else {
      var ahead := queue[..p - |taken|];
      assert line[..p + 1] == taken + ([Alarm] + ahead);
      assert (taken + queue)[..p] == taken + ahead;
      InsertAlarm(taken, ahead);
    }
  }

  lemma StepMovesZero(s: State, step: Step, p: nat, before: seq<real>) returns (q: nat)
    requires ZeroAt(Outgoing(s), p, before)
    ensures ZeroAt(Outgoing(Next(s, step)), q, before)
    ensures q <= p + (Next(s, step).fs.alarms - s.fs.alarms)
    ensures s.fs.alarms <= Next(s, step).fs.alarms
  {
    hide Next, Taken, ZeroAt;
    var t := Next(s, step);
    StepQueues(s, step);
    AlarmCount(s, step);
    q := p;
    match OpOf(s, step) {
      case Back(m) =>
        BackKeepsZero(Outgoing(s), m, p, before);
        assert Taken(s.tx) + (s.txq + [m]) == Outgoing(s) + [m];
      case Front(m) =>
        if CanEmit(s) {
          FrontKeepsZero(Taken(s.tx), s.txq, p, before);
          q := if p < |Taken(s.tx)| then p else p + 1;
        }
      case _ =>
    }
  }

  lemma {:induction false} RunMovesZero(s: State, steps: seq<Step>, p: nat, before: seq<real>) returns (q: nat)
    requires ZeroAt(Outgoing(s), p, before)
    ensures ZeroAt(Outgoing(Exec(s, steps)), q, before)
    ensures s.fs.alarms <= Exec(s, steps).fs.alarms
    ensures q <= p + (Exec(s, steps).fs.alarms - s.fs.alarms)
    decreases |steps|
  {
    hide Next, Outgoing, ZeroAt;
    q := p;
    if |steps| > 0 {
      var n := |steps| - 1;
      q := RunMovesZero(s, steps[..n], p, before);
      q := StepMovesZero(Exec(s, steps[..n]), steps[n], q, before);
    }
  }

  /**
   * The OUTPUT(0) of a failsafe entry has exactly the earlier commands in front of it, and in
   * messages at most those taken and queued at the entry, and the alarms pushed since.
   */
  lemma ZeroKeepsItsPlace(s: State, entry: Step, steps: seq<Step>) returns (p: nat)
    requires Enters(s, entry) && |s.txq| < TX_DEPTH
    ensures var t := Next(s, entry); var u := Exec(t, steps);
      && ZeroAt(Outgoing(u), p, Values(Outgoing(s)))
      && t.fs.alarms <= u.fs.alarms
      && p <= |Outgoing(s)| + (u.fs.alarms - t.fs.alarms)
  {
    hide Exec, Next, Taken, Values, Enters;
    var t := Next(s, entry);
    EntryStops(s, entry);
    var line := Outgoing(s);
    assert Outgoing(t) == line + [Output(0.0)];
    assert Outgoing(t)[..|line|] == line;
    p := RunMovesZero(t, steps, |line|, Values(line));
  }

  /**
   * Once more than eight messages, and one for each alarm posted since, have been handed to the
   * UART after the entry, so has OUTPUT(0), directly after the commands enqueued before it.
   */
  lemma ZeroLeavesInTime(s: State, entry: Step, steps: seq<Step>)
    requires Ordered(s) && Enters(s, entry) && |s.txq| < TX_DEPTH
    requires var t := Next(s, entry); var u := Exec(t, steps);
      |u.tx.done| > |s.tx.done| + 8 + u.fs.alarms - t.fs.alarms
    ensures s.outs + [0.0] <= HandedOver(Exec(Next(s, entry), steps))
  {
    hide Exec, Next, Values, Enters;
    var p := ZeroKeepsItsPlace(s, entry, steps);
    var u := Exec(Next(s, entry), steps);
    var done := Messages(u.tx.done);
    assert |Outgoing(s)| <= |s.tx.done| + 1 + 7;
    assert Outgoing(u)[..p] == done[..p] && Outgoing(u)[p] == done[p];
    assert done == done[..p] + ([done[p]] + done[p + 1..]);
    ValuesConcat(done[..p], [done[p]] + done[p + 1..]);
    ValuesConcat([done[p]], done[p + 1..]);
    ValuesOne(done[p]);
  }
}
