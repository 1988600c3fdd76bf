/**
 * The alarm overtakes the queue, in every interleaving (main/failsafe.c:44-64): the message that
 * task_tx takes next is an alarm, whatever was queued, and only a message already in flight goes
 * to the UART before it.
 */
module EcuAlarm {
  import opened Protocol
  import opened Command
  import opened Ecu
  import opened EcuOutput

  /** How many messages task_tx has taken from queue_tx. */
  function TakenCount(t: Tx): nat {
    |t.done| + (if t.inFlight.Some? then 1 else 0)
  }

  /** The k-th message is an alarm: taken already, or first in the queue. */
  predicate AlarmAt(t: Tx, txq: seq<Message>, k: nat) {
    if k < |t.done| then t.done[k].message == Alarm
    else if k < TakenCount(t) then t.inFlight == Some(Alarm)
    else k == TakenCount(t) && |txq| > 0 && txq[0] == Alarm
  }

  /** Pushing an alarm, outright: in front of everything queued. */
  lemma AlarmIsFirst(s: State, open: bool, due: bool)
    requires s.fs.pc.FsAlarm? && |s.txq| < 8
    ensures var t := FsStep(s, open, due);
      && t.txq == [Alarm] + s.txq && t.tx == s.tx && AlarmAt(t.tx, t.txq, TakenCount(s.tx))
  {
  }

  lemma TxKeepsAlarm(s: State, written: bool, k: nat)
    requires AlarmAt(s.tx, s.txq, k)
    ensures AlarmAt(TxStep(s, written).tx, TxStep(s, written).txq, k)
  {
  }

  lemma OthersKeepAlarm(s: State, step: Step, k: nat)
    requires AlarmAt(s.tx, s.txq, k) && !step.TxTask?
    ensures AlarmAt(Next(s, step).tx, Next(s, step).txq, k)
  {
    hide Next, Taken;
    StepQueues(s, step);
  }

  lemma {:induction false} RunKeepsAlarm(s: State, steps: seq<Step>, k: nat)
    requires AlarmAt(s.tx, s.txq, k)
    ensures AlarmAt(Exec(s, steps).tx, Exec(s, steps).txq, k)
    decreases |steps|
  {
    hide Next, AlarmAt;
    if |steps| > 0 {
      var n := |steps| - 1;
      RunKeepsAlarm(s, steps[..n], k);
      var t := Exec(s, steps[..n]);
      if steps[n].TxTask? {
        TxKeepsAlarm(t, steps[n].written, k);
        assert Next(t, steps[n]) == TxStep(t, steps[n].written) by { NextOfTx(t, steps[n].written); }
      } else {
        OthersKeepAlarm(t, steps[n], k);
      }
    }
  }

  lemma NextOfTx(s: State, written: bool)
    ensures Next(s, TxTask(written)) == TxStep(s, written)
  {
    hide TxStep;
  }

  /**
   * After a step that pushes an alarm, in any run: the next message task_tx takes is an alarm. It
   * comes directly after the messages handed over before and the one in flight, if any, and
   * while it is not taken it is first in the queue.
   */
  lemma AlarmGoesNext(s: State, open: bool, due: bool, steps: seq<Step>)
    requires s.fs.pc.FsAlarm? && |s.txq| < 8
    ensures var u := Exec(FsStep(s, open, due), steps);
      var k := |s.tx.done| + (if s.tx.inFlight.Some? then 1 else 0);
      && (|u.tx.done| > k ==> u.tx.done[k].message == Alarm)
      && (|u.tx.done| == k && u.tx.inFlight.Some? ==> u.tx.inFlight == Some(Alarm))
      && (|u.tx.done| + (if u.tx.inFlight.Some? then 1 else 0) <= k ==> |u.txq| > 0 && u.txq[0] == Alarm)
  {
    hide Exec, FsStep;
    AlarmIsFirst(s, open, due);
    RunKeepsAlarm(FsStep(s, open, due), steps, TakenCount(s.tx));
  }
}
