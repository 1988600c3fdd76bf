/**
 * Mode, motor command and failsafe lock (main/ecu_command.c), and the bounded output queue they
 * emit into (`task_tx_emit_output`, main/task_tx.c:53-70). Each function is one critical section
 * of `mutex_ecu_state` (main/ecu_state.c).
 */
module Command {

  datatype Mode = Off | Manual | Auto

  datatype Command = Command(mode: Mode, output: real, locked: bool)

  const INITIAL := Command(Off, 0.0, false)

  /** What travels through queue_tx; payloads other than a command are irrelevant here. */
  datatype Message = Output(value: real) | Alarm | Stats

  const TX_DEPTH := 8

  function PushBack(q: seq<Message>, m: Message): seq<Message> {
    if |q| < TX_DEPTH then q + [m] else q
  }

  function PushFront(q: seq<Message>, m: Message): seq<Message> {
    if |q| < TX_DEPTH then [m] + q else q
  }

  predicate Accepts(c: Command, mode: Mode) {
    !(mode == Auto && c.locked)
  }

  function TrySetMode(c: Command, mode: Mode): Command {
    if Accepts(c, mode) then c.(mode := mode) else c
  }

  function Commit(c: Command, requested: real): Command {
    c.(output := if c.mode == Auto then requested else 0.0)
  }

  function EnterFailsafe(c: Command, lock: bool): Command {
    Command(Off, 0.0, c.locked || lock)
  }

  class TxQueue {
    var messages: seq<Message>

    constructor ()
      ensures messages == []
    {
      messages := [];
    }

    method SendToBack(m: Message) returns (ok: bool)
      modifies this
      ensures ok == (|old(messages)| < TX_DEPTH)
      ensures messages == PushBack(old(messages), m)
    {
      ok := |messages| < TX_DEPTH;
      if ok {
        messages := messages + [m];
      }
    }

    method SendToFront(m: Message) returns (ok: bool)
      modifies this
      ensures ok == (|old(messages)| < TX_DEPTH)
      ensures messages == PushFront(old(messages), m)
    {
      ok := |messages| < TX_DEPTH;
      if ok {
        messages := [m] + messages;
      }
    }
  }

  class EcuCommand {
    var mode: Mode
    var output: real
    var failsafeLocked: bool

    ghost function TheCommand(): Command
      reads this
    {
      Command(mode, output, failsafeLocked)
    }

    constructor ()
      ensures TheCommand() == INITIAL
    {
      mode := Off;
      output := 0.0;
      failsafeLocked := false;
    }

    method TryToSetMode(requested: Mode) returns (accepted: bool)
      modifies this
      ensures accepted == Accepts(old(TheCommand()), requested)
      ensures TheCommand() == TrySetMode(old(TheCommand()), requested)
    {
      if requested == Auto && failsafeLocked {
        return false;
      }
      mode := requested;
      accepted := true;
    }

    method CommitOutput(requested: real, queue: TxQueue) returns (queued: bool)
      modifies this, queue
      ensures TheCommand() == Commit(old(TheCommand()), requested)
      ensures queue.messages == PushBack(old(queue.messages), Output(output))
      ensures queued == (|old(queue.messages)| < TX_DEPTH)
    {
      output := if mode == Auto then requested else 0.0;
      queued := queue.SendToBack(Output(output));
    }

    method EnterFailsafeMode(lock: bool, queue: TxQueue) returns (queued: bool)
      modifies this, queue
      ensures TheCommand() == EnterFailsafe(old(TheCommand()), lock)
      ensures queue.messages == PushBack(old(queue.messages), Output(0.0))
      ensures queued == (|old(queue.messages)| < TX_DEPTH)
    {
      if lock {
        failsafeLocked := true;
      }
      output := 0.0;
      mode := Off;
      queued := queue.SendToBack(Output(0.0));
    }

    method SetFailsafeLocked(locked: bool)
      modifies this
      ensures TheCommand() == old(TheCommand()).(locked := locked)
    {
      failsafeLocked := locked;
    }
  }

  // ----- Requests in the length-1 mode queue -----

  function ApplyAll(c: Command, requests: seq<Mode>): Command
    decreases |requests|
  {
    if |requests| == 0 then c else ApplyAll(TrySetMode(c, requests[0]), requests[1..])
  }

  /** What `xQueueOverwrite` leaves to apply: the last request. */
  function ApplyLast(c: Command, requests: seq<Mode>): Command {
    if |requests| == 0 then c else TrySetMode(c, requests[|requests| - 1])
  }

  /** A lock forbids AUTO and holds the command at zero; every operation keeps this. */
  predicate Safe(c: Command) {
    c.locked ==> c.mode != Auto && c.output == 0.0
  }

  lemma OperationsKeepSafe(c: Command, mode: Mode, requested: real, lock: bool)
    requires Safe(c)
    ensures Safe(TrySetMode(c, mode)) && Safe(Commit(c, requested)) && Safe(EnterFailsafe(c, lock))
    ensures Safe(c.(locked := false))
  {
  }

  /** The mode that applying every request in order ends in. */
  function ModeAfterAll(c: Command, requests: seq<Mode>): Mode
    decreases |requests|
  {
    if |requests| == 0 then c.mode
    else if Accepts(c, requests[|requests| - 1]) then requests[|requests| - 1]
    else ModeAfterAll(c, requests[..|requests| - 1])
  }

  lemma {:induction false} ApplySnoc(c: Command, requests: seq<Mode>, last: Mode)
    ensures ApplyAll(c, requests + [last]) == TrySetMode(ApplyAll(c, requests), last)
    decreases |requests|
  {
    if |requests| == 0 {
      assert requests + [last] == [last];
      assert [last][1..] == [];
    } else {
      assert (requests + [last])[1..] == requests[1..] + [last];
      ApplySnoc(TrySetMode(c, requests[0]), requests[1..], last);
    }
  }

  lemma {:induction false} ApplyAllMode(c: Command, requests: seq<Mode>)
    ensures ApplyAll(c, requests) == c.(mode := ModeAfterAll(c, requests))
    decreases |requests|
  {
    if |requests| > 0 {
      var n := |requests| - 1;
      assert requests == requests[..n] + [requests[n]];
      ApplySnoc(c, requests[..n], requests[n]);
      ApplyAllMode(c, requests[..n]);
    }
  }

  lemma {:induction false} LockedNeverAuto(c: Command, requests: seq<Mode>)
    requires Safe(c) && c.locked
    ensures ModeAfterAll(c, requests) != Auto
    decreases |requests|
  {
    if |requests| > 0 {
      LockedNeverAuto(c, requests[..|requests| - 1]);
    }
  }

  /**
   * Overwriting refines queueing: keeping only the last request gives the same AUTO / not AUTO
   * answer as applying every request in order, hence the same committed command.
   */
  lemma OverwriteRefinesQueue(c: Command, requests: seq<Mode>, requested: real)
    requires Safe(c)
    ensures ApplyLast(c, requests).mode == Auto <==> ApplyAll(c, requests).mode == Auto
    ensures Commit(ApplyLast(c, requests), requested).output == Commit(ApplyAll(c, requests), requested).output
  {
    ApplyAllMode(c, requests);
    if c.locked {
      LockedNeverAuto(c, requests);
    }
  }

  /**
   * The mode itself is the same exactly when the last request is not a refused AUTO, or the last
   * request before it that could be applied asked for the mode already set.
   */
  lemma OverwriteModeExactly(c: Command, requests: seq<Mode>)
    requires |requests| > 0
    ensures var n := |requests| - 1;
      ApplyLast(c, requests).mode == ApplyAll(c, requests).mode
      <==> !(c.locked && requests[n] == Auto) || ModeAfterAll(c, requests[..n]) == c.mode
  {
    ApplyAllMode(c, requests);
  }

  /** A locked ECU in OFF: MANUAL then AUTO would leave MANUAL, the overwritten queue leaves OFF. */
  lemma OverwriteLosesMode()
    ensures var c := Command(Off, 0.0, true);
      ApplyAll(c, [Manual, Auto]).mode == Manual && ApplyLast(c, [Manual, Auto]).mode == Off
  {
    var c := Command(Off, 0.0, true);
    ApplyAllMode(c, [Manual, Auto]);
    assert [Manual, Auto][..1] == [Manual];
    assert [Manual][..0] == [];
    assert ModeAfterAll(c, [Manual, Auto]) == ModeAfterAll(c, [Manual]);
  }
}
