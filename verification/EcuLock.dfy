/**
 * Lock and latch in every interleaving (main/failsafe.c:88-109): the lock follows the line latch
 * with one step of delay, and a locked ECU commands nothing until it has been unlocked.
 */
module EcuLock {
  import opened Protocol
  import opened Command
  import opened Ecu
  import L = FailsafeLine

  /** Lock and latch agree, except between a latch change and the critical section that follows it. */
  predicate Agree(s: State) {
    match s.fs.pc
    case FsTrip(_) => s.fs.line.latched && !s.cmd.locked
    case FsUnlock(_) => !s.fs.line.latched && s.cmd.locked
    case _ => s.fs.line.latched == s.cmd.locked
  }

  predicate Sound(s: State) {
    Agree(s) && Safe(s.cmd)
  }

  lemma ControlKeepsSound(s: State)
    requires Sound(s)
    ensures Sound(CtlStep(s))
  {
    hide Safe, Dispatch, SampleMode, ComputePid, Emit;
    match s.ctl.pc {
      case CtlTry(m) => OperationsKeepSafe(s.cmd, m, 0.0, false);
      case CtlCommit(requested) => OperationsKeepSafe(s.cmd, Off, requested, false);
      case _ =>
    }
  }

  lemma FailsafeKeepsSound(s: State, open: bool, due: bool)
    requires Sound(s)
    ensures Sound(FsStep(s, open, due))
  {
    hide Safe, Elapsed, Emit;
    OperationsKeepSafe(s.cmd, Off, 0.0, s.fs.pc.FsTrip?);
  }

  lemma StepKeepsSound(s: State, step: Step)
    requires Sound(s)
    ensures Sound(Next(s, step))
  {
    hide RxStep, CtlStep, FsStep, TxStep;
    match step {
      case RxTask(input) => RxFrame(s, input);
      case TxTask(written) => TxFrame(s, written);
      case CtlTask => ControlKeepsSound(s);
      case FsTask(open, due) => FailsafeKeepsSound(s, open, due);
      case _ =>
    }
  }

  /**
   * In every reachable state the lock agrees with the latch outside the two windows of
   * `apply_line_action`, and locked means: not in AUTO, and a zero command.
   */
  lemma {:induction false} LockFollowsLatch(steps: seq<Step>)
    ensures Sound(Exec(INITIAL_STATE, steps))
    decreases |steps|
  {
    hide Next, Sound;
    if |steps| == 0 {
      InitiallySound();
    } else {
      var n := |steps| - 1;
      LockFollowsLatch(steps[..n]);
      StepKeepsSound(Exec(INITIAL_STATE, steps[..n]), steps[n]);
    }
  }

  lemma InitiallySound()
    ensures Sound(INITIAL_STATE)
  {
  }

  // ----- The lock and the history of the line -----

  /** The line event that a step hands to the latch. */
  function EventOf(s: State, step: Step): seq<L.Event> {
    if !step.FsTask? then []
    else if s.fs.pc.FsBoot? then (if step.open then [L.Level(true)] else [])
    else if s.fs.pc.FsWait? then (if s.edge then [L.Edge] else [])
    else if s.fs.pc.FsPoll? then (if step.due then [L.Level(step.open)] else [])
    else []
  }

  /** The edges and levels seen in a run. */
  function LineEvents(s: State, steps: seq<Step>): seq<L.Event>
    decreases |steps|
  {
    if |steps| == 0 then []
    else
      var n := |steps| - 1;
      LineEvents(s, steps[..n]) + EventOf(Exec(s, steps[..n]), steps[n])
  }

  lemma LatchStep(s: State, step: Step)
    ensures var e := EventOf(s, step);
      Next(s, step).fs.line == if |e| == 0 then s.fs.line else L.OnEvent(s.fs.line, e[0]).0
  {
    hide RxStep, CtlStep, TxStep, L.OnEvent, Elapsed, Emit;
    match step {
      case RxTask(input) => RxFrame(s, input);
      case CtlTask => CtlFrame(s);
      case TxTask(written) => TxFrame(s, written);
      case _ =>
    }
  }

  lemma {:induction false} LatchFollowsLine(steps: seq<Step>)
    ensures Exec(INITIAL_STATE, steps).fs.line == L.RunLine(L.FRESH, LineEvents(INITIAL_STATE, steps))
    decreases |steps|
  {
    hide Next, EventOf, L.OnEvent, L.RunLine;
    NoEvents();
    if |steps| > 0 {
      var n := |steps| - 1;
      LatchFollowsLine(steps[..n]);
      var events := LineEvents(INITIAL_STATE, steps[..n]);
      var e := EventOf(Exec(INITIAL_STATE, steps[..n]), steps[n]);
      LatchStep(Exec(INITIAL_STATE, steps[..n]), steps[n]);
      AtMostOneEvent(Exec(INITIAL_STATE, steps[..n]), steps[n]);
      OneMoreEvent(events, e);
    }
  }

  lemma NoEvents()
    ensures L.RunLine(L.FRESH, []) == L.FRESH
  {
  }

  lemma OneMoreEvent(events: seq<L.Event>, e: seq<L.Event>)
    requires |e| <= 1
    ensures L.RunLine(L.FRESH, events + e)
         == if |e| == 0 then L.RunLine(L.FRESH, events) else L.OnEvent(L.RunLine(L.FRESH, events), e[0]).0
  {
    hide L.OnEvent;
    if |e| == 0 {
      assert events + e == events;
    } else {
      assert (events + e)[..|events|] == events;
    }
  }

  lemma AtMostOneEvent(s: State, step: Step)
    ensures |EventOf(s, step)| <= 1
  {
  }

  /**
   * In every interleaving: between the polls, the ECU is locked exactly when one of the last two
   * events of the line was an edge or an open level.
   */
  lemma LockFollowsLine(steps: seq<Step>)
    ensures var s := Exec(INITIAL_STATE, steps);
      !s.fs.pc.FsTrip? && !s.fs.pc.FsUnlock? ==>
        (s.cmd.locked <==> L.RecentlyOpened(LineEvents(INITIAL_STATE, steps)))
  {
    hide Exec, L.RunLine, L.RecentlyOpened;
    LockFollowsLatch(steps);
    LatchFollowsLine(steps);
    L.LatchHistory(LineEvents(INITIAL_STATE, steps));
  }

  // ----- Leaving the lock -----

  predicate Unlocks(s: State, step: Step) {
    step.FsTask? && s.fs.pc.FsUnlock?
  }

  /** An accepted `try_set_mode(AUTO)`. */
  predicate ResumesAuto(s: State, step: Step) {
    step.CtlTask? && s.ctl.pc == CtlTry(Auto) && !s.cmd.locked
  }

  lemma ControlMayResume(s: State)
    ensures CtlStep(s).cmd.locked == s.cmd.locked
    ensures CtlStep(s).cmd.mode == Auto ==> s.cmd.mode == Auto || ResumesAuto(s, CtlTask)
  {
    hide Dispatch, ComputePid;
  }

  lemma FailsafeMayUnlock(s: State, open: bool, due: bool)
    ensures FsStep(s, open, due).cmd.mode == Auto ==> s.cmd.mode == Auto
    ensures s.cmd.locked && !FsStep(s, open, due).cmd.locked ==> s.fs.pc.FsUnlock?
  {
    hide LineEvent, Elapsed;
  }

  lemma OnlyResumeAndUnlock(s: State, step: Step)
    ensures Next(s, step).cmd.mode == Auto ==> s.cmd.mode == Auto || ResumesAuto(s, step)
    ensures s.cmd.locked && !Next(s, step).cmd.locked ==> Unlocks(s, step)
  {
    hide RxStep, CtlStep, FsStep, TxStep;
    match step {
      case RxTask(input) => RxFrame(s, input);
      case CtlTask => ControlMayResume(s);
      case FsTask(open, due) => FailsafeMayUnlock(s, open, due);
      case TxTask(written) => TxFrame(s, written);
      case _ =>
    }
  }

  lemma PrefixOfPrefix(s: State, steps: seq<Step>, n: nat, i: nat)
    requires i <= n <= |steps|
    ensures steps[..n][..i] == steps[..i]
  {
  }

  /** From a locked state to an unlocked one, some step was the unlock. */
  lemma {:induction false} UnlockHappened(s: State, steps: seq<Step>) returns (i: nat)
    requires s.cmd.locked && !Exec(s, steps).cmd.locked
    ensures i < |steps| && Unlocks(Exec(s, steps[..i]), steps[i])
    decreases |steps|
  {
    hide Next, Unlocks;
    var n := |steps| - 1;
    var before := Exec(s, steps[..n]);
    if before.cmd.locked {
      OnlyResumeAndUnlock(before, steps[n]);
      i := n;
    } else {
      i := UnlockHappened(s, steps[..n]);
      PrefixOfPrefix(s, steps, n, i);
    }
  }

  /** From a mode other than AUTO to AUTO, some step was an accepted request. */
  lemma {:induction false} ResumeHappened(s: State, steps: seq<Step>) returns (j: nat)
    requires s.cmd.mode != Auto && Exec(s, steps).cmd.mode == Auto
    ensures j < |steps| && ResumesAuto(Exec(s, steps[..j]), steps[j])
    decreases |steps|
  {
    hide Next, ResumesAuto;
    var n := |steps| - 1;
    var before := Exec(s, steps[..n]);
    if before.cmd.mode != Auto {
      OnlyResumeAndUnlock(before, steps[n]);
      j := n;
    } else {
      j := ResumeHappened(s, steps[..n]);
      PrefixOfPrefix(s, steps, n, j);
    }
  }

  /** After a lock, AUTO is back only through an unlock and then a request tried after it. */
  lemma AutoNeedsUnlockThenRequest(s: State, steps: seq<Step>) returns (i: nat, j: nat)
    requires Sound(s) && s.cmd.locked && Exec(s, steps).cmd.mode == Auto
    ensures i < j < |steps|
    ensures Unlocks(Exec(s, steps[..i]), steps[i])
    ensures ResumesAuto(Exec(s, steps[..j]), steps[j])
  {
    hide Next, Unlocks;
    j := ResumeHappened(s, steps);
    i := UnlockHappened(s, steps[..j]);
    PrefixOfPrefix(s, steps, j, i);
  }
}
