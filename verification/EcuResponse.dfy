/**
 * The response to the failsafe line (main/failsafe.c:91-109, main/failsafe.c:206-222): an edge that
 * has been signalled leads to a locked ECU within a bounded number of steps of task_failsafe,
 * whatever the other tasks do meanwhile.
 */
module EcuResponse {
  import opened Command
  import opened Ecu
  import opened EcuLock
  import opened EcuSilence
  import L = FailsafeLine
  import T = Tasks

  const JUST_OPENED := L.Line(true, 0)

  /** The edge is waiting to be taken. */
  predicate Signalled(s: State, taken: nat) {
    s.edge && taken + T.FailsafeRank(s.fs.pc) <= 13
  }

  /** The edge has been taken and the entry is the next step of task_failsafe. */
  predicate Entering(s: State, taken: nat) {
    s.fs.pc == FsTrip(ToPoll) && s.fs.line == JUST_OPENED && 1 <= taken <= 14
  }

  /** Locked, at zero, out of AUTO, and two closed polls away from the unlock. */
  predicate Stopped(s: State) {
    s.cmd.locked && s.cmd.mode != Auto && s.cmd.output == 0.0 && s.fs.line == JUST_OPENED
  }

  lemma RankBound(pc: FsPc)
    ensures T.FailsafeRank(pc) <= 13
  {
  }

  lemma EdgeIsTaken(s: State, open: bool, due: bool)
    requires Sound(s) && s.edge && s.fs.pc.FsWait?
    ensures var t := FsStep(s, open, due);
      if s.fs.line.latched then Stopped(t) else t.fs.pc == FsTrip(ToPoll) && t.fs.line == JUST_OPENED
  {
  }

  lemma EdgeIsKept(s: State, open: bool, due: bool)
    requires !s.fs.pc.FsWait?
    ensures FsStep(s, open, due).edge == s.edge
  {
    hide LineEvent, Elapsed, Emit;
  }

  lemma EntryLocks(s: State, open: bool, due: bool)
    requires s.fs.pc.FsTrip? && s.fs.line == JUST_OPENED
    ensures Stopped(FsStep(s, open, due)) && FsStep(s, open, due).cmd.mode == Off
  {
    hide Emit;
  }

  lemma OtherTasksLeaveIt(s: State, step: Step)
    requires !step.FsTask?
    ensures Next(s, step).fs == s.fs && (s.edge ==> Next(s, step).edge)
  {
    hide RxStep, CtlStep, TxStep;
    match step {
      case RxTask(input) => RxFrame(s, input);
      case CtlTask => CtlFrame(s);
      case TxTask(written) => TxFrame(s, written);
      case _ =>
    }
  }

  /** task_failsafe takes the semaphore. */
  predicate Takes(s: State, step: Step) {
    step.FsTask? && s.fs.pc.FsWait? && s.edge
  }

  /** One step, from a signalled edge to its entry. */
  lemma ResponseStep(s: State, step: Step, taken: nat)
    requires Sound(s) && (Signalled(s, taken) || Entering(s, taken))
    ensures var t := Next(s, step); var taken' := taken + (if step.FsTask? then 1 else 0);
      if Signalled(s, taken) then
        if Takes(s, step) then
          (if s.fs.line.latched then Stopped(t) && taken' <= 14 else Entering(t, taken'))
        else
          Signalled(t, taken')
      else
        if step.FsTask? then Stopped(t) && t.cmd.mode == Off && taken' <= 15 else Entering(t, taken')
  {
    hide FsStep, Sound;
    match step {
      case FsTask(open, due) =>
        if Signalled(s, taken) {
          if s.fs.pc.FsWait? {
            EdgeIsTaken(s, open, due);
          } else {
            EdgeIsKept(s, open, due);
            T.FailsafeProgress(s, open, due);
          }
        } else {
          EntryLocks(s, open, due);
        }
      case _ => OtherTasksLeaveIt(s, step);
    }
  }

  /** The edge is taken at step `i`, and `j` steps into the run the ECU is stopped. */
  predicate Answered(s: State, steps: seq<Step>, i: nat, j: nat) {
    && i < j <= |steps| && Takes(Exec(s, steps[..i]), steps[i])
    && Stopped(Exec(s, steps[..j])) && Count(steps[..j], false) <= 15
    && (!Exec(s, steps[..i]).fs.line.latched ==> Exec(s, steps[..j]).cmd.mode == Off)
  }

  /** Still signalled; or taken at `i` and about to enter; or answered. */
  predicate Underway(s: State, steps: seq<Step>, i: nat, j: nat) {
    if i >= |steps| then
      Signalled(Exec(s, steps), Count(steps, false))
    else if j > |steps| then
      && Takes(Exec(s, steps[..i]), steps[i]) && !Exec(s, steps[..i]).fs.line.latched
      && Entering(Exec(s, steps), Count(steps, false))
    else
      Answered(s, steps, i, j)
  }

  lemma AnsweredEarlier(s: State, steps: seq<Step>, n: nat, i: nat, j: nat)
    requires n <= |steps| && Answered(s, steps[..n], i, j)
    ensures Answered(s, steps, i, j)
  {
    hide Exec, Takes, Stopped;
    PrefixOfPrefix(s, steps, n, i);
    PrefixOfPrefix(s, steps, n, j);
  }

  lemma {:induction false} Responds(s: State, steps: seq<Step>) returns (i: nat, j: nat)
    requires Sound(s) && s.edge
    ensures Sound(Exec(s, steps)) && Underway(s, steps, i, j)
    decreases |steps|
  {
    hide Next, Sound, Takes, Stopped, Signalled, Entering, Answered;
    if |steps| == 0 {
      i, j := 0, 0;
      assert Signalled(s, 0) by { AtFirst(s); }
    } else {
      var n := |steps| - 1;
      var before := steps[..n];
      i, j := Responds(s, before);
      StepKeepsSound(Exec(s, before), steps[n]);
      if i < n && j <= n {
        AnsweredEarlier(s, steps, n, i, j);
        assert j <= n by { AnsweredInside(s, before, i, j); }
      } else {
        i, j := RespondsOnce(s, steps, i, j);
      }
    }
  }

  lemma AtFirst(s: State)
    requires s.edge
    ensures Signalled(s, 0)
  {
    RankBound(s.fs.pc);
  }

  lemma AnsweredInside(s: State, steps: seq<Step>, i: nat, j: nat)
    requires Answered(s, steps, i, j)
    ensures i < j <= |steps|
  {
  }

  lemma RespondsOnce(s: State, steps: seq<Step>, i: nat, j: nat) returns (i': nat, j': nat)
    requires |steps| > 0 && Sound(Exec(s, steps[..|steps| - 1]))
    requires Underway(s, steps[..|steps| - 1], i, j) && (i >= |steps| - 1 || j > |steps| - 1)
    ensures Underway(s, steps, i', j')
  {
    hide Next, Sound, Stopped;
    var n := |steps| - 1;
    var t, taken := Exec(s, steps[..n]), Count(steps[..n], false);
    ResponseStep(t, steps[n], taken);
    assert steps[..n + 1] == steps;
    if i < n {
      PrefixOfPrefix(s, steps, n, i);
      i', j' := i, if steps[n].FsTask? then n + 1 else n + 2;
    } else if Takes(t, steps[n]) {
      i', j' := n, if t.fs.line.latched then n + 1 else n + 2;
    } else {
      i', j' := n + 1, n + 1;
    }
  }

  /**
   * From any reachable state in which an edge is signalled: once task_failsafe has made 15 more
   * steps, it has taken the edge and, within those 15, the ECU was locked, at zero and out of
   * AUTO, and in OFF if the line had been closed.
   */
  lemma EdgeStopsInTime(before: seq<Step>, steps: seq<Step>) returns (i: nat, j: nat)
    requires Exec(INITIAL_STATE, before).edge && Count(steps, false) >= 15
    ensures Answered(Exec(INITIAL_STATE, before), steps, i, j)
  {
    hide Exec, Sound, Answered, Takes;
    LockFollowsLatch(before);
    i, j := Responds(Exec(INITIAL_STATE, before), steps);
  }
}
