/**
 * The path of a mode request, in every interleaving (main/task_rx.c:140-168,
 * main/task_control.c:120-128, main/ecu_command.c:13-21): the last request posted is the one that
 * waits and the one that control applies, and the others are exactly those overwritten.
 */
module EcuRequests {
  import opened Protocol
  import opened Stream
  import opened Command
  import opened Payload
  import opened Ecu
  import opened EcuLock

  /** The modes asked for by the frames routed as posted, in order. */
  function Asked(routed: seq<Routed>): seq<Mode>
    decreases |routed|
  {
    if |routed| == 0 then []
    else
      var n := |routed| - 1;
      Asked(routed[..n]) + (if routed[n].fate.Posted? then [routed[n].fate.mode] else [])
  }

  /** The request about to be written to queue_mode. */
  function BeingPosted(pc: RxPc): seq<Mode> {
    if pc.RxOverwrite? then [pc.mode] else []
  }

  /** What should wait in queue_mode: the last request posted, unless it has been taken. */
  function Waiting(posted: seq<Mode>, taken: seq<int>): Option<Mode> {
    if |posted| > 0 && (|taken| == 0 || taken[|taken| - 1] < |posted| - 1) then
      Some(posted[|posted| - 1])
    else
      None
  }

  /** Positions of requests, in increasing order. */
  predicate Positions(taken: seq<int>, n: nat) {
    && (forall i :: 0 <= i < |taken| ==> 0 <= taken[i] < n)
    && (forall i, j :: 0 <= i < j < |taken| ==> taken[i] < taken[j])
  }

  predicate TriedAreTaken(c: Ctl, posted: seq<Mode>) {
    && |c.taken| == |c.tried| + (if c.pc.CtlTry? then 1 else 0)
    && Positions(c.taken, |posted|)
    && (forall i :: 0 <= i < |c.tried| ==> c.tried[i] == posted[c.taken[i]])
    && (c.pc.CtlTry? ==> c.pc.request == posted[c.taken[|c.tried|]])
  }

  predicate LastWins(s: State) {
    && Asked(s.rx.routed) == s.rx.posted + BeingPosted(s.rx.pc)
    && TriedAreTaken(s.ctl, s.rx.posted)
    && s.modeq == Waiting(s.rx.posted, s.ctl.taken)
    && |s.rx.posted| == |s.ctl.taken| + s.rx.realOverwrites + (if s.modeq.Some? then 1 else 0)
  }

  // ----- One step -----

  lemma OneMoreAsked(routed: seq<Routed>, x: Routed)
    ensures Asked(routed + [x]) == Asked(routed) + (if x.fate.Posted? then [x.fate.mode] else [])
  {
    assert (routed + [x])[..|routed|] == routed;
  }

  lemma RouteAsks(s: State, f: Frame)
    requires LastWins(s) && s.rx.pc == RxRoute(f)
    ensures LastWins(RxRouteStep(s, f))
  {
    hide Asked, TriedAreTaken, Waiting, ParseMode;
    var t := RxRouteStep(s, f);
    OneMoreAsked(s.rx.routed, t.rx.routed[|s.rx.routed|]);
  }

  lemma PostWins(s: State, input: Input)
    requires LastWins(s) && s.rx.pc.RxOverwrite?
    ensures LastWins(RxStep(s, input))
  {
    hide Asked;
  }

  lemma ReceiveKeepsLast(s: State, input: Input)
    requires LastWins(s)
    ensures LastWins(RxStep(s, input))
  {
    hide Asked, TriedAreTaken, Waiting, RxRouteStep, LastWins;
    match s.rx.pc {
      case RxRoute(f) => RouteAsks(s, f);
      case RxOverwrite(_, _) => PostWins(s, input);
      case _ => OtherwiseNothingPosted(s, input);
    }
  }

  lemma OtherwiseNothingPosted(s: State, input: Input)
    requires LastWins(s) && !s.rx.pc.RxRoute? && !s.rx.pc.RxOverwrite?
    ensures LastWins(RxStep(s, input))
  {
    hide Asked, TriedAreTaken, Waiting, Stream.Step, RxRouteStep;
  }

  lemma TakeWins(s: State)
    requires LastWins(s) && s.ctl.pc.CtlMode?
    ensures LastWins(CtlStep(s))
  {
    hide Asked;
  }

  lemma TryWins(s: State)
    requires LastWins(s) && s.ctl.pc.CtlTry?
    ensures LastWins(CtlStep(s))
  {
    hide Asked;
  }

  lemma OtherwiseNothingTaken(s: State)
    requires !s.ctl.pc.CtlMode? && !s.ctl.pc.CtlTry?
    ensures var t := CtlStep(s);
      t.ctl.taken == s.ctl.taken && t.ctl.tried == s.ctl.tried && !t.ctl.pc.CtlTry? && t.modeq == s.modeq && t.rx == s.rx
  {
    hide Dispatch, SampleMode, ComputePid, CommitStep;
  }

  lemma ControlKeepsLast(s: State)
    requires LastWins(s)
    ensures LastWins(CtlStep(s))
  {
    hide CtlStep, Asked, Waiting;
    if s.ctl.pc.CtlMode? {
      TakeWins(s);
    } else if s.ctl.pc.CtlTry? {
      TryWins(s);
    } else {
      OtherwiseNothingTaken(s);
    }
  }

  lemma StepKeepsLast(s: State, step: Step)
    requires LastWins(s)
    ensures LastWins(Next(s, step))
  {
    hide RxStep, CtlStep, FsStep, TxStep, Asked, Waiting, TriedAreTaken;
    match step {
      case RxTask(input) => ReceiveKeepsLast(s, input);
      case CtlTask => ControlKeepsLast(s);
      case FsTask(open, due) => FsFrame(s, open, due);
      case TxTask(written) => TxFrame(s, written);
      case _ =>
    }
  }

  lemma InitiallyLast()
    ensures LastWins(INITIAL_STATE)
  {
  }

  lemma {:induction false} LastWinsAfter(steps: seq<Step>)
    ensures LastWins(Exec(INITIAL_STATE, steps))
    decreases |steps|
  {
    hide Next, LastWins;
    if |steps| == 0 {
      InitiallyLast();
    } else {
      var n := |steps| - 1;
      LastWinsAfter(steps[..n]);
      StepKeepsLast(Exec(INITIAL_STATE, steps[..n]), steps[n]);
    }
  }

  // ----- All runs -----

  /**
   * In every run: the requests posted are those of the frames received, in order. The last one
   * waits until it is taken. Those tried, and the one in hand, are those at the positions
   * `taken`, each the last posted when it was taken; the requests skipped are as many as those
   * really overwritten.
   */
  lemma LastRequestWins(steps: seq<Step>)
    ensures var s := Exec(INITIAL_STATE, steps); var c := s.ctl; var p := s.rx.posted;
      && Asked(s.rx.routed) == p + BeingPosted(s.rx.pc)
      && (s.modeq.Some? ==> |p| > 0 && s.modeq.value == p[|p| - 1])
      && (s.modeq.None? ==> |p| == 0 || (|c.taken| > 0 && c.taken[|c.taken| - 1] == |p| - 1))
      && Positions(c.taken, |p|)
      && (forall i :: 0 <= i < |c.tried| ==> i < |c.taken| && c.tried[i] == p[c.taken[i]])
      && (c.pc.CtlTry? ==> |c.taken| == |c.tried| + 1 && c.pc.request == p[c.taken[|c.tried|]])
      && |p| - |c.taken| == s.rx.realOverwrites + (if s.modeq.Some? then 1 else 0)
  {
    hide Exec, Asked;
    LastWinsAfter(steps);
  }

  /** Taking and posting, outright: the write replaces what waits, and control takes the last one posted. */
  lemma RequestSteps(s: State, input: Input)
    ensures s.rx.pc.RxOverwrite? ==> RxStep(s, input).modeq == Some(s.rx.pc.mode)
    ensures s.ctl.pc.CtlMode? && s.modeq.Some? ==>
      CtlStep(s).ctl.pc == CtlTry(s.modeq.value) && CtlStep(s).modeq == None
    ensures s.ctl.pc.CtlMode? && s.modeq.None? ==> CtlStep(s).ctl.pc == CtlDispatch
  {
    hide ParseMode;
  }

  /** The requests that queue_mode has held since the previous one was taken, up to the one in hand. */
  function Batch(s: State): seq<Mode>
    requires s.ctl.pc.CtlTry? && LastWins(s)
  {
    var n := |s.ctl.taken|;
    s.rx.posted[(if n > 1 then s.ctl.taken[n - 2] + 1 else 0)..s.ctl.taken[n - 1] + 1]
  }

  /** A request is refused exactly when it asks for AUTO under a lock, and sets the mode otherwise. */
  lemma TryExactly(s: State)
    requires s.ctl.pc.CtlTry?
    ensures var m := s.ctl.pc.request; var t := CtlStep(s); var refused := m == Auto && s.cmd.locked;
      && t.cmd == s.cmd.(mode := if refused then s.cmd.mode else m)
      && t.ctl.modeRefused == s.ctl.modeRefused + (if refused then 1 else 0)
      && t.ctl.modeAccepted == s.ctl.modeAccepted + (if refused then 0 else 1)
      && t.ctl.tried == s.ctl.tried + [m]
  {
  }

  /**
   * In every run, trying the one request that is left of a batch gives the same AUTO or not-AUTO,
   * and the same command for whatever control requests, as trying the whole batch in order.
   */
  lemma BatchIsRefined(steps: seq<Step>, requested: real)
    requires Exec(INITIAL_STATE, steps).ctl.pc.CtlTry?
    ensures var s := Exec(INITIAL_STATE, steps);
      && LastWins(s) && |Batch(s)| > 0 && Batch(s)[|Batch(s)| - 1] == s.ctl.pc.request
      && (CtlStep(s).cmd.mode == Auto <==> ApplyAll(s.cmd, Batch(s)).mode == Auto)
      && Commit(CtlStep(s).cmd, requested).output == Commit(ApplyAll(s.cmd, Batch(s)), requested).output
  {
    hide Exec, CtlStep, ApplyAll, Commit, Asked, TrySetMode;
    var s := Exec(INITIAL_STATE, steps);
    LastWinsAfter(steps);
    LockFollowsLatch(steps);
    assert Sound(s) && Safe(s.cmd);
    BatchIsNotEmpty(s);
    TryIsApplyLast(s);
    OverwriteRefinesQueue(s.cmd, Batch(s), requested);
  }

  lemma BatchIsNotEmpty(s: State)
    requires s.ctl.pc.CtlTry? && LastWins(s)
    ensures |Batch(s)| > 0 && Batch(s)[|Batch(s)| - 1] == s.ctl.pc.request
  {
    hide Asked, Waiting;
  }

  lemma TryIsApplyLast(s: State)
    requires s.ctl.pc.CtlTry? && LastWins(s) && |Batch(s)| > 0 && Batch(s)[|Batch(s)| - 1] == s.ctl.pc.request
    ensures CtlStep(s).cmd == ApplyLast(s.cmd, Batch(s))
  {
    hide LastWins, Batch, TrySetMode;
  }
}
