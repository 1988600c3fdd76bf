/**
 * The frames themselves, in every interleaving: what task_control dispatches is what came over
 * the line, in order (main/task_rx.c:183-197, main/task_control.c:131-184). The receiving
 * counterpart of EcuOutput.
 */
module EcuDelivery {
  import opened Bytes
  import opened Protocol
  import opened Stream
  import opened Command
  import opened Payload
  import opened Ecu
  import opened EcuReceive
  import P = Parser
  import N = Nonce
  import R = RoundTrip
  import C = CleanLine
  import G = ReplayGuard
  import F = FloatOrder

  /** The frames that went into queue_frames. */
  function Kept(routed: seq<Routed>): seq<Frame>
    decreases |routed|
  {
    if |routed| == 0 then []
    else
      var n := |routed| - 1;
      Kept(routed[..n]) + (if routed[n].fate.Enqueued? then [routed[n].frame] else [])
  }

  /** How many frames met a full queue_frames. */
  function Losses(routed: seq<Routed>): nat
    decreases |routed|
  {
    if |routed| == 0 then 0
    else
      var n := |routed| - 1;
      Losses(routed[..n]) + (if routed[n].fate.Lost? then 1 else 0)
  }

  /** A mode request is posted or rejected by its payload; anything else is queued or lost. */
  predicate ProperFate(x: Routed) {
    if x.frame.typ == MODE_SET then
      x.fate == (match ParseMode(x.frame) case None => Rejected case Some(m) => Posted(m))
    else
      x.fate.Enqueued? || x.fate.Lost?
  }

  predicate ProperFates(routed: seq<Routed>) {
    forall i :: 0 <= i < |routed| ==> ProperFate(routed[i])
  }

  /** The frame that task_control has taken and not dispatched yet. */
  function Held(c: Ctl): seq<Frame> {
    if c.pc.CtlHeld? then [c.pc.frame] else []
  }

  /** The last value among frames of type `typ` that the dispatch applies; zero before the first. */
  function LastValue(frames: seq<Frame>, typ: byte, max: real): real
    decreases |frames|
  {
    if |frames| == 0 then 0.0
    else
      var n := |frames| - 1;
      var status := ParseBounded(frames[n], 0.0, max);
      if frames[n].typ == typ && status.Ok? then status.value else LastValue(frames[..n], typ, max)
  }

  predicate Delivered(s: Ecu.State) {
    && Kept(s.rx.routed) == s.ctl.dispatched + Held(s.ctl) + s.rxq
    && ProperFates(s.rx.routed) && Losses(s.rx.routed) == s.rx.queueFull
    && s.setpoint == LastValue(s.ctl.dispatched, SETPOINT, 220.0)
    && s.speed == LastValue(s.ctl.dispatched, SPEED, 242.0)
  }

  // ----- One step -----

  lemma OneMoreRouted(routed: seq<Routed>, x: Routed)
    ensures Kept(routed + [x]) == Kept(routed) + (if x.fate.Enqueued? then [x.frame] else [])
    ensures Losses(routed + [x]) == Losses(routed) + (if x.fate.Lost? then 1 else 0)
    ensures ProperFates(routed) && ProperFate(x) ==> ProperFates(routed + [x])
  {
    hide ProperFate;
    assert (routed + [x])[..|routed|] == routed;
  }

  lemma OneMoreFrame(frames: seq<Frame>, f: Frame, typ: byte, max: real)
    ensures var status := ParseBounded(f, 0.0, max);
      LastValue(frames + [f], typ, max)
        == if f.typ == typ && status.Ok? then status.value else LastValue(frames, typ, max)
  {
    hide ParseBounded;
    assert (frames + [f])[..|frames|] == frames;
  }

  lemma RouteDelivers(s: Ecu.State, f: Frame)
    requires Delivered(s)
    ensures Delivered(RxRouteStep(s, f))
  {
    hide Kept, Losses, LastValue, ParseMode, ProperFates;
    var t := RxRouteStep(s, f);
    OneMoreRouted(s.rx.routed, t.rx.routed[|s.rx.routed|]);
  }

  lemma ReceiveDelivers(s: Ecu.State, input: Input)
    requires Delivered(s)
    ensures Delivered(RxStep(s, input))
  {
    hide Kept, Losses, LastValue, ProperFates, RxRouteStep;
    if s.rx.pc.RxRoute? {
      RouteDelivers(s, s.rx.pc.frame);
    } else if s.rx.pc.RxRead? {
      InputRoutesNothing(s.rx, input);
    }
  }

  lemma InputRoutesNothing(x: Rx, input: Input)
    ensures RxInput(x, input).routed == x.routed && RxInput(x, input).queueFull == x.queueFull
  {
    hide Stream.Step;
  }

  lemma DispatchDelivers(s: Ecu.State, f: Frame)
    requires Delivered(s) && s.ctl.pc == CtlHeld(f)
    ensures Delivered(Dispatch(s, f))
  {
    hide Kept, Losses, LastValue, ProperFates, ParseBounded;
    OneMoreFrame(s.ctl.dispatched, f, SETPOINT, 220.0);
    OneMoreFrame(s.ctl.dispatched, f, SPEED, 242.0);
  }

  lemma ControlDelivers(s: Ecu.State)
    requires Delivered(s)
    ensures Delivered(CtlStep(s))
  {
    hide Kept, Losses, LastValue, ProperFates, Dispatch, SampleMode, ComputePid, Emit;
    match s.ctl.pc {
      case CtlHeld(f) => DispatchDelivers(s, f);
      case CtlDispatch =>
        if |s.rxq| > 0 {
          assert s.rxq == [s.rxq[0]] + s.rxq[1..];
        }
      case _ =>
    }
  }

  lemma StepDelivers(s: Ecu.State, step: Ecu.Step)
    requires Delivered(s)
    ensures Delivered(Next(s, step))
  {
    hide RxStep, CtlStep, FsStep, TxStep, Kept, Losses, LastValue, ProperFates;
    match step {
      case RxTask(input) => ReceiveDelivers(s, input);
      case CtlTask => ControlDelivers(s);
      case FsTask(open, due) => FsFrame(s, open, due);
      case TxTask(written) => TxFrame(s, written);
      case _ =>
    }
  }

  lemma InitiallyDelivered()
    ensures Delivered(INITIAL_STATE)
  {
  }

  lemma {:induction false} DeliveredAfter(steps: seq<Ecu.Step>)
    ensures Delivered(Exec(INITIAL_STATE, steps))
    decreases |steps|
  {
    hide Next, Delivered;
    if |steps| == 0 {
      InitiallyDelivered();
    } else {
      var n := |steps| - 1;
      DeliveredAfter(steps[..n]);
      StepDelivers(Exec(INITIAL_STATE, steps[..n]), steps[n]);
    }
  }

  // ----- All runs -----

  /**
   * In every interleaving: the frames routed and in hand are those that the specification accepts
   * from the bytes read; the frames dispatched, held and waiting are, in order, those of them put
   * into queue_frames, which are all but the mode requests and the `queueFull` ones that met a
   * full queue; and setpoint and speed are those of the last plausible frame dispatched.
   */
  lemma FramesKeepTheirOrder(steps: seq<Ecu.Step>)
    ensures var s := Exec(INITIAL_STATE, steps);
      && FramesOf(s.rx.routed) + InHand(s.rx.pc) == Received(Inputs(INITIAL_STATE, steps)).frames
      && Kept(s.rx.routed) == s.ctl.dispatched + Held(s.ctl) + s.rxq
      && ProperFates(s.rx.routed) && Losses(s.rx.routed) == s.rx.queueFull
      && s.setpoint == LastValue(s.ctl.dispatched, SETPOINT, 220.0)
      && s.speed == LastValue(s.ctl.dispatched, SPEED, 242.0)
  {
    hide Exec, Inputs, Received, FramesOf, Kept, Losses, LastValue, ProperFates;
    ReceptionInStep(steps);
    DeliveredAfter(steps);
  }

  /**
   * In every interleaving, the frames accepted are exactly those reported by the parser that the
   * window lets pass, their nonces advance by 1 to 32767 each, from zero, and the others are
   * counted as replays.
   */
  lemma ReplaysAreRefused(steps: seq<Ecu.Step>)
    ensures var x := Exec(INITIAL_STATE, steps).rx;
      var frames := G.Reported(Run([], Inputs(INITIAL_STATE, steps)).events);
      && Passed(x) == G.Select(frames, N.Verdicts(0, G.Nonces(frames)))
      && G.Advancing(0, Passed(x))
      && x.replay + |Passed(x)| == |frames| && x.valid == |Passed(x)|
  {
    hide Exec, Inputs, Run, Passed, R.ReceiveAll, G.Advancing, G.Reported, G.Select, N.Verdicts;
    ReceptionInStep(steps);
    var events := Run([], Inputs(INITIAL_STATE, steps)).events;
    G.ReceivedByWindow(EcuReceive.FRESH, events);
    G.SelectedAdvance(0, G.Reported(events));
    ValidCounts(EcuReceive.FRESH, events);
  }

  lemma {:induction false} ValidCounts(r: R.Receiver, events: seq<P.Event>)
    requires r.valid == |r.frames|
    ensures R.ReceiveAll(r, events).valid == |R.ReceiveAll(r, events).frames|
    decreases |events|
  {
    if |events| > 0 {
      ValidCounts(R.Receive(r, events[0]), events[1..]);
    }
  }

  // ----- Single steps, outright -----

  /** Routing: a frame of type 0x05 is a mode request; any other is queued behind at most 15, or lost. */
  lemma RouteExactly(s: Ecu.State, input: Input)
    requires s.rx.pc.RxRoute?
    ensures var f := s.rx.pc.frame; var t := RxStep(s, input);
      var asks := f.payload == [0] || f.payload == [1] || f.payload == [2];
      if f.typ == 0x05 then
        && t.rxq == s.rxq && t.rx.dropped == s.rx.dropped
        && t.rx.modeInvalid == s.rx.modeInvalid + (if asks then 0 else 1)
        && (t.rx.pc.RxOverwrite? <==> asks)
        && (f.payload == [0] ==> t.rx.pc.mode == Off)
        && (f.payload == [1] ==> t.rx.pc.mode == Manual)
        && (f.payload == [2] ==> t.rx.pc.mode == Auto)
      else
        && t.rx.pc == RxRead
        && t.rxq == (if |s.rxq| < 16 then s.rxq + [f] else s.rxq)
        && t.rx.dropped == s.rx.dropped + (if |s.rxq| < 16 then 0 else 1)
  {
    hide ParseMode;
    var f := s.rx.pc.frame;
    ParseModeIff(f, Off);
    ParseModeIff(f, Manual);
    ParseModeIff(f, Auto);
    if ParseMode(f).Some? {
      ParseModeIff(f, ParseMode(f).value);
    }
  }

  /**
   * Dispatch: a frame of type 0x01 with a pattern up to that of 220.0, or minus zero, is the new
   * setpoint, and one of type 0x02 up to 242.0 the new speed; other finite patterns are out of
   * range, and everything else is invalid.
   */
  lemma DispatchExactly(s: Ecu.State, f: Frame)
    ensures var t := Dispatch(s, f); var p := f.payload; var known := f.typ == 0x01 || f.typ == 0x02;
      var number := |p| == 4 && F.Pattern(p) % 0x8000_0000 < 0x7F80_0000;
      var setpoint := f.typ == 0x01 && |p| == 4 && (F.Pattern(p) <= 0x435C_0000 || F.Pattern(p) == 0x8000_0000);
      var speed := f.typ == 0x02 && |p| == 4 && (F.Pattern(p) <= 0x4372_0000 || F.Pattern(p) == 0x8000_0000);
      && t.ctl.setpoints == s.ctl.setpoints + (if setpoint then 1 else 0)
      && t.ctl.speeds == s.ctl.speeds + (if speed then 1 else 0)
      && t.ctl.rxInvalid == s.ctl.rxInvalid + (if known && number then 0 else 1)
      && t.ctl.outOfRange == s.ctl.outOfRange + (if known && number && !setpoint && !speed then 1 else 0)
      && (if setpoint then Float32(p) == Some(t.setpoint) else t.setpoint == s.setpoint)
      && (if speed then Float32(p) == Some(t.speed) else t.speed == s.speed)
  {
    hide F.Pattern, Float32;
    F.AcceptedPatterns(f);
  }

  /** The frames that are not mode requests. */
  function Data(frames: seq<Frame>): seq<Frame>
    decreases |frames|
  {
    if |frames| == 0 then []
    else
      var n := |frames| - 1;
      Data(frames[..n]) + (if frames[n].typ == MODE_SET then [] else [frames[n]])
  }

  lemma {:induction false} NothingLost(routed: seq<Routed>)
    requires ProperFates(routed) && Losses(routed) == 0
    ensures Kept(routed) == Data(FramesOf(routed))
    decreases |routed|
  {
    if |routed| > 0 {
      var n := |routed| - 1;
      assert ProperFate(routed[n]);
      NothingLost(routed[..n]);
      assert FramesOf(routed)[..n] == FramesOf(routed[..n]);
    }
  }

  lemma DataWithHand(frames: seq<Frame>, hand: seq<Frame>)
    requires |hand| <= 1
    ensures Data(frames + hand) == Data(frames) + Data(hand)
  {
    if |hand| == 0 {
      assert frames + hand == frames;
    } else {
      assert (frames + hand)[..|frames|] == frames;
      assert hand[..0] == [];
    }
  }

  /**
   * End to end, when the bytes read are those a fresh sender put on the line for `msgs` between
   * any noise, however the tasks interleave: exactly the frames sent are accepted, with no error
   * counted, if and only if no noise holds a START.
   */
  lemma LineIsReceivedWhole(steps: seq<Ecu.Step>, msgs: seq<R.Message>, noise: seq<seq<byte>>)
    requires R.Sendable(msgs) && |noise| == |msgs| + 1
    requires Inputs(INITIAL_STATE, steps) == Arriving(R.OnLine(0, msgs, noise))
    ensures var x := Exec(INITIAL_STATE, steps).rx;
      (Passed(x) == R.Sent(0, msgs) && x.pending == []
       && x.replay == 0 && x.crcErr == 0 && x.dropped == x.queueFull)
      <==> R.Quiet(noise)
  {
    hide Exec, Run, R.OnLine, Inputs, Arriving, Passed, R.Sent, R.Quiet, R.ReceiveAll;
    ReceptionInStep(steps);
    C.RoundTripExactly(0, msgs, noise);
  }

  /** And as long as queue_frames has not overflowed, all frames sent but the mode requests get to control. */
  lemma DataReachesControl(steps: seq<Ecu.Step>, msgs: seq<R.Message>, noise: seq<seq<byte>>)
    requires R.Sendable(msgs) && |noise| == |msgs| + 1 && R.Quiet(noise)
    requires Inputs(INITIAL_STATE, steps) == Arriving(R.OnLine(0, msgs, noise))
    requires Exec(INITIAL_STATE, steps).rx.queueFull == 0
    ensures var s := Exec(INITIAL_STATE, steps);
      s.ctl.dispatched + Held(s.ctl) + s.rxq + Data(InHand(s.rx.pc)) == Data(R.Sent(0, msgs))
  {
    hide Exec, R.OnLine, Inputs, Arriving, R.Sent, R.Quiet, Data, FramesOf, Kept, Losses, LastValue, ProperFates;
    var s := Exec(INITIAL_STATE, steps);
    LineIsReceivedWhole(steps, msgs, noise);
    DeliveredAfter(steps);
    NothingLost(s.rx.routed);
    DataWithHand(FramesOf(s.rx.routed), InHand(s.rx.pc));
  }
}
