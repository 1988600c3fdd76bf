/**
 * What task_rx accepts depends on the bytes alone: in every interleaving its parser, window and
 * counters are those of the batch scanner run over the bytes it has read (main/task_rx.c:67-205).
 */
module EcuReceive {
  import opened Bytes
  import opened Protocol
  import opened Parser
  import opened Stream
  import opened Ecu
  import opened Payload
  import N = Nonce
  import R = RoundTrip

  const FRESH := R.Receiver(0, [], 0, 0, 0, 0)

  function Reads(s: Ecu.State, step: Ecu.Step): seq<Input> {
    if step.RxTask? && s.rx.pc.RxRead? then [step.input] else []
  }

  /** What `uart_read_bytes` returned during a run. */
  function Inputs(s: Ecu.State, steps: seq<Ecu.Step>): seq<Input>
    decreases |steps|
  {
    if |steps| == 0 then []
    else
      var n := |steps| - 1;
      Inputs(s, steps[..n]) + Reads(Exec(s, steps[..n]), steps[n])
  }

  /** The receiver of the specification, applied to a whole input. */
  function Received(inputs: seq<Input>): R.Receiver {
    R.ReceiveAll(FRESH, Run([], inputs).events)
  }

  function FramesOf(routed: seq<Routed>): (frames: seq<Frame>)
    ensures |frames| == |routed|
  {
    seq(|routed|, i requires 0 <= i < |routed| => routed[i].frame)
  }

  /** The accepted frame that task_rx has not routed yet. */
  function InHand(pc: RxPc): seq<Frame> {
    match pc
    case RxTick(f) => [f]
    case RxStamp(f, _) => [f]
    case RxRoute(f) => [f]
    case _ => []
  }

  /** The frames that passed parser and window, in order. */
  function Passed(x: Rx): seq<Frame> {
    FramesOf(x.routed) + InHand(x.pc)
  }

  predicate Matches(x: Rx, pending: seq<byte>, r: R.Receiver) {
    && x.pending == pending && x.lastNonce == r.last
    && x.valid == r.valid && x.replay == r.replay && x.crcErr == r.crcErr
    && x.queueFull <= x.dropped && x.dropped - x.queueFull == r.dropped
    && Passed(x) == r.frames
  }

  predicate InStep(s: Ecu.State, inputs: seq<Input>) {
    Matches(s.rx, Run([], inputs).pending, Received(inputs))
  }

  lemma {:induction false} ReceiveSnoc(r: R.Receiver, events: seq<Event>, e: Event)
    ensures R.ReceiveAll(r, events + [e]) == R.Receive(R.ReceiveAll(r, events), e)
    decreases |events|
  {
    hide R.Receive;
    if |events| == 0 {
      assert events + [e] == [e] && [e][1..] == [];
    } else {
      assert (events + [e])[1..] == events[1..] + [e];
      ReceiveSnoc(R.Receive(r, events[0]), events[1..], e);
    }
  }

  lemma ReceivedSnoc(inputs: seq<Input>, i: Input)
    ensures var (p, e) := Stream.Step(Run([], inputs).pending, i);
      && Run([], inputs + [i]).pending == p
      && Received(inputs + [i]) == R.Receive(Received(inputs), e)
  {
    hide R.Receive, R.ReceiveAll, Run, Stream.Step;
    RunConcat([], inputs, [i]);
    RunOne(Run([], inputs).pending, i);
    var events := Run([], inputs).events;
    var e := Stream.Step(Run([], inputs).pending, i).1;
    if e == Nothing {
      assert events + [] == events;
      NothingIsIgnored(Received(inputs));
    } else {
      ReceiveSnoc(FRESH, events, e);
    }
  }

  lemma NothingIsIgnored(r: R.Receiver)
    ensures R.Receive(r, Nothing) == r
  {
  }

  lemma InputMatches(x: Rx, r: R.Receiver, input: Input)
    requires x.pc.RxRead? && Matches(x, x.pending, r)
    ensures var (p, e) := Stream.Step(x.pending, input);
      Matches(RxInput(x, input), p, R.Receive(r, e))
  {
    hide Stream.Step, StartsWith, N.Newer, FramesOf;
  }

  lemma RouteKeepsPassed(x: Rx, f: Frame, fate: Fate)
    ensures FramesOf(Route(x, f, fate).routed) == FramesOf(x.routed) + [f]
  {
  }

  lemma RoutingMatches(s: Ecu.State, input: Input, r: R.Receiver)
    requires !s.rx.pc.RxRead? && Matches(s.rx, s.rx.pending, r)
    ensures Matches(RxStep(s, input).rx, s.rx.pending, r)
  {
    hide FramesOf, Route;
    if s.rx.pc.RxRoute? {
      RoutingPasses(s, s.rx.pc.frame, r);
    }
  }

  lemma RoutingPasses(s: Ecu.State, f: Frame, r: R.Receiver)
    requires s.rx.pc == RxRoute(f) && Matches(s.rx, s.rx.pending, r)
    ensures Matches(RxRouteStep(s, f).rx, s.rx.pending, r)
  {
    hide FramesOf, ParseMode;
    var x := s.rx;
    var fate := RxRouteStep(s, f).rx.routed[|x.routed|].fate;
    RouteKeepsPassed(x, f, fate);
  }

  lemma StepMatches(s: Ecu.State, step: Ecu.Step, inputs: seq<Input>)
    requires InStep(s, inputs)
    ensures InStep(Next(s, step), inputs + Reads(s, step))
  {
    hide CtlStep, FsStep, TxStep, RxInput, RxRouteStep, Run, Received, R.Receive, Stream.Step;
    assert inputs + [] == inputs;
    match step {
      case RxTask(input) =>
        if s.rx.pc.RxRead? {
          ReceivedSnoc(inputs, input);
          InputMatches(s.rx, Received(inputs), input);
        } else {
          RoutingMatches(s, input, Received(inputs));
        }
      case CtlTask => CtlFrame(s);
      case FsTask(open, due) => FsFrame(s, open, due);
      case TxTask(written) => TxFrame(s, written);
      case _ =>
    }
  }

  lemma {:induction false} ReceptionInStep(steps: seq<Ecu.Step>)
    ensures InStep(Exec(INITIAL_STATE, steps), Inputs(INITIAL_STATE, steps))
    decreases |steps|
  {
    hide Next, InStep, Reads;
    if |steps| == 0 {
      InitiallyInStep();
    } else {
      var n := |steps| - 1;
      ReceptionInStep(steps[..n]);
      StepMatches(Exec(INITIAL_STATE, steps[..n]), steps[n], Inputs(INITIAL_STATE, steps[..n]));
    }
  }

  lemma InitiallyInStep()
    ensures InStep(INITIAL_STATE, [])
  {
    hide Stream.Step, R.Receive, Log;
    assert Run([], []) == Trace([], []);
  }

  lemma BatchReception(inputs: seq<Input>, bursts: seq<seq<byte>>, tail: seq<byte>)
    requires inputs == Line(bursts) + Arriving(tail)
    ensures Run([], inputs).pending == Scan(tail).pending
    ensures Received(inputs) == R.ReceiveAll(FRESH, ScanBursts(bursts) + Scan(tail).events)
  {
    hide Run, Scan, R.ReceiveAll, ScanBursts, Line;
    StreamingIsBatchWithTimeouts(bursts, tail);
  }

  /**
   * In every interleaving, parser, window and counters are a function of the bytes and silences
   * read: that of the batch scanner on the bursts between silences.
   */
  lemma ReceptionIsBatch(steps: seq<Ecu.Step>, bursts: seq<seq<byte>>, tail: seq<byte>)
    requires Inputs(INITIAL_STATE, steps) == Line(bursts) + Arriving(tail)
    ensures Matches(Exec(INITIAL_STATE, steps).rx, Scan(tail).pending,
                    R.ReceiveAll(FRESH, ScanBursts(bursts) + Scan(tail).events))
  {
    hide Exec, Matches, Run, Scan, Received, R.ReceiveAll, ScanBursts, Line, Arriving, Inputs;
    ReceptionInStep(steps);
    BatchReception(Inputs(INITIAL_STATE, steps), bursts, tail);
  }
}
