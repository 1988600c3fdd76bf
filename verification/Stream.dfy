/**
 * Whole byte streams: the streaming parser against a batch scanner that looks at the stream as a
 * text, silences of the line included (main/task_rx.c:59-125, main/task_rx.c:198-203).
 */
module Stream {
  import opened Bytes
  import opened Crc
  import opened Protocol
  import opened Parser

  /** What `uart_read_bytes` returns: a byte, or nothing for 50 ms. */
  datatype Input = Byte(b: byte) | Timeout

  datatype Trace = Trace(events: seq<Event>, pending: seq<byte>)

  function Log(e: Event): seq<Event> {
    if e == Nothing then [] else [e]
  }

  function Step(pending: seq<byte>, i: Input): (seq<byte>, Event) {
    match i
    case Byte(b) => Feed(pending, b)
    case Timeout => ([], if |pending| > 0 then Dropped else Nothing)
  }

  /** The streaming parser over a sequence of inputs. */
  function Run(pending: seq<byte>, inputs: seq<Input>): Trace
    decreases |inputs|
  {
    if |inputs| == 0 then Trace([], pending) else
    var (p, e) := Step(pending, inputs[0]);
    var rest := Run(p, inputs[1..]);
    Trace(Log(e) + rest.events, rest.pending)
  }

  function Arriving(s: seq<byte>): (inputs: seq<Input>)
    ensures |inputs| == |s|
  {
    seq(|s|, i requires 0 <= i < |s| => Byte(s[i]))
  }

  // ----- The batch reading of a stream -----

  /** Cut a text into frames: skip to START, believe a plausible LEN, judge the slice it announces. */
  function Scan(s: seq<byte>): Trace
    decreases |s|
  {
    if |s| == 0 then Trace([], [])
    else if s[0] != START then Scan(s[1..])
    else if |s| < 3 then Trace([], s)
    else if !PlausibleLen(Announced(s)) then Prepend(Dropped, Scan(s[3..]))
    else
      var n := 1 + 2 + Announced(s) + 2;
      if |s| < n then Trace([], s) else Prepend(Outcome(s[..n]), Scan(s[n..]))
  }

  function Prepend(e: Event, t: Trace): Trace {
    Trace([e] + t.events, t.pending)
  }

  /** Bursts of bytes, each ended by a silence that discards an unfinished frame. */
  function ScanBursts(bursts: seq<seq<byte>>): seq<Event> {
    if |bursts| == 0 then []
    else
      var t := Scan(bursts[0]);
      t.events + (if |t.pending| > 0 then [Dropped] else []) + ScanBursts(bursts[1..])
  }

  function Line(bursts: seq<seq<byte>>): seq<Input> {
    if |bursts| == 0 then [] else Arriving(bursts[0]) + [Timeout] + Line(bursts[1..])
  }

  // ----- Streaming agrees with batch -----

  lemma {:induction false} RunConcat(p: seq<byte>, a: seq<Input>, b: seq<Input>)
    ensures var t := Run(p, a); var u := Run(t.pending, b);
      Run(p, a + b) == Trace(t.events + u.events, u.pending)
    decreases |a|
  {
    hide Step;
    if |a| == 0 {
      assert a + b == b;
    } else {
      assert (a + b)[1..] == a[1..] + b;
      RunConcat(Step(p, a[0]).0, a[1..], b);
    }
  }

  lemma RunOne(p: seq<byte>, i: Input)
    ensures Run(p, [i]) == Trace(Log(Step(p, i).1), Step(p, i).0)
  {
    hide Step;
    assert [i][1..] == [];
  }

  lemma ArrivingConcat(a: seq<byte>, b: seq<byte>)
    ensures Arriving(a + b) == Arriving(a) + Arriving(b)
  {
  }

  lemma RunSnoc(s: seq<byte>, k: nat)
    requires k < |s|
    ensures var t := Run([], Arriving(s[..k])); var (p, e) := Feed(t.pending, s[k]);
      Run([], Arriving(s[..k + 1])) == Trace(t.events + Log(e), p)
  {
    hide Feed;
    assert s[..k + 1] == s[..k] + [s[k]];
    ArrivingConcat(s[..k], [s[k]]);
    RunConcat([], Arriving(s[..k]), Arriving([s[k]]));
    assert Arriving([s[k]]) == [Byte(s[k])];
    RunOne(Run([], Arriving(s[..k])).pending, Byte(s[k]));
  }

  /** A proper prefix of a plausible frame is held back whole. */
  lemma {:induction false} PrefixIsPending(s: seq<byte>, k: nat)
    requires k <= |s| && Partial(s[..k])
    ensures Run([], Arriving(s[..k])) == Trace([], s[..k])
    decreases k
  {
    hide Word;
    if k == 0 {
      assert Arriving(s[..0]) == [];
    } else {
      assert s[..k] == s[..k - 1] + [s[k - 1]];
      ShorterIsPartial(s, k);
      PrefixIsPending(s, k - 1);
      RunSnoc(s, k - 1);
    }
  }

  lemma ShorterIsPartial(s: seq<byte>, k: nat)
    requires 0 < k <= |s| && Partial(s[..k])
    ensures Partial(s[..k - 1])
  {
    hide Word;
    if k > 1 {
      assert s[..k - 1][0] == s[..k][0];
    }
    if k > 3 {
      assert s[..k - 1][1] == s[..k][1] && s[..k - 1][2] == s[..k][2];
    }
  }

  function BlockLength(s: seq<byte>): nat
    requires |s| >= 3
  {
    if PlausibleLen(Announced(s)) then 1 + 2 + Announced(s) + 2 else 3
  }

  function BlockEvent(s: seq<byte>): Event
    requires |s| >= 3 && BlockLength(s) <= |s|
  {
    if PlausibleLen(Announced(s)) then Outcome(s[..BlockLength(s)]) else Dropped
  }

  lemma LastByteOfBlock(s: seq<byte>)
    requires |s| >= 3 && BlockLength(s) <= |s| && s[0] == START
    ensures Feed(s[..BlockLength(s) - 1], s[BlockLength(s) - 1]) == ([], BlockEvent(s))
  {
    hide Word, Decode;
    var n := BlockLength(s);
    assert s[..n - 1] + [s[n - 1]] == s[..n];
    assert s[..n][1] == s[1] && s[..n][2] == s[2];
  }

  /** The byte that ends a frame, or an implausible LEN, empties the parser. */
  lemma BlockEnds(s: seq<byte>)
    requires |s| >= 3 && BlockLength(s) <= |s| && s[0] == START
    ensures Run([], Arriving(s[..BlockLength(s)])) == Trace([BlockEvent(s)], [])
  {
    hide Feed, Run, Decode;
    var n := BlockLength(s);
    StartOfBlock(s, n - 1);
    PrefixIsPending(s, n - 1);
    RunSnoc(s, n - 1);
    LastByteOfBlock(s);
  }

  lemma StartOfBlock(s: seq<byte>, k: nat)
    requires k <= |s| && |s| > 0 && s[0] == START
    requires k < 3 || (PlausibleLen(Announced(s)) && k < 1 + 2 + Announced(s) + 2)
    ensures Partial(s[..k])
  {
    hide Word;
    if k >= 3 {
      assert s[..k][1] == s[1] && s[..k][2] == s[2];
    }
  }

  lemma {:induction false} RunAfterBlock(s: seq<byte>, n: nat, e: Event)
    requires 0 < n <= |s| && Run([], Arriving(s[..n])) == Trace([e], [])
    requires Run([], Arriving(s[n..])) == Scan(s[n..])
    ensures Run([], Arriving(s)) == Prepend(e, Scan(s[n..]))
  {
    hide Scan;
    assert s == s[..n] + s[n..];
    ArrivingConcat(s[..n], s[n..]);
    RunConcat([], Arriving(s[..n]), Arriving(s[n..]));
  }

  /** Byte by byte, the parser reports exactly what the batch scanner finds, and holds the rest. */
  lemma {:induction false} StreamingIsBatch(s: seq<byte>)
    ensures Run([], Arriving(s)) == Scan(s)
    decreases |s|
  {
    hide Word, Decode, Feed;
    if |s| == 0 {
      assert Arriving(s) == [];
    } else if s[0] != START {
      SkipNoise(s);
      StreamingIsBatch(s[1..]);
    } else if |s| < 3 {
      StartOfBlock(s, |s|);
      PrefixIsPending(s, |s|);
      assert s[..|s|] == s;
    } else {
      var n := BlockLength(s);
      if |s| < n {
        StartOfBlock(s, |s|);
        PrefixIsPending(s, |s|);
        assert s[..|s|] == s;
      } else {
        BlockEnds(s);
        StreamingIsBatch(s[n..]);
        RunAfterBlock(s, n, BlockEvent(s));
      }
    }
  }

  lemma SkipNoise(s: seq<byte>)
    requires |s| > 0 && s[0] != START
    ensures Run([], Arriving(s)) == Run([], Arriving(s[1..]))
  {
    assert Arriving(s)[1..] == Arriving(s[1..]);
  }

  lemma RunTimeout(p: seq<byte>, rest: seq<Input>)
    ensures Run(p, [Timeout] + rest)
         == Trace((if |p| > 0 then [Dropped] else []) + Run([], rest).events, Run([], rest).pending)
  {
    assert ([Timeout] + rest)[1..] == rest;
  }

  lemma RunBurst(b: seq<byte>, rest: seq<Input>)
    ensures var t := Scan(b); var u := Run([], rest);
      Run([], Arriving(b) + ([Timeout] + rest))
        == Trace(t.events + ((if |t.pending| > 0 then [Dropped] else []) + u.events), u.pending)
  {
    hide Scan, Step;
    StreamingIsBatch(b);
    RunConcat([], Arriving(b), [Timeout] + rest);
    RunTimeout(Scan(b).pending, rest);
  }

  /** The same with silences on the line, and an unfinished tail. */
  lemma {:induction false} StreamingIsBatchWithTimeouts(bursts: seq<seq<byte>>, tail: seq<byte>)
    ensures Run([], Line(bursts) + Arriving(tail))
         == Trace(ScanBursts(bursts) + Scan(tail).events, Scan(tail).pending)
    decreases |bursts|
  {
    hide Scan, Step, Run;
    StreamingIsBatch(tail);
    if |bursts| == 0 {
      assert Line(bursts) + Arriving(tail) == Arriving(tail);
    } else {
      var first, rest := Arriving(bursts[0]), Line(bursts[1..]) + Arriving(tail);
      assert Line(bursts) + Arriving(tail) == first + ([Timeout] + rest);
      StreamingIsBatchWithTimeouts(bursts[1..], tail);
      RunBurst(bursts[0], rest);
    }
  }

  // ----- Bounds -----

  /** From any START, at most 135 further bytes bring the parser back to waiting. */
  lemma {:induction false} BackToWaiting(p: seq<byte>, t: seq<byte>) returns (k: nat)
    requires Partial(p) && |p| > 0 && |p| + |t| >= MAX_FRAME
    ensures 0 < k <= MAX_FRAME - |p| && k <= |t| && Run(p, Arriving(t[..k])).pending == []
    decreases |t|
  {
    hide Word, Decode, Feed;
    var q := Feed(p, t[0]).0;
    FeedKeepsPartial(p, t[0]);
    FeedGrows(p, t[0]);
    if |q| == 0 {
      k := 1;
      assert t[..1] == [t[0]];
      assert Arriving(t[..1]) == [Byte(t[0])];
      RunOne(p, Byte(t[0]));
    } else {
      var k' := BackToWaiting(q, t[1..]);
      k := k' + 1;
      FirstArrival(t, k);
    }
  }

  lemma FirstArrival(t: seq<byte>, k: nat)
    requires 0 < k <= |t|
    ensures Arriving(t[..k])[0] == Byte(t[0]) && Arriving(t[..k])[1..] == Arriving(t[1..][..k - 1])
  {
    assert t[..k][1..] == t[1..][..k - 1];
  }

  lemma FeedGrows(p: seq<byte>, b: byte)
    requires Partial(p) && |p| > 0
    ensures Feed(p, b).0 == [] || (|Feed(p, b).0| == |p| + 1 && |p| + 1 < MAX_FRAME)
  {
    FeedKeepsPartial(p, b);
  }
}
