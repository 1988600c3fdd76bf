/**
 * The round trip, exactly: between frames, noise is harmless if and only if it holds no START.
 * One stray START anywhere costs a frame or an error count (main/task_rx.c:70-95), since the
 * parser never looks again at bytes it has taken.
 */
module CleanLine {
  import opened Bytes
  import opened Protocol
  import opened Parser
  import opened Stream
  import opened RoundTrip

  // ----- Clean counters: every event is a frame received -----

  predicate NoEmptyEvent(events: seq<Event>) {
    forall i :: 0 <= i < |events| ==> events[i] != Nothing
  }

  lemma {:induction false} ScanReportsSomething(s: seq<byte>)
    ensures NoEmptyEvent(Scan(s).events)
    decreases |s|
  {
    hide Word, Decode;
    if |s| == 0 {
    } else if s[0] != START {
      ScanReportsSomething(s[1..]);
    } else if |s| >= 3 && BlockLength(s) <= |s| {
      ScanReportsSomething(s[BlockLength(s)..]);
    }
  }

  lemma {:induction false} CountersGrow(r: Receiver, events: seq<Event>)
    ensures var r' := ReceiveAll(r, events);
      r.replay <= r'.replay && r.crcErr <= r'.crcErr && r.dropped <= r'.dropped
    decreases |events|
  {
    if |events| > 0 {
      CountersGrow(Receive(r, events[0]), events[1..]);
    }
  }

  predicate SameErrors(r: Receiver, r': Receiver) {
    r'.replay == r.replay && r'.crcErr == r.crcErr && r'.dropped == r.dropped
  }

  lemma CleanEvent(r: Receiver, e: Event, r': Receiver)
    requires e != Nothing && SameErrors(r, r')
    requires var s := Receive(r, e); s.replay <= r'.replay && s.crcErr <= r'.crcErr && s.dropped <= r'.dropped
    ensures e.Ready? && Receive(r, e).frames == r.frames + [e.frame] && SameErrors(Receive(r, e), r')
  {
  }

  /** If no error is counted, the events are the frames received, one by one. */
  lemma {:induction false} CleanEvents(r: Receiver, events: seq<Event>) returns (frames: seq<Frame>)
    requires NoEmptyEvent(events) && SameErrors(r, ReceiveAll(r, events))
    ensures events == Reports(frames) && ReceiveAll(r, events).frames == r.frames + frames
    decreases |events|
  {
    hide Receive;
    if |events| == 0 {
      frames := [];
    } else {
      var next := Receive(r, events[0]);
      CountersGrow(next, events[1..]);
      CleanEvent(r, events[0], ReceiveAll(r, events));
      var rest := CleanEvents(next, events[1..]);
      frames := [events[0].frame] + rest;
      assert frames[1..] == rest;
      assert r.frames + frames == next.frames + rest;
    }
  }

  // ----- A text whose scan is clean, cut where the scanner cuts it -----

  predicate Gaps(n: u16, msgs: seq<Message>, gaps: seq<seq<byte>>, s: seq<byte>) {
    Sendable(msgs) && |gaps| == |msgs| + 1 && Quiet(gaps) && OnLine(n, msgs, gaps) == s
  }

  lemma LongerGap(n: u16, msgs: seq<Message>, gaps: seq<seq<byte>>, s: seq<byte>) returns (longer: seq<seq<byte>>)
    requires |s| > 0 && s[0] != START && Gaps(n, msgs, gaps, s[1..])
    ensures Gaps(n, msgs, longer, s)
  {
    hide Encode;
    longer := [[s[0]] + gaps[0]] + gaps[1..];
    assert longer[1..] == gaps[1..];
    assert s == [s[0]] + s[1..];
    forall i | 0 <= i < |longer| ensures START !in longer[i] {
      assert i > 0 ==> longer[i] == gaps[i];
    }
  }

  lemma FrameThenGaps(n: u16, msgs: seq<Message>, gaps: seq<seq<byte>>, s: seq<byte>) returns (more: seq<seq<byte>>)
    requires Sendable(msgs) && |msgs| > 0
    requires var e := Encode(Framed(n, msgs[0]));
      |e| <= |s| && s[..|e|] == e && Gaps(NextNonce(n), msgs[1..], gaps, s[|e|..])
    ensures Gaps(n, msgs, more, s)
  {
    hide Encode;
    more := [[]] + gaps;
    assert more[1..] == gaps;
    var e := Encode(Framed(n, msgs[0]));
    assert s == [] + (e + s[|e|..]);
    forall i | 0 <= i < |more| ensures START !in more[i] {
      assert i > 0 ==> more[i] == gaps[i - 1];
    }
  }

  lemma {:induction false} FirstReport(n: u16, msgs: seq<Message>, events: seq<Event>)
    requires |events| > 0 && events == Reports(Sent(n, msgs))
    ensures |msgs| > 0 && events[0] == Ready(Framed(n, msgs[0]))
    ensures events[1..] == Reports(Sent(NextNonce(n), msgs[1..]))
  {
    assert |msgs| > 0;
    assert Sent(n, msgs)[1..] == Sent(NextNonce(n), msgs[1..]);
  }

  lemma {:induction false} NothingSent(n: u16, msgs: seq<Message>)
    requires Reports(Sent(n, msgs)) == []
    ensures msgs == []
  {
  }

  /** A scan that reports just the frames sent has found them apart from each other, with START-free gaps. */
  lemma {:induction false} CleanScan(n: u16, msgs: seq<Message>, s: seq<byte>) returns (gaps: seq<seq<byte>>)
    requires Sendable(msgs) && Scan(s) == Trace(Reports(Sent(n, msgs)), [])
    ensures Gaps(n, msgs, gaps, s)
    decreases |s|
  {
    hide Word, Decode, Encode, Reports, Sent, Gaps;
    if |s| == 0 {
      NothingSent(n, msgs);
      gaps := [[]];
      assert Gaps(n, msgs, gaps, s) by { EmptyLine(n); }
    } else if s[0] != START {
      gaps := CleanScan(n, msgs, s[1..]);
      gaps := LongerGap(n, msgs, gaps, s);
    } else {
      var k := BlockLength(s);
      FirstReport(n, msgs, Scan(s).events);
      assert Scan(s).events[1..] == Scan(s[k..]).events;
      var f := Framed(n, msgs[0]);
      DecodeIffEncode(s[..k], f);
      gaps := CleanScan(NextNonce(n), msgs[1..], s[k..]);
      gaps := FrameThenGaps(n, msgs, gaps, s);
    }
  }

  lemma EmptyLine(n: u16)
    ensures Gaps(n, [], [[]], [])
  {
  }

  // ----- Two cuts of the same text into the same frames -----

  /** A text with period `d` repeats its first byte in each stretch of `d` bytes. */
  lemma {:induction false} Repeats(s: seq<byte>, d: nat, at: nat, len: nat) returns (j: nat)
    requires 0 < d && at < |s| && at <= len && len + d <= |s|
    requires forall i :: 0 <= i < len ==> s[i] == s[i + d]
    ensures len <= j < len + d && s[j] == s[at]
    decreases len - at + d
  {
    if at + d <= len {
      j := Repeats(s, d, at + d, len);
    } else if at == len {
      j := at;
    } else {
      j := at + d;
    }
  }

  /** A frame found `d` bytes before its own copy leaves a START in the `d` bytes behind it. */
  lemma CopyLeavesStart(e: seq<byte>, t: seq<byte>, d: nat)
    requires |e| > 0 && e[0] == START && 0 < d && |e| + d <= |t|
    requires t[..|e|] == e && t[d..d + |e|] == e
    ensures START in t[|e|..|e| + d]
  {
    forall i | 0 <= i < |e| ensures t[i] == t[i + d] {
      assert t[..|e|][i] == t[d..d + |e|][i];
    }
    assert t[0] == t[..|e|][0];
    var j := Repeats(t, d, 0, |e|);
    assert t[|e|..|e| + d][j - |e|] == t[j];
  }

  /** `x` begins with its gap and a frame at `b`; a copy of the frame begins at `a`. */
  lemma CutAfterFrame(x: seq<byte>, g: seq<byte>, e: seq<byte>, rest: seq<byte>, noise: seq<byte>, rest': seq<byte>)
    returns (y: seq<byte>)
    requires g + (e + rest) == noise + (e + rest') && |g| < |noise| && |e| > 0 && e[0] == START
    ensures rest == y + rest' && START in y
  {
    var d := |noise| - |g|;
    var t := e + rest;
    var whole := g + t;
    assert t == whole[|g|..];
    assert whole[|noise|..] == e + rest' by {
      assert (noise + (e + rest'))[|noise|..] == e + rest';
    }
    assert t[d..] == whole[|noise|..];
    assert t[d..d + |e|] == e by {
      assert t[d..][..|e|] == t[d..d + |e|];
    }
    CopyLeavesStart(e, t, d);
    y := rest[..d];
    assert t[|e|..|e| + d] == y;
    assert rest[d..] == t[|e| + d..] == rest' by {
      assert t[d..][|e|..] == t[|e| + d..];
    }
  }

  /** A START left over before the frames to come can never be made up for. */
  lemma {:induction false} StartIsNotMadeUp(x: seq<byte>, n: u16, msgs: seq<Message>,
                                            noise: seq<seq<byte>>, gaps: seq<seq<byte>>)
    requires Sendable(msgs) && |noise| == |msgs| + 1
    requires START in x && Gaps(n, msgs, gaps, x + OnLine(n, msgs, noise))
    ensures false
    decreases |msgs|
  {
    hide Encode;
    if |msgs| == 0 {
      StartIsKept(x, noise[0], gaps[0]);
    } else {
      var e := Encode(Framed(n, msgs[0]));
      var rest, rest' := OnLine(NextNonce(n), msgs[1..], gaps[1..]), OnLine(NextNonce(n), msgs[1..], noise[1..]);
      assert x + OnLine(n, msgs, noise) == (x + noise[0]) + (e + rest');
      if |x| <= |gaps[0]| {
        PrefixIsQuiet(x, gaps[0], noise[0] + (e + rest'), e + rest);
      } else {
        var y := CutAfterFrame(x, gaps[0], e, rest, x + noise[0], rest');
        StartIsNotMadeUp(y, NextNonce(n), msgs[1..], noise[1..], gaps[1..]);
      }
    }
  }

  lemma PrefixIsQuiet(x: seq<byte>, g: seq<byte>, a: seq<byte>, b: seq<byte>)
    requires x + a == g + b && |x| <= |g| && START in x
    ensures START in g
  {
    var i :| 0 <= i < |x| && x[i] == START;
    assert (x + a)[i] == x[i] && (g + b)[i] == g[i];
  }

  lemma StartIsKept(x: seq<byte>, a: seq<byte>, g: seq<byte>)
    requires x + a == g && START in x
    ensures START in g
  {
    var i :| 0 <= i < |x| && x[i] == START;
    assert g[i] == START;
  }

  /** Two cuts of one text into the same frames: if the one has START-free gaps, so has the other. */
  lemma {:induction false} CutsAgree(n: u16, msgs: seq<Message>, noise: seq<seq<byte>>, gaps: seq<seq<byte>>)
    requires Sendable(msgs) && |noise| == |msgs| + 1
    requires Gaps(n, msgs, gaps, OnLine(n, msgs, noise))
    ensures Quiet(noise)
    decreases |msgs|
  {
    hide Encode;
    if |msgs| > 0 {
      var e := Encode(Framed(n, msgs[0]));
      var rest, rest' := OnLine(NextNonce(n), msgs[1..], gaps[1..]), OnLine(NextNonce(n), msgs[1..], noise[1..]);
      FirstFrame(noise[0], gaps[0], e, rest', rest);
      if |gaps[0]| < |noise[0]| {
        var y := CutAfterFrame([], gaps[0], e, rest, noise[0], rest');
        StartIsNotMadeUp(y, NextNonce(n), msgs[1..], noise[1..], gaps[1..]);
        assert false;
      }
      CutsAgree(NextNonce(n), msgs[1..], noise[1..], gaps[1..]);
      forall i | 0 <= i < |noise| ensures START !in noise[i] {
        assert i > 0 ==> noise[i] == noise[1..][i - 1];
      }
    }
  }

  /** A START-free gap ends at the first frame at the latest. */
  lemma FirstFrame(noise: seq<byte>, g: seq<byte>, e: seq<byte>, rest': seq<byte>, rest: seq<byte>)
    requires noise + (e + rest') == g + (e + rest) && |e| > 0 && e[0] == START && START !in g
    ensures |g| <= |noise|
    ensures |g| == |noise| ==> g == noise && rest == rest'
  {
    var s := noise + (e + rest');
    assert s[|noise|] == START;
    assert forall i :: 0 <= i < |g| ==> s[i] == g[i];
    if |g| == |noise| {
      assert (noise + (e + rest'))[..|g|] == noise && (g + (e + rest))[..|g|] == g;
      assert (noise + (e + rest'))[|g| + |e|..] == rest' && (g + (e + rest))[|g| + |e|..] == rest;
    }
  }

  // ----- The exact condition -----

  /** Everything sent is received, in order, nothing else is, and no error is counted. */
  predicate Clean(n: u16, msgs: seq<Message>, t: Trace) {
    var r := ReceiveAll(Receiver(n, [], 0, 0, 0, 0), t.events);
    t.pending == [] && r.frames == Sent(n, msgs) && r.replay == 0 && r.crcErr == 0 && r.dropped == 0
  }

  lemma CleanMeansReports(n: u16, msgs: seq<Message>, s: seq<byte>)
    requires Clean(n, msgs, Scan(s))
    ensures Scan(s) == Trace(Reports(Sent(n, msgs)), [])
  {
    hide Scan, Sent, Reports, ReceiveAll;
    ScanReportsSomething(s);
    var frames := CleanEvents(Receiver(n, [], 0, 0, 0, 0), Scan(s).events);
    assert [] + frames == frames;
  }

  /**
   * For any messages, nonces and noise: the messages sent come out, in order and alone, with no
   * error counted and nothing pending, if and only if no noise holds a START.
   */
  lemma RoundTripExactly(n: u16, msgs: seq<Message>, noise: seq<seq<byte>>)
    requires Sendable(msgs) && |noise| == |msgs| + 1
    ensures Clean(n, msgs, Run([], Arriving(OnLine(n, msgs, noise)))) <==> Quiet(noise)
  {
    hide Scan, Run, Sent, Reports, ReceiveAll, OnLine, Arriving;
    var s := OnLine(n, msgs, noise);
    if Quiet(noise) {
      StreamRoundTrip(n, msgs, noise);
    }
    StreamingIsBatch(s);
    if Clean(n, msgs, Scan(s)) {
      CleanMeansReports(n, msgs, s);
      var gaps := CleanScan(n, msgs, s);
      CutsAgree(n, msgs, noise, gaps);
    }
  }
}
