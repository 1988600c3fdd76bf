/**
 * The anti-replay window at work in the receiver (main/task_rx.c:183-189, main/protocol.c:86-100):
 * of the frames that the parser reports, exactly those pass whose nonce is 1 to 32767 ahead of
 * that of the last one that passed.
 */
module ReplayGuard {
  import opened Bytes
  import opened Protocol
  import opened Parser
  import opened Nonce
  import opened RoundTrip

  /** The frames among the events, passed or not. */
  function Reported(events: seq<Event>): seq<Frame> {
    if |events| == 0 then []
    else (if events[0].Ready? then [events[0].frame] else []) + Reported(events[1..])
  }

  function Nonces(frames: seq<Frame>): (n: seq<u16>)
    ensures |n| == |frames|
  {
    seq(|frames|, i requires 0 <= i < |frames| => frames[i].nonce)
  }

  /** The frames with a positive verdict. */
  function Select(frames: seq<Frame>, v: seq<bool>): seq<Frame>
    requires |v| == |frames|
    decreases |frames|
  {
    if |frames| == 0 then [] else (if v[0] then [frames[0]] else []) + Select(frames[1..], v[1..])
  }

  lemma NewerOutright(last: u16, nonce: u16)
    ensures Newer(last, nonce) <==> 1 <= (nonce - last) % 0x1_0000 <= 32767
  {
  }

  lemma VerdictsOfFirst(last: u16, frames: seq<Frame>)
    requires |frames| > 0
    ensures var v := Verdicts(last, Nonces(frames));
      && v[0] == Newer(last, frames[0].nonce)
      && v[1..] == Verdicts(After(last, frames[0].nonce), Nonces(frames[1..]))
  {
    hide Newer, After;
    assert Nonces(frames)[1..] == Nonces(frames[1..]);
  }

  lemma NotAFrame(r: Receiver, e: Event)
    requires !e.Ready?
    ensures var s := Receive(r, e); s.last == r.last && s.frames == r.frames && s.replay == r.replay
  {
  }

  lemma FrameByWindow(r: Receiver, f: Frame)
    ensures var s := Receive(r, Ready(f));
      && s.last == After(r.last, f.nonce)
      && s.frames == (if Newer(r.last, f.nonce) then r.frames + [f] else r.frames)
      && s.replay == r.replay + (if Newer(r.last, f.nonce) then 0 else 1)
  {
    hide Newer;
  }

  /** The receiver keeps exactly the frames that the window accepts, and counts the others as replays. */
  lemma {:induction false} ReceivedByWindow(r: Receiver, events: seq<Event>)
    ensures var s := ReceiveAll(r, events); var frames := Reported(events);
      var v := Verdicts(r.last, Nonces(frames));
      && s.frames == r.frames + Select(frames, v)
      && s.last == Last(r.last, Nonces(frames))
      && s.replay + |Select(frames, v)| == r.replay + |frames|
    decreases |events|
  {
    hide Receive, Newer, After;
    if |events| > 0 {
      var e := events[0];
      var next := Receive(r, e);
      ReceivedByWindow(next, events[1..]);
      if e.Ready? {
        KeepsFirst(r, e.frame, Reported(events[1..]));
        FrameByWindow(r, e.frame);
      } else {
        NotAFrame(r, e);
        assert Reported(events) == Reported(events[1..]);
      }
    }
  }

  lemma KeepsFirst(r: Receiver, f: Frame, rest: seq<Frame>)
    ensures var frames := [f] + rest; var next := After(r.last, f.nonce);
      && Select(frames, Verdicts(r.last, Nonces(frames)))
         == (if Newer(r.last, f.nonce) then [f] else []) + Select(rest, Verdicts(next, Nonces(rest)))
      && Last(r.last, Nonces(frames)) == Last(next, Nonces(rest))
  {
    hide Newer, After;
    var frames := [f] + rest;
    assert frames[1..] == rest;
    VerdictsOfFirst(r.last, frames);
    assert Nonces(frames)[1..] == Nonces(rest);
  }

  /** Each nonce is 1 to 32767 ahead of the one before, the first ahead of `last`. */
  predicate Advancing(last: u16, frames: seq<Frame>)
    decreases |frames|
  {
    |frames| == 0
    || (1 <= (frames[0].nonce - last) % 0x1_0000 <= 32767 && Advancing(frames[0].nonce, frames[1..]))
  }

  lemma {:induction false} SelectedAdvance(last: u16, frames: seq<Frame>)
    ensures Advancing(last, Select(frames, Verdicts(last, Nonces(frames))))
    decreases |frames|
  {
    hide Newer;
    if |frames| > 0 {
      var next := After(last, frames[0].nonce);
      VerdictsOfFirst(last, frames);
      NewerOutright(last, frames[0].nonce);
      SelectedAdvance(next, frames[1..]);
      var rest := Select(frames[1..], Verdicts(next, Nonces(frames[1..])));
      if Newer(last, frames[0].nonce) {
        assert ([frames[0]] + rest)[1..] == rest;
      } else {
        assert [] + rest == rest;
      }
    }
  }
}
