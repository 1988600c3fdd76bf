/**
 * From the sender loop of main/task_tx.c to the accepted frames of main/task_rx.c: what one task
 * sends is what the other accepts, in order, across nonce wraparound.
 */
module RoundTrip {
  import opened Bytes
  import opened Crc
  import opened Protocol
  import opened Nonce
  import opened Parser
  import opened Stream

  function NextNonce(n: u16): u16 { (n + 1) % 0x1_0000 }

  /** The only encoder: pre-increments its nonce for every frame it builds. */
  class Sender {
    var nonce: u16

    constructor ()
      ensures nonce == 0
    {
      nonce := 0;
    }

    /** One pass of the loop up to the UART write; 0 means the message was ignored. */
    method Transmit(typ: byte, payload: array<byte>, payloadLen: u16, frameBuf: array<byte>)
      returns (n: nat)
      requires payload.Length == MAX_PAYLOAD && frameBuf.Length == MAX_FRAME && payload != frameBuf
      modifies this, frameBuf
      ensures payloadLen > MAX_PAYLOAD ==> n == 0 && nonce == old(nonce) && frameBuf[..] == old(frameBuf[..])
      ensures payloadLen <= MAX_PAYLOAD ==>
        && n <= MAX_FRAME && nonce == NextNonce(old(nonce))
        && frameBuf[..n] == Encode(Framed(old(nonce), Message(typ, payload[..payloadLen])))
    {
      if payloadLen > MAX_PAYLOAD {
        return 0;
      }
      nonce := (nonce + 1) % 0x1_0000;
      n := EncodeFrame(frameBuf, typ, nonce, payload, payloadLen);
    }
  }

  datatype Message = Message(typ: byte, payload: seq<byte>)

  predicate Sendable(msgs: seq<Message>) {
    forall i :: 0 <= i < |msgs| ==> |msgs[i].payload| <= MAX_PAYLOAD
  }

  /** The frame built for `m` by a sender whose nonce is `n`. */
  function Framed(n: u16, m: Message): Frame {
    Frame(m.typ, NextNonce(n), m.payload)
  }

  function Sent(n: u16, msgs: seq<Message>): seq<Frame>
    decreases |msgs|
  {
    if |msgs| == 0 then [] else [Framed(n, msgs[0])] + Sent(NextNonce(n), msgs[1..])
  }

  /** The bytes on the line: each frame after some noise, and noise at the end. */
  function OnLine(n: u16, msgs: seq<Message>, noise: seq<seq<byte>>): seq<byte>
    requires Sendable(msgs) && |noise| == |msgs| + 1
    decreases |msgs|
  {
    if |msgs| == 0 then noise[0]
    else noise[0] + (Encode(Framed(n, msgs[0])) + OnLine(NextNonce(n), msgs[1..], noise[1..]))
  }

  /** Noise that a waiting parser ignores: anything without a START byte. */
  predicate Quiet(noise: seq<seq<byte>>) {
    forall i :: 0 <= i < |noise| ==> START !in noise[i]
  }

  // ----- The receiving side -----

  /** Nonce window, accepted frames and counters of main/task_rx.c. */
  datatype Receiver = Receiver(last: u16, frames: seq<Frame>, valid: nat, replay: nat, crcErr: nat, dropped: nat)

  function Receive(r: Receiver, e: Event): Receiver {
    match e
    case Nothing => r
    case Dropped => r.(dropped := r.dropped + 1)
    case CrcError => r.(crcErr := r.crcErr + 1)
    case Ready(f) =>
      if Newer(r.last, f.nonce) then
        r.(last := f.nonce, frames := r.frames + [f], valid := r.valid + 1)
      else
        r.(replay := r.replay + 1)
  }

  function ReceiveAll(r: Receiver, events: seq<Event>): Receiver
    decreases |events|
  {
    if |events| == 0 then r else ReceiveAll(Receive(r, events[0]), events[1..])
  }

  // ----- Round trip -----

  lemma {:induction false} ScanSkipsNoise(noise: seq<byte>, s: seq<byte>)
    requires START !in noise
    ensures Scan(noise + s) == Scan(s)
    decreases |noise|
  {
    if |noise| == 0 {
      assert noise + s == s;
    } else {
      assert (noise + s)[1..] == noise[1..] + s;
      assert (noise + s)[0] == noise[0];
      ScanSkipsNoise(noise[1..], s);
    }
  }

  lemma EncodedHead(f: Frame)
    requires f.Valid()
    ensures Encode(f)[1] == LoByte(|f.payload| + 3) && Encode(f)[2] == HiByte(|f.payload| + 3)
  {
    hide LoByte, HiByte;
    EncodeShape(f);
    assert Encode(f)[1] == Encode(f)[..6][1] && Encode(f)[2] == Encode(f)[..6][2];
  }

  lemma ScanTakesFrame(f: Frame, s: seq<byte>)
    requires f.Valid()
    ensures Scan(Encode(f) + s) == Prepend(Ready(f), Scan(s))
  {
    hide Word, LoByte, HiByte, Decode, Encode;
    var e := Encode(f);
    var t := e + s;
    EncodedHead(f);
    WordOfBytes(|f.payload| + 3);
    DecodeOfEncode(f);
    assert t[0] == e[0] && t[1] == e[1] && t[2] == e[2];
    assert t[..|e|] == e && t[|e|..] == s;
  }

  lemma {:induction false} ScanOfLine(n: u16, msgs: seq<Message>, noise: seq<seq<byte>>)
    requires Sendable(msgs) && |noise| == |msgs| + 1 && Quiet(noise)
    ensures Scan(OnLine(n, msgs, noise)) == Trace(Reports(Sent(n, msgs)), [])
    decreases |msgs|
  {
    hide Encode, Scan;
    if |msgs| == 0 {
      ScanSkipsNoise(noise[0], []);
      assert noise[0] + [] == noise[0];
      ScanOfNothing();
    } else {
      var f := Framed(n, msgs[0]);
      var rest := OnLine(NextNonce(n), msgs[1..], noise[1..]);
      ScanSkipsNoise(noise[0], Encode(f) + rest);
      ScanTakesFrame(f, rest);
      ScanOfLine(NextNonce(n), msgs[1..], noise[1..]);
      assert Sent(n, msgs)[1..] == Sent(NextNonce(n), msgs[1..]);
    }
  }

  lemma ScanOfNothing()
    ensures Scan([]) == Trace([], [])
  {
  }

  function Reports(frames: seq<Frame>): seq<Event> {
    if |frames| == 0 then [] else [Ready(frames[0])] + Reports(frames[1..])
  }

  lemma NextIsNewer(n: u16)
    ensures Newer(n, NextNonce(n))
  {
  }

  lemma {:induction false} AllSentAreAccepted(n: u16, msgs: seq<Message>, r: Receiver)
    requires r.last == n
    ensures var r' := ReceiveAll(r, Reports(Sent(n, msgs)));
      && r'.frames == r.frames + Sent(n, msgs)
      && r'.valid == r.valid + |msgs|
      && r'.replay == r.replay && r'.crcErr == r.crcErr && r'.dropped == r.dropped
    decreases |msgs|
  {
    hide Newer, NextNonce;
    if |msgs| > 0 {
      var f := Framed(n, msgs[0]);
      NextIsNewer(n);
      assert Receive(r, Ready(f)) == r.(last := NextNonce(n), frames := r.frames + [f], valid := r.valid + 1);
      assert Sent(n, msgs)[1..] == Sent(NextNonce(n), msgs[1..]);
      assert Reports(Sent(n, msgs))[1..] == Reports(Sent(NextNonce(n), msgs[1..]));
      AllSentAreAccepted(NextNonce(n), msgs[1..], Receive(r, Ready(f)));
      assert (r.frames + [f]) + Sent(NextNonce(n), msgs[1..]) == r.frames + Sent(n, msgs);
    }
  }

  /**
   * Any messages, sent one after the other with any START-free noise around them and fed byte by
   * byte to a parser and window in step with the sender, come out unchanged, in order, and no
   * error counter moves. A fresh sender and a fresh window are in step at nonce 0.
   */
  lemma StreamRoundTrip(n: u16, msgs: seq<Message>, noise: seq<seq<byte>>)
    requires Sendable(msgs) && |noise| == |msgs| + 1 && Quiet(noise)
    ensures var t := Run([], Arriving(OnLine(n, msgs, noise)));
      && t.pending == []
      && var r := ReceiveAll(Receiver(n, [], 0, 0, 0, 0), t.events);
      && r.frames == Sent(n, msgs) && r.valid == |msgs|
      && r.replay == 0 && r.crcErr == 0 && r.dropped == 0
  {
    hide Encode, Scan, Run, OnLine;
    StreamingIsBatch(OnLine(n, msgs, noise));
    ScanOfLine(n, msgs, noise);
    AllSentAreAccepted(n, msgs, Receiver(n, [], 0, 0, 0, 0));
    assert [] + Sent(n, msgs) == Sent(n, msgs);
  }

  lemma StrayLenIsImplausible(lo: byte)
    ensures Word(START, lo) >= 170
  {
    ByteOfValue(lo);
    assert Value(START) == 170;
  }

  /**
   * What a stray START can do: directly in front of a frame it swallows the frame, since the
   * parser takes START and the low LEN byte for an implausible LEN and looks only behind them.
   * CleanLine has the exact condition on noise.
   */
  lemma StrayStartLosesFrame(f: Frame)
    requires f.Valid() && START !in Encode(f)[2..]
    ensures Run([], Arriving([START] + Encode(f))) == Trace([Dropped], [])
  {
    hide Encode, Word, Run, Decode;
    var e := Encode(f);
    var s := [START] + e;
    StreamingIsBatch(s);
    StrayLenIsImplausible(e[1]);
    assert s[0] == START && s[1] == e[0] && s[2] == e[1] && s[3..] == e[2..];
    ScanSkipsNoise(e[2..], []);
    assert e[2..] + [] == e[2..];
  }

  /** The frames sent carry the messages, under consecutive nonces modulo 2^16. */
  lemma {:induction false} SentCarriesMessages(n: u16, msgs: seq<Message>, i: nat)
    requires i < |msgs|
    ensures |Sent(n, msgs)| == |msgs|
    ensures Sent(n, msgs)[i] == Frame(msgs[i].typ, (n + 1 + i) % 0x1_0000, msgs[i].payload)
    decreases |msgs|
  {
    var m := NextNonce(n);
    if i > 0 {
      SentCarriesMessages(m, msgs[1..], i - 1);
      AddModulo(n, 1, i);
    } else if |msgs| > 1 {
      SentCarriesMessages(m, msgs[1..], 0);
    }
  }
}
