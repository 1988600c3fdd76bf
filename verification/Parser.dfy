/**
 * The byte-at-a-time frame parser of main/task_rx.c: a state machine over a fixed 136-byte
 * buffer, and the function of the pending bytes that it implements.
 */
module Parser {
  import opened Bytes
  import opened Crc
  import opened Protocol

  // ----- Specification: the bytes received since the last START -----

  datatype Event = Nothing | Ready(frame: Frame) | CrcError | Dropped

  /** LEN as announced by the pending bytes. */
  function Announced(q: seq<byte>): u16
    requires |q| >= 3
  {
    Word(q[1], q[2])
  }

  predicate PlausibleLen(len: u16) {
    1 + 2 <= len <= MAX_PAYLOAD + 1 + 2
  }

  function Outcome(frame: seq<byte>): Event {
    var d := Decode(frame);
    if d.Some? then Ready(d.value) else CrcError
  }

  /** One byte: the new pending bytes (none while waiting for START) and what was reported. */
  function Feed(pending: seq<byte>, b: byte): (seq<byte>, Event) {
    var q := pending + [b];
    if |pending| == 0 then
      (if b == START then q else [], Nothing)
    else if |q| < 3 then
      (q, Nothing)
    else if |q| == 3 then
      if PlausibleLen(Announced(q)) then (q, Nothing) else ([], Dropped)
    else if |q| == 1 + 2 + Announced(q) + 2 then
      ([], Outcome(q))
    else
      (q, Nothing)
  }

  /** The pending bytes are a proper prefix of a frame with a plausible LEN. */
  predicate Partial(p: seq<byte>) {
    && (|p| > 0 ==> p[0] == START)
    && (|p| >= 3 ==> PlausibleLen(Announced(p)) && |p| < 1 + 2 + Announced(p) + 2)
  }

  lemma FeedKeepsPartial(p: seq<byte>, b: byte)
    requires Partial(p)
    ensures Partial(Feed(p, b).0)
    ensures |Feed(p, b).0| < MAX_FRAME
  {
    hide Word;
    if |p| >= 3 {
      assert (p + [b])[1] == p[1] && (p + [b])[2] == p[2];
    }
  }

  /** A frame is reported exactly when the bytes since START are the encoding of that frame. */
  lemma ReadyIsEncoded(p: seq<byte>, b: byte, f: Frame)
    requires Partial(p) && |p| > 0
    ensures Feed(p, b).1 == Ready(f) <==> |p| + 1 >= 8 && f.Valid() && Encode(f) == p + [b]
  {
    hide Word, Encode, Decode;
    var q := p + [b];
    DecodeIffEncode(q, f);
    if Decode(q).Some? {
      DecodedLength(q);
      if |p| >= 3 {
        assert q[1] == p[1] && q[2] == p[2];
      }
    }
  }

  lemma DecodedLength(s: seq<byte>)
    requires Decode(s).Some?
    ensures |s| >= 8 && |s| == 1 + 2 + Word(s[1], s[2]) + 2
  {
    hide Word, Crc16, CrcWord;
  }

  /** At the announced end of a frame decoding fails exactly when the CRC does not match. */
  lemma EndFailsIffCrcMismatch(p: seq<byte>, b: byte)
    requires Partial(p) && |p| >= 3 && |p| + 1 == 1 + 2 + Announced(p) + 2
    ensures var q := p + [b]; var n := |q|;
      Feed(p, b).1 == CrcError <==> Crc16(q[1..n - 2]) != CrcWord(q[n - 2], q[n - 1])
  {
    hide Word, Crc16, CrcWord;
    var q := p + [b];
    assert q[0] == p[0] && q[1] == p[1] && q[2] == p[2];
  }

  // ----- Implementation -----

  datatype State = WaitStart | ReadLen | ReadPayload | ReadCrc

  class FrameParser {
    var state: State
    const buf: array<byte>
    var bufIdx: nat
    var lenField: u16
    var lenBytesRead: nat
    /** File-level counters of main/task_rx.c that the parser increments. */
    var countCrcErr: nat
    var countDropped: nat

    constructor ()
      ensures Valid() && Pending() == [] && fresh(buf) && countCrcErr == 0 && countDropped == 0
    {
      state, bufIdx, lenField, lenBytesRead := WaitStart, 0, 0, 0;
      countCrcErr, countDropped := 0, 0;
      buf := new byte[MAX_FRAME](_ => 0);
    }

    /** State, index and LEN agree, and the index leaves room for the next byte. */
    ghost predicate Valid()
      reads this, buf
    {
      && buf.Length == MAX_FRAME
      && bufIdx < MAX_FRAME
      && Partial(buf[..bufIdx])
      && match state
         case WaitStart => bufIdx == 0
         case ReadLen => bufIdx == 1 + lenBytesRead && lenBytesRead < 2
         case ReadPayload => 3 <= bufIdx < 1 + 2 + lenField && lenField == Word(buf[1], buf[2])
         case ReadCrc => 3 <= bufIdx && 1 + 2 + lenField <= bufIdx && lenField == Word(buf[1], buf[2])
    }

    ghost function Pending(): seq<byte>
      reads this, buf
      requires Valid()
    {
      buf[..bufIdx]
    }

    method Reset()
      requires buf.Length == MAX_FRAME
      modifies this`state, this`bufIdx, this`lenField, this`lenBytesRead
      ensures Valid() && Pending() == []
      ensures state == WaitStart && lenField == 0 && lenBytesRead == 0
    {
      state := WaitStart;
      bufIdx := 0;
      lenField := 0;
      lenBytesRead := 0;
    }

    method FeedByte(b: byte, out: FrameBuffer) returns (ready: bool)
      requires Valid() && out.Valid() && buf != out.payload
      modifies this, buf, out, out.payload
      ensures Valid() && out.Valid()
      ensures Pending() == Feed(old(Pending()), b).0
      ensures var e := Feed(old(Pending()), b).1;
        && ready == e.Ready?
        && (ready ==> e == Ready(out.Contents()))
        && countCrcErr == old(countCrcErr) + (if e.CrcError? then 1 else 0)
        && countDropped == old(countDropped) + (if e.Dropped? then 1 else 0)
    {
      hide Word, Decode;
      ghost var p := Pending();
      FeedKeepsPartial(p, b);
      ready := false;
      match state {
        case WaitStart =>
          if b == START {
            Reset();
            buf[bufIdx] := b;
            bufIdx := bufIdx + 1;
            assert buf[..bufIdx] == p + [b];
            state := ReadLen;
          }
        case ReadLen =>
          buf[bufIdx] := b;
          bufIdx := bufIdx + 1;
          lenBytesRead := lenBytesRead + 1;
          assert buf[..bufIdx] == p + [b];
          if lenBytesRead == 2 {
            lenField := Word(buf[1], buf[2]);
            assert (p + [b])[1] == buf[1] && (p + [b])[2] == buf[2];
            if lenField < 1 + 2 || lenField > MAX_PAYLOAD + 1 + 2 {
              Reset();
              countDropped := countDropped + 1;
              return;
            }
            state := ReadPayload;
          }
        case ReadPayload =>
          buf[bufIdx] := b;
          bufIdx := bufIdx + 1;
          assert buf[..bufIdx] == p + [b];
          if bufIdx == 1 + 2 + lenField {
            state := ReadCrc;
          }
        case ReadCrc =>
          ready := FeedCrcByte(b, out);
      }
    }

    /** The last two bytes; the second one ends the frame. */
    method FeedCrcByte(b: byte, out: FrameBuffer) returns (ready: bool)
      requires Valid() && out.Valid() && buf != out.payload && state == ReadCrc
      modifies this, buf, out, out.payload
      ensures Valid() && out.Valid()
      ensures Pending() == Feed(old(Pending()), b).0
      ensures var e := Feed(old(Pending()), b).1;
        && ready == e.Ready?
        && (ready ==> e == Ready(out.Contents()))
        && countCrcErr == old(countCrcErr) + (if e.CrcError? then 1 else 0)
        && countDropped == old(countDropped) + (if e.Dropped? then 1 else 0)
    {
      hide Word, Decode;
      ghost var p := Pending();
      FeedKeepsPartial(p, b);
      ready := false;
      buf[bufIdx] := b;
      bufIdx := bufIdx + 1;
      assert buf[..bufIdx] == p + [b];
      if bufIdx == 1 + 2 + lenField + 2 {
        var decoded := DecodeFrame(buf, bufIdx, out);
        if decoded {
          Reset();
          return true;
        }
        countCrcErr := countCrcErr + 1;
        Reset();
      }
    }
  }
}
