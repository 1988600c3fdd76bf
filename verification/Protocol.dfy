/**
 * Frame encoding and decoding (main/protocol.c): 0xAA, LEN (low byte first), TYPE, NONCE (low
 * byte first), PAYLOAD, CRC (low byte first) over everything but the START byte.
 */
module Protocol {
  import opened Bytes
  import opened Crc

  datatype Option<T> = None | Some(value: T)

  const START: byte := 0xAA
  const MAX_PAYLOAD := 128
  const MAX_FRAME := 136

  const SETPOINT: byte := 0x01
  const SPEED: byte := 0x02
  const MODE_SET: byte := 0x05
  const OUTPUT: byte := 0x80
  const STATS: byte := 0x83
  const ALARM: byte := 0x85

  datatype Frame = Frame(typ: byte, nonce: u16, payload: seq<byte>) {
    predicate Valid() { |payload| <= MAX_PAYLOAD }
  }

  // ----- Functional specification -----

  function CrcLo(c: bv16): byte { (c & 0xFF) as bv8 }

  function CrcHi(c: bv16): byte { (c >> 8) as bv8 }

  function CrcWord(lo: byte, hi: byte): bv16 { (lo as bv16) | ((hi as bv16) << 8) }

  function Header(typ: byte, nonce: u16, payloadLen: nat): (h: seq<byte>)
    requires payloadLen <= MAX_PAYLOAD
    ensures |h| == 6
  {
    [START, LoByte(payloadLen + 3), HiByte(payloadLen + 3), typ, LoByte(nonce), HiByte(nonce)]
  }

  /** Append the CRC of everything after the START byte. */
  function Seal(body: seq<byte>): seq<byte>
    requires |body| > 0
  {
    var c := Crc16(body[1..]);
    body + [CrcLo(c), CrcHi(c)]
  }

  function Encode(f: Frame): (bytes: seq<byte>)
    requires f.Valid()
    ensures |bytes| == |f.payload| + 8
    ensures bytes[0] == START
  {
    Seal(Header(f.typ, f.nonce, |f.payload|) + f.payload)
  }

  function Decode(s: seq<byte>): Option<Frame> {
    var n := |s|;
    if n < 8 || s[0] != START then None else
    var lenField := Word(s[1], s[2]);
    if lenField > n || n != 1 + 2 + lenField + 2 then None else
    var payloadLen := (lenField - 3) % 0x1_0000;
    if payloadLen > MAX_PAYLOAD then None else
    if Crc16(s[1..n - 2]) != CrcWord(s[n - 2], s[n - 1]) then None else
    Some(Frame(s[3], Word(s[4], s[5]), s[6..6 + payloadLen]))
  }

  // ----- Encode and decode are mutually inverse -----

  lemma CrcWordRoundTrip(c: bv16)
    ensures CrcWord(CrcLo(c), CrcHi(c)) == c
  {
  }

  lemma CrcBytesRoundTrip(lo: byte, hi: byte)
    ensures CrcLo(CrcWord(lo, hi)) == lo && CrcHi(CrcWord(lo, hi)) == hi
  {
  }

  lemma EncodeShape(f: Frame)
    requires f.Valid()
    ensures var s := Encode(f); var n := |s|;
      && s[..6] == Header(f.typ, f.nonce, |f.payload|)
      && s[6..n - 2] == f.payload
      && s[1..n - 2] == (Header(f.typ, f.nonce, |f.payload|) + f.payload)[1..]
      && s[n - 2] == CrcLo(Crc16(s[1..n - 2])) && s[n - 1] == CrcHi(Crc16(s[1..n - 2]))
  {
    var body := Header(f.typ, f.nonce, |f.payload|) + f.payload;
    var s := Encode(f);
    assert s[..|s| - 2] == body;
    assert s[1..|s| - 2] == body[1..];
  }

  /** Every frame decodes to what was encoded. */
  lemma DecodeOfEncode(f: Frame)
    requires f.Valid()
    ensures Decode(Encode(f)) == Some(f)
  {
    hide LoByte, HiByte, Word, CrcLo, CrcHi, CrcWord;
    var s := Encode(f);
    EncodeShape(f);
    var h := s[..6];
    assert s[0] == h[0] && s[1] == h[1] && s[2] == h[2] && s[3] == h[3] && s[4] == h[4] && s[5] == h[5];
    WordOfBytes(|f.payload| + 3);
    WordOfBytes(f.nonce);
    CrcWordRoundTrip(Crc16(s[1..|s| - 2]));
  }

  /** Every accepted byte sequence is the encoding of the frame it yields. */
  lemma EncodeOfDecode(s: seq<byte>)
    requires Decode(s).Some?
    ensures Decode(s).value.Valid() && Encode(Decode(s).value) == s
  {
    hide LoByte, HiByte, Word, CrcLo, CrcHi, CrcWord;
    var f := Decode(s).value;
    var n := |s|;
    BytesOfWord(s[1], s[2]);
    BytesOfWord(s[4], s[5]);
    CrcBytesRoundTrip(s[n - 2], s[n - 1]);
    assert Header(f.typ, f.nonce, |f.payload|) == s[..6];
    assert Header(f.typ, f.nonce, |f.payload|) + f.payload == s[..n - 2];
    assert s[..n - 2][1..] == s[1..n - 2];
  }

  /** The decoder accepts exactly the image of the encoder, and inverts it there. */
  lemma DecodeIffEncode(s: seq<byte>, f: Frame)
    ensures Decode(s) == Some(f) <==> f.Valid() && Encode(f) == s
  {
    if Decode(s) == Some(f) {
      EncodeOfDecode(s);
    }
    if f.Valid() && Encode(f) == s {
      DecodeOfEncode(f);
    }
  }

  // ----- The C functions -----

  /** The bytes `protocol_encode` writes: a NULL payload is skipped but still counted in LEN. */
  function EncodeCall(typ: byte, nonce: u16, payload: Option<seq<byte>>, payloadLen: nat): seq<byte>
    requires payloadLen <= MAX_PAYLOAD
    requires payload.Some? ==> |payload.value| == payloadLen
  {
    Seal(Header(typ, nonce, payloadLen) + (if payload.Some? then payload.value else []))
  }

  /** An emitted frame is decodable exactly when its payload was given or is empty. */
  lemma NullPayload(typ: byte, nonce: u16, payload: Option<seq<byte>>, payloadLen: nat)
    requires payloadLen <= MAX_PAYLOAD
    requires payload.Some? ==> |payload.value| == payloadLen
    ensures Decode(EncodeCall(typ, nonce, payload, payloadLen)).Some? <==> payload.Some? || payloadLen == 0
  {
    hide LoByte, HiByte, Word, CrcLo, CrcHi, CrcWord;
    var s := EncodeCall(typ, nonce, payload, payloadLen);
    if payload.Some? {
      DecodeOfEncode(Frame(typ, nonce, payload.value));
    } else if payloadLen == 0 {
      DecodeOfEncode(Frame(typ, nonce, []));
    } else {
      WordOfBytes(payloadLen + 3);
    }
  }

  method EncodeFrame(dst: array<byte>, typ: byte, nonce: u16, payload: array?<byte>, payloadLen: u16)
    returns (n: nat)
    requires payloadLen <= MAX_PAYLOAD ==> dst.Length >= 8 + payloadLen
    requires payload != null ==> payload != dst && payload.Length >= payloadLen
    modifies dst
    ensures payloadLen > MAX_PAYLOAD ==> n == 0 && dst[..] == old(dst[..])
    ensures payloadLen <= MAX_PAYLOAD ==>
      && n <= dst.Length
      && dst[..n] == EncodeCall(typ, nonce,
           if payload == null then None else Some(payload[..payloadLen]), payloadLen)
      && dst[n..] == old(dst[n..])
  {
    hide LoByte, HiByte, Word, CrcLo, CrcHi, CrcWord;
    if payloadLen > MAX_PAYLOAD {
      return 0;
    }
    var idx := WriteHeader(dst, typ, nonce, payloadLen);
    ghost var header := dst[..6];
    if payload != null && payloadLen > 0 {
      CopyBytes(dst, idx, payload, 0, payloadLen);
      idx := idx + payloadLen;
    }
    ghost var body := dst[..idx];
    ghost var rest := dst[idx + 2..];
    assert rest == old(dst[idx + 2..]);
    assert body == header + (if payload == null then [] else payload[..payloadLen]) by {
      assert dst[..6] == header;
    }
    n := WriteCrc(dst, idx);
  }

  /** The six bytes before the payload. */
  method WriteHeader(dst: array<byte>, typ: byte, nonce: u16, payloadLen: u16) returns (idx: nat)
    requires payloadLen <= MAX_PAYLOAD && dst.Length >= 8
    modifies dst
    ensures idx == 6 && dst[..6] == Header(typ, nonce, payloadLen)
    ensures dst[6..] == old(dst[6..])
  {
    hide LoByte, HiByte;
    var lenField := payloadLen + 1 + 2;
    idx := 0;
    dst[idx] := START; idx := idx + 1;
    dst[idx] := LoByte(lenField); idx := idx + 1;
    dst[idx] := HiByte(lenField); idx := idx + 1;
    dst[idx] := typ; idx := idx + 1;
    dst[idx] := LoByte(nonce); idx := idx + 1;
    dst[idx] := HiByte(nonce); idx := idx + 1;
  }

  /** The CRC of `dst[1..idx]`, low byte first. */
  method WriteCrc(dst: array<byte>, idx: nat) returns (n: nat)
    requires 1 <= idx && idx + 2 <= dst.Length
    modifies dst
    ensures n == idx + 2 && dst[..n] == Seal(old(dst[..idx]))
    ensures dst[n..] == old(dst[n..])
  {
    hide CrcLo, CrcHi;
    var crc := ComputeCrc(dst, 1, idx - 1);
    assert dst[1..1 + (idx - 1)] == dst[..idx][1..];
    n := idx;
    dst[n] := CrcLo(crc); n := n + 1;
    dst[n] := CrcHi(crc); n := n + 1;
  }

  /** `memcpy` between distinct arrays. */
  method CopyBytes(dst: array<byte>, at: nat, src: array<byte>, start: nat, len: nat)
    requires dst != src && at + len <= dst.Length && start + len <= src.Length
    modifies dst
    ensures dst[at..at + len] == src[start..start + len]
    ensures dst[..at] == old(dst[..at]) && dst[at + len..] == old(dst[at + len..])
  {
    var i := 0;
    while i < len
      invariant 0 <= i <= len
      invariant dst[at..at + i] == src[start..start + i]
      invariant dst[..at] == old(dst[..at])
      invariant dst[at + len..] == old(dst[at + len..])
    {
      dst[at + i] := src[start + i];
      i := i + 1;
    }
  }

  /** `ecu_frame_t`: the caller's decoded frame, written in place. */
  class FrameBuffer {
    var typ: byte
    var nonce: u16
    const payload: array<byte>
    var payloadLen: u16

    constructor ()
      ensures Valid() && fresh(payload)
    {
      typ, nonce, payloadLen := 0, 0, 0;
      payload := new byte[MAX_PAYLOAD](_ => 0);
    }

    ghost predicate Valid()
      reads this
    {
      payload.Length == MAX_PAYLOAD && payloadLen <= MAX_PAYLOAD
    }

    ghost function Contents(): Frame
      reads this, payload
      requires Valid()
    {
      Frame(typ, nonce, payload[..payloadLen])
    }
  }

  method DecodeFrame(frame: array<byte>, frameLen: nat, out: FrameBuffer) returns (ok: bool)
    requires frameLen <= frame.Length && out.Valid() && frame != out.payload
    modifies out, out.payload
    ensures out.Valid()
    ensures ok <==> Decode(frame[..frameLen]).Some?
    ensures ok ==> Decode(frame[..frameLen]) == Some(out.Contents())
    ensures !ok ==> out.Contents() == old(out.Contents())
  {
    hide LoByte, HiByte, Word, CrcLo, CrcHi, CrcWord;
    ghost var s := frame[..frameLen];
    if frameLen < 8 { return false; }
    if frame[0] != START { return false; }
    var lenField := Word(frame[1], frame[2]);
    if lenField > frameLen { return false; }
    var expected := 1 + 2 + lenField + 2;
    if frameLen != expected { return false; }
    var payloadLen := (lenField - 1 - 2) % 0x1_0000;
    if payloadLen > MAX_PAYLOAD { return false; }
    var zone := frameLen - 1 - 2;
    var crc := ComputeCrc(frame, 1, zone);
    assert frame[1..1 + zone] == s[1..frameLen - 2];
    if crc != CrcWord(frame[frameLen - 2], frame[frameLen - 1]) { return false; }
    out.typ := frame[3];
    out.nonce := Word(frame[4], frame[5]);
    out.payloadLen := payloadLen;
    if payloadLen > 0 {
      CopyBytes(out.payload, 0, frame, 6, payloadLen);
    }
    assert out.payload[..payloadLen] == s[6..6 + payloadLen];
    ok := true;
  }
}
