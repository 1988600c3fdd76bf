/** Payload validation (main/protocol.c:102-132): the finite float32 values as real numbers. */
module Payload {
  import opened Bytes
  import opened Protocol
  import opened Command

  function Pow2(n: nat): real
    ensures Pow2(n) > 0.0
  {
    if n == 0 then 1.0 else 2.0 * Pow2(n - 1)
  }

  /** The magnitude with exponent field `e` below 255 and fraction field `f`. */
  function FieldsValue(e: nat, f: nat): real {
    if e == 0 then (f as real) / Pow2(149)
    else if e >= 150 then ((0x80_0000 + f) as real) * Pow2(e - 150)
    else ((0x80_0000 + f) as real) / Pow2(150 - e)
  }

  /** The value of four little-endian float32 bytes; none for an infinity or a NaN. */
  function Float32(p: seq<byte>): Option<real>
    requires |p| == 4
  {
    ByteOfValue(p[3]);
    ByteOfValue(p[2]);
    ByteOfValue(p[1]);
    ByteOfValue(p[0]);
    var exponent := (Value(p[3]) % 128) * 2 + Value(p[2]) / 128;
    var fraction := (Value(p[2]) % 128) * 65536 + Value(p[1]) * 256 + Value(p[0]);
    if exponent == 255 then None else
    var magnitude := FieldsValue(exponent, fraction);
    Some(if Value(p[3]) >= 128 then -magnitude else magnitude)
  }

  datatype Status = Ok(value: real) | Invalid | OutOfRange

  function ParseFloat(f: Frame): Option<real> {
    if |f.payload| != 4 then None else Float32(f.payload)
  }

  function ParseBounded(f: Frame, min: real, max: real): (s: Status)
    ensures s.Ok? ==> min <= s.value <= max && ParseFloat(f) == Some(s.value)
    ensures s.OutOfRange? ==> ParseFloat(f).Some?
  {
    match ParseFloat(f)
    case None => Invalid
    case Some(v) => if v < min || v > max then OutOfRange else Ok(v)
  }

  function ParseMode(f: Frame): Option<Mode> {
    if |f.payload| != 1 || f.payload[0] > 2 then None
    else Some(if f.payload[0] == 0 then Off else if f.payload[0] == 1 then Manual else Auto)
  }

  function ModeByte(m: Mode): byte {
    match m
    case Off => 0
    case Manual => 1
    case Auto => 2
  }

  /** A mode request is exactly one byte holding the code of a mode. */
  lemma ParseModeIff(f: Frame, m: Mode)
    ensures ParseMode(f) == Some(m) <==> f.payload == [ModeByte(m)]
  {
    if |f.payload| == 1 {
      assert f.payload == [f.payload[0]];
    }
  }

  /** Only the exponent of all ones, an infinity or a NaN, is not a number. */
  lemma FiniteIff(p: seq<byte>)
    requires |p| == 4
    ensures Float32(p).Some? <==> Value(p[3]) % 128 < 127 || Value(p[2]) < 128
  {
  }

  /** The verdicts, from the payload alone: a wrong length and a value that is no number are invalid. */
  lemma ParseBoundedVerdict(f: Frame, min: real, max: real)
    ensures var s := ParseBounded(f, min, max); var p := f.payload;
      && (s.Invalid? <==> |p| != 4 || (Value(p[3]) % 128 == 127 && Value(p[2]) >= 128))
      && (s.Ok? ==> Float32(p) == Some(s.value) && min <= s.value <= max)
      && (s.OutOfRange? ==> !(min <= Float32(p).value <= max))
  {
    hide Float32;
    if |f.payload| == 4 {
      FiniteIff(f.payload);
    }
  }

  /** 220.0 and 242.0 as they arrive, low byte first, are the limits, and are accepted. */
  lemma LimitsAreAccepted(f: Frame)
    ensures f.payload == [0x00, 0x00, 0x5C, 0x43] ==> ParseBounded(f, 0.0, 220.0) == Ok(220.0)
    ensures f.payload == [0x00, 0x00, 0x72, 0x43] ==> ParseBounded(f, 0.0, 242.0) == Ok(242.0)
  {
    hide Pow2, Value;
    LimitBytes();
    SixteenBits();
  }

  lemma LimitBytes()
    ensures Value(0x00) == 0 && Value(0x5C) == 92 && Value(0x43) == 67 && Value(0x72) == 114
  {
  }

  lemma SixteenBits()
    ensures Pow2(16) == 65536.0
  {
    assert Pow2(4) == 16.0 && Pow2(8) == 256.0 && Pow2(12) == 4096.0;
  }
}
