/** Bytes and 16-bit words as the wire protocol sees them. */
module Bytes {

  type byte = bv8

  /** `uint16_t` values that are computed with (LEN, nonce) are integers below 2^16. */
  type u16 = n: int | 0 <= n < 0x1_0000

  function Digit(n: int): byte
    requires 0 <= n < 16
  {
    match n
    case 0 => 0 case 1 => 1 case 2 => 2 case 3 => 3
    case 4 => 4 case 5 => 5 case 6 => 6 case 7 => 7
    case 8 => 8 case 9 => 9 case 10 => 10 case 11 => 11
    case 12 => 12 case 13 => 13 case 14 => 14 case _ => 15
  }

  /** The number written in the low four bits of `b`. */
  function LowDigit(b: byte): int {
    (if b & 0x08 != 0 then 8 else 0) + (if b & 0x04 != 0 then 4 else 0)
    + (if b & 0x02 != 0 then 2 else 0) + (if b & 0x01 != 0 then 1 else 0)
  }

  /** `(uint8_t)n` for a value below 256. */
  function ByteOf(n: int): byte
    requires 0 <= n < 0x100
  {
    (Digit(n / 16) << 4) | Digit(n % 16)
  }

  function Value(b: byte): int {
    16 * LowDigit(b >> 4) + LowDigit(b)
  }

  lemma DigitRoundTrip(n: int)
    requires 0 <= n < 16
    ensures LowDigit(Digit(n)) == n && Digit(n) & 0xF0 == 0
  {
  }

  lemma LowDigitRoundTrip(b: byte)
    ensures 0 <= LowDigit(b) < 16 && Digit(LowDigit(b)) == b & 0x0F
  {
  }

  lemma JoinDigits(a: byte, c: byte)
    requires a & 0xF0 == 0 && c & 0xF0 == 0
    ensures ((a << 4) | c) >> 4 == a && LowDigit((a << 4) | c) == LowDigit(c)
  {
  }

  lemma SplitDigits(b: byte)
    ensures (((b >> 4) & 0x0F) << 4) | (b & 0x0F) == b
  {
  }

  lemma ValueOfByteOf(n: int)
    requires 0 <= n < 0x100
    ensures Value(ByteOf(n)) == n
  {
    DigitRoundTrip(n / 16);
    DigitRoundTrip(n % 16);
    JoinDigits(Digit(n / 16), Digit(n % 16));
  }

  lemma ByteOfValue(b: byte)
    ensures 0 <= Value(b) < 0x100 && ByteOf(Value(b)) == b
  {
    LowDigitRoundTrip(b >> 4);
    LowDigitRoundTrip(b);
    var hi, lo := LowDigit(b >> 4), LowDigit(b);
    assert Value(b) / 16 == hi && Value(b) % 16 == lo;
    SplitDigits(b);
  }

  function LoByte(n: u16): byte { ByteOf(n % 256) }

  function HiByte(n: u16): byte { ByteOf(n / 256) }

  function Join(lo: int, hi: int): u16
    requires 0 <= lo < 0x100 && 0 <= hi < 0x100
  {
    lo + 256 * hi
  }

  /** A 16-bit word from its two bytes, low byte first on the wire. */
  function Word(lo: byte, hi: byte): u16 {
    ByteOfValue(lo);
    ByteOfValue(hi);
    Join(Value(lo), Value(hi))
  }

  lemma WordOfBytes(n: u16)
    ensures Word(LoByte(n), HiByte(n)) == n
  {
    ValueOfByteOf(n % 256);
    ValueOfByteOf(n / 256);
  }

  lemma BytesOfJoin(a: int, b: int)
    requires 0 <= a < 0x100 && 0 <= b < 0x100
    ensures LoByte(Join(a, b)) == ByteOf(a) && HiByte(Join(a, b)) == ByteOf(b)
  {
    assert Join(a, b) % 256 == a && Join(a, b) / 256 == b;
  }

  lemma BytesOfWord(lo: byte, hi: byte)
    ensures LoByte(Word(lo, hi)) == lo && HiByte(Word(lo, hi)) == hi
  {
    ByteOfValue(lo);
    ByteOfValue(hi);
    BytesOfJoin(Value(lo), Value(hi));
  }
}
