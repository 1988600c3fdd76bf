/**
 * The CRC-16 loop of main/protocol.c: a 16-bit register, most significant bit first, generator
 * 0x1021, initial value 0. Read bit by bit, the register is the remainder of module Gf2.
 */
module Crc {
  import opened Bytes
  import opened Gf2

  /** One iteration of the inner loop. */
  function Shift(r: bv16): bv16 {
    if r & 0x8000 != 0 then (r << 1) ^ 0x1021 else r << 1
  }

  function Shifts(r: bv16, n: nat): bv16
    decreases n
  {
    if n == 0 then r else Shifts(Shift(r), n - 1)
  }

  function Mix(r: bv16, b: byte): bv16 {
    r ^ ((b as bv16) << 8)
  }

  function FeedByte(r: bv16, b: byte): bv16 {
    Shifts(Mix(r, b), 8)
  }

  function FeedBytes(r: bv16, data: seq<byte>): bv16
    decreases |data|
  {
    if |data| == 0 then r else FeedBytes(FeedByte(r, data[0]), data[1..])
  }

  function Crc16(data: seq<byte>): bv16 {
    FeedBytes(0, data)
  }

  /** The nested loops of `protocol_compute_crc`, over `data[start..start + len]`. */
  method ComputeCrc(data: array<byte>, start: nat, len: nat) returns (crc: bv16)
    requires start + len <= data.Length
    ensures crc == Crc16(data[start..start + len])
  {
    hide FeedBytes, FeedByte, Mix;
    crc := 0;
    var i := 0;
    while i < len
      invariant 0 <= i <= len
      invariant FeedBytes(crc, data[start + i..start + len]) == Crc16(data[start..start + len])
    {
      ghost var before, rest := crc, data[start + i..start + len];
      FirstByte(before, rest);
      crc := Mix(crc, data[start + i]);
      var j := 0;
      while j < 8
        invariant 0 <= j <= 8
        invariant Shifts(crc, 8 - j) == FeedByte(before, data[start + i])
      {
        crc := if crc & 0x8000 != 0 then (crc << 1) ^ 0x1021 else crc << 1;
        j := j + 1;
      }
      assert rest[1..] == data[start + i + 1..start + len];
      i := i + 1;
    }
    NoBytes(crc);
  }

  lemma FirstByte(r: bv16, data: seq<byte>)
    requires |data| > 0
    ensures FeedBytes(r, data) == FeedBytes(FeedByte(r, data[0]), data[1..])
    ensures FeedByte(r, data[0]) == Shifts(Mix(r, data[0]), 8)
  {
  }

  lemma NoBytes(r: bv16)
    ensures FeedBytes(r, []) == r
  {
  }

  // ----- The bits of bytes and registers, most significant first -----

  function Bits8(b: byte): (bits: Bits)
    ensures |bits| == 8
  {
    [b & 0x80 != 0, b & 0x40 != 0, b & 0x20 != 0, b & 0x10 != 0,
     b & 0x08 != 0, b & 0x04 != 0, b & 0x02 != 0, b & 0x01 != 0]
  }

  function BitsOf(data: seq<byte>): (bits: Bits)
    ensures |bits| == 8 * |data|
  {
    if |data| == 0 then [] else Bits8(data[0]) + BitsOf(data[1..])
  }

  function Mask(i: nat): bv16
    requires i < 16
  {
    match i
    case 0 => 0x8000 case 1 => 0x4000 case 2 => 0x2000 case 3 => 0x1000
    case 4 => 0x0800 case 5 => 0x0400 case 6 => 0x0200 case 7 => 0x0100
    case 8 => 0x0080 case 9 => 0x0040 case 10 => 0x0020 case 11 => 0x0010
    case 12 => 0x0008 case 13 => 0x0004 case 14 => 0x0002 case 15 => 0x0001
  }

  predicate Bit(r: bv16, i: nat)
    requires i < 16
  {
    r & Mask(i) != 0
  }

  function Bits16(r: bv16): (bits: Reg)
    ensures forall i :: 0 <= i < 16 ==> bits[i] == Bit(r, i)
  {
    seq(16, i requires 0 <= i < 16 => Bit(r, i))
  }

  lemma MaskIsOneBit(i: nat)
    requires i < 16
    ensures Mask(i) & (Mask(i) - 1) == 0
  {
  }

  lemma XorUnderMask(a: bv16, b: bv16, m: bv16)
    requires m & (m - 1) == 0
    ensures ((a ^ b) & m != 0) == ((a & m != 0) != (b & m != 0))
  {
  }

  lemma BitOfXor(a: bv16, b: bv16, i: nat)
    requires i < 16
    ensures Bit(a ^ b, i) == (Bit(a, i) != Bit(b, i))
  {
    MaskIsOneBit(i);
    XorUnderMask(a, b, Mask(i));
  }

  lemma Bits16OfXor(a: bv16, b: bv16)
    ensures Bits16(a ^ b) == Xor(Bits16(a), Bits16(b))
  {
    forall i | 0 <= i < 16 ensures Bit(a ^ b, i) == (Bit(a, i) != Bit(b, i)) {
      BitOfXor(a, b, i);
    }
  }

  lemma UpperBitsOfDouble(r: bv16, i: nat)
    requires i < 8
    ensures Bit(r << 1, i) == Bit(r, i + 1)
  {
  }

  lemma LowerBitsOfDouble(r: bv16, i: nat)
    requires 8 <= i < 16
    ensures Bit(r << 1, i) == (i < 15 && Bit(r, i + 1))
  {
  }

  lemma Bits16OfDouble(r: bv16)
    ensures Bits16(r << 1) == Bits16(r)[1..] + [false]
  {
    var d, t := Bits16(r << 1), Bits16(r)[1..] + [false];
    forall i | 0 <= i < 16 ensures d[i] == t[i] {
      if i < 8 {
        UpperBitsOfDouble(r, i);
      } else {
        LowerBitsOfDouble(r, i);
      }
    }
  }

  lemma ZeroHasNoBit(r: bv16)
    requires forall i :: 0 <= i < 16 ==> !Bit(r, i)
    ensures r == 0
  {
    assert !Bit(r, 0) && !Bit(r, 1) && !Bit(r, 2) && !Bit(r, 3);
    assert !Bit(r, 4) && !Bit(r, 5) && !Bit(r, 6) && !Bit(r, 7);
    assert !Bit(r, 8) && !Bit(r, 9) && !Bit(r, 10) && !Bit(r, 11);
    assert !Bit(r, 12) && !Bit(r, 13) && !Bit(r, 14) && !Bit(r, 15);
  }

  lemma XorZeroMeansEqual(a: bv16, b: bv16)
    requires a ^ b == 0
    ensures a == b
  {
  }

  /** A register is determined by its bits. */
  lemma Bits16Injective(r: bv16, s: bv16)
    requires Bits16(r) == Bits16(s)
    ensures r == s
  {
    var x := r ^ s;
    forall i | 0 <= i < 16 ensures !Bit(x, i) {
      BitOfXor(r, s, i);
      assert Bits16(r)[i] == Bits16(s)[i];
    }
    ZeroHasNoBit(x);
    XorZeroMeansEqual(r, s);
  }

  // ----- The loop is long division -----

  lemma Bits16OfPoly()
    ensures Bits16(0x1021) == TAIL
  {
  }

  lemma Bits16OfZero()
    ensures Bits16(0) == ZERO
  {
  }

  lemma ShiftIsFeedFalse(r: bv16)
    ensures Bits16(Shift(r)) == FeedBit(Bits16(r), false)
  {
    Bits16OfDouble(r);
    Bits16OfXor(r << 1, 0x1021);
    Bits16OfPoly();
    assert Bit(r, 0) == (r & 0x8000 != 0);
  }

  lemma {:induction false} ShiftsAreFeedZeros(r: bv16, n: nat)
    ensures Bits16(Shifts(r, n)) == FeedBits(Bits16(r), Zeros(n))
    decreases n
  {
    if n > 0 {
      ShiftIsFeedFalse(r);
      ShiftsAreFeedZeros(Shift(r), n - 1);
      assert Zeros(n)[1..] == Zeros(n - 1);
    }
  }

  lemma TopByteBits(b: byte, i: nat)
    requires i < 16
    ensures Bit((b as bv16) << 8, i) == (i < 8 && Bits8(b)[i])
  {
  }

  lemma TopByteIsPadded(b: byte)
    ensures Bits16((b as bv16) << 8) == Padded(Bits8(b))
  {
    var r, p := Bits16((b as bv16) << 8), Padded(Bits8(b));
    forall i | 0 <= i < 16 ensures r[i] == p[i] {
      TopByteBits(b, i);
    }
  }

  lemma ByteIsEightBits(r: bv16, b: byte)
    ensures Bits16(FeedByte(r, b)) == FeedBits(Bits16(r), Bits8(b))
  {
    var top := (b as bv16) << 8;
    Bits16OfXor(r, top);
    TopByteIsPadded(b);
    ShiftsAreFeedZeros(r ^ top, 8);
    AddThenShift(Bits16(r), Bits8(b));
  }

  lemma {:induction false} BytesAreBits(r: bv16, data: seq<byte>)
    ensures Bits16(FeedBytes(r, data)) == FeedBits(Bits16(r), BitsOf(data))
    decreases |data|
  {
    if |data| > 0 {
      ByteIsEightBits(r, data[0]);
      BytesAreBits(FeedByte(r, data[0]), data[1..]);
      FeedBitsConcat(Bits16(r), Bits8(data[0]), BitsOf(data[1..]));
    }
  }

  /** The register after the message bits, as a remainder over GF(2). */
  function Remainder(data: seq<byte>): Reg {
    FeedBits(ZERO, BitsOf(data))
  }

  lemma CrcIsRemainder(data: seq<byte>)
    ensures Bits16(Crc16(data)) == Remainder(data)
  {
    Bits16OfZero();
    BytesAreBits(0, data);
  }

  /**
   * What `protocol_compute_crc` computes: the one 16-bit word that makes the message bits
   * followed by the word a multiple of the generator.
   */
  lemma CrcCharacterised(data: seq<byte>, check: bv16)
    ensures check == Crc16(data) <==> IsMultiple(BitsOf(data) + Bits16(check))
  {
    CrcIsRemainder(data);
    RemainderCharacterised(BitsOf(data), Bits16(check));
    if Bits16(check) == Bits16(Crc16(data)) {
      Bits16Injective(check, Crc16(data));
    }
  }

  lemma FirstThree()
    ensures FeedByte(0x0000, 0x31) == 0x2672 && FeedByte(0x2672, 0x32) == 0x20B5 && FeedByte(0x20B5, 0x33) == 0x9752
  {
  }

  lemma NextThree()
    ensures FeedByte(0x9752, 0x34) == 0xD789 && FeedByte(0xD789, 0x35) == 0x546C && FeedByte(0x546C, 0x36) == 0x20E4
  {
  }

  lemma LastThree()
    ensures FeedByte(0x20E4, 0x37) == 0x86D6 && FeedByte(0x86D6, 0x38) == 0x9015 && FeedByte(0x9015, 0x39) == 0x31C3
  {
  }

  lemma OneByte(r: bv16, b: byte, rest: seq<byte>)
    ensures FeedBytes(r, [b] + rest) == FeedBytes(FeedByte(r, b), rest)
  {
    hide FeedByte;
    assert ([b] + rest)[1..] == rest;
  }

  lemma ThreeBytes(r: bv16, a: byte, b: byte, c: byte, rest: seq<byte>)
    ensures FeedBytes(r, [a, b, c] + rest) == FeedBytes(FeedByte(FeedByte(FeedByte(r, a), b), c), rest)
  {
    hide FeedByte, FeedBytes;
    var s := FeedByte(r, a);
    OneByte(r, a, [b, c] + rest);
    assert [a] + ([b, c] + rest) == [a, b, c] + rest;
    OneByte(s, b, [c] + rest);
    assert [b] + ([c] + rest) == [b, c] + rest;
    OneByte(FeedByte(s, b), c, rest);
  }

  /** The check value of this variant: the CRC of the digits 1 to 9. */
  lemma CheckValue()
    ensures Crc16([0x31, 0x32, 0x33, 0x34, 0x35, 0x36, 0x37, 0x38, 0x39]) == 0x31C3
  {
    hide FeedByte, FeedBytes;
    var last: seq<byte> := [0x37, 0x38, 0x39];
    var tail: seq<byte> := [0x34, 0x35, 0x36, 0x37, 0x38, 0x39];
    FirstThree();
    ThreeBytes(0x0000, 0x31, 0x32, 0x33, tail);
    assert [0x31, 0x32, 0x33] + tail == [0x31, 0x32, 0x33, 0x34, 0x35, 0x36, 0x37, 0x38, 0x39];
    NextThree();
    ThreeBytes(0x9752, 0x34, 0x35, 0x36, last);
    assert [0x34, 0x35, 0x36] + last == tail;
    LastThree();
    ThreeBytes(0x20E4, 0x37, 0x38, 0x39, []);
    assert last + [] == last;
    NoBytes(0x31C3);
  }
}
