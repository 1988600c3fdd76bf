/** How byte-wise XOR and the two CRC bytes of a frame read as bits. */
module WireBits {
  import opened Bytes
  import opened Gf2
  import opened Crc
  import opened Protocol

  function XorBytes(a: seq<byte>, b: seq<byte>): (c: seq<byte>)
    requires |a| == |b|
    ensures |c| == |a|
    ensures forall i :: 0 <= i < |a| ==> c[i] == a[i] ^ b[i]
  {
    seq(|a|, i requires 0 <= i < |a| => a[i] ^ b[i])
  }

  lemma {:induction false} BitsOfConcat(a: seq<byte>, b: seq<byte>)
    ensures BitsOf(a + b) == BitsOf(a) + BitsOf(b)
    decreases |a|
  {
    hide Bits8;
    if |a| == 0 {
      assert a + b == b;
    } else {
      assert (a + b)[1..] == a[1..] + b;
      BitsOfConcat(a[1..], b);
    }
  }

  lemma BitsOfOne(b: byte)
    ensures BitsOf([b]) == Bits8(b)
  {
    hide Bits8;
    assert [b][1..] == [];
  }

  lemma ByteXorUnderMask(a: byte, b: byte, m: byte)
    requires m & (m - 1) == 0
    ensures ((a ^ b) & m != 0) == ((a & m != 0) != (b & m != 0))
  {
  }

  lemma Bits8OfXor(a: byte, b: byte)
    ensures Bits8(a ^ b) == Xor(Bits8(a), Bits8(b))
  {
    hide Bits8;
    forall i | 0 <= i < 8 ensures Bits8(a ^ b)[i] == (Bits8(a)[i] != Bits8(b)[i]) {
      BitOfByteXor(a, b, i);
    }
  }

  function ByteMask(i: nat): byte
    requires i < 8
  {
    match i
    case 0 => 0x80 case 1 => 0x40 case 2 => 0x20 case 3 => 0x10
    case 4 => 0x08 case 5 => 0x04 case 6 => 0x02 case 7 => 0x01
  }

  lemma Bits8At(b: byte, i: nat)
    requires i < 8
    ensures Bits8(b)[i] == (b & ByteMask(i) != 0)
    ensures ByteMask(i) & (ByteMask(i) - 1) == 0
  {
  }

  lemma BitOfByteXor(a: byte, b: byte, i: nat)
    requires i < 8
    ensures Bits8(a ^ b)[i] == (Bits8(a)[i] != Bits8(b)[i])
  {
    hide Bits8, ByteMask;
    Bits8At(a, i);
    Bits8At(b, i);
    Bits8At(a ^ b, i);
    ByteXorUnderMask(a, b, ByteMask(i));
  }

  lemma {:induction false} BitsOfXor(a: seq<byte>, b: seq<byte>)
    requires |a| == |b|
    ensures BitsOf(XorBytes(a, b)) == Xor(BitsOf(a), BitsOf(b))
    decreases |a|
  {
    hide Bits8;
    if |a| > 0 {
      Bits8OfXor(a[0], b[0]);
      assert XorBytes(a, b)[1..] == XorBytes(a[1..], b[1..]);
      BitsOfXor(a[1..], b[1..]);
      assert XorBytes(a, b)[0] == a[0] ^ b[0];
      XorConcat(Bits8(a[0]), BitsOf(a[1..]), Bits8(b[0]), BitsOf(b[1..]));
    }
  }

  lemma XorConcat(a: Bits, a': Bits, b: Bits, b': Bits)
    requires |a| == |b| && |a'| == |b'|
    ensures Xor(a + a', b + b') == Xor(a, b) + Xor(a', b')
  {
  }

  lemma BitOfCrcWord(lo: byte, hi: byte, i: nat)
    requires i < 16
    ensures Bit(CrcWord(lo, hi), i) == if i < 8 then Bits8(hi)[i] else Bits8(lo)[i - 8]
  {
    if i < 8 {
      UpperBitOfCrcWord(lo, hi, i);
    } else {
      LowerBitOfCrcWord(lo, hi, i);
    }
  }

  lemma UpperBitOfCrcWord(lo: byte, hi: byte, i: nat)
    requires i < 8
    ensures Bit(CrcWord(lo, hi), i) == Bits8(hi)[i]
  {
  }

  lemma LowerBitOfCrcWord(lo: byte, hi: byte, i: nat)
    requires 8 <= i < 16
    ensures Bit(CrcWord(lo, hi), i) == Bits8(lo)[i - 8]
  {
  }

  lemma Bits16OfCrcWord(lo: byte, hi: byte)
    ensures Bits16(CrcWord(lo, hi)) == Bits8(hi) + Bits8(lo)
  {
    hide Bits8, Bit, CrcWord;
    var w, b := Bits16(CrcWord(lo, hi)), Bits8(hi) + Bits8(lo);
    forall i | 0 <= i < 16 ensures w[i] == b[i] {
      BitOfCrcWord(lo, hi, i);
    }
  }
}
