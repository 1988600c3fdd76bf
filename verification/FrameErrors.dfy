/**
 * Bit errors on the line, seen by `protocol_decode`. Bits are counted in wire order, most
 * significant bit of each byte first; the CRC is sent low byte first, so its two bytes reach the
 * wire in the opposite order to the division.
 */
module FrameErrors {
  import opened Bytes
  import opened Gf2
  import opened Crc
  import opened ErrorPatterns
  import opened Protocol
  import opened WireBits

  /** The wire bits in which two byte sequences of equal length differ. */
  function Flips(s: seq<byte>, s': seq<byte>): (f: Bits)
    requires |s| == |s'|
    ensures |f| == 8 * |s|
  {
    BitsOf(XorBytes(s, s'))
  }

  /** The flips under the CRC, and those of the CRC itself put back in register order. */
  function MessageFlips(f: Bits): (e: Bits)
    requires |f| >= 64
    ensures |e| == |f| - 24
  {
    f[8..|f| - 16]
  }

  function CheckFlips(f: Bits): Reg
    requires |f| >= 64
  {
    f[|f| - 8..] + f[|f| - 16..|f| - 8]
  }

  // ----- The layout -----

  /**
   * The bytes on the wire: 0xAA, then LEN, TYPE, NONCE and payload, words low byte first, then
   * the CRC of everything between, low byte first.
   */
  lemma WireLayout(f: Frame)
    requires f.Valid()
    ensures var e := Encode(f); var n := |e|;
      && n == |f.payload| + 8 <= 136
      && e[0] == 0xAA && Value(e[1]) + 256 * Value(e[2]) == |f.payload| + 3
      && e[3] == f.typ && Value(e[4]) + 256 * Value(e[5]) == f.nonce
      && e[6..n - 2] == f.payload
      && Bits16(Crc16(e[1..n - 2])) == Bits8(e[n - 1]) + Bits8(e[n - 2])
  {
    hide Value, CrcLo, CrcHi, Crc16, Bits16, Bits8, Encode, LoByte, HiByte, Word;
    var e := Encode(f);
    var n := |e|;
    var h := e[..6];
    EncodeShape(f);
    assert e[0] == h[0] && e[1] == h[1] && e[2] == h[2] && e[3] == h[3] && e[4] == h[4] && e[5] == h[5];
    LittleEndian(|f.payload| + 3);
    LittleEndian(f.nonce);
    Bits16OfCrcWord(e[n - 2], e[n - 1]);
    CrcWordRoundTrip(Crc16(e[1..n - 2]));
  }

  lemma LittleEndian(w: u16)
    ensures Value(LoByte(w)) + 256 * Value(HiByte(w)) == w
  {
    ValueOfByteOf(w % 256);
    ValueOfByteOf(w / 256);
  }

  // ----- Which corruptions of an accepted frame are accepted -----

  /** The CRC test of the decoder, as an equation over GF(2). */
  predicate CrcMatches(s: seq<byte>)
    requires |s| >= 8
  {
    Remainder(s[1..|s| - 2]) == Bits8(s[|s| - 1]) + Bits8(s[|s| - 2])
  }

  lemma CrcMatchesIsCrcTest(s: seq<byte>)
    requires |s| >= 8
    ensures CrcMatches(s) <==> Crc16(s[1..|s| - 2]) == CrcWord(s[|s| - 2], s[|s| - 1])
  {
    hide Bits8, CrcWord, Bits16, Crc16, Remainder;
    var zone, word := s[1..|s| - 2], CrcWord(s[|s| - 2], s[|s| - 1]);
    CrcIsRemainder(zone);
    Bits16OfCrcWord(s[|s| - 2], s[|s| - 1]);
    if CrcMatches(s) {
      Bits16Injective(Crc16(zone), word);
    }
  }

  lemma SliceFields(w: Bits, a: Bits, b: Bits, c: Bits, d: Bits)
    requires w == a + (b + (c + d)) && |a| == |c| == |d| == 8
    ensures |w| >= 24
    ensures w[..8] == a
    ensures w[8..|w| - 16] == b
    ensures w[|w| - 16..|w| - 8] == c
    ensures w[|w| - 8..] == d
  {
  }

  lemma SplitFrame(s: seq<byte>)
    requires |s| >= 8
    ensures s == [s[0]] + (s[1..|s| - 2] + ([s[|s| - 2]] + [s[|s| - 1]]))
  {
  }

  lemma FieldsOf(s: seq<byte>)
    requires |s| >= 8
    ensures BitsOf(s) == Bits8(s[0]) + (BitsOf(s[1..|s| - 2]) + (Bits8(s[|s| - 2]) + Bits8(s[|s| - 1])))
  {
    hide Bits8, BitsOf;
    var n := |s|;
    var zone, lo, hi := s[1..n - 2], s[n - 2], s[n - 1];
    SplitFrame(s);
    BitsOfConcat([s[0]], zone + ([lo] + [hi]));
    BitsOfConcat(zone, [lo] + [hi]);
    BitsOfConcat([lo], [hi]);
    BitsOfOne(s[0]);
    BitsOfOne(lo);
    BitsOfOne(hi);
  }

  lemma XorSlice(a: Bits, b: Bits, i: nat, j: nat)
    requires |a| == |b| && i <= j <= |a|
    ensures Xor(a, b)[i..j] == Xor(a[i..j], b[i..j])
  {
  }

  /** The flips of two frames, field by field. */
  lemma XorFields(w: Bits, w': Bits, a: Bits, a': Bits, b: Bits, b': Bits, c: Bits, c': Bits, d: Bits, d': Bits)
    requires w == a + (b + (c + d)) && |a| == |c| == |d| == 8
    requires w' == a' + (b' + (c' + d')) && |a'| == |c'| == |d'| == 8 && |b'| == |b| >= 40
    ensures Xor(w, w')[..8] == Xor(a, a')
    ensures MessageFlips(Xor(w, w')) == Xor(b, b')
    ensures CheckFlips(Xor(w, w')) == Xor(d, d') + Xor(c, c')
  {
    var m := |w|;
    SliceFields(w, a, b, c, d);
    SliceFields(w', a', b', c', d');
    XorSlice(w, w', 0, 8);
    XorSlice(w, w', 8, m - 16);
    XorSlice(w, w', m - 16, m - 8);
    XorSlice(w, w', m - 8, m);
  }

  lemma FlipsByField(s: seq<byte>, s': seq<byte>)
    requires |s| == |s'| >= 8
    ensures Flips(s, s')[..8] == Xor(Bits8(s[0]), Bits8(s'[0]))
    ensures MessageFlips(Flips(s, s')) == Xor(BitsOf(s[1..|s| - 2]), BitsOf(s'[1..|s| - 2]))
    ensures CheckFlips(Flips(s, s'))
         == Xor(Bits8(s[|s| - 1]), Bits8(s'[|s| - 1])) + Xor(Bits8(s[|s| - 2]), Bits8(s'[|s| - 2]))
  {
    hide Bits8, BitsOf, CheckFlips, MessageFlips;
    var n := |s|;
    FieldsOf(s);
    FieldsOf(s');
    BitsOfXor(s, s');
    XorFields(BitsOf(s), BitsOf(s'), Bits8(s[0]), Bits8(s'[0]), BitsOf(s[1..n - 2]), BitsOf(s'[1..n - 2]),
              Bits8(s[n - 2]), Bits8(s'[n - 2]), Bits8(s[n - 1]), Bits8(s'[n - 1]));
  }

  /** Starting from a matching CRC, the CRC still matches exactly when the pattern is invisible. */
  lemma CorruptedCrc(s: seq<byte>, s': seq<byte>)
    requires |s| == |s'| >= 8 && CrcMatches(s)
    ensures CrcMatches(s') <==> Unnoticed(MessageFlips(Flips(s, s')), CheckFlips(Flips(s, s')))
  {
    hide Bits8, BitsOf, Flips, MessageFlips, CheckFlips;
    var n := |s|;
    FlipsByField(s, s');
    var a, a' := BitsOf(s[1..n - 2]), BitsOf(s'[1..n - 2]);
    var c, c' := Bits8(s[n - 1]) + Bits8(s[n - 2]), Bits8(s'[n - 1]) + Bits8(s'[n - 2]);
    XorConcat(Bits8(s[n - 1]), Bits8(s[n - 2]), Bits8(s'[n - 1]), Bits8(s'[n - 2]));
    LinearCheck(a, a', c, c');
  }

  lemma LinearCheck(a: Bits, a': Bits, c: Reg, c': Reg)
    requires |a| == |a'| && FeedBits(ZERO, a) == c
    ensures FeedBits(ZERO, a') == c' <==> Unnoticed(Xor(a, a'), Xor(c, c'))
  {
    FeedBitsXor(ZERO, ZERO, a, a');
    XorSelf(ZERO);
    XorCancel(c, FeedBits(ZERO, a'), c');
  }

  lemma XorCancel(a: Bits, b: Bits, c: Bits)
    requires |a| == |b| == |c|
    ensures Xor(a, b) == Xor(a, c) <==> b == c
  {
    if Xor(a, b) == Xor(a, c) {
      forall i | 0 <= i < |a| ensures b[i] == c[i] {
        assert Xor(a, b)[i] == Xor(a, c)[i];
      }
    }
  }

  /**
   * An accepted frame overwritten by another byte string of the same length is accepted exactly
   * when START and LEN are intact and the flips are invisible to the remainder.
   */
  lemma CorruptedFrame(s: seq<byte>, s': seq<byte>)
    requires Decode(s).Some? && |s'| == |s|
    ensures Decode(s').Some? <==>
      && s'[..3] == s[..3]
      && Unnoticed(MessageFlips(Flips(s, s')), CheckFlips(Flips(s, s')))
  {
    hide Flips, MessageFlips, CheckFlips, CrcMatches, Word, CrcWord, Crc16;
    CrcMatchesIsCrcTest(s);
    CrcMatchesIsCrcTest(s');
    CorruptedCrc(s, s');
    SameLength(s, s');
  }

  lemma SameLength(s: seq<byte>, s': seq<byte>)
    requires Decode(s).Some? && |s'| == |s|
    ensures Decode(s').Some? <==>
      && s'[..3] == s[..3]
      && Crc16(s'[1..|s| - 2]) == CrcWord(s'[|s| - 2], s'[|s| - 1])
  {
    hide Word, CrcWord, Crc16;
    if s'[..3] == s[..3] {
      assert s'[0] == s[..3][0] && s'[1] == s[..3][1] && s'[2] == s[..3][2];
    }
    if Decode(s').Some? {
      LenDetermined(s, s');
    }
  }

  lemma LenDetermined(s: seq<byte>, s': seq<byte>)
    requires Decode(s).Some? && Decode(s').Some? && |s'| == |s|
    ensures s'[..3] == s[..3]
  {
    hide Word, CrcWord, Crc16;
    BytesOfWord(s[1], s[2]);
    BytesOfWord(s'[1], s'[2]);
    assert Word(s[1], s[2]) == Word(s'[1], s'[2]);
  }

  // ----- Few flips, odd numbers of flips -----

  lemma JoinFields(f: Bits)
    requires |f| >= 64
    ensures f == f[..8] + (f[8..|f| - 16] + (f[|f| - 16..|f| - 8] + f[|f| - 8..]))
  {
  }

  lemma WeightFields(a: Bits, b: Bits, c: Bits, d: Bits)
    ensures Weight(a + (b + (c + d))) == Weight(a) + Weight(b) + Weight(d + c)
  {
    hide Weight;
    WeightConcat(a, b + (c + d));
    WeightConcat(b, c + d);
    WeightConcat(c, d);
    WeightConcat(d, c);
  }

  lemma WeightByField(f: Bits)
    requires |f| >= 64
    ensures Weight(f) == Weight(f[..8]) + Weight(MessageFlips(f)) + Weight(CheckFlips(f))
  {
    hide Weight;
    var a, b, c, d := f[..8], MessageFlips(f), f[|f| - 16..|f| - 8], f[|f| - 8..];
    assert CheckFlips(f) == d + c;
    assert f == a + (b + (c + d)) by {
      JoinFields(f);
    }
    WeightFields(a, b, c, d);
  }

  /** If the corrupted frame is accepted, START is intact and all flips are in the other fields. */
  lemma AcceptedFlips(s: seq<byte>, s': seq<byte>)
    requires Decode(s).Some? && |s'| == |s| && Decode(s').Some?
    ensures Flips(s, s')[..8] == Zeros(8)
    ensures Weight(Flips(s, s')) == Weight(MessageFlips(Flips(s, s'))) + Weight(CheckFlips(Flips(s, s')))
    ensures Unnoticed(MessageFlips(Flips(s, s')), CheckFlips(Flips(s, s')))
  {
    hide Flips, MessageFlips, CheckFlips, Bits8, Word, CrcWord, Crc16;
    CorruptedFrame(s, s');
    assert s'[0] == s'[..3][0] == s[0];
    FlipsByField(s, s');
    XorSelf(Bits8(s[0]));
    WeightByField(Flips(s, s'));
    WeightZero(Zeros(8));
  }

  /** Flipping one, two or three bits anywhere in an accepted frame makes it rejected. */
  lemma FewFlipsRejected(s: seq<byte>, s': seq<byte>)
    requires Decode(s).Some? && |s'| == |s| && 1 <= Weight(Flips(s, s')) <= 3
    ensures Decode(s').None?
  {
    hide Flips, MessageFlips, CheckFlips, Word, CrcWord, Crc16, Unnoticed;
    if Decode(s').Some? {
      AcceptedFlips(s, s');
      AcceptedLength(s);
      FewErrorsAreNoticed(MessageFlips(Flips(s, s')), CheckFlips(Flips(s, s')));
    }
  }

  lemma AcceptedLength(s: seq<byte>)
    requires Decode(s).Some?
    ensures 8 <= |s| <= MAX_FRAME
  {
    hide Word, CrcWord, Crc16;
    EncodeOfDecode(s);
  }

  /** So does flipping any odd number of bits. */
  lemma OddFlipsRejected(s: seq<byte>, s': seq<byte>)
    requires Decode(s).Some? && |s'| == |s| && Weight(Flips(s, s')) % 2 == 1
    ensures Decode(s').None?
  {
    hide Flips, MessageFlips, CheckFlips, Word, CrcWord, Crc16, Unnoticed;
    if Decode(s').Some? {
      AcceptedFlips(s, s');
      OddErrorsAreNoticed(MessageFlips(Flips(s, s')), CheckFlips(Flips(s, s')));
    }
  }

  // ----- Bursts that stay on one side of the CRC -----

  lemma ZeroFieldsOfBurst(f: Bits, p: nat)
    requires |f| >= 64 && p + 16 <= |f| - 16 && Within(f, p, 16)
    ensures CheckFlips(f) == ZERO
    ensures Within(MessageFlips(f), if p < 8 then 0 else p - 8, 16)
  {
    var c, e := CheckFlips(f), MessageFlips(f);
    forall j | 0 <= j < 16 ensures !c[j] {
      assert c[j] == if j < 8 then f[|f| - 8 + j] else f[|f| - 24 + j];
    }
    forall i | 0 <= i < |e| && e[i] ensures (if p < 8 then 0 else p - 8) <= i < (if p < 8 then 0 else p - 8) + 16 {
      assert f[8 + i];
    }
  }

  /** Any error confined to 16 consecutive wire bits before the CRC is rejected. */
  lemma BurstBeforeCrcRejected(s: seq<byte>, s': seq<byte>, p: nat)
    requires Decode(s).Some? && |s'| == |s| && Weight(Flips(s, s')) > 0
    requires p + 16 <= 8 * (|s| - 2) && Within(Flips(s, s'), p, 16)
    ensures Decode(s').None?
  {
    hide Flips, MessageFlips, CheckFlips, Word, CrcWord, Crc16, Within;
    if Decode(s').Some? {
      AcceptedFlips(s, s');
      AcceptedLength(s);
      ZeroFieldsOfBurst(Flips(s, s'), p);
      BurstIsNoticed(MessageFlips(Flips(s, s')), CheckFlips(Flips(s, s')), if p < 8 then 0 else p - 8);
    }
  }

  lemma BurstIsNoticed(e: Bits, c: Reg, p: nat)
    requires c == ZERO && Weight(e) + Weight(c) > 0 && p + 16 <= |e| && Within(e, p, 16)
    ensures !Unnoticed(e, c)
  {
    WeightZero(ZERO);
    BurstLeavesRemainder(e, p, 16);
  }

  /** Any error confined to the two CRC bytes is rejected. */
  lemma CrcOnlyErrorRejected(s: seq<byte>, s': seq<byte>)
    requires Decode(s).Some? && |s'| == |s| && Weight(Flips(s, s')) > 0
    requires Within(Flips(s, s'), 8 * (|s| - 2), 16)
    ensures Decode(s').None?
  {
    hide Flips, CheckFlips, Word, CrcWord, Crc16;
    if Decode(s').Some? {
      AcceptedFlips(s, s');
      AcceptedLength(s);
      var e := MessageFlips(Flips(s, s'));
      assert e == Zeros(|e|);
      ZerosStayZero(|e|);
      WeightZero(e);
      WeightZero(ZERO);
    }
  }
}
