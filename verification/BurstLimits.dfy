/**
 * How long a burst `protocol_decode` is sure to reject, by its place on the wire: the exact form
 * of the promise in main/protocol.c:6-10.
 */
module BurstLimits {
  import opened Bytes
  import opened Gf2
  import opened Crc
  import opened Order
  import opened ErrorPatterns
  import opened Protocol
  import opened WireBits
  import opened FrameErrors
  import opened BoundaryBursts

  // ----- Bursts that are rejected -----

  lemma StraddleFields(f: Bits, k: nat, n: nat)
    requires |f| >= 64 && 1 <= k <= 15 && Within(f, |f| - 16 - k, n)
    ensures Within(MessageFlips(f), |f| - 24 - k, k)
    ensures Confined(CheckFlips(f), n - k)
  {
    var e, c := MessageFlips(f), CheckFlips(f);
    forall i | 0 <= i < |e| && e[i] ensures |f| - 24 - k <= i {
      assert f[8 + i];
    }
    forall j | 0 <= j < 16 && c[j] ensures WirePosition(j) < n - k {
      assert f[|f| - 16 + WirePosition(j)];
    }
  }

  lemma StraddleRejected(s: seq<byte>, s': seq<byte>, k: nat, n: nat)
    requires Decode(s).Some? && |s'| == |s| && Weight(Flips(s, s')) > 0
    requires 1 <= k <= 15 && Within(Flips(s, s'), 8 * (|s| - 2) - k, n)
    requires (n == 12 && k <= 11) || (n == 16 && k in {7, 9, 11})
    ensures Decode(s').None?
  {
    hide Flips, CheckFlips, MessageFlips, Word, CrcWord, Crc16, Within, Unnoticed, Confined;
    if Decode(s').Some? {
      var e, c := MessageFlips(Flips(s, s')), CheckFlips(Flips(s, s'));
      AcceptedFlips(s, s');
      AcceptedLength(s);
      StraddleFields(Flips(s, s'), k, n);
      if n == 12 {
        ShortStraddle(e, c, k);
      } else {
        SafeStraddle(e, c, k);
      }
      WeightZero(e);
      WeightZero(ZERO);
    }
  }

  lemma Widen(f: Bits, p: nat, n: nat, p': nat, n': nat)
    requires Within(f, p, n) && p' <= p && p + n <= p' + n'
    ensures Within(f, p', n')
  {
  }

  /** Any error confined to 12 consecutive wire bits, anywhere in the frame, is rejected. */
  lemma ShortBurstRejected(s: seq<byte>, s': seq<byte>, p: nat)
    requires Decode(s).Some? && |s'| == |s| && Weight(Flips(s, s')) > 0
    requires Within(Flips(s, s'), p, 12)
    ensures Decode(s').None?
  {
    hide Flips, Word, CrcWord, Crc16, Within;
    AcceptedLength(s);
    var m := 8 * (|s| - 2);
    if p + 12 <= m {
      var p' := if p + 16 <= m then p else m - 16;
      Widen(Flips(s, s'), p, 12, p', 16);
      BurstBeforeCrcRejected(s, s', p');
    } else if p < m {
      StraddleRejected(s, s', m - p, 12);
    } else {
      InCrc(Flips(s, s'), p, 12);
      CrcOnlyErrorRejected(s, s');
    }
  }

  lemma InCrc(f: Bits, p: nat, n: nat)
    requires |f| >= 64 && Within(f, p, n) && p >= |f| - 16
    ensures Within(f, |f| - 16, 16)
  {
  }

  // ----- Bursts that are not -----

  /** The frame with its last two bytes under the CRC, and its CRC, XORed with a pattern. */
  function Corrupt(s: seq<byte>, a: byte, b: byte, lo: byte, hi: byte): (s': seq<byte>)
    requires |s| >= 8
    ensures |s'| == |s|
  {
    var n := |s|;
    s[..n - 4] + [s[n - 4] ^ a, s[n - 3] ^ b, s[n - 2] ^ lo, s[n - 1] ^ hi]
  }

  function Tail(a: byte, b: byte, lo: byte, hi: byte): (t: Bits)
    ensures |t| == 32
  {
    Bits8(a) + Bits8(b) + Bits8(lo) + Bits8(hi)
  }

  lemma XorTwice(x: byte, a: byte)
    ensures x ^ (x ^ a) == a
  {
  }

  lemma {:induction false} BitsOfZeroBytes(z: seq<byte>)
    requires forall i :: 0 <= i < |z| ==> z[i] == 0
    ensures BitsOf(z) == Zeros(8 * |z|)
    decreases |z|
  {
    if |z| > 0 {
      assert Bits8(0) == Zeros(8);
      BitsOfZeroBytes(z[1..]);
      assert Zeros(8) + Zeros(8 * (|z| - 1)) == Zeros(8 * |z|);
    }
  }

  lemma XorSelfByte(x: byte)
    ensures x ^ x == 0
  {
  }

  lemma XorOfPrefix(s: seq<byte>, s': seq<byte>, m: nat)
    requires |s| == |s'| && m <= |s| && s'[..m] == s[..m]
    ensures forall i :: 0 <= i < m ==> XorBytes(s, s')[i] == 0
  {
    forall i | 0 <= i < m ensures XorBytes(s, s')[i] == 0 {
      XorSelfByte(s[i]);
      assert s'[i] == s'[..m][i] == s[..m][i];
    }
  }

  lemma LastFour(x: seq<byte>)
    requires |x| >= 4
    ensures x[|x| - 4..] == [x[|x| - 4], x[|x| - 3], x[|x| - 2], x[|x| - 1]]
  {
  }

  lemma CorruptBytes(s: seq<byte>, a: byte, b: byte, lo: byte, hi: byte)
    requires |s| >= 8
    ensures var s' := Corrupt(s, a, b, lo, hi); var n := |s|;
      && s'[..n - 4] == s[..n - 4]
      && s'[n - 4] == s[n - 4] ^ a && s'[n - 3] == s[n - 3] ^ b
      && s'[n - 2] == s[n - 2] ^ lo && s'[n - 1] == s[n - 1] ^ hi
  {
  }

  lemma XorOfCorrupt(s: seq<byte>, a: byte, b: byte, lo: byte, hi: byte)
    requires |s| >= 8
    ensures XorBytes(s, Corrupt(s, a, b, lo, hi))[|s| - 4..] == [a, b, lo, hi]
  {
    hide Corrupt;
    var n := |s|;
    CorruptBytes(s, a, b, lo, hi);
    XorTwice(s[n - 4], a);
    XorTwice(s[n - 3], b);
    XorTwice(s[n - 2], lo);
    XorTwice(s[n - 1], hi);
    LastFour(XorBytes(s, Corrupt(s, a, b, lo, hi)));
  }

  lemma FlipsOfCorrupt(s: seq<byte>, a: byte, b: byte, lo: byte, hi: byte)
    requires |s| >= 8
    ensures Flips(s, Corrupt(s, a, b, lo, hi)) == Zeros(8 * (|s| - 4)) + Tail(a, b, lo, hi)
  {
    hide Bits8, Corrupt;
    var n := |s|;
    var x := XorBytes(s, Corrupt(s, a, b, lo, hi));
    XorOfCorrupt(s, a, b, lo, hi);
    CorruptBytes(s, a, b, lo, hi);
    XorOfPrefix(s, Corrupt(s, a, b, lo, hi), n - 4);
    assert x == x[..n - 4] + [a, b, lo, hi];
    BitsOfConcat(x[..n - 4], [a, b, lo, hi]);
    BitsOfZeroBytes(x[..n - 4]);
    BitsOfFour(a, b, lo, hi);
  }

  lemma BitsOfFour(a: byte, b: byte, lo: byte, hi: byte)
    ensures BitsOf([a, b, lo, hi]) == Tail(a, b, lo, hi)
  {
    hide Bits8;
    assert [a, b, lo, hi] == [a] + ([b] + ([lo] + [hi]));
    BitsOfConcat([a], [b] + ([lo] + [hi]));
    BitsOfConcat([b], [lo] + [hi]);
    BitsOfConcat([lo], [hi]);
    BitsOfOne(a);
    BitsOfOne(b);
    BitsOfOne(lo);
    BitsOfOne(hi);
  }

  /** A pattern whose CRC part is the CRC of its message part is invisible in every frame. */
  lemma InvisiblePattern(s: seq<byte>, a: byte, b: byte, lo: byte, hi: byte)
    requires Decode(s).Some? && Crc16([a, b]) == CrcWord(lo, hi)
    ensures Decode(Corrupt(s, a, b, lo, hi)).Some?
  {
    hide Bits8, Word, CrcWord, Crc16, Flips, MessageFlips, CheckFlips, Tail;
    AcceptedLength(s);
    var s' := Corrupt(s, a, b, lo, hi);
    FlipsOfCorrupt(s, a, b, lo, hi);
    TailByField(|s|, a, b, lo, hi);
    var z := 8 * (|s| - 5);
    FeedBitsConcat(ZERO, Zeros(z), Bits8(a) + Bits8(b));
    ZerosStayZero(z);
    CrcOfTwo(a, b, lo, hi);
    assert s'[..3] == s[..3];
    CorruptedFrame(s, s');
  }

  lemma CrcOfTwo(a: byte, b: byte, lo: byte, hi: byte)
    requires Crc16([a, b]) == CrcWord(lo, hi)
    ensures FeedBits(ZERO, Bits8(a) + Bits8(b)) == Bits8(hi) + Bits8(lo)
  {
    hide Bits8, CrcWord, Crc16;
    CrcIsRemainder([a, b]);
    Bits16OfCrcWord(lo, hi);
    assert [a, b] == [a] + [b];
    BitsOfConcat([a], [b]);
    BitsOfOne(a);
    BitsOfOne(b);
  }

  lemma TailByField(n: nat, a: byte, b: byte, lo: byte, hi: byte)
    requires n >= 8
    ensures var f := Zeros(8 * (n - 4)) + Tail(a, b, lo, hi);
      && MessageFlips(f) == Zeros(8 * (n - 5)) + (Bits8(a) + Bits8(b))
      && CheckFlips(f) == Bits8(hi) + Bits8(lo)
  {
    hide Bits8;
  }

  function StrideByte(r: bv16, b: byte): bv16 {
    Stride4(Stride4(r ^ ((b as bv16) << 8)))
  }

  lemma FeedByteIsStrideByte(r: bv16, b: byte)
    ensures FeedByte(r, b) == StrideByte(r, b)
  {
    hide Shift, Stride4;
    EightShifts(r ^ ((b as bv16) << 8));
  }

  lemma CrcOfPair(a: byte, b: byte)
    ensures Crc16([a, b]) == StrideByte(StrideByte(0, a), b)
  {
    hide FeedByte, StrideByte;
    FeedByteIsStrideByte(0, a);
    FeedByteIsStrideByte(FeedByte(0, a), b);
    assert [a, b][1..] == [b] && [b][1..] == [];
    assert FeedBytes(FeedByte(0, a), [b]) == FeedByte(FeedByte(0, a), b);
  }

  lemma EightShifts(r: bv16)
    ensures Shifts(r, 8) == Stride4(Stride4(r))
  {
    FourShifts(r, 4);
    FourShifts(Stride4(r), 0);
  }

  datatype Pattern = Pattern(a: byte, b: byte, lo: byte, hi: byte)

  /** An invisible pattern whose last `k` message bits and first `16 - k` CRC bits are a burst. */
  function Invisible(k: nat): Pattern
    requires 1 <= k <= 15 && k !in {7, 9, 11}
  {
    if k <= 4 then Pattern(0x00, 0x01, 0x21, 0x10)
    else if k == 5 then Pattern(0x00, 0x02, 0x42, 0x20)
    else if k == 6 then Pattern(0x00, 0x04, 0x84, 0x40)
    else if k == 8 then Pattern(0x00, 0x89, 0xA1, 0x00)
    else if k == 10 then Pattern(0x02, 0x35, 0x94, 0x00)
    else if k <= 14 then Pattern(0x08, 0xC5, 0x40, 0x00)
    else Pattern(0x11, 0x8A, 0x80, 0x00)
  }

  lemma InvisibleHasCrc(k: nat)
    requires 1 <= k <= 15 && k !in {7, 9, 11}
    ensures var p := Invisible(k); Crc16([p.a, p.b]) == CrcWord(p.lo, p.hi)
  {
    hide Crc16;
    var p := Invisible(k);
    CrcOfPair(p.a, p.b);
  }

  lemma InvisibleFitsWindow(k: nat)
    requires 1 <= k <= 15 && k !in {7, 9, 11}
    ensures var p := Invisible(k); Within(Tail(p.a, p.b, p.lo, p.hi), 16 - k, 16)
  {
    if k <= 8 {
      EarlyWindow(k);
    } else {
      LateWindow(k);
    }
  }

  lemma EarlyWindow(k: nat)
    requires 1 <= k <= 8 && k != 7
    ensures var p := Invisible(k); Within(Tail(p.a, p.b, p.lo, p.hi), 16 - k, 16)
  {
  }

  lemma LateWindow(k: nat)
    requires 8 < k <= 15 && k !in {9, 11}
    ensures var p := Invisible(k); Within(Tail(p.a, p.b, p.lo, p.hi), 16 - k, 16)
  {
  }

  /** Bytes that differ differ in some bit. */
  lemma DifferentMeansFlips(s: seq<byte>, s': seq<byte>)
    requires |s| == |s'| && s != s'
    ensures Weight(Flips(s, s')) > 0
  {
    hide Bits8;
    WeightZero(Flips(s, s'));
    if Flips(s, s') == Zeros(8 * |s|) {
      BitsOfXor(s, s');
      XorIsZero(BitsOf(s), BitsOf(s'));
      BitsOfInjective(s, s');
      assert false;
    }
  }

  lemma Bits8Injective(a: byte, b: byte)
    requires Bits8(a) == Bits8(b)
    ensures a == b
  {
  }

  lemma {:induction false} BitsOfInjective(s: seq<byte>, s': seq<byte>)
    requires |s| == |s'| && BitsOf(s) == BitsOf(s')
    ensures s == s'
    decreases |s|
  {
    hide Bits8;
    if |s| > 0 {
      assert BitsOf(s)[..8] == Bits8(s[0]) && BitsOf(s')[..8] == Bits8(s'[0]);
      assert BitsOf(s)[8..] == BitsOf(s[1..]) && BitsOf(s')[8..] == BitsOf(s'[1..]);
      Bits8Injective(s[0], s'[0]);
      BitsOfInjective(s[1..], s'[1..]);
      assert s == [s[0]] + s[1..] && s' == [s'[0]] + s'[1..];
    }
  }

  // ----- The promise, exactly -----

  /** Every error confined to the 16 wire bits from bit `p` on is rejected. */
  ghost predicate WindowSafe(s: seq<byte>, p: nat) {
    forall s' :: |s'| == |s| && s' != s && Within(Flips(s, s'), p, 16) ==> Decode(s').None?
  }

  lemma UnsafeWindow(s: seq<byte>, k: nat)
    requires Decode(s).Some? && 1 <= k <= 15 && k !in {7, 9, 11}
    ensures |s| >= 8 && !WindowSafe(s, 8 * (|s| - 2) - k)
  {
    hide Flips, Bits8, Corrupt, Tail, Invisible, Word, CrcWord, Crc16;
    AcceptedLength(s);
    var p := Invisible(k);
    var s' := Corrupt(s, p.a, p.b, p.lo, p.hi);
    var t := Tail(p.a, p.b, p.lo, p.hi);
    InvisibleHasCrc(k);
    InvisiblePattern(s, p.a, p.b, p.lo, p.hi);
    FlipsOfCorrupt(s, p.a, p.b, p.lo, p.hi);
    InvisibleFitsWindow(k);
    ShiftWindow(t, 8 * (|s| - 4), 16 - k);
    InvisibleIsNotEmpty(k);
    CorruptDiffers(s, p.a, p.b, p.lo, p.hi);
    assert !(|s'| == |s| && s' != s && Within(Flips(s, s'), 8 * (|s| - 2) - k, 16) ==> Decode(s').None?);
  }

  lemma ShiftWindow(t: Bits, z: nat, p: nat)
    requires Within(t, p, 16)
    ensures Within(Zeros(z) + t, z + p, 16)
  {
  }

  lemma InvisibleIsNotEmpty(k: nat)
    requires 1 <= k <= 15 && k !in {7, 9, 11}
    ensures Invisible(k).lo != 0
  {
  }

  lemma CorruptDiffers(s: seq<byte>, a: byte, b: byte, lo: byte, hi: byte)
    requires |s| >= 8 && lo != 0
    ensures Corrupt(s, a, b, lo, hi) != s
  {
    hide Corrupt;
    var n := |s|;
    CorruptBytes(s, a, b, lo, hi);
    XorTwice(s[n - 2], lo);
    XorSelfByte(s[n - 2]);
  }

  /**
   * For every accepted frame and every 16-bit window of the wire: all errors in the window are
   * rejected exactly when the window does not straddle the start of the CRC, or has 7, 9 or 11 of
   * its bits before it.
   */
  lemma BurstPromise(s: seq<byte>, p: nat)
    requires Decode(s).Some? && p + 16 <= 8 * |s|
    ensures WindowSafe(s, p) <==>
      var k := 8 * (|s| - 2) - p; k <= 0 || k >= 16 || k in {7, 9, 11}
  {
    hide Flips, Word, CrcWord, Crc16, Within;
    AcceptedLength(s);
    var m := 8 * (|s| - 2);
    var k := m - p;
    if 1 <= k <= 15 && k !in {7, 9, 11} {
      UnsafeWindow(s, k);
    } else {
      forall s' | |s'| == |s| && s' != s && Within(Flips(s, s'), p, 16) ensures Decode(s').None? {
        SafeWindow(s, s', p);
      }
    }
  }

  lemma SafeWindow(s: seq<byte>, s': seq<byte>, p: nat)
    requires Decode(s).Some? && |s'| == |s| && s' != s && Within(Flips(s, s'), p, 16)
    requires var k := 8 * (|s| - 2) - p; k <= 0 || k >= 16 || k in {7, 9, 11}
    ensures Decode(s').None?
  {
    hide Flips, Word, CrcWord, Crc16, Within;
    AcceptedLength(s);
    DifferentMeansFlips(s, s');
    var m := 8 * (|s| - 2);
    if p >= m {
      InCrc(Flips(s, s'), p, 16);
      CrcOnlyErrorRejected(s, s');
    } else if p + 16 <= m {
      BurstBeforeCrcRejected(s, s', p);
    } else {
      StraddleRejected(s, s', m - p, 16);
    }
  }

  /**
   * Four flips, and a burst of 13 bits, are the first that can get through: in every accepted
   * frame the generator itself, laid over the last bit before the CRC, is invisible.
   */
  lemma GeneratorIsInvisible(s: seq<byte>) returns (s': seq<byte>)
    requires Decode(s).Some?
    ensures |s'| == |s| && s' != s && Decode(s').Some?
    ensures Weight(Flips(s, s')) == 4 && Within(Flips(s, s'), 8 * (|s| - 2) - 1, 13)
  {
    hide Flips, Corrupt, Tail, Word, CrcWord, Crc16;
    AcceptedLength(s);
    s' := Corrupt(s, 0x00, 0x01, 0x21, 0x10);
    InvisibleHasCrc(1);
    assert Invisible(1) == Pattern(0x00, 0x01, 0x21, 0x10);
    InvisiblePattern(s, 0x00, 0x01, 0x21, 0x10);
    CorruptDiffers(s, 0x00, 0x01, 0x21, 0x10);
    FlipsOfCorrupt(s, 0x00, 0x01, 0x21, 0x10);
    GeneratorTail(8 * (|s| - 4));
  }

  lemma GeneratorTail(z: nat)
    ensures var f := Zeros(z) + Tail(0x00, 0x01, 0x21, 0x10); Weight(f) == 4 && Within(f, z + 15, 13)
  {
    assert Bits8(0x00) == Zeros(8);
    assert Bits8(0x01) == [false, false, false, false, false, false, false, true];
    assert Bits8(0x21) == [false, false, true, false, false, false, false, true];
    assert Bits8(0x10) == [false, false, false, true, false, false, false, false];
    GeneratorWeight(z);
  }

  lemma GeneratorWeight(z: nat)
    ensures Weight(Zeros(z) + Tail(0x00, 0x01, 0x21, 0x10)) == 4
  {
    WeightZero(Zeros(z));
    WeightZero(Zeros(8));
    ByteWeights();
    WeightConcat(Zeros(z), Tail(0x00, 0x01, 0x21, 0x10));
    WeightConcat(Bits8(0x00) + Bits8(0x01) + Bits8(0x21), Bits8(0x10));
    WeightConcat(Bits8(0x00) + Bits8(0x01), Bits8(0x21));
    WeightConcat(Bits8(0x00), Bits8(0x01));
  }

  lemma ByteWeights()
    ensures Weight(Bits8(0x00)) == 0 && Weight(Bits8(0x01)) == 1
    ensures Weight(Bits8(0x21)) == 2 && Weight(Bits8(0x10)) == 1
  {
    assert Weight([false, false, false, false]) == 0;
    assert Weight([false, false, false, true]) == 1;
    assert Weight([false, false, true, false]) == 1;
    WeightConcat([false, false, false, false], [false, false, false, false]);
    WeightConcat([false, false, false, false], [false, false, false, true]);
    WeightConcat([false, false, true, false], [false, false, false, true]);
    WeightConcat([false, false, false, true], [false, false, false, false]);
    assert Bits8(0x00) == [false, false, false, false] + [false, false, false, false];
    assert Bits8(0x01) == [false, false, false, false] + [false, false, false, true];
    assert Bits8(0x21) == [false, false, true, false] + [false, false, false, true];
    assert Bits8(0x10) == [false, false, false, true] + [false, false, false, false];
  }
}
