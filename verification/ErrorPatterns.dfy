/**
 * Which error patterns the remainder cannot see. A pattern is the XOR of what was sent and what
 * arrived: `e` over the message bits and `c` over the 16 check bits, in register order. It goes
 * unnoticed exactly when the remainder of `e` is `c`.
 */
module ErrorPatterns {
  import opened Bytes
  import opened Gf2
  import opened Crc
  import opened Order

  ghost predicate Unnoticed(e: Bits, c: Reg) {
    FeedBits(ZERO, e) == c
  }

  function Weight(b: Bits): nat {
    if |b| == 0 then 0 else (if b[0] then 1 else 0) + Weight(b[1..])
  }

  lemma {:induction false} WeightConcat(a: Bits, b: Bits)
    ensures Weight(a + b) == Weight(a) + Weight(b)
    decreases |a|
  {
    if |a| == 0 {
      assert a + b == b;
    } else {
      assert (a + b)[1..] == a[1..] + b;
      WeightConcat(a[1..], b);
    }
  }

  lemma {:induction false} WeightZero(b: Bits)
    ensures Weight(b) == 0 <==> b == Zeros(|b|)
    decreases |b|
  {
    if |b| > 0 {
      WeightZero(b[1..]);
      assert Zeros(|b|)[1..] == Zeros(|b| - 1);
      assert b == [b[0]] + b[1..];
    }
  }

  // ----- Parity: the generator has the factor x + 1 -----

  lemma {:induction false} WeightOfXor(a: Bits, b: Bits)
    requires |a| == |b|
    ensures Weight(Xor(a, b)) % 2 == (Weight(a) + Weight(b)) % 2
    decreases |a|
  {
    if |a| > 0 {
      assert Xor(a, b)[1..] == Xor(a[1..], b[1..]);
      WeightOfXor(a[1..], b[1..]);
    }
  }

  lemma WeightOfTail()
    ensures Weight(TAIL) == 3
  {
    assert TAIL == [false, false, false, true] + ([false, false, false, false, false, false, true] + [false, false, false, false, true]);
    assert Weight([false, false, false, true]) == 1;
    assert Weight([false, false, false, false, false, false, true]) == 1;
    assert Weight([false, false, false, false, true]) == 1;
    WeightConcat([false, false, false, false, false, false, true], [false, false, false, false, true]);
    WeightConcat([false, false, false, true], [false, false, false, false, false, false, true] + [false, false, false, false, true]);
  }

  lemma RotateParity(r: Reg)
    ensures Weight(r[1..] + [false]) + (if r[0] then 1 else 0) == Weight(r)
  {
    WeightConcat(r[1..], [false]);
  }

  lemma AddOddParity(t: Bits, odd: Bits)
    requires |t| == |odd| && Weight(odd) == 3
    ensures Weight(Xor(t, odd)) % 2 == (Weight(t) + 1) % 2
  {
    hide Weight, Xor;
    WeightOfXor(t, odd);
    var sum, w := Weight(Xor(t, odd)), Weight(t);
    assert sum % 2 == (w + 3) % 2;
  }

  lemma AddTailParity(t: Reg)
    ensures Weight(Xor(t, TAIL)) % 2 == (Weight(t) + 1) % 2
  {
    WeightOfTail();
    AddOddParity(t, TAIL);
  }

  lemma FeedBitParity(r: Reg, bit: bool)
    ensures Weight(FeedBit(r, bit)) % 2 == (Weight(r) + (if bit then 1 else 0)) % 2
  {
    hide Weight, Xor;
    RotateParity(r);
    AddTailParity(r[1..] + [false]);
  }

  /** The remainder has the parity of the message. */
  lemma {:induction false} FeedBitsParity(r: Reg, bits: Bits)
    ensures Weight(FeedBits(r, bits)) % 2 == (Weight(r) + Weight(bits)) % 2
    decreases |bits|
  {
    if |bits| > 0 {
      FeedBitParity(r, bits[0]);
      FeedBitsParity(FeedBit(r, bits[0]), bits[1..]);
    }
  }

  lemma OddErrorsAreNoticed(e: Bits, c: Reg)
    requires (Weight(e) + Weight(c)) % 2 == 1
    ensures !Unnoticed(e, c)
  {
    hide FeedBits, Weight;
    FeedBitsParity(ZERO, e);
    ZeroWeighsNothing();
  }

  lemma ZeroWeighsNothing()
    ensures Weight(ZERO) == 0
  {
    WeightZero(ZERO);
  }

  // ----- Two flips: the order of x exceeds the frame length -----

  /** The remainder x^16 does not come back to itself within a frame. */
  lemma NoPeriod(k: nat)
    requires 1 <= k <= 1088
    ensures FeedBits(TAIL, Zeros(k)) != TAIL
  {
    if FeedBits(TAIL, Zeros(k)) == TAIL {
      Bits16OfPoly();
      ShiftsAreFeedZeros(0x1021, k);
      Bits16Injective(Shifts(0x1021, k), 0x1021);
      PeriodOfOne(k);
      OrderExceedsFrame();
      assert false;
    }
  }

  lemma PeriodOfOne(k: nat)
    requires Shifts(0x1021, k) == 0x1021
    ensures Shifts(1, k) == 1
  {
    StrideIsSixteenShifts(1);
    assert Stride(1) == 0x1021;
    ShiftsCompose(1, 16, k);
    ShiftsCompose(1, k, 16);
    ShiftsInjective(Shifts(1, k), 1, 16);
  }

  lemma ShiftsInjective(r: bv16, s: bv16, n: nat)
    requires Shifts(r, n) == Shifts(s, n)
    ensures r == s
  {
    ShiftsAreFeedZeros(r, n);
    ShiftsAreFeedZeros(s, n);
    SameAfterZeros(Bits16(r), Bits16(s), n);
    Bits16Injective(r, s);
  }

  lemma MixCancels(r: bv16, s: bv16, b: byte)
    requires Mix(r, b) == Mix(s, b)
    ensures r == s
  {
  }

  /** Each byte step of the loop is injective, hence a bijection of the register. */
  lemma FeedByteInjective(r: bv16, s: bv16, b: byte)
    requires FeedByte(r, b) == FeedByte(s, b)
    ensures r == s
  {
    hide Mix, Shifts;
    ShiftsInjective(Mix(r, b), Mix(s, b), 8);
    MixCancels(r, s, b);
  }

  lemma FeedZerosConcat(r: Reg, m: nat, n: nat)
    ensures FeedBits(FeedBits(r, Zeros(m)), Zeros(n)) == FeedBits(r, Zeros(m + n))
  {
    FeedBitsConcat(r, Zeros(m), Zeros(n));
    assert Zeros(m) + Zeros(n) == Zeros(m + n);
  }

  /** One flipped message bit leaves a power of x, of degree at least 16. */
  lemma {:induction false} OneFlip(e: Bits) returns (m: nat)
    requires Weight(e) == 1
    ensures m < |e| && FeedBits(ZERO, e) == FeedBits(TAIL, Zeros(m))
    decreases |e|
  {
    if e[0] {
      m := |e| - 1;
      WeightZero(e[1..]);
      assert FeedBit(ZERO, true) == TAIL;
    } else {
      m := OneFlip(e[1..]);
      assert FeedBit(ZERO, false) == ZERO;
    }
  }

  lemma {:induction false} TwoFlips(e: Bits)
    requires Weight(e) == 2 && |e| <= 1072
    ensures FeedBits(ZERO, e) != ZERO
    decreases |e|
  {
    if e[0] {
      var n := |e| - 1;
      var m := OneFlip(e[1..]);
      FirstOfTwoFlips(e, m);
    } else {
      assert FeedBit(ZERO, false) == ZERO;
      TwoFlips(e[1..]);
    }
  }

  lemma LeadingFlip(e: Bits)
    requires |e| > 0 && e[0]
    ensures FeedBits(ZERO, e) == Xor(FeedBits(TAIL, Zeros(|e| - 1)), FeedBits(ZERO, e[1..]))
  {
    assert FeedBit(ZERO, true) == TAIL;
    FeedBitsXor(TAIL, ZERO, Zeros(|e| - 1), e[1..]);
    XorZeros(TAIL);
    XorZeros(e[1..]);
  }

  lemma FirstOfTwoFlips(e: Bits, m: nat)
    requires 0 < |e| <= 1072 && e[0] && m < |e| - 1
    requires FeedBits(ZERO, e[1..]) == FeedBits(TAIL, Zeros(m))
    ensures FeedBits(ZERO, e) != ZERO
  {
    hide FeedBits, Xor, Zeros;
    var n := |e| - 1;
    var far, near := FeedBits(TAIL, Zeros(n)), FeedBits(TAIL, Zeros(m));
    LeadingFlip(e);
    if far == near {
      FeedZerosConcat(TAIL, n - m, m);
      SameAfterZeros(FeedBits(TAIL, Zeros(n - m)), TAIL, m);
      NoPeriod(n - m);
      assert false;
    }
    if Xor(far, near) == ZERO {
      XorIsZero(far, near);
    }
  }

  lemma SameAfterZeros(r: Reg, s: Reg, n: nat)
    requires FeedBits(r, Zeros(n)) == FeedBits(s, Zeros(n))
    ensures r == s
  {
    FeedBitsXor(r, s, Zeros(n), Zeros(n));
    XorSelf(Zeros(n));
    XorSelf(FeedBits(r, Zeros(n)));
    FeedZerosInjective(Xor(r, s), n);
    XorIsZero(r, s);
  }

  lemma {:induction false} OnlyBit(b: Bits) returns (i: nat)
    requires Weight(b) == 1
    ensures i < |b| && b[i] && forall k :: 0 <= k < |b| && k != i ==> !b[k]
    decreases |b|
  {
    if b[0] {
      i := 0;
      WeightZero(b[1..]);
      assert forall k :: 0 < k < |b| ==> b[k] == b[1..][k - 1];
    } else {
      i := OnlyBit(b[1..]);
      assert forall k :: 0 < k < |b| ==> b[k] == b[1..][k - 1];
      i := i + 1;
    }
  }

  lemma LeadingCheckBit(c: Reg)
    requires c[0] && forall k :: 1 <= k < 16 ==> !c[k]
    ensures FeedBits(c, Zeros(1)) == TAIL
  {
    var t := c[1..] + [false];
    assert t == ZERO;
    XorZeros(TAIL);
    assert FeedBit(c, false) == TAIL;
    assert Zeros(1)[1..] == Zeros(0);
  }

  lemma FeedFalse(c: Reg, j: nat)
    requires !c[0]
    ensures FeedBits(c, Zeros(j + 1)) == FeedBits(c[1..] + [false], Zeros(j))
  {
    assert Zeros(j + 1)[1..] == Zeros(j);
  }

  /** A single check bit, shifted out of the top, becomes x^16. */
  lemma {:induction false} OneCheckBit(c: Reg, i: nat)
    requires i < 16 && c[i] && forall k :: 0 <= k < 16 && k != i ==> !c[k]
    ensures FeedBits(c, Zeros(i + 1)) == TAIL
    decreases i
  {
    if i == 0 {
      LeadingCheckBit(c);
    } else {
      OneCheckBit(c[1..] + [false], i - 1);
      FeedFalse(c, i);
    }
  }

  lemma OneFlipIsNoCheckBit(m: nat, c: Reg, i: nat)
    requires m < 1072 && i < 16 && FeedBits(c, Zeros(i + 1)) == TAIL
    ensures FeedBits(TAIL, Zeros(m)) != c
  {
    FeedZerosConcat(TAIL, m, i + 1);
    NoPeriod(m + i + 1);
  }

  lemma OneFlipOneCheckBit(e: Bits, c: Reg)
    requires Weight(e) == 1 && Weight(c) == 1 && |e| <= 1072
    ensures !Unnoticed(e, c)
  {
    var m := OneFlip(e);
    var i := OnlyBit(c);
    OneCheckBit(c, i);
    OneFlipIsNoCheckBit(m, c, i);
  }

  lemma TwoErrorsAreNoticed(e: Bits, c: Reg)
    requires |e| <= 1072 && Weight(e) + Weight(c) == 2
    ensures !Unnoticed(e, c)
  {
    if Weight(e) == 1 {
      OneFlipOneCheckBit(e, c);
    } else {
      WeightZero(c);
      if Weight(e) == 2 {
        TwoFlips(e);
      } else {
        WeightZero(e);
        ZerosStayZero(|e|);
      }
    }
  }

  /** At most three flipped bits, wherever they fall, are noticed in any frame-sized message. */
  lemma FewErrorsAreNoticed(e: Bits, c: Reg)
    requires |e| <= 1072 && 1 <= Weight(e) + Weight(c) <= 3
    ensures !Unnoticed(e, c)
  {
    if Weight(e) + Weight(c) == 2 {
      TwoErrorsAreNoticed(e, c);
    } else {
      OddErrorsAreNoticed(e, c);
    }
  }

  // ----- Bursts inside the message -----

  /** Every flipped bit lies in the `n` positions from `p` on. */
  predicate Within(b: Bits, p: nat, n: nat) {
    forall i :: 0 <= i < |b| && b[i] ==> p <= i < p + n
  }

  lemma SplitBurst(e: Bits, p: nat, n: nat)
    requires p + n <= |e| && Within(e, p, n)
    ensures e == Zeros(p) + (e[p..p + n] + Zeros(|e| - (p + n)))
  {
    assert e[..p] == Zeros(p);
    assert e[p + n..] == Zeros(|e| - (p + n));
    assert e == e[..p] + (e[p..p + n] + e[p + n..]);
  }

  lemma BurstRemainder(p: nat, w: Bits, k: nat)
    ensures FeedBits(ZERO, Zeros(p) + (w + Zeros(k))) == FeedBits(FeedBits(ZERO, w), Zeros(k))
  {
    FeedBitsConcat(ZERO, Zeros(p), w + Zeros(k));
    ZerosStayZero(p);
    FeedBitsConcat(ZERO, w, Zeros(k));
  }

  /** A non-empty burst of at most 16 consecutive message bits leaves a non-zero remainder. */
  lemma BurstLeavesRemainder(e: Bits, p: nat, n: nat)
    requires n <= 16 && p + n <= |e| && Within(e, p, n) && Weight(e) > 0
    ensures FeedBits(ZERO, e) != ZERO
  {
    var w := e[p..p + n];
    var k := |e| - (p + n);
    SplitBurst(e, p, n);
    BurstRemainder(p, w, k);
    WeightZero(w);
    if FeedBits(ZERO, e) == ZERO {
      FeedZerosInjective(FeedBits(ZERO, w), k);
      ShortWordsAreDetected(w);
      assert e == Zeros(|e|);
      WeightZero(e);
    }
  }
}
