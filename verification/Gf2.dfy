/**
 * Polynomials over GF(2) as bit sequences, highest degree first, and long division by the
 * generator x^16 + x^12 + x^5 + 1 of section 2 of ITU-T V.41.
 */
module Gf2 {

  type Bits = seq<bool>

  /** A remainder: the 16 coefficients of x^15 .. x^0. */
  type Reg = r: seq<bool> | |r| == 16 witness seq(16, _ => false)

  function Zeros(n: nat): (z: Bits)
    ensures |z| == n && forall i :: 0 <= i < n ==> !z[i]
  {
    seq(n, _ => false)
  }

  /** Addition of polynomials of equal length. */
  function Xor(a: Bits, b: Bits): (c: Bits)
    requires |a| == |b|
    ensures |c| == |a|
    ensures forall i :: 0 <= i < |a| ==> c[i] == (a[i] != b[i])
  {
    seq(|a|, i requires 0 <= i < |a| => a[i] != b[i])
  }

  /** The generator without its leading term: x^12 + x^5 + 1. */
  const TAIL: Reg := [false, false, false, true, false, false, false, false,
                      false, false, true, false, false, false, false, true]

  const GENERATOR: Bits := [true] + TAIL

  const ZERO: Reg := Zeros(16)

  // ----- Bit-serial division -----

  /** Bring one more message bit into the remainder. */
  function FeedBit(r: Reg, bit: bool): Reg {
    var t := r[1..] + [false];
    if r[0] != bit then Xor(t, TAIL) else t
  }

  function FeedBits(r: Reg, bits: Bits): Reg
    decreases |bits|
  {
    if |bits| == 0 then r else FeedBits(FeedBit(r, bits[0]), bits[1..])
  }

  lemma {:induction false} FeedBitsConcat(r: Reg, a: Bits, b: Bits)
    ensures FeedBits(r, a + b) == FeedBits(FeedBits(r, a), b)
    decreases |a|
  {
    if |a| == 0 {
      assert a + b == b;
    } else {
      assert (a + b)[1..] == a[1..] + b;
      FeedBitsConcat(FeedBit(r, a[0]), a[1..], b);
    }
  }

  lemma FeedBitXor(r: Reg, s: Reg, a: bool, b: bool)
    ensures FeedBit(Xor(r, s), a != b) == Xor(FeedBit(r, a), FeedBit(s, b))
  {
  }

  /** Division is linear: remainders of sums are sums of remainders. */
  lemma {:induction false} FeedBitsXor(r: Reg, s: Reg, a: Bits, b: Bits)
    requires |a| == |b|
    ensures FeedBits(Xor(r, s), Xor(a, b)) == Xor(FeedBits(r, a), FeedBits(s, b))
    decreases |a|
  {
    if |a| > 0 {
      FeedBitXor(r, s, a[0], b[0]);
      assert Xor(a, b)[1..] == Xor(a[1..], b[1..]);
      FeedBitsXor(FeedBit(r, a[0]), FeedBit(s, b[0]), a[1..], b[1..]);
    }
  }

  lemma {:induction false} ZerosStayZero(n: nat)
    ensures FeedBits(ZERO, Zeros(n)) == ZERO
    decreases n
  {
    if n > 0 {
      assert FeedBit(ZERO, false) == ZERO;
      assert Zeros(n)[1..] == Zeros(n - 1);
      ZerosStayZero(n - 1);
    }
  }

  lemma FeedFalseInjective(r: Reg)
    requires FeedBit(r, false) == ZERO
    ensures r == ZERO
  {
    var t := r[1..] + [false];
    assert FeedBit(r, false)[15] == r[0];
    forall i | 0 <= i < 16 ensures !r[i] {
      if i > 0 {
        assert t[i - 1] == r[i];
      }
    }
  }

  /** Multiplication by a power of x is injective modulo the generator. */
  lemma {:induction false} FeedZerosInjective(r: Reg, n: nat)
    requires FeedBits(r, Zeros(n)) == ZERO
    ensures r == ZERO
    decreases n
  {
    if n > 0 {
      assert Zeros(n)[1..] == Zeros(n - 1);
      FeedZerosInjective(FeedBit(r, false), n - 1);
      FeedFalseInjective(r);
    }
  }

  lemma XorSelf(a: Bits)
    ensures Xor(a, a) == Zeros(|a|)
  {
  }

  lemma XorZeros(a: Bits)
    ensures Xor(a, Zeros(|a|)) == a && Xor(Zeros(|a|), a) == a
  {
  }

  lemma XorIsZero(a: Bits, b: Bits)
    requires |a| == |b| && Xor(a, b) == Zeros(|a|)
    ensures a == b
  {
    forall i | 0 <= i < |a| ensures a[i] == b[i] {
      assert !Xor(a, b)[i];
    }
  }

  /** `d` moved to the top of an otherwise empty register. */
  function Padded(d: Bits): (x: Reg)
    requires |d| <= 16
    ensures forall i :: 0 <= i < |d| ==> x[i] == d[i]
  {
    d + Zeros(16 - |d|)
  }

  lemma AddThenShiftOnce(r: Reg, d: Bits)
    requires 0 < |d| <= 16
    ensures FeedBit(Xor(r, Padded(d)), false) == Xor(FeedBit(r, d[0]), Padded(d[1..]))
  {
    var pad := Padded(d);
    var pad' := Padded(d[1..]);
    assert pad' == pad[1..] + [false];
    assert Xor(r, pad)[1..] + [false] == Xor(r[1..] + [false], pad');
  }

  /**
   * Feeding at most 16 bits one at a time is the same as adding them to the top of the register
   * first and then shifting: the two readings of the message bits in the CRC loop.
   */
  lemma {:induction false} AddThenShift(r: Reg, d: Bits)
    requires |d| <= 16
    ensures FeedBits(Xor(r, Padded(d)), Zeros(|d|)) == FeedBits(r, d)
    decreases |d|
  {
    if |d| == 0 {
      assert Xor(r, Padded(d)) == r;
    } else {
      AddThenShiftOnce(r, d);
      assert Zeros(|d|)[1..] == Zeros(|d| - 1);
      AddThenShift(FeedBit(r, d[0]), d[1..]);
    }
  }

  lemma PaddedWordIsZero(d: Bits)
    requires |d| <= 16 && FeedBits(ZERO, d) == ZERO
    ensures Padded(d) == ZERO
  {
    AddThenShift(ZERO, d);
    XorZeros(Padded(d));
    FeedZerosInjective(Padded(d), |d|);
  }

  /** At most 16 bits that leave a zero remainder are all zero. */
  lemma ShortWordsAreDetected(d: Bits)
    requires |d| <= 16 && FeedBits(ZERO, d) == ZERO
    ensures d == Zeros(|d|)
  {
    PaddedWordIsZero(d);
    forall i | 0 <= i < |d| ensures !d[i] {
      assert Padded(d)[i] == d[i];
    }
  }

  /** Appending a 16-bit word gives remainder zero exactly when the word is the remainder so far. */
  lemma AppendRemainder(r: Reg, c: Reg)
    ensures FeedBits(r, c) == ZERO <==> c == r
  {
    AddThenShift(r, c);
    assert Padded(c) == c;
    if c == r {
      XorSelf(r);
      ZerosStayZero(16);
    }
    if FeedBits(r, c) == ZERO {
      FeedZerosInjective(Xor(r, c), 16);
      XorIsZero(r, c);
    }
  }

  // ----- Multiples of the generator -----

  /** The multiple of the generator that cancels the leading bit of a word of `n + 16` bits. */
  function Head(lead: bool, n: nat): (h: Bits)
    requires n > 0
    ensures |h| == n + 16
  {
    if lead then GENERATOR + Zeros(n - 1) else Zeros(n + 16)
  }

  /** The product of the polynomial `q` with the generator, by schoolbook multiplication. */
  function Times(q: Bits): (w: Bits)
    ensures |w| == |q| + 16
    decreases |q|
  {
    if |q| == 0 then
      Zeros(16)
    else
      Xor(Head(q[0], |q|), [false] + Times(q[1..]))
  }

  ghost predicate IsMultiple(w: Bits) {
    exists q: Bits :: |q| + 16 == |w| && Times(q) == w
  }

  lemma GeneratorLeavesZero(n: nat)
    ensures FeedBits(ZERO, GENERATOR + Zeros(n)) == ZERO
  {
    assert FeedBit(ZERO, true) == TAIL;
    assert GENERATOR[1..] == TAIL;
    AppendRemainder(TAIL, TAIL);
    FeedBitsConcat(ZERO, GENERATOR, Zeros(n));
    ZerosStayZero(n);
  }

  lemma FalseKeepsZero(w: Bits)
    ensures FeedBits(ZERO, [false] + w) == FeedBits(ZERO, w)
  {
    assert FeedBit(ZERO, false) == ZERO;
    assert ([false] + w)[1..] == w;
  }

  lemma {:induction false} MultiplesLeaveZero(q: Bits)
    ensures FeedBits(ZERO, Times(q)) == ZERO
    decreases |q|
  {
    if |q| == 0 {
      ZerosStayZero(16);
    } else {
      MultiplesLeaveZero(q[1..]);
      FalseKeepsZero(Times(q[1..]));
      HeadLeavesZero(q[0], |q|);
      XorSelf(ZERO);
      FeedBitsXor(ZERO, ZERO, Head(q[0], |q|), [false] + Times(q[1..]));
    }
  }

  lemma HeadLeavesZero(lead: bool, n: nat)
    requires n > 0
    ensures FeedBits(ZERO, Head(lead, n)) == ZERO
  {
    GeneratorLeavesZero(n - 1);
    ZerosStayZero(n + 16);
  }

  /** One step of long division, from the leading bit. */
  lemma CancelLead(w: Bits) returns (rest: Bits)
    requires |w| > 16 && FeedBits(ZERO, w) == ZERO
    ensures |rest| == |w| - 1 && FeedBits(ZERO, rest) == ZERO
    ensures Xor(Head(w[0], |w| - 16), [false] + rest) == w
  {
    var head := Head(w[0], |w| - 16);
    var sum := Xor(head, w);
    HeadLeavesZero(w[0], |w| - 16);
    FeedBitsXor(ZERO, ZERO, head, w);
    XorSelf(ZERO);
    rest := sum[1..];
    assert sum == [false] + rest;
    FalseKeepsZero(rest);
    assert Xor(head, sum) == w;
  }

  /** Long division: a word with zero remainder has a quotient. */
  lemma {:induction false} ZeroHasQuotient(w: Bits) returns (q: Bits)
    requires |w| >= 16 && FeedBits(ZERO, w) == ZERO
    ensures |q| + 16 == |w| && Times(q) == w
    decreases |w|
  {
    if |w| == 16 {
      q := [];
      ShortWordsAreDetected(w);
    } else {
      var rest := CancelLead(w);
      var q' := ZeroHasQuotient(rest);
      q := [w[0]] + q';
      assert q[1..] == q';
    }
  }

  /**
   * The independent meaning of the register: `data` followed by 16 check bits is a multiple of
   * the generator exactly when the check bits are the register after feeding `data`.
   */
  lemma RemainderCharacterised(data: Bits, check: Reg)
    ensures IsMultiple(data + check) <==> check == FeedBits(ZERO, data)
  {
    FeedBitsConcat(ZERO, data, check);
    AppendRemainder(FeedBits(ZERO, data), check);
    if check == FeedBits(ZERO, data) {
      var q := ZeroHasQuotient(data + check);
    }
    if IsMultiple(data + check) {
      var q: Bits :| |q| + 16 == |data + check| && Times(q) == data + check;
      MultiplesLeaveZero(q);
    }
  }

  predicate At(q: Bits, j: int) {
    0 <= j < |q| && q[j]
  }

  lemma AtTail(q: Bits, j: int)
    requires |q| > 0
    ensures At(q, j) == if j == 0 then q[0] else At(q[1..], j - 1)
  {
  }

  function Coefficient(q: Bits, i: nat): bool {
    (At(q, i) != At(q, i - 4)) != (At(q, i - 11) != At(q, i - 16))
  }

  lemma CoefficientStep(q: Bits, i: nat)
    requires |q| > 0
    ensures Coefficient(q, i)
         == ((q[0] && (i == 0 || i == 4 || i == 11 || i == 16)) != (i > 0 && Coefficient(q[1..], i - 1)))
  {
    AtTail(q, i);
    AtTail(q, i - 4);
    AtTail(q, i - 11);
    AtTail(q, i - 16);
  }

  /** Each coefficient of a multiple is the sum of the four quotient bits the generator selects. */
  lemma {:induction false} TimesCoefficient(q: Bits, i: nat)
    requires i < |q| + 16
    ensures Times(q)[i] == Coefficient(q, i)
    decreases |q|
  {
    hide Coefficient, Head;
    if |q| == 0 {
      NoQuotientBits(q, i);
    } else {
      HeadCoefficient(q[0], |q|, i);
      CoefficientStep(q, i);
      assert Times(q)[i] == (Head(q[0], |q|)[i] != ([false] + Times(q[1..]))[i]);
      if i > 0 {
        TimesCoefficient(q[1..], i - 1);
      }
    }
  }

  lemma NoQuotientBits(q: Bits, i: nat)
    requires |q| == 0
    ensures !Coefficient(q, i)
  {
  }

  lemma HeadCoefficient(lead: bool, n: nat, i: nat)
    requires n > 0 && i < n + 16
    ensures Head(lead, n)[i] == (lead && (i == 0 || i == 4 || i == 11 || i == 16))
  {
  }
}
