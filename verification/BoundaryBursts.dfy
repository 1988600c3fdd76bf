/**
 * Bursts across the boundary between the bytes under the CRC and the CRC itself. Because the CRC
 * travels low byte first, such a burst is not a burst of the codeword, and the promise "any burst
 * of at most 16 bits" (main/protocol.c:6-10) has to be corrected there.
 */
module BoundaryBursts {
  import opened Bytes
  import opened Gf2
  import opened Crc
  import opened ErrorPatterns
  import opened Protocol
  import opened WireBits
  import opened FrameErrors

  /** Position on the wire of check bit `j`, counted from the first CRC bit. */
  function WirePosition(j: nat): nat
    requires j < 16
  {
    if j < 8 then 8 + j else j - 8
  }

  /** Only the first `r` CRC bits on the wire are flipped. */
  predicate Confined(c: Reg, r: int) {
    forall j :: 0 <= j < 16 && c[j] ==> WirePosition(j) < r
  }

  /** The quotient `q` has no coefficient at the check bits that lie beyond `r` on the wire. */
  predicate Gap(q: Bits, r: int) {
    forall j :: 0 <= j < 16 && WirePosition(j) >= r ==> !Coefficient(q, |q| + j)
  }

  /** An invisible pattern over the last `k` message bits and the CRC is a multiple of the generator. */
  lemma StraddleQuotient(e: Bits, c: Reg, k: nat) returns (q: Bits)
    requires k <= |e| && Within(e, |e| - k, k) && Unnoticed(e, c)
    ensures |q| == k && Times(q) == e[|e| - k..] + c
  {
    var z := |e| - k;
    var u := e[z..];
    assert e == Zeros(z) + u;
    FeedBitsConcat(ZERO, Zeros(z), u);
    ZerosStayZero(z);
    FeedBitsConcat(ZERO, u, c);
    AppendRemainder(FeedBits(ZERO, u), c);
    q := ZeroHasQuotient(u + c);
  }

  lemma ConfinedGivesGap(q: Bits, u: Bits, c: Reg, r: int)
    requires |q| == |u| && Times(q) == u + c && Confined(c, r)
    ensures Gap(q, r)
  {
    forall j | 0 <= j < 16 && WirePosition(j) >= r ensures !Coefficient(q, |q| + j) {
      TimesCoefficient(q, |q| + j);
      assert Times(q)[|q| + j] == c[j];
    }
  }

  lemma TimesZeros(q: Bits)
    requires q == Zeros(|q|)
    ensures Times(q) == Zeros(|q| + 16)
  {
    hide Times;
    forall i | 0 <= i < |q| + 16 ensures !Times(q)[i] {
      TimesCoefficient(q, i);
      assert !At(q, i) && !At(q, i - 4) && !At(q, i - 11) && !At(q, i - 16);
    }
  }

  lemma SplitZeros(u: Bits, c: Reg)
    requires u + c == Zeros(|u| + 16)
    ensures u == Zeros(|u|) && c == ZERO
  {
    assert u == (u + c)[..|u|];
    assert c == (u + c)[|u|..];
  }

  lemma ZeroQuotient(q: Bits, u: Bits, c: Reg)
    requires q == Zeros(|q|) && |q| == |u| && Times(q) == u + c
    ensures u == Zeros(|u|) && c == ZERO
  {
    TimesZeros(q);
    SplitZeros(u, c);
  }

  // ----- Bursts of at most 12 bits -----

  /** The low zeros of a short burst clear the quotient bits from index 4 on. */
  lemma {:induction false} UpperQuotient(q: Bits, m: nat)
    requires 5 <= |q| <= 11 && Gap(q, 12 - |q|) && 4 <= m
    ensures !At(q, m)
    decreases 16 - m
  {
    if m < |q| {
      var j := 16 + m - |q|;
      assert WirePosition(j) >= 12 - |q|;
      assert !Coefficient(q, |q| + j);
      UpperQuotient(q, m + 5);
    }
  }

  lemma ShortBurstQuotient(q: Bits, m: nat)
    requires 1 <= |q| <= 11 && Gap(q, 12 - |q|) && m < |q|
    ensures !q[m]
  {
    var k := |q|;
    if k >= 5 {
      if m >= 4 {
        UpperQuotient(q, m);
      } else if m < k - 3 {
        var j := m + 11 - k;
        assert WirePosition(j) >= 12 - k;
        assert !Coefficient(q, k + j);
        UpperQuotient(q, m + 7);
      } else {
        var j := m + 4 - k;
        assert WirePosition(j) >= 12 - k;
        assert !Coefficient(q, k + j);
      }
    } else {
      var j := m + 4 - k;
      assert WirePosition(j) >= 12 - k;
      assert !Coefficient(q, k + j);
    }
  }

  /** No pattern of at most 12 consecutive wire bits across the boundary is invisible. */
  lemma ShortStraddle(e: Bits, c: Reg, k: nat)
    requires 1 <= k <= 11 && k <= |e| && Within(e, |e| - k, k) && Confined(c, 12 - k)
    requires Unnoticed(e, c)
    ensures e == Zeros(|e|) && c == ZERO
  {
    var q := StraddleQuotient(e, c, k);
    var u := e[|e| - k..];
    ConfinedGivesGap(q, u, c, 12 - k);
    forall m | 0 <= m < k ensures !q[m] {
      ShortBurstQuotient(q, m);
    }
    ZeroQuotient(q, u, c);
    assert e == e[..|e| - k] + u;
    assert e == Zeros(|e|);
  }

  // ----- Bursts of at most 16 bits -----

  lemma GapAt(q: Bits, r: int, i: nat)
    requires Gap(q, r) && |q| <= i < |q| + 16 && WirePosition(i - |q|) >= r
    ensures !Coefficient(q, i)
  {
    var j := i - |q|;
    assert !Coefficient(q, |q| + j);
  }

  lemma Quotient7(q: Bits)
    requires |q| == 7 && Gap(q, 9)
    ensures q == Zeros(7)
  {
    GapAt(q, 9, 8); GapAt(q, 9, 9); GapAt(q, 9, 10); GapAt(q, 9, 11);
    GapAt(q, 9, 12); GapAt(q, 9, 13); GapAt(q, 9, 14);
    assert !q[4] && !q[5] && !q[6] && !q[0] && !q[1] && !q[2] && !q[3];
  }

  lemma Quotient9(q: Bits)
    requires |q| == 9 && Gap(q, 7)
    ensures q == Zeros(9)
  {
    GapAt(q, 7, 9); GapAt(q, 7, 10); GapAt(q, 7, 11); GapAt(q, 7, 12); GapAt(q, 7, 13);
    GapAt(q, 7, 14); GapAt(q, 7, 15); GapAt(q, 7, 16); GapAt(q, 7, 24);
    assert !q[8] && !q[5] && !q[6] && !q[2] && !q[3] && !q[4];
    assert !q[0] && !q[7] && !q[1];
  }

  lemma Quotient11(q: Bits)
    requires |q| == 11 && Gap(q, 5)
    ensures q == Zeros(11)
  {
    GapAt(q, 5, 24); GapAt(q, 5, 25); GapAt(q, 5, 26);
    assert !q[8] && !q[9] && !q[10];
    GapAt(q, 5, 12); GapAt(q, 5, 13); GapAt(q, 5, 14); GapAt(q, 5, 15);
    assert !q[1] && !q[2] && !q[3] && !q[4];
    GapAt(q, 5, 17); GapAt(q, 5, 18); GapAt(q, 5, 11); GapAt(q, 5, 16);
    assert !q[6] && !q[7] && !q[0] && !q[5];
  }

  /** With 7, 9 or 11 message bits in a 16-bit window across the boundary nothing is invisible. */
  lemma SafeStraddle(e: Bits, c: Reg, k: nat)
    requires k in {7, 9, 11} && k <= |e| && Within(e, |e| - k, k) && Confined(c, 16 - k)
    requires Unnoticed(e, c)
    ensures e == Zeros(|e|) && c == ZERO
  {
    var q := StraddleQuotient(e, c, k);
    var u := e[|e| - k..];
    ConfinedGivesGap(q, u, c, 16 - k);
    match k {
      case 7 => Quotient7(q);
      case 9 => Quotient9(q);
      case 11 => Quotient11(q);
    }
    ZeroQuotient(q, u, c);
    assert e == e[..|e| - k] + u;
    assert e == Zeros(|e|);
  }
}
