/**
 * The numbers that float32 payloads stand for (main/protocol.c:102-132), as a function of their
 * 32-bit pattern: zero for pattern zero, steps of one unit in the last place from pattern to
 * pattern, and the sign in bit 31. Hence exactly which payloads the dispatch accepts.
 */
module FloatOrder {
  import opened Bytes
  import opened Protocol
  import opened Payload

  /** The pattern of four bytes, low byte first. */
  function Pattern(p: seq<byte>): int
    requires |p| == 4
  {
    Value(p[0]) + 0x100 * Value(p[1]) + 0x1_0000 * Value(p[2]) + 0x100_0000 * Value(p[3])
  }

  /** The place value of the last bit under exponent field `e`: 2^(e - 150). */
  function Scale(e: nat): real
    ensures Scale(e) > 0.0
  {
    if e >= 150 then Pow2(e - 150) else 1.0 / Pow2(150 - e)
  }

  /** Doubling from 1 at field 150: so `Scale` is that power of two. */
  lemma ScaleDoubles(e: nat)
    ensures Scale(150) == 1.0 && Scale(e + 1) == 2.0 * Scale(e)
  {
    if e < 150 {
      HalfOf(Pow2(149 - e), Pow2(150 - e));
    }
  }

  lemma HalfOf(x: real, y: real)
    requires x > 0.0 && y == 2.0 * x
    ensures 1.0 / x == 2.0 * (1.0 / y)
  {
    assert (1.0 / x) * x == 1.0 && (1.0 / y) * y == 1.0;
    assert 2.0 * (1.0 / y) * x == 1.0;
    SameInverse(x, 1.0 / x, 2.0 * (1.0 / y));
  }

  lemma SameInverse(x: real, a: real, b: real)
    requires x > 0.0 && a * x == 1.0 && b * x == 1.0
    ensures a == b
  {
    assert (a - b) * x == 0.0;
  }

  // ----- Magnitudes by pattern -----

  function ByFields(e: nat, f: nat): real {
    if e == 0 then (f as real) * Scale(1) else ((0x80_0000 + f) as real) * Scale(e)
  }

  function Magnitude(n: nat): real { ByFields(n / 0x80_0000, n % 0x80_0000) }

  function AtLeastOne(e: nat): nat { if e == 0 then 1 else e }

  lemma NextFields(n: nat)
    ensures var e, f := n / 0x80_0000, n % 0x80_0000;
      if f < 0x7F_FFFF then (n + 1) / 0x80_0000 == e && (n + 1) % 0x80_0000 == f + 1
      else (n + 1) / 0x80_0000 == e + 1 && (n + 1) % 0x80_0000 == 0
  {
  }

  lemma OneMore(k: int, x: real)
    ensures ((k + 1) as real) * x - (k as real) * x == x
  {
    assert (k + 1) as real == (k as real) + 1.0;
  }

  lemma OneMoreDoubled(x: real)
    ensures (0x80_0000 as real) * (2.0 * x) - (0xFF_FFFF as real) * x == x
  {
  }

  /** Neighbouring patterns differ by one unit in the last place. */
  lemma NextMagnitude(n: nat)
    ensures Magnitude(n + 1) - Magnitude(n) == Scale(AtLeastOne(n / 0x80_0000))
  {
    hide Scale;
    var e, f := n / 0x80_0000, n % 0x80_0000;
    NextFields(n);
    if f < 0x7F_FFFF {
      OneMore(if e == 0 then f else 0x80_0000 + f, Scale(AtLeastOne(e)));
    } else if e == 0 {
      OneMore(f, Scale(1));
    } else {
      ScaleDoubles(e);
      OneMoreDoubled(Scale(e));
    }
  }

  lemma {:induction false} MagnitudeIncreases(a: nat, b: nat)
    requires a < b
    ensures Magnitude(a) < Magnitude(b)
    decreases b
  {
    hide Magnitude, Scale;
    NextMagnitude(b - 1);
    ScaleIsPositive(AtLeastOne((b - 1) / 0x80_0000));
    if a < b - 1 {
      MagnitudeIncreases(a, b - 1);
    }
  }

  lemma ScaleIsPositive(e: nat)
    ensures Scale(e) > 0.0
  {
  }

  // ----- The decoder -----

  lemma PatternFields(v0: int, v1: int, v2: int, v3: int)
    requires 0 <= v0 < 0x100 && 0 <= v1 < 0x100 && 0 <= v2 < 0x100 && 0 <= v3 < 0x100
    ensures var n := v0 + 0x100 * v1 + 0x1_0000 * v2 + 0x100_0000 * v3;
      && 0 <= n < 0x1_0000_0000
      && (n >= 0x8000_0000 <==> v3 >= 128)
      && n % 0x8000_0000 / 0x80_0000 == (v3 % 128) * 2 + v2 / 128
      && n % 0x8000_0000 % 0x80_0000 == (v2 % 128) * 65536 + v1 * 256 + v0
  {
    var n := v0 + 0x100 * v1 + 0x1_0000 * v2 + 0x100_0000 * v3;
    var e, f := (v3 % 128) * 2 + v2 / 128, (v2 % 128) * 65536 + v1 * 256 + v0;
    assert n == 0x8000_0000 * (v3 / 128) + (0x80_0000 * e + f);
    assert n % 0x8000_0000 == 0x80_0000 * e + f;
  }

  lemma DivideIsTimes(x: real, y: real)
    requires y > 0.0
    ensures x / y == x * (1.0 / y)
  {
  }

  function Low31(p: seq<byte>): (n: nat)
    requires |p| == 4
  {
    Pattern(p) % 0x8000_0000
  }

  lemma ScaledFraction(e: nat, f: nat)
    ensures FieldsValue(e, f) == ByFields(e, f)
  {
    hide Pow2;
    DivideIsTimes(f as real, Pow2(149));
    if 0 < e < 150 {
      DivideIsTimes((0x80_0000 + f) as real, Pow2(150 - e));
    }
  }

  lemma DecodedByFields(p: seq<byte>, e: nat, f: nat)
    requires |p| == 4
    requires e == (Value(p[3]) % 128) * 2 + Value(p[2]) / 128
    requires f == (Value(p[2]) % 128) * 65536 + Value(p[1]) * 256 + Value(p[0])
    ensures Float32(p) ==
      if e == 255 then None else Some(if Value(p[3]) >= 128 then -ByFields(e, f) else ByFields(e, f))
  {
    hide FieldsValue, Value, ByFields;
    ScaledFraction(e, f);
  }

  lemma ValuesOfBytes(p: seq<byte>)
    requires |p| == 4
    ensures 0 <= Value(p[0]) < 0x100 && 0 <= Value(p[1]) < 0x100 && 0 <= Value(p[2]) < 0x100 && 0 <= Value(p[3]) < 0x100
  {
    ByteOfValue(p[0]);
    ByteOfValue(p[1]);
    ByteOfValue(p[2]);
    ByteOfValue(p[3]);
  }

  /** The decoder by pattern: no number from 0x7F800000 on, a magnitude below, the sign in bit 31. */
  lemma DecodedByPattern(p: seq<byte>)
    requires |p| == 4
    ensures 0 <= Pattern(p) < 0x1_0000_0000
    ensures Float32(p) ==
      if Low31(p) >= 0x7F80_0000 then None
      else Some(if Pattern(p) >= 0x8000_0000 then -Magnitude(Low31(p)) else Magnitude(Low31(p)))
  {
    hide Value, ByFields, Float32;
    ValuesOfBytes(p);
    PatternFields(Value(p[0]), Value(p[1]), Value(p[2]), Value(p[3]));
    var e, f := Low31(p) / 0x80_0000, Low31(p) % 0x80_0000;
    DecodedByFields(p, e, f);
    LastExponent(Low31(p));
  }

  lemma LastExponent(n: nat)
    requires n < 0x8000_0000
    ensures n >= 0x7F80_0000 <==> n / 0x80_0000 == 255
  {
  }

  lemma ZeroMagnitude()
    ensures Magnitude(0) == 0.0
  {
  }

  /** Patterns 0x00000000 and 0x80000000 are zero. */
  lemma ZeroPatterns(p: seq<byte>)
    requires |p| == 4 && (Pattern(p) == 0 || Pattern(p) == 0x8000_0000)
    ensures Float32(p) == Some(0.0)
  {
    hide Pattern, Magnitude, Float32;
    DecodedByPattern(p);
    ZeroMagnitude();
  }

  /** Every pattern below 0x7F800000 is a number. */
  lemma SmallIsFinite(p: seq<byte>)
    requires |p| == 4 && Pattern(p) < 0x7F80_0000
    ensures Float32(p).Some?
  {
    hide Pattern, Magnitude, Float32;
    DecodedByPattern(p);
  }

  /** From one finite non-negative pattern to the next, the value rises by 2^(max(e, 1) - 150). */
  lemma NeighbouringPatterns(p: seq<byte>, q: seq<byte>, x: real)
    requires |p| == |q| == 4 && Pattern(q) == Pattern(p) + 1 < 0x7F80_0000 && Float32(p) == Some(x)
    ensures 0 <= Pattern(p)
    ensures var e := Pattern(p) / 0x80_0000; Float32(q) == Some(x + Scale(if e == 0 then 1 else e))
  {
    hide Pattern, Magnitude, Float32, Scale;
    DecodedByPattern(p);
    DecodedByPattern(q);
    NextMagnitude(Pattern(p));
  }

  /** On finite non-negative patterns, the greater pattern is the greater number. */
  lemma PatternsAreOrdered(p: seq<byte>, q: seq<byte>, x: real, y: real)
    requires |p| == |q| == 4 && Pattern(p) < 0x7F80_0000 && Pattern(q) < 0x7F80_0000
    requires Float32(p) == Some(x) && Float32(q) == Some(y)
    ensures Pattern(p) < Pattern(q) <==> x < y
  {
    hide Pattern, Magnitude, Float32;
    DecodedByPattern(p);
    DecodedByPattern(q);
    if Pattern(p) < Pattern(q) {
      MagnitudeIncreases(Pattern(p), Pattern(q));
    } else if Pattern(q) < Pattern(p) {
      MagnitudeIncreases(Pattern(q), Pattern(p));
    }
  }

  /** Bit 31 negates. */
  lemma SignNegates(p: seq<byte>, q: seq<byte>)
    requires |p| == |q| == 4 && Pattern(q) == Pattern(p) + 0x8000_0000
    ensures Float32(q) == match Float32(p) case None => None case Some(x) => Some(-x)
  {
    hide Pattern, Magnitude, Float32;
    DecodedByPattern(p);
    DecodedByPattern(q);
  }

  // ----- What the bounds let through -----

  lemma LimitMagnitudes()
    ensures Magnitude(0x435C_0000) == 220.0 && Magnitude(0x4372_0000) == 242.0
  {
    hide Pow2;
    SixteenBits();
  }

  lemma BelowLimit(n: nat, limit: nat, max: real)
    requires Magnitude(limit) == max
    ensures 0.0 <= Magnitude(n) && (Magnitude(n) == 0.0 <==> n == 0)
    ensures Magnitude(n) <= max <==> n <= limit
  {
    hide Magnitude;
    ZeroMagnitude();
    if n > 0 {
      MagnitudeIncreases(0, n);
    }
    if n < limit {
      MagnitudeIncreases(n, limit);
    } else if n > limit {
      MagnitudeIncreases(limit, n);
    }
  }

  lemma AcceptedUpTo(f: Frame, limit: nat, max: real)
    requires Magnitude(limit) == max && limit < 0x7F80_0000
    ensures var s := ParseBounded(f, 0.0, max); var p := f.payload;
      && (s.Ok? <==> |p| == 4 && (Pattern(p) <= limit || Pattern(p) == 0x8000_0000))
      && (s.OutOfRange? <==> |p| == 4 && Low31(p) < 0x7F80_0000 && !(Pattern(p) <= limit || Pattern(p) == 0x8000_0000))
  {
    hide Pattern, Magnitude, Float32;
    if |f.payload| == 4 {
      DecodedByPattern(f.payload);
      BelowLimit(Low31(f.payload), limit, max);
    }
  }

  /**
   * A SETPOINT payload is accepted exactly when it has four bytes and a pattern up to that of
   * 220.0, or that of minus zero; a SPEED payload up to that of 242.0. Any other finite pattern,
   * in particular every negative number, is out of range, and the rest is invalid.
   */
  lemma AcceptedPatterns(f: Frame)
    ensures var p := f.payload; var s := ParseBounded(f, 0.0, 220.0); var v := ParseBounded(f, 0.0, 242.0);
      && (s.Ok? <==> |p| == 4 && (Pattern(p) <= 0x435C_0000 || Pattern(p) == 0x8000_0000))
      && (v.Ok? <==> |p| == 4 && (Pattern(p) <= 0x4372_0000 || Pattern(p) == 0x8000_0000))
      && (s.Invalid? <==> |p| != 4 || Pattern(p) % 0x8000_0000 >= 0x7F80_0000)
      && (v.Invalid? <==> |p| != 4 || Pattern(p) % 0x8000_0000 >= 0x7F80_0000)
  {
    hide Pattern, Magnitude, Float32, ParseBounded;
    LimitMagnitudes();
    AcceptedUpTo(f, 0x435C_0000, 220.0);
    AcceptedUpTo(f, 0x4372_0000, 242.0);
    if |f.payload| == 4 {
      SmallPatternsAreFinite(f.payload);
    }
  }

  lemma SmallPatternsAreFinite(p: seq<byte>)
    requires |p| == 4
    ensures Pattern(p) <= 0x4372_0000 || Pattern(p) == 0x8000_0000 ==> Low31(p) < 0x7F80_0000
    ensures Low31(p) == Pattern(p) % 0x8000_0000
  {
    hide Pattern;
    DecodedByPattern(p);
  }

  /** -220.0 is out of range. */
  lemma NegativeIsOutOfRange(f: Frame)
    requires f.payload == [0x00, 0x00, 0x5C, 0xC3]
    ensures ParseBounded(f, 0.0, 220.0) == OutOfRange
  {
    hide Value, ParseBounded;
    NegativeBytes();
    AcceptedPatterns(f);
  }

  lemma NegativeBytes()
    ensures Value(0x00) == 0 && Value(0x5C) == 92 && Value(0xC3) == 195
  {
  }
}
