/** Powers of two and the length of a number in bits. */
module Bits {
  function Pow2(n: nat): (p: nat)
    ensures p > 0
  {
    if n == 0 then 1 else 2 * Pow2(n - 1)
  }

  function BitLen(x: nat): (n: nat) {
    if x == 0 then 0 else 1 + BitLen(x / 2)
  }

  lemma {:induction false} BitLenBounds(x: nat)
    requires x > 0
    ensures Pow2(BitLen(x) - 1) <= x < Pow2(BitLen(x))
  {
    if x > 1 { BitLenBounds(x / 2); }
  }

  lemma {:induction false} Pow2Add(a: nat, b: nat)
    ensures Pow2(a + b) == Pow2(a) * Pow2(b)
  {
    if a > 0 {
      Pow2Add(a - 1, b);
      Pow2Step(a);
      Pow2Step(a + b);
      hide Pow2;
      Doubled(Pow2(a - 1), Pow2(b));
    }
  }

  lemma Pow2Step(n: nat)
    requires n > 0
    ensures Pow2(n) == 2 * Pow2(n - 1)
  {
  }

  lemma Doubled(p: nat, q: nat)
    ensures 2 * (p * q) == (2 * p) * q
  {
  }

  lemma Pow2Mono(a: nat, b: nat)
    requires a <= b
    ensures Pow2(a) <= Pow2(b)
  {
    hide Pow2;
    Pow2Add(a, b - a);
    AtLeastOnce(Pow2(a), Pow2(b - a));
  }

  lemma AtLeastOnce(p: nat, q: nat)
    requires q > 0
    ensures p <= p * q
  {
  }

  lemma BitLenUnique(x: nat, n: nat)
    requires Pow2(n) <= x < Pow2(n + 1)
    ensures BitLen(x) == n + 1
  {
    BitLenBounds(x);
    if BitLen(x) <= n { Pow2Mono(BitLen(x), n); }
    if BitLen(x) > n + 1 { Pow2Mono(n + 1, BitLen(x) - 1); }
  }

  /** Arithmetic shift right: division rounding down, also for negative numbers. */
  function Shr(s: int, e: nat): (r: int)
  {
    s / Pow2(e)
  }

  lemma ScaleOrder(a: int, b: int, d: nat)
    requires a <= b
    ensures a * d <= b * d && (a - 1) * d == a * d - d
  {
  }

  /** Dividing by d > 0 rounds down: the quotient bounds of both sides. */
  lemma Quotient(s: int, d: int, a: int)
    requires d > 0
    ensures s >= a * d <==> s / d >= a
    ensures s < a * d <==> s / d < a
  {
    var q, r := s / d, s % d;
    assert s == q * d + r;
    if q >= a {
      ScaleOrder(a, q, d);
    } else {
      ScaleOrder(q + 1, a, d);
    }
  }
}

/** Block floating point: the exponent of a block and the samples shifted by it. */
module BlockFloatingPoint {
  import opened Bits

  lemma Powers()
    ensures Pow2(15) == 0x8000 && Pow2(16) == 0x1_0000
  {
    assert Pow2(4) == 0x10;
    assert Pow2(8) == 0x100;
    assert Pow2(12) == 0x1000;
  }

  lemma BitLen16(x: nat)
    requires 0 < x < 0x1_0000
    ensures 1 <= BitLen(x) <= 16 && (BitLen(x) == 16 <==> x >= 0x8000)
  {
    Powers();
    hide Pow2;
    BitLenBounds(x);
    if x >= 0x8000 {
      BitLenUnique(x, 15);
    } else if BitLen(x) > 15 {
      Pow2Mono(15, BitLen(x) - 1);
    }
  }

  /** __builtin_clz of a 16-bit value held in a 32-bit unsigned, defined for x > 0. */
  function CountLeadingZeros(x: nat): (n: int)
    requires 0 < x < 0x1_0000
  {
    32 - BitLen(x)
  }

  /** determine_exponent, in 32-bit unsigned arithmetic, for samples of `width` bits: 16 in
      iq_compression_bfp_impl.h, 32 in bfp.h. */
  function DetermineExponent(width: nat, x: nat, dataWidth: nat): (e: nat)
    requires 0 < dataWidth <= width <= 32 && x < 0x1_0000
  {
    var maxShift := width - dataWidth;
    var lzWithoutSign := if x > 0 && maxShift > 0 then (CountLeadingZeros(x) - 17) % 0x1_0000_0000 else maxShift;
    var rawExp := if lzWithoutSign < maxShift then lzWithoutSign else maxShift;
    if maxShift - rawExp > 0 then maxShift - rawExp else 0
  }

  /** The exponent in closed form. From 2^15 on the leading-zero count wraps below zero. */
  lemma ExponentLaw(width: nat, x: nat, dataWidth: nat)
    requires 0 < dataWidth <= width <= 32 && x < 0x1_0000
    ensures DetermineExponent(width, x, dataWidth) ==
      if x == 0 || x >= 0x8000 then 0
      else if BitLen(x) + width - 15 - dataWidth > 0 then BitLen(x) + width - 15 - dataWidth else 0
    ensures x == 0 || dataWidth == width ==> DetermineExponent(width, x, dataWidth) == 0
  {
    hide BitLen, CountLeadingZeros;
    if x > 0 { ZeroCount(x); }
  }

  /** Zeros in front of the value, the sign bit not counted: -1 as an unsigned from 2^15 on. */
  lemma ZeroCount(x: nat)
    requires 0 < x < 0x1_0000
    ensures (CountLeadingZeros(x) - 17) % 0x1_0000_0000 == if x >= 0x8000 then 0xffff_ffff else 15 - BitLen(x)
    ensures x < 0x8000 ==> BitLen(x) <= 15
  {
    BitLen16(x);
    hide BitLen;
  }

  /** x fits a signed field of n bits. */
  predicate Fits(x: int, n: nat)
    requires n > 0
  {
    -(Pow2(n - 1) as int) <= x < Pow2(n - 1)
  }

  /** Shifted by b bits, x fits n signed bits exactly if it is shorter than b + n bits. */
  lemma ShiftedFits(x: nat, b: nat, n: nat)
    requires n > 0
    ensures Fits(Shr(x, b), n) <==> BitLen(x) <= b + n - 1
  {
    assert BitLen(0) == 0;
    hide Pow2, BitLen, Shr;
    if x == 0 { ZeroShifted(b); } else { PositiveShifted(x, b, n); }
  }

  lemma ZeroShifted(b: nat)
    ensures Shr(0, b) == 0
  {
    Quotient(0, Pow2(b), 0);
    Quotient(0, Pow2(b), 1);
  }

  lemma PositiveShifted(x: nat, b: nat, n: nat)
    requires n > 0 && x > 0
    ensures Fits(Shr(x, b), n) <==> BitLen(x) <= b + n - 1
  {
    hide Pow2, BitLen;
    Pow2Add(n - 1, b);
    Quotient(x, Pow2(b), Pow2(n - 1));
    Quotient(x, Pow2(b), 0);
    BitLenBounds(x);
    if BitLen(x) <= b + n - 1 {
      Pow2Mono(BitLen(x), b + n - 1);
    } else {
      Pow2Mono(b + n - 1, BitLen(x) - 1);
    }
  }

  /** The chosen exponent makes x fit the data width exactly if x is below 2^15, the range of a
      16-bit magnitude (or the width leaves room for 16 bits and a sign). */
  lemma ExponentFits(width: nat, x: nat, dataWidth: nat)
    requires 16 <= width <= 32 && 0 < dataWidth <= width && x < 0x1_0000
    ensures Fits(Shr(x, DetermineExponent(width, x, dataWidth)), dataWidth) <==> x < 0x8000 || dataWidth > 16
  {
    assert BitLen(0) == 0;
    hide Pow2, BitLen, Shr, Fits, DetermineExponent;
    ExponentLaw(width, x, dataWidth);
    ShiftedFits(x, DetermineExponent(width, x, dataWidth), dataWidth);
    if x > 0 { BitLen16(x); }
  }

  /** At 16 bits no smaller shift would do. */
  lemma ExponentLeast(x: nat, dataWidth: nat, e: nat)
    requires 0 < dataWidth <= 16 && x < 0x8000
    requires e < DetermineExponent(16, x, dataWidth)
    ensures !Fits(Shr(x, e), dataWidth)
  {
    hide Pow2, BitLen, Shr, Fits;
    ExponentLaw(16, x, dataWidth);
    ShiftedFits(x, e, dataWidth);
  }

  /** A 16-bit pattern as a signed number. */
  function Signed16(x: int): (s: int)
    ensures -0x8000 <= s < 0x8000
  {
    if x % 0x1_0000 < 0x8000 then x % 0x1_0000 else x % 0x1_0000 - 0x1_0000
  }

  /** quantizer::sign_extend: left shift into 16 bits, arithmetic shift back. */
  function SignExtend(value: int, bitWidth: nat): (s: int)
    requires 0 < bitWidth <= 16
  {
    var n := 16 - bitWidth;
    Shr(Signed16(value * Pow2(n)), n)
  }

  /** Cutting a number to its low bits and extending the sign gives it back exactly if it fits. */
  lemma SignExtendRoundTrip(s: int, bitWidth: nat)
    requires 0 < bitWidth <= 16
    ensures SignExtend(s % Pow2(bitWidth), bitWidth) == s <==> Fits(s, bitWidth)
  {
    Pow2Step(bitWidth);
    hide Pow2, SignExtend;
    var half: int := Pow2(bitWidth - 1);
    var t := s % Pow2(bitWidth);
    SignExtended(t, bitWidth);
    assert (if t < half then t else t - 2 * half) == s <==> -half <= s < half by { Wrapped(s, half); }
  }

  /** Sign extension of a bit field: fields from half the range on stand for negative numbers. */
  lemma SignExtended(t: nat, bitWidth: nat)
    requires 0 < bitWidth <= 16 && t < Pow2(bitWidth)
    ensures SignExtend(t, bitWidth) == if t < Pow2(bitWidth - 1) then t else t - 2 * Pow2(bitWidth - 1)
  {
    Pow2Step(bitWidth);
    HalfWord(bitWidth);
    hide Pow2, Signed16;
    var d, half := Pow2(16 - bitWidth), Pow2(bitWidth - 1);
    Field(t, half, d);
    Exact(if t < half then t else t - 2 * half, d);
  }

  /** Of any word sign extension keeps the low bits, as a number that fits them. */
  lemma SignExtendLaw(value: int, bitWidth: nat)
    requires 0 < bitWidth <= 16
    ensures Fits(SignExtend(value, bitWidth), bitWidth)
    ensures SignExtend(value, bitWidth) % Pow2(bitWidth) == value % Pow2(bitWidth)
  {
    Pow2Step(bitWidth);
    hide Pow2, SignExtend;
    var half: int, t := Pow2(bitWidth - 1), value % Pow2(bitWidth);
    LowBitsOnly(value, bitWidth);
    SignExtended(t, bitWidth);
    Representative(t, half);
  }

  lemma Representative(t: nat, half: int)
    requires half > 0 && t < 2 * half
    ensures (if t < half then t else t - 2 * half) % (2 * half) == t
  {
    if t < half { Residue(t, 2 * half, 0); } else { Residue(t - 2 * half, 2 * half, -1); }
  }

  lemma LowBitsOnly(value: int, bitWidth: nat)
    requires 0 < bitWidth <= 16
    ensures SignExtend(value, bitWidth) == SignExtend(value % Pow2(bitWidth), bitWidth)
  {
    assert Pow2(bitWidth) * Pow2(16 - bitWidth) == 0x1_0000 by {
      Powers();
      Pow2Add(bitWidth, 16 - bitWidth);
    }
    hide Pow2, Signed16, Shr;
    SameWord(value, Pow2(bitWidth), Pow2(16 - bitWidth));
  }

  lemma SameWord(value: int, m: nat, d: nat)
    requires m > 0 && m * d == 0x1_0000
    ensures Signed16(value * d) == Signed16(value % m * d)
  {
    hide Signed16;
    var q, t := value / m, value % m;
    assert value * d == t * d + 0x1_0000 * q by {
      assert value == m * q + t;
      WordSplit(m, d, q, t);
    }
    SameSigned(t * d, q);
  }

  lemma WordSplit(m: int, d: int, q: int, t: int)
    requires m * d == 0x1_0000
    ensures (m * q + t) * d == t * d + 0x1_0000 * q
  {
    assert (m * q + t) * d == (m * q) * d + t * d;
    assert (m * q) * d == (m * d) * q;
  }

  lemma SameSigned(x: int, q: int)
    ensures Signed16(x + 0x1_0000 * q) == Signed16(x)
  {
  }

  lemma HalfWord(bitWidth: nat)
    requires 0 < bitWidth <= 16
    ensures Pow2(bitWidth - 1) * Pow2(16 - bitWidth) == 0x8000
  {
    Powers();
    Pow2Add(bitWidth - 1, 16 - bitWidth);
  }

  /** A field in the upper bits of a 16-bit word, read as a signed number. */
  lemma Field(t: nat, half: nat, d: nat)
    requires d > 0 && half * d == 0x8000 && t < 2 * half
    ensures Signed16(t * d) == (if t < half then t else t - 2 * half) * d
  {
    assert (2 * half) * d == 0x1_0000 by { assert (2 * half) * d == 2 * (half * d); }
    assert (t - 2 * half) * d == t * d - (2 * half) * d;
    ScaleOrder(t + 1, 2 * half, d);
    if t < half {
      ScaleOrder(t + 1, half, d);
    } else {
      ScaleOrder(half, t, d);
    }
  }

  lemma Exact(a: int, d: int)
    requires d > 0
    ensures a * d / d == a
  {
    Quotient(a * d, d, a);
    Quotient(a * d, d, a + 1);
  }

  /** The signed representative of s modulo 2 * half is s exactly if s lies in the signed range. */
  lemma Wrapped(s: int, half: int)
    requires half > 0
    ensures var t := s % (2 * half); (if t < half then t else t - 2 * half) == s <==> -half <= s < half
  {
    var m := 2 * half;
    if 0 <= s < half {
      Residue(s, m, 0);
    } else if -half <= s < 0 {
      Residue(s, m, -1);
    }
  }

  lemma Residue(s: int, m: int, q: int)
    requires m > 0 && q * m <= s < (q + 1) * m
    ensures s % m == s - q * m
  {
    Quotient(s, m, q);
    Quotient(s, m, q + 1);
    assert s / m == q;
  }

  /** A sample no larger than the block's maximum x survives compression: its shifted value is
      recovered by sign extension, and shifting back loses less than 2^e, always downwards. */
  lemma SampleRoundTrip(x: nat, s: int, dataWidth: nat)
    requires 0 < dataWidth <= 16 && x < 0x8000 && -(x as int) <= s <= x
    ensures var e := DetermineExponent(16, x, dataWidth); var c := Shr(s, e);
      && SignExtend(c % Pow2(dataWidth), dataWidth) == c
      && s - (Pow2(e) - 1) <= c * Pow2(e) <= s
  {
    ExponentFits(16, x, dataWidth);
    var e := DetermineExponent(16, x, dataWidth);
    hide Pow2, SignExtend, DetermineExponent, Fits;
    ShiftedWithin(x, s, e, dataWidth);
    SignExtendRoundTrip(Shr(s, e), dataWidth);
    ShiftBack(s, Pow2(e));
  }

  /** A sample between -x and x shifts to a value as short as x does. */
  lemma ShiftedWithin(x: nat, s: int, e: nat, n: nat)
    requires n > 0 && -(x as int) <= s <= x && Fits(Shr(x, e), n)
    ensures Fits(Shr(s, e), n)
  {
    hide Pow2;
    var d: int, half: int := Pow2(e), Pow2(n - 1);
    Quotient(x, d, half);
    Quotient(s, d, half);
    Quotient(s, d, -half);
    assert (-half) * d == -(half * d);
  }

  lemma ShiftBack(s: int, d: int)
    requires d > 0
    ensures s - (d - 1) <= s / d * d <= s
  {
    assert s == s / d * d + s % d;
  }

  /** std::round: halves away from zero. */
  function Round(v: real): (n: int) {
    if v >= 0.0 then (v + 0.5).Floor else -((-v + 0.5).Floor)
  }

  /** quantizer::to_fixed_point over exact reals, before the cast to 16 bits. */
  function ToFixedPoint(bitWidth: nat, value: real): (q: int)
    requires 0 < bitWidth
  {
    Round(Scale(Clip(value), Gain(bitWidth) as real))
  }

  function Clip(value: real): (c: real)
    ensures -1.0 <= c <= 1.0
  {
    if value > 1.0 then 1.0 else if value < -1.0 then -1.0 else value
  }

  function Scale(value: real, gain: real): (v: real) {
    value * gain
  }

  function Gain(bitWidth: nat): (g: nat)
    requires 0 < bitWidth
  {
    Pow2(bitWidth - 1) - 1
  }

  /** The quantizer's output always fits its width, so a block maximum is below 2^15 and the
      leading-zero count does not wrap. */
  lemma QuantizedMagnitude(bitWidth: nat, value: real)
    requires 0 < bitWidth <= 16
    ensures var g := Pow2(bitWidth - 1) - 1; -g <= ToFixedPoint(bitWidth, value) <= g < 0x8000
    ensures Fits(ToFixedPoint(bitWidth, value), bitWidth)
  {
    assert Gain(bitWidth) == Pow2(bitWidth - 1) - 1;
    hide Pow2;
    GainBound(bitWidth);
    hide Gain, Round, Clip, Scale;
    ScaledRound(Clip(value), Gain(bitWidth));
  }

  lemma GainBound(bitWidth: nat)
    requires 0 < bitWidth <= 16
    ensures Gain(bitWidth) < 0x8000
  {
    Powers();
    hide Pow2;
    Pow2Mono(bitWidth - 1, 15);
  }

  lemma ScaledRound(c: real, g: nat)
    requires -1.0 <= c <= 1.0
    ensures -(g as int) <= Round(Scale(c, g as real)) <= g
  {
    hide Scale, Round;
    Scaled(c, g as real);
    RoundBound(Scale(c, g as real), g);
  }

  lemma RoundBound(v: real, g: nat)
    requires -(g as real) <= v <= g as real
    ensures -(g as int) <= Round(v) <= g
  {
  }

  lemma NonNegative(a: real, b: real)
    requires a >= 0.0 && b >= 0.0
    ensures a * b >= 0.0
  {
  }

  lemma Scaled(c: real, g: real)
    requires -1.0 <= c <= 1.0 && g >= 0.0
    ensures -g <= Scale(c, g) <= g
  {
    NonNegative(1.0 - c, g);
    NonNegative(1.0 + c, g);
    assert (1.0 - c) * g == g - c * g && (1.0 + c) * g == g + c * g;
  }

  /** Inside [-1, 1] the result is the integer nearest to the scaled value, halves away from zero;
      outside it is the gain with the sign of the value. */
  lemma QuantizeNearest(bitWidth: nat, value: real)
    requires 0 < bitWidth
    ensures var q := ToFixedPoint(bitWidth, value) as real; var g := (Pow2(bitWidth - 1) - 1) as real;
      && (-1.0 <= value <= 1.0 ==> -0.5 <= q - value * g <= 0.5)
      && (0.0 <= value <= 1.0 ==> q - value * g > -0.5)
      && (-1.0 <= value < 0.0 ==> q - value * g < 0.5)
      && (value > 1.0 ==> q == g) && (value < -1.0 ==> q == -g)
  {
    var g := Pow2(bitWidth - 1) - 1;
    assert Gain(bitWidth) == g;
    hide Pow2, Gain, Clip, Scale, Round;
    NearestScaled(value, g);
  }

  lemma NearestScaled(value: real, g: nat)
    ensures var q := Round(Scale(Clip(value), g as real)) as real;
      && (-1.0 <= value <= 1.0 ==> -0.5 <= q - value * g as real <= 0.5)
      && (0.0 <= value <= 1.0 ==> q - value * g as real > -0.5)
      && (-1.0 <= value < 0.0 ==> q - value * g as real < 0.5)
      && (value > 1.0 ==> q == g as real) && (value < -1.0 ==> q == -(g as real))
  {
    hide Scale, Round;
    var c := Clip(value);
    assert Scale(value, g as real) == value * g as real by { ScaleIs(value, g as real); }
    RoundNearest(Scale(c, g as real));
    Signs(c, g as real);
    Ends(g);
  }

  lemma ScaleIs(c: real, g: real)
    ensures Scale(c, g) == c * g
  {
  }

  lemma Signs(c: real, g: real)
    requires g >= 0.0
    ensures c >= 0.0 ==> Scale(c, g) >= 0.0
    ensures c <= 0.0 ==> Scale(c, g) <= 0.0
  {
  }

  lemma Ends(g: nat)
    ensures Round(Scale(1.0, g as real)) == g && Round(Scale(-1.0, g as real)) == -(g as int)
  {
    RoundExact(g);
    RoundExact(-(g as int));
  }

  lemma RoundNearest(v: real)
    ensures -0.5 <= Round(v) as real - v <= 0.5
    ensures v >= 0.0 ==> Round(v) as real - v > -0.5
    ensures v <= 0.0 ==> Round(v) as real - v < 0.5
  {
  }

  /** quantizer::to_float */
  function ToFloat(bitWidth: nat, p: int): (v: real)
    requires 1 < bitWidth
  {
    Pow2Mono(1, bitWidth - 1);
    p as real / Gain(bitWidth) as real
  }

  /** Full scale is the largest number that fits the width, and the fixed-point values are even
      steps from zero to it. */
  lemma FullScale(bitWidth: nat, p: int)
    requires 1 < bitWidth
    ensures var g := Pow2(bitWidth - 1) - 1;
      && ToFixedPoint(bitWidth, 1.0) == g && ToFixedPoint(bitWidth, -1.0) == -g
      && Fits(g, bitWidth) && !Fits(g + 1, bitWidth)
      && ToFloat(bitWidth, g) == 1.0 && ToFloat(bitWidth, p) * g as real == p as real
  {
    assert Gain(bitWidth) > 0 && Gain(bitWidth) == Pow2(bitWidth - 1) - 1 by { Pow2Mono(1, bitWidth - 1); }
    hide Pow2, Gain, Round, Scale;
    Ends(Gain(bitWidth));
    Ratio(p as real, Gain(bitWidth) as real);
    Ratio(Gain(bitWidth) as real, Gain(bitWidth) as real);
  }

  lemma Ratio(p: real, g: real)
    requires g > 0.0
    ensures p / g * g == p && (p == g ==> p / g == 1.0)
  {
  }

  /** Quantizing what a quantized value stands for gives the value back. */
  lemma QuantizeRoundTrip(bitWidth: nat, p: int)
    requires 1 < bitWidth && -(Gain(bitWidth) as int) <= p <= Gain(bitWidth)
    ensures ToFixedPoint(bitWidth, ToFloat(bitWidth, p)) == p
  {
    assert Gain(bitWidth) > 0 by { Pow2Mono(1, bitWidth - 1); }
    hide Gain, Round, Clip, Scale;
    var g := Gain(bitWidth) as real;
    Unclipped(p as real, g);
    RoundExact(p);
  }

  lemma RoundExact(p: int)
    ensures Round(p as real) == p
  {
  }

  lemma Unclipped(p: real, g: real)
    requires g > 0.0 && -g <= p <= g
    ensures Clip(p / g) == p / g && Scale(p / g, g) == p
  {
    hide Clip;
    var v := p / g;
    assert v * g == p;
    assert -1.0 <= v <= 1.0 by { UnitRange(v, g); }
    Within(v);
  }

  lemma Enlarged(v: real, g: real)
    requires v > 1.0 && g > 0.0
    ensures v * g > g && (-v) * g == -(v * g)
  {
    assert v * g == g + (v - 1.0) * g;
  }

  lemma UnitRange(v: real, g: real)
    requires g > 0.0 && -g <= v * g <= g
    ensures -1.0 <= v <= 1.0
  {
    if v > 1.0 { Enlarged(v, g); }
    if v < -1.0 { Enlarged(-v, g); }
  }

  lemma Within(v: real)
    requires -1.0 <= v <= 1.0
    ensures Clip(v) == v
  {
  }
}

/** CLI11's overflow-checked multiplication. */
module CheckedMultiply {
  import opened Bits

  /** An integer type of C++: its numeric limits. */
  datatype Limits = Limits(min: int, max: int)

  predicate SignedType(l: Limits) {
    l.max >= 1 && l.min == -l.max - 1
  }

  predicate UnsignedType(l: Limits) {
    l.max >= 1 && l.min == 0
  }

  predicate In(l: Limits, x: int) {
    l.min <= x <= l.max
  }

  /** C++ integer division truncates towards zero. */
  function TruncDiv(a: int, b: int): (q: int)
    requires b != 0
  {
    if a >= 0 then a / b else -(-a / b)
  }

  function Abs(x: int): (y: int) {
    if x < 0 then -x else x
  }

  function OverflowCheck(l: Limits, a: int, b: int): (o: bool)
    requires a != 0
  {
    if l.min == 0 then TruncDiv(l.max, a) < b
    else if (a > 0) == (b > 0) then TruncDiv(l.max, Abs(a)) < Abs(b)
    else TruncDiv(l.min, Abs(a)) > -Abs(b)
  }

  /** a *= b if that does not overflow: true exactly if the product is representable, and then
      the product is left in a; otherwise a is left alone. */
  method Multiply(l: Limits, a: int, b: int) returns (ok: bool, a': int)
    requires (SignedType(l) || UnsignedType(l)) && In(l, a) && In(l, b)
    ensures ok <==> In(l, a * b)
    ensures a' == if ok then a * b else a
  {
    if a == 0 || b == 0 || a == 1 || b == 1 {
      return true, a * b;
    }
    if a == l.min || b == l.min {
      MinOverflows(l, a, b);
      return false, a;
    }
    CheckIsExact(l, a, b);
    if OverflowCheck(l, a, b) {
      return false, a;
    }
    return true, a * b;
  }

  lemma MinOverflows(l: Limits, a: int, b: int)
    requires SignedType(l) && In(l, a) && In(l, b) && (a == l.min || b == l.min)
    requires a != 0 && b != 0 && a != 1 && b != 1
    ensures !In(l, a * b)
  {
    var c := if a == l.min then b else a;
    assert a * b == l.min * c;
    if c >= 2 {
      assert l.min * c <= l.min * 2;
    } else {
      assert l.min * c >= -l.min by { assert l.min * (c + 1) >= 0; }
    }
  }

  lemma CheckIsExact(l: Limits, a: int, b: int)
    requires (SignedType(l) || UnsignedType(l)) && In(l, a) && In(l, b)
    requires a != 0 && b != 0 && a != l.min && b != l.min
    ensures OverflowCheck(l, a, b) <==> !In(l, a * b)
  {
    var x, y := Abs(a), Abs(b);
    Quotient(l.max, x, y);
    Quotient(-l.min, x, y);
    assert Abs(a * b) == x * y by { AbsProduct(a, b); }
    assert a * b > 0 <==> (a > 0) == (b > 0) by { SignOfProduct(a, b); }
  }

  lemma AbsProduct(a: int, b: int)
    ensures Abs(a * b) == Abs(a) * Abs(b)
  {
  }

  lemma SignOfProduct(a: int, b: int)
    requires a != 0 && b != 0
    ensures a * b > 0 <==> (a > 0) == (b > 0)
  {
  }
}
