/** The fixed-point reciprocals of the DSP library: two truncated Newton steps from a table value.

    Both widths are the same computation for a scale `m`, the number of steps in the unit
    interval: 2^15 for Q15 and 2^31 for Q31.  The product of a normalised input and its true
    reciprocal is m*m/2, that is 2^29 or 2^61. */
module Reciprocal {
  import opened Arithmetic

  const Q15_ONE: int := 0x8000
  const Q31_ONE: int := 0x8000_0000
  const TABLE_LENGTH: nat := 64

  predicate Scale(m: int) {
    m == Q15_ONE || m == Q31_ONE
  }

  function Target(m: int): int {
    m * (m / 2)
  }

  /** A normalised input uses the whole width. */
  predicate Normalised(m: int, x: int) {
    m / 2 <= x < m
  }

  /** One Newton step, with the two truncating shifts. */
  function Newton(m: int, x: int, out: int): int
    requires m >= 2
  {
    out * (m - 1 - x * out / m) / (m / 2)
  }

  /** How far `x * out` is below the target. */
  function Error(m: int, x: int, out: int): int {
    Target(m) - x * out
  }

  /** The bounds of the correction factor. */
  lemma Factor(m: int, x: int, out: int)
    requires Scale(m) && Normalised(m, x) && 0 <= out < m
    ensures var t := m - 1 - x * out / m;
            && 1 <= t < m
            && m * m - x * out - m <= m * t < m * m - x * out
  {
    var p := x * out;
    MulMono(x, m - 1, out, m - 1);
    DivBounds(p, m);
    assert m * (m - 1 - p / m) == m * m - m - m * (p / m);
  }

  /** The final division, scaled by `x` and by `m`. */
  lemma DivisionScaled(m: int, h: int, x: int, out: int, t: int, out': int)
    requires m > 0 && x > 0 && h * out' <= out * t < h * out' + h
    ensures m * h * (x * out') <= m * (x * out * t) < m * h * (x * out') + m * h * x
  {
    Scaled(m * x, h * out', out * t);
    assert m * x > 0 by { ScaledStrictly(m, 0, x); }
    ScaledStrictly(m * x, out * t, h * out' + h);
    assert (m * x) * (h * out') == m * h * (x * out');
    assert (m * x) * (out * t) == m * (x * out * t);
    assert (m * x) * (h * out' + h) == m * h * (x * out') + m * h * x;
  }

  /** The truncated factor, scaled by `p`. */
  lemma FactorScaled(m: int, T: int, p: int, t: int)
    requires p >= 0 && 2 * T - p - m <= m * t < 2 * T - p
    ensures p * (2 * T - p) - p * m <= m * (p * t) <= p * (2 * T - p)
    ensures p > 0 ==> m * (p * t) < p * (2 * T - p)
  {
    assert p * (m * t) == m * (p * t);
    Scaled(p, m * t, 2 * T - p);
    Scaled(p, 2 * T - p - m, m * t);
    assert p * (2 * T - p - m) == p * (2 * T - p) - p * m;
    if p > 0 {
      ScaledStrictly(p, m * t, 2 * T - p);
    }
  }

  lemma LossBound(m: int, h: int, x: int, out: int)
    requires m == 2 * h && x > 0 && 0 <= out < m
    ensures x * out * m <= 2 * (m * h * x)
  {
    MulMono(0, x, 0, m);
    Scaled(x * m, out, m);
    assert (x * m) * out == x * out * m && (x * m) * m == 2 * (m * h * x);
  }

  /** `x` times the step, against the exact quadratic; T stands for m*h. */
  lemma ProductBounds(m: int, h: int, x: int, out: int, t: int, out': int)
    requires m == 2 * h && h > 0 && 0 < x && 0 <= out < m
    requires m * m - x * out - m <= m * t < m * m - x * out
    requires h * out' <= out * t < h * out' + h
    ensures var T, p := m * h, x * out;
            && p >= 0
            && p * (2 * T - p) - 3 * (T * x) < T * (x * out') <= p * (2 * T - p)
            && (p > 0 ==> T * (x * out') < p * (2 * T - p))
  {
    var T, p := m * h, x * out;
    MulMono(0, x, 0, out);
    assert m * m == 2 * T;
    DivisionScaled(m, h, x, out, t, out');
    FactorScaled(m, T, p, t);
    LossBound(m, h, x, out);
  }

  /** The quadratic in terms of the errors e = T - p and e' = T - q. */
  lemma ErrorForm(T: int, p: int, q: int, loss: int)
    requires T > 0 && p >= 0 && p * (2 * T - p) - loss < T * q <= p * (2 * T - p)
    requires p > 0 ==> T * q < p * (2 * T - p)
    requires p == 0 ==> q == 0
    ensures q < T
    ensures (T - p) * (T - p) <= T * (T - q) < (T - p) * (T - p) + loss
  {
    var e := T - p;
    assert p * (2 * T - p) == T * T - e * e;
    assert e * e >= 0;
    assert T * (T - q) == T * T - T * q;
    if q >= T {
      Scaled(T, T, q);
    }
  }

  /** One step from any value in range: the result is again in range and strictly below the true
      reciprocal, and its error is the square of the old one up to the loss of the two
      truncations, which is less than three times the input. */
  lemma NewtonStep(m: int, x: int, out: int)
    requires Scale(m) && Normalised(m, x) && 0 <= out < m
    ensures var out' := Newton(m, x, out);
            var e, e' := Error(m, x, out), Error(m, x, out');
            && 0 <= out' < m
            && e' > 0
            && e * e <= Target(m) * e' < e * e + 3 * (Target(m) * x)
  {
    var h, t := m / 2, m - 1 - x * out / m;
    var out' := Newton(m, x, out);
    Factor(m, x, out);
    MulMono(0, out, 1, t);
    DivBounds(out * t, h);
    ProductBounds(m, h, x, out, t, out');
    ZeroProducts(x, out, t, h);
    ErrorForm(Target(m), x * out, x * out', 3 * (Target(m) * x));
    InRange(m, h, x, out');
  }

  lemma ZeroProducts(x: int, out: int, t: int, h: int)
    requires x > 0 && out >= 0 && h > 0
    ensures x * out == 0 ==> x * (out * t / h) == 0
  {
    if out > 0 {
      ScaledStrictly(x, 0, out);
    }
  }

  lemma InRange(m: int, h: int, x: int, out: int)
    requires m == 2 * h && 0 < h <= x && out >= 0 && x * out < m * h
    ensures out < m
  {
    if out >= m {
      MulMono(h, x, m, out);
    }
  }

  /** The two Newton steps. */
  function Twice(m: int, x: int, entry: int): int
    requires m >= 2
  {
    Newton(m, x, Newton(m, x, entry))
  }

  /** Both steps: the final error in terms of the error of the table entry. */
  lemma TwoSteps(m: int, x: int, entry: int)
    requires Scale(m) && Normalised(m, x) && 0 <= entry < m
    ensures var out := Twice(m, x, entry);
            var T, e0, e2 := Target(m), Error(m, x, entry), Error(m, x, out);
            var b := e0 * e0 + 3 * (T * x);
            && 0 <= out < m && e2 > 0
            && T * T * T * e2 < b * b + 3 * (T * T * T * x)
  {
    var first := Newton(m, x, entry);
    NewtonStep(m, x, entry);
    NewtonStep(m, x, first);
    var T, e0, e1, e2 := Target(m), Error(m, x, entry), Error(m, x, first), Error(m, x, Newton(m, x, first));
    var b := e0 * e0 + 3 * (T * x);
    Compose(T, x, b, e1, e2);
  }

  lemma Compose(T: int, x: int, b: int, e1: int, e2: int)
    requires T > 0 && e1 > 0 && T * e1 < b && T * e2 < e1 * e1 + 3 * (T * x)
    ensures T * T * T * e2 < b * b + 3 * (T * T * T * x)
  {
    MulMono(0, T, 0, e1);
    MulMono(T * e1, b, T * e1, b);
    assert T * T > 0 by { ScaledStrictly(T, 0, T); }
    ScaledStrictly(T * T, T * e2, e1 * e1 + 3 * (T * x));
    Regroup(T, x, e1, e2);
  }

  lemma Regroup(T: int, x: int, e1: int, e2: int)
    ensures (T * T) * (T * e2) == T * T * T * e2
    ensures (T * T) * (e1 * e1 + 3 * (T * x)) == (T * e1) * (T * e1) + 3 * (T * T * T * x)
  {
  }

  lemma SquareWithin(a: int, b: int)
    requires -b <= a <= b
    ensures a * a <= b * b
  {
    if a >= 0 { MulMono(a, b, a, b); } else { MulMono(-a, b, -a, b); }
  }

  lemma DivideStrictly(T: int, a: int, b: int)
    requires T > 0 && T * a < T * b
    ensures a < b
  {
    if a >= b {
      Scaled(T, b, a);
    }
  }

  /** From an entry error of at most `a` to a result less than `k` units below the true reciprocal:
      `b` bounds the error after the first step. */
  lemma Units(T: int, x: int, a: int, b: int, k: int, e0: int, e1: int, e2: int)
    requires T > 0 && x > 0 && -a <= e0 <= a && e1 > 0
    requires T * e1 < e0 * e0 + 3 * (T * x) && T * e2 < e1 * e1 + 3 * (T * x)
    requires a * a + 3 * (T * x) <= T * b && b * b <= T * ((k - 3) * x)
    ensures e2 < k * x
  {
    SquareWithin(e0, a);
    DivideStrictly(T, e1, b);
    SquareWithin(e1, b);
    assert T * ((k - 3) * x) + 3 * (T * x) == T * (k * x) by { Collect(T, k, x); }
    DivideStrictly(T, e2, k * x);
  }

  lemma Collect(T: int, k: int, x: int)
    ensures T * ((k - 3) * x) + 3 * (T * x) == T * (k * x)
  {
    assert (k - 3) * x == k * x - 3 * x;
  }

  /** What an entry error of at most `a` gives after the two steps. */
  lemma WithinUnits(m: int, x: int, entry: int, a: int, b: int, k: int)
    requires Scale(m) && Normalised(m, x) && 0 <= entry < m && -a <= Error(m, x, entry) <= a
    requires var T := Target(m); a * a + 3 * (T * x) <= T * b && b * b <= T * ((k - 3) * x)
    ensures var out := Twice(m, x, entry); x * out < Target(m) < x * (out + k)
  {
    var first := Newton(m, x, entry);
    NewtonStep(m, x, entry);
    NewtonStep(m, x, first);
    var out := Newton(m, x, first);
    hide Newton;
    Units(Target(m), x, a, b, k, Error(m, x, entry), Error(m, x, first), Error(m, x, out));
    Distribute(x, out, k);
  }

  lemma Distribute(x: int, out: int, k: int)
    ensures x * (out + k) == x * out + k * x
  {
  }

  /** With table entries good to one part in 64, a Q15 reciprocal is less than 4 units in the
      last place below the true one, and never above it. */
  lemma WithinFourUnits(x: int, entry: int)
    requires Normalised(Q15_ONE, x) && 0 <= entry < Q15_ONE
    requires -0x80_0000 <= Error(Q15_ONE, x, entry) <= 0x80_0000
    ensures var out := Twice(Q15_ONE, x, entry); x * out < 0x2000_0000 < x * (out + 4)
  {
    Q15Bounds(x);
    hide Twice, Error;
    WithinUnits(Q15_ONE, x, entry, 0x80_0000, 0x3_8000, 4);
  }

  lemma Q15Bounds(x: int)
    requires Normalised(Q15_ONE, x)
    ensures Target(Q15_ONE) == 0x2000_0000
    ensures var T, a, b := Target(Q15_ONE), 0x80_0000, 0x3_8000;
            a * a + 3 * (T * x) <= T * b && b * b <= T * ((4 - 3) * x)
  {
  }

  /** A Q31 reciprocal is then less than 132 units below, and with entries good to one part in 128
      less than 12: two steps do not use up the longer word. */
  lemma WithinUnitsQ31(x: int, entry: int)
    requires Normalised(Q31_ONE, x) && 0 <= entry < Q31_ONE
    ensures var T, e, out := 0x2000_0000_0000_0000, Error(Q31_ONE, x, entry), Twice(Q31_ONE, x, entry);
            && Target(Q31_ONE) == T
            && (-(T / 64) <= e <= T / 64 ==> x * out < T < x * (out + 132))
            && (-(T / 128) <= e <= T / 128 ==> x * out < T < x * (out + 12))
  {
    Q31Bounds(x);
    hide Twice, Error;
    var T, e := 0x2000_0000_0000_0000, Error(Q31_ONE, x, entry);
    if -(T / 64) <= e <= T / 64 {
      WithinUnits(Q31_ONE, x, entry, 0x80_0000_0000_0000, 0x2_0001_8000_0000, 132);
    }
    if -(T / 128) <= e <= T / 128 {
      WithinUnits(Q31_ONE, x, entry, 0x40_0000_0000_0000, 0x8001_8000_0000, 12);
    }
  }

  lemma Q31Bounds(x: int)
    requires Normalised(Q31_ONE, x)
    ensures Target(Q31_ONE) == 0x2000_0000_0000_0000
    ensures var T, a, b := Target(Q31_ONE), 0x80_0000_0000_0000, 0x2_0001_8000_0000;
            a * a + 3 * (T * x) <= T * b && b * b <= T * ((132 - 3) * x)
    ensures var T, a, b := Target(Q31_ONE), 0x40_0000_0000_0000, 0x8001_8000_0000;
            a * a + 3 * (T * x) <= T * b && b * b <= T * ((12 - 3) * x)
  {
  }

  // -------- the library functions --------

  /** The software __CLZ: moves a one-bit mask down until it meets a set bit. */
  method CountLeadingZeros(data: int) returns (count: nat)
    requires 0 < data < 0x1_0000_0000
    ensures count < 32
    ensures Pow2(31 - count) <= data < 2 * Pow2(31 - count)
  {
    count := 0;
    var mask := 0x8000_0000;
    assert mask == Pow2(31) by { Pow2Values(); }
    while data / mask % 2 == 0
      invariant count < 32 && mask == Pow2(31 - count)
      invariant data < 2 * mask
      decreases 31 - count
    {
      assert data < mask by { QuotientBit(data, mask); }
      count := count + 1;
      mask := mask / 2;
    }
    QuotientBit(data, mask);
  }

  lemma QuotientBit(data: int, mask: int)
    requires 0 <= data < 2 * mask
    ensures data / mask % 2 == 0 <==> data < mask
  {
    DivBounds(data, mask);
    if data < mask {
      assert data / mask == 0;
    } else {
      assert data / mask == 1;
    }
  }

  /** The C conversions to uint32_t, int16_t and int32_t. */
  function AsUint32(v: int): int {
    v % 0x1_0000_0000
  }

  function AsInt16(v: int): int {
    var low := v % 0x1_0000;
    if low < 0x8000 then low else low - 0x1_0000
  }

  function AsInt32(v: int): int {
    var low := v % 0x1_0000_0000;
    if low < 0x8000_0000 then low else low - 0x1_0000_0000
  }

  /** `clip_q63_to_q31`: compares the high word with the sign of the low word; the exclusive or
      with the sign of `x` picks the bound. */
  function ClipQ63ToQ31(x: int): int
    requires -0x8000_0000_0000_0000 <= x < 0x8000_0000_0000_0000
  {
    var high := AsInt32(x / 0x1_0000_0000);
    var signOfLow := if AsInt32(x) < 0 then -1 else 0;
    if high != signOfLow then (if x < 0 then -0x8000_0000 else 0x7FFF_FFFF) else AsInt32(x)
  }

  /** It saturates, for every 64-bit value. */
  lemma ClipSaturates(x: int)
    requires -0x8000_0000_0000_0000 <= x < 0x8000_0000_0000_0000
    ensures ClipQ63ToQ31(x) == if x > 0x7FFF_FFFF then 0x7FFF_FFFF else if x < -0x8000_0000 then -0x8000_0000 else x
  {
  }

  /** The shift that normalises an input whose leading zeros have been counted. */
  lemma Normalises(input: int, count: nat, width: nat)
    requires count < 32 && width < 31 && Pow2(31 - count) <= input < 2 * Pow2(31 - count)
    requires 0 < input < 2 * Pow2(width)
    ensures count >= 31 - width
    ensures Pow2(width) <= input * Pow2(count - (31 - width)) < 2 * Pow2(width)
  {
    if 31 - count > width {
      Pow2Monotone(width, 31 - count);
      assert false;
    }
    Pow2Sum(31 - count, count - (31 - width));
    ScaledUp(Pow2(31 - count), input, Pow2(count - (31 - width)));
  }

  lemma ScaledUp(p: int, input: int, s: int)
    requires p <= input < 2 * p && s > 0
    ensures p * s <= input * s < 2 * (p * s)
  {
    Scaled(s, p, input);
    ScaledStrictly(s, input, 2 * p);
    assert s * (2 * p) == 2 * (p * s);
  }

  /** The Q15 step as the C code computes it. */
  function StepQ15(x: int, out: int): int {
    var t := AsUint32(0x7FFF - AsUint32(x * out / 0x8000));
    AsInt16(AsUint32(out * t) / 0x4000)
  }

  /** The Q31 step as the C code computes it; from a value that is not negative it never gives a
      negative one. */
  function StepQ31(x: int, out: int): (result: int)
    requires -Q31_ONE <= out < Q31_ONE
    ensures -Q31_ONE <= result < Q31_ONE
    ensures out >= 0 ==> result >= 0
  {
    var t := AsUint32(0x7FFF_FFFF - AsUint32(x * out / 0x8000_0000));
    Fits63(out, t);
    ClipSaturates(out * t / 0x4000_0000);
    ClipQ63ToQ31(out * t / 0x4000_0000)
  }

  lemma Fits63(out: int, t: int)
    requires -Q31_ONE <= out < Q31_ONE && 0 <= t < 0x1_0000_0000
    ensures -0x8000_0000_0000_0000 <= out * t < 0x8000_0000_0000_0000
    ensures out >= 0 ==> out * t >= 0
  {
    if out >= 0 {
      MulMono(0, out, 0, t);
      MulMono(out, Q31_ONE, t, 0xFFFF_FFFF);
    } else {
      MulMono(0, -out, 0, t);
      MulMono(-out, Q31_ONE, t, 0xFFFF_FFFF);
      assert (-out) * t == -(out * t);
    }
  }

  /** No conversion changes a value: the products do not wrap, the casts do not truncate and the
      clip never fires. */
  lemma StepQ15IsExact(x: int, out: int)
    requires Normalised(Q15_ONE, x) && 0 <= out < Q15_ONE
    ensures StepQ15(x, out) == Newton(Q15_ONE, x, out)
    ensures 0 <= StepQ15(x, out) < Q15_ONE
  {
    Factor(Q15_ONE, x, out);
    NewtonStep(Q15_ONE, x, out);
    MulMono(0, x, 0, out);
    var t := 0x7FFF - x * out / 0x8000;
    assert AsUint32(0x7FFF - AsUint32(x * out / 0x8000)) == t by { DivBounds(x * out, 0x8000); }
    MulMono(0, out, 0, t);
    MulMono(out, 0x8000, t, 0x8000);
    Truncations(out * t);
  }

  lemma Truncations(product: int)
    requires 0 <= product < 0x1_0000_0000 && product / 0x4000 < 0x8000
    ensures AsInt16(AsUint32(product) / 0x4000) == product / 0x4000
  {
  }

  lemma StepQ31IsExact(x: int, out: int)
    requires Normalised(Q31_ONE, x) && 0 <= out < Q31_ONE
    ensures StepQ31(x, out) == Newton(Q31_ONE, x, out)
    ensures 0 <= StepQ31(x, out) < Q31_ONE
  {
    Factor(Q31_ONE, x, out);
    NewtonStep(Q31_ONE, x, out);
    MulMono(0, x, 0, out);
    var t := 0x7FFF_FFFF - x * out / 0x8000_0000;
    assert AsUint32(0x7FFF_FFFF - AsUint32(x * out / 0x8000_0000)) == t by { DivBounds(x * out, 0x8000_0000); }
    ClipSaturates(Newton(Q31_ONE, x, out));
    hide AsUint32, ClipQ63ToQ31;
  }

  /** For every input and every value, also negative ones, the Q15 step is Newton's step cut to 16 bits
      in two's complement. */
  lemma StepQ15Truncates(x: int, out: int)
    ensures -0x8000 <= StepQ15(x, out) < 0x8000
    ensures (StepQ15(x, out) - Newton(Q15_ONE, x, out)) % 0x1_0000 == 0
  {
    var p, t := x * out / 0x8000, 0x7FFF - x * out / 0x8000;
    var u := AsUint32(0x7FFF - AsUint32(p));
    var j := Wrapped(0x7FFF - AsUint32(p));
    var k := Wrapped(p);
    assert u == t + (k - j) * 0x1_0000_0000;
    assert out * u == out * t + (out * (k - j)) * 0x1_0000_0000;
    var l := Wrapped(out * u);
    QuotientMoves(out * t, out * (k - j) - l);
    var q := out * t / 0x4000 + (out * (k - j) - l) * 0x4_0000;
    assert AsUint32(out * u) / 0x4000 == q;
    CastMoves(q, out * t / 0x4000, (out * (k - j) - l) * 4);
  }

  lemma Wrapped(v: int) returns (k: int)
    ensures AsUint32(v) == v - k * 0x1_0000_0000
  {
    k := v / 0x1_0000_0000;
  }

  lemma QuotientMoves(v: int, k: int)
    ensures (v + k * 0x1_0000_0000) / 0x4000 == v / 0x4000 + k * 0x4_0000
  {
    DivModUnique(v + k * 0x1_0000_0000, v / 0x4000 + k * 0x4_0000, v % 0x4000, 0x4000);
  }

  lemma CastMoves(q: int, n: int, k: int)
    requires q == n + k * 0x1_0000
    ensures -0x8000 <= AsInt16(q) < 0x8000 && (AsInt16(q) - n) % 0x1_0000 == 0
  {
    var e := q / 0x1_0000;
    assert q % 0x1_0000 == q - e * 0x1_0000;
    DivModUnique(AsInt16(q) - n, k - e - (if q % 0x1_0000 < 0x8000 then 0 else 1), 0, 0x1_0000);
  }

  /** From a normalised negative input and a value that is not negative, the Q31 step is Newton's step,
      saturated. */
  lemma StepQ31Saturates(x: int, out: int)
    requires Normalised(Q31_ONE, -x) && 0 <= out < Q31_ONE
    ensures var n := Newton(Q31_ONE, x, out); StepQ31(x, out) == if n > 0x7FFF_FFFF then 0x7FFF_FFFF else n
  {
    MulMono(0, -x, 0, out);
    assert (-x) * out == -(x * out);
    MulMono(-x, Q31_ONE, out, Q31_ONE);
    var p, t := x * out / 0x8000_0000, 0x7FFF_FFFF - x * out / 0x8000_0000;
    assert -0x8000_0000 <= p <= 0;
    assert AsUint32(0x7FFF_FFFF - AsUint32(p)) == t;
    Fits63(out, t);
    ClipSaturates(out * t / 0x4000_0000);
    hide ClipQ63ToQ31;
  }

  predicate Table(m: int, table: seq<int>) {
    |table| == TABLE_LENGTH && forall i :: 0 <= i < |table| ==> 0 <= table[i] < m
  }

  /** What both functions promise for a positive input, with the table entry they start from: the
      normalised input uses the whole width, `dst` is strictly below its true reciprocal, and the
      error is bounded by that of the entry. */
  predicate IsReciprocal(m: int, x: int, entry: int, dst: int) {
    var T, e0, e2 := Target(m), Error(m, x, entry), Error(m, x, dst);
    var b := e0 * e0 + 3 * (T * x);
    && Normalised(m, x)
    && 0 <= dst < m && e2 > 0
    && T * T * T * e2 < b * b + 3 * (T * T * T * x)
  }

  /** The steps of the C code are the two Newton steps, and their result is a reciprocal. */
  lemma StepsQ15(x: int, entry: int)
    requires Normalised(Q15_ONE, x) && 0 <= entry < Q15_ONE
    ensures StepQ15(x, StepQ15(x, entry)) == Twice(Q15_ONE, x, entry)
    ensures IsReciprocal(Q15_ONE, x, entry, Twice(Q15_ONE, x, entry))
  {
    hide StepQ15, Newton;
    StepQ15IsExact(x, entry);
    StepQ15IsExact(x, StepQ15(x, entry));
    TwoSteps(Q15_ONE, x, entry);
  }

  lemma StepsQ31(x: int, entry: int)
    requires Normalised(Q31_ONE, x) && 0 <= entry < Q31_ONE
    ensures StepQ31(x, StepQ31(x, entry)) == Twice(Q31_ONE, x, entry)
    ensures IsReciprocal(Q31_ONE, x, entry, Twice(Q31_ONE, x, entry))
  {
    hide StepQ31, Newton;
    StepQ31IsExact(x, entry);
    StepQ31IsExact(x, StepQ31(x, entry));
    TwoSteps(Q31_ONE, x, entry);
  }

  lemma WrongSide(x: int, out: int)
    requires x < 0 <= out
    ensures Error(Q31_ONE, x, out) >= Target(Q31_ONE)
  {
    MulMono(0, -x, 0, out);
    assert (-x) * out == -(x * out);
  }

  /** The shift that normalises the magnitude normalises the input. */
  lemma MagnitudeNormalises(input: int, count: nat, width: nat)
    requires input != 0 && count < 32 && width < 31
    requires var n := if input > 0 then input else -input;
             Pow2(31 - count) <= n < 2 * Pow2(31 - count) && n < 2 * Pow2(width)
    ensures count >= 31 - width
    ensures var x := input * Pow2(count - (31 - width));
            if input > 0 then Pow2(width) <= x < 2 * Pow2(width) else Pow2(width) <= -x < 2 * Pow2(width)
  {
    var n := if input > 0 then input else -input;
    Normalises(n, count, width);
    if input < 0 {
      assert (-input) * Pow2(count - (31 - width)) == -(input * Pow2(count - (31 - width)));
    }
  }

  /** How both functions begin: the input shifted up to the whole width. */
  method Normalise(input: int, width: nat) returns (shift: nat, x: int)
    requires input != 0 && width < 31 && -2 * Pow2(width) < input < 2 * Pow2(width) <= 0x8000_0000
    ensures x == input * Pow2(shift)
    ensures if input > 0 then Pow2(width) <= x < 2 * Pow2(width) else Pow2(width) <= -x < 2 * Pow2(width)
  {
    var count := CountLeadingZeros(if input > 0 then input else -input);
    MagnitudeNormalises(input, count, width);
    shift := count - (31 - width);
    x := input * Pow2(shift);
  }

  lemma CastsFit(v: int)
    ensures -0x8000 <= v < 0x8000 ==> AsInt16(v) == v
    ensures -0x8000_0000 <= v < 0x8000_0000 ==> AsInt32(v) == v
  {
  }

  /** `arm_recip_q15`; returns the shift plus one, and the reciprocal of a positive input.  A
      negative one is normalised too, but the steps are those for a positive one. */
  method RecipQ15(input: int, table: seq<int>) returns (signBits: nat, dst: int)
    requires -Q15_ONE < input < Q15_ONE && input != 0 && Table(Q15_ONE, table)
    ensures signBits >= 1
    ensures var x := input * Pow2(signBits - 1);
            var entry := table[x / 256 % TABLE_LENGTH];
            && (input > 0 ==> IsReciprocal(Q15_ONE, x, entry, dst) && dst == Twice(Q15_ONE, x, entry))
            && (input < 0 ==> Normalised(Q15_ONE, -x) && dst == StepQ15(x, StepQ15(x, entry)))
  {
    hide IsReciprocal, Newton, Twice, Error, StepQ15, StepQ31;
    Pow2Values();
    var shift, shifted := Normalise(input, 14);
    hide Pow2, AsInt16;
    CastsFit(shifted);
    var x := AsInt16(shifted);
    var index := x / 256 % TABLE_LENGTH;
    var out := table[index];
    ghost var entry := out;
    for i := 0 to 2
      invariant i == 0 ==> out == entry
      invariant i == 1 ==> out == StepQ15(x, entry)
      invariant i == 2 ==> out == StepQ15(x, StepQ15(x, entry))
    {
      out := StepQ15(x, out);
    }
    if input > 0 {
      StepsQ15(x, entry);
    }
    dst := out;
    signBits := shift + 1;
  }

  /** `arm_recip_q31`.  For a negative input the result is on the wrong side of zero, and at least
      as far off as zero itself. */
  method RecipQ31(input: int, table: seq<int>) returns (signBits: nat, dst: int)
    requires -Q31_ONE < input < Q31_ONE && input != 0 && Table(Q31_ONE, table)
    ensures signBits >= 1
    ensures var x := input * Pow2(signBits - 1);
            var entry := table[x / 0x100_0000 % TABLE_LENGTH];
            && (input > 0 ==> IsReciprocal(Q31_ONE, x, entry, dst) && dst == Twice(Q31_ONE, x, entry))
            && (input < 0 ==> Normalised(Q31_ONE, -x) && Error(Q31_ONE, x, dst) >= Target(Q31_ONE)
                              && dst == StepQ31(x, StepQ31(x, entry)))
  {
    hide IsReciprocal, Newton, Twice, Error, StepQ15, StepQ31;
    Pow2Values();
    var shift, shifted := Normalise(input, 30);
    hide Pow2, AsInt32;
    CastsFit(shifted);
    var x := AsInt32(shifted);
    var index := x / 0x100_0000 % TABLE_LENGTH;
    var out := table[index];
    ghost var entry := out;
    for i := 0 to 2
      invariant 0 <= out < Q31_ONE
      invariant i == 0 ==> out == entry
      invariant i == 1 ==> out == StepQ31(x, entry)
      invariant i == 2 ==> out == StepQ31(x, StepQ31(x, entry))
    {
      out := StepQ31(x, out);
    }
    if input > 0 {
      StepsQ31(x, entry);
    } else {
      WrongSide(x, out);
    }
    dst := out;
    signBits := shift + 1;
  }
}
