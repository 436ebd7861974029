/** The Q15 PID controller of the DSP library, in its form for the Cortex-M0, and what it
    computes over whole runs. */
module Pid {
  import opened Arithmetic
  import opened Words

  type Q15 = x: int | -0x8000 <= x < 0x8000

  const ONE: int := 0x8000

  /** Division by 2^15 that rounds down, as an arithmetic shift does. */
  function Shift15(acc: int): int {
    acc / ONE
  }

  function Clamp(v: int, low: int, high: int): int
    requires low <= high
  {
    if v < low then low else if v > high then high else v
  }

  function Distance(u: int, v: int): int {
    if u <= v then v - u else u - v
  }

  /** `r` is in the range, and no value of the range is closer to `x`. */
  ghost predicate Nearest(r: int, x: int, low: int, high: int) {
    low <= r <= high && forall u :: low <= u <= high ==> Distance(r, x) <= Distance(u, x)
  }

  lemma ClampIsNearest(x: int, low: int, high: int)
    requires low <= high
    ensures Nearest(Clamp(x, low, high), x, low, high)
  {
  }

  /** `__SSAT` for the widths of a 32-bit word: the bound is built by doubling, which stays within
      a word. */
  method Ssat(x: int, width: nat) returns (r: int)
    requires 1 <= width <= 31 && -0x8000_0000 <= x < 0x8000_0000
    ensures r == Clamp(x, -Pow2(width - 1), Pow2(width - 1) - 1)
    ensures Nearest(r, x, -Pow2(width - 1), Pow2(width - 1) - 1)
  {
    ClampIsNearest(x, -Pow2(width - 1), Pow2(width - 1) - 1);
    hide Nearest;
    Pow2Values();
    var posMax := 1;
    for i := 0 to width - 1
      invariant posMax == Pow2(i) && posMax <= 0x4000_0000
    {
      if i + 1 < 30 {
        Pow2Monotone(i + 1, 30);
      }
      posMax := posMax * 2;
    }
    r := x;
    if r > 0 {
      posMax := posMax - 1;
      if r > posMax {
        r := posMax;
      }
    } else {
      var negMin := -posMax;
      if r < negMin {
        r := negMin;
      }
    }
  }

  /** The gains of a controller. */
  datatype Gains = Gains(a0: Q15, a1: Q15, a2: Q15)

  /** The delay line: the last two inputs and the last output. */
  datatype Delay = Delay(x1: Q15, x2: Q15, y1: Q15)

  const REST: Delay := Delay(0, 0, 0)

  function Accumulator(g: Gains, s: Delay, x: Q15): int {
    (g.a0 as int) * x + (g.a1 as int) * s.x1 + (g.a2 as int) * s.x2 + (s.y1 as int) * ONE
  }

  function Output(g: Gains, s: Delay, x: Q15): Q15 {
    Clamp(Shift15(Accumulator(g, s, x)), -0x8000, 0x7FFF)
  }

  /** `y` is the accumulator in units of 2^15, rounded down, or the bound of the Q15 range that the
      accumulator is beyond. */
  predicate Saturated(acc: int, y: int) {
    || 0x8000 * y <= acc < 0x8000 * y + 0x8000
    || (y == 0x7FFF && acc >= 0x8000 * 0x8000)
    || (y == -0x8000 && acc < 0x8000 * -0x8000)
  }

  /** In every state the output is the accumulator, truncated and saturated. */
  lemma OutputSaturates(g: Gains, s: Delay, x: Q15)
    ensures Saturated(Accumulator(g, s, x), Output(g, s, x))
  {
    hide Accumulator;
  }

  function Advance(g: Gains, s: Delay, x: Q15): Delay {
    Delay(x, s.x1, Output(g, s, x))
  }

  lemma ProductBound(a: int, b: int)
    requires -0x8000 <= a <= 0x8000 && -0x8000 <= b <= 0x8000
    ensures -0x4000_0000 <= a * b <= 0x4000_0000
  {
    var u, v := if a < 0 then -a else a, if b < 0 then -b else b;
    MulMono(u, 0x8000, v, 0x8000);
    assert a * b == u * v || a * b == -(u * v) by {
      if a < 0 { assert (-a) * b == -(a * b) && (-a) * (-b) == a * b; } else { assert a * (-b) == -(a * b); }
    }
  }

  /** Nothing overflows in any state, saturated or not: every product and the scaled output fit a
      32-bit word, the accumulator stays far inside its 64 bits, and the argument of the
      saturation fits a word. */
  lemma NoOverflow(g: Gains, s: Delay, x: Q15)
    ensures FitsWord((g.a0 as int) * x) && FitsWord((g.a1 as int) * s.x1) && FitsWord((g.a2 as int) * s.x2)
    ensures FitsWord((s.y1 as int) * ONE)
    ensures -0x1_0000_0000 <= Accumulator(g, s, x) <= 0x1_0000_0000
    ensures FitsWord(Shift15(Accumulator(g, s, x)))
  {
    ProductBound(g.a0, x);
    ProductBound(g.a1, s.x1);
    ProductBound(g.a2, s.x2);
  }

  /** `arm_pid_instance_q15` and `arm_pid_q15`. */
  class Instance {
    var A0: Q15
    var A1: Q15
    var A2: Q15
    const state: array<Q15>

    ghost predicate Valid()
      reads this
    {
      state.Length == 3
    }

    ghost function Gain(): Gains
      reads this
    {
      Gains(A0, A1, A2)
    }

    ghost function Line(): Delay
      requires Valid()
      reads this, state
    {
      Delay(state[0], state[1], state[2])
    }

    constructor (A0: Q15, A1: Q15, A2: Q15)
      ensures Valid() && fresh(state) && Gain() == Gains(A0, A1, A2) && Line() == REST
    {
      this.A0 := A0;
      this.A1 := A1;
      this.A2 := A2;
      state := new Q15[3](i => 0);
    }

    method Process(x: Q15) returns (out: Q15)
      requires Valid()
      modifies state
      ensures out == Output(Gain(), old(Line()), x)
      ensures Line() == Advance(Gain(), old(Line()), x)
      ensures Saturated(Accumulator(Gain(), old(Line()), x), out)
    {
      OutputSaturates(Gain(), Line(), x);
      NoOverflow(Gain(), Line(), x);
      var acc := (A0 as int) * x;
      acc := acc + (A1 as int) * state[0];
      acc := acc + (A2 as int) * state[1];
      acc := acc + (state[2] as int) * ONE;
      Pow2Values();
      hide Pow2, Saturated, Nearest;
      out := Ssat(acc / ONE, 16);
      state[1] := state[0];
      state[0] := x;
      state[2] := out;
    }
  }

  // -------- whole runs from rest --------

  function After(g: Gains, xs: seq<Q15>): Delay {
    if xs == [] then REST else Advance(g, After(g, xs[..|xs| - 1]), xs[|xs| - 1])
  }

  function Sum(xs: seq<Q15>): int {
    if xs == [] then 0 else Sum(xs[..|xs| - 1]) + xs[|xs| - 1]
  }

  /** The `k`th last input, zero before the first one. */
  function Last(xs: seq<Q15>, k: nat): Q15 {
    if k < |xs| then xs[|xs| - 1 - k] else 0
  }

  /** The gains of a controller with proportional, integral and derivative constants. */
  predicate Tuned(g: Gains, kp: int, ki: int, kd: int) {
    && g.a0 as int == kp + ki + kd
    && g.a1 as int == -kp - 2 * kd
    && g.a2 as int == kd
  }

  /** The textbook controller: proportional, integral and derivative terms of the inputs. */
  function Position(kp: int, ki: int, kd: int, xs: seq<Q15>): int {
    kp * Last(xs, 0) + ki * Sum(xs) + kd * (Last(xs, 0) - Last(xs, 1))
  }

  /** What the output discards of the accumulator: the truncated bits, and what was clamped. */
  function Discarded(g: Gains, s: Delay, x: Q15): int {
    Accumulator(g, s, x) - ONE * (Output(g, s, x) as int)
  }

  function TotalDiscarded(g: Gains, xs: seq<Q15>): int {
    if xs == [] then 0
    else
      var n := |xs| - 1;
      TotalDiscarded(g, xs[..n]) + Discarded(g, After(g, xs[..n]), xs[n])
  }

  lemma {:induction false} DelayLine(g: Gains, xs: seq<Q15>)
    ensures After(g, xs).x1 == Last(xs, 0) && After(g, xs).x2 == Last(xs, 1)
  {
    if xs != [] {
      var before := xs[..|xs| - 1];
      DelayLine(g, before);
      assert Last(xs, 1) == Last(before, 0);
    }
  }

  lemma Telescopes(kp: int, ki: int, kd: int, x: int, x1: int, x2: int, sum: int)
    ensures kp * x + ki * (sum + x) + kd * (x - x1)
         == kp * x1 + ki * sum + kd * (x1 - x2) + (kp + ki + kd) * x + (-kp - 2 * kd) * x1 + kd * x2
  {
    assert ki * (sum + x) == ki * sum + ki * x;
    assert kd * (x - x1) == kd * x - kd * x1 && kd * (x1 - x2) == kd * x1 - kd * x2;
    assert (kp + ki + kd) * x == kp * x + ki * x + kd * x;
    assert (-kp - 2 * kd) * x1 == -(kp * x1) - 2 * (kd * x1);
  }

  /** On every run, saturated or not, the textbook value is the output plus exactly what the
      steps have discarded: the recursion loses nothing else. */
  lemma {:induction false} VelocityIsPosition(g: Gains, kp: int, ki: int, kd: int, xs: seq<Q15>)
    requires Tuned(g, kp, ki, kd)
    ensures Position(kp, ki, kd, xs) == ONE * (After(g, xs).y1 as int) + TotalDiscarded(g, xs)
  {
    if xs == [] {
      assert kp * 0 == 0 && ki * 0 == 0 && kd * 0 == 0;
    } else {
      var n := |xs| - 1;
      var before, s, x := xs[..n], After(g, xs[..n]), xs[n];
      VelocityIsPosition(g, kp, ki, kd, before);
      DelayLine(g, before);
      Telescopes(kp, ki, kd, x, s.x1, s.x2, Sum(before));
      assert Last(xs, 1) == Last(before, 0) == s.x1;
      assert Last(before, 1) == s.x2;
      assert Position(kp, ki, kd, xs) == Position(kp, ki, kd, before) + Accumulator(g, s, x) - ONE * (s.y1 as int);
    }
  }

  /** No step of the run was clamped. */
  predicate Unsaturated(g: Gains, xs: seq<Q15>) {
    xs == [] ||
    (var n := |xs| - 1;
     Unsaturated(g, xs[..n]) && -0x8000 <= Shift15(Accumulator(g, After(g, xs[..n]), xs[n])) <= 0x7FFF)
  }

  lemma {:induction false} TruncationLoss(g: Gains, xs: seq<Q15>)
    requires Unsaturated(g, xs)
    ensures 0 <= TotalDiscarded(g, xs) <= (ONE - 1) * |xs|
  {
    if xs != [] {
      TruncationLoss(g, xs[..|xs| - 1]);
    }
  }

  /** Without saturation the output is the textbook value rounded down, at most one unit lower
      for each step taken. */
  lemma OutputBracketsPosition(g: Gains, kp: int, ki: int, kd: int, xs: seq<Q15>)
    requires Tuned(g, kp, ki, kd) && Unsaturated(g, xs) && xs != []
    ensures var y := After(g, xs).y1 as int;
            ONE * y <= Position(kp, ki, kd, xs) < ONE * (y + |xs|)
  {
    VelocityIsPosition(g, kp, ki, kd, xs);
    TruncationLoss(g, xs);
  }
}
