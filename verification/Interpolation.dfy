/** Linear interpolation in a table, with a 12.20 fixed-point argument. */
module Interpolation {
  import opened Words

  const STEP: int := 0x10_0000
  /** The weight of a whole segment is one less than the step, as the source has it. */
  const WEIGHT: int := 0xF_FFFF

  /** A table whose entries fit `half` below and above zero: 2^15 for q15, 2^7 for q7. */
  predicate Table(t: seq<int>, half: int) {
    |t| >= 1 && forall i :: 0 <= i < |t| ==> -half <= t[i] < half
  }

  predicate Nondecreasing(t: seq<int>) {
    forall i, j :: 0 <= i <= j < |t| ==> t[i] <= t[j]
  }

  /** A point inside a segment. */
  function Blend(y0: int, y1: int, fract: int): int {
    (y0 * (WEIGHT - fract) + y1 * fract) / STEP
  }

  /** `arm_linear_interp_q15`: tests the end of the table before the sign of the index. */
  function InterpQ15(t: seq<int>, x: int): int
    requires |t| >= 1
  {
    var index := x / STEP;
    if index >= |t| - 1 then t[|t| - 1]
    else if index < 0 then t[0]
    else Blend(t[index], t[index + 1], x % STEP)
  }

  /** `arm_linear_interp_q7`: tests the sign of the argument first. */
  function InterpQ7(t: seq<int>, x: int): int
    requires |t| >= 1
  {
    if x < 0 then t[0]
    else
      var index := x / STEP % 0x1000;
      if index >= |t| - 1 then t[|t| - 1]
      else Blend(t[index], t[index + 1], x % STEP)
  }

  /** The two are the same function of the table. */
  lemma BothWidthsAgree(t: seq<int>, x: int)
    requires |t| >= 1 && FitsWord(x)
    ensures InterpQ15(t, x) == InterpQ7(t, x)
  {
    assert x >= 0 ==> x / STEP < 0x800;
  }

  lemma Weighted(y: int, w: int, low: int, high: int)
    requires low <= y <= high && w >= 0
    ensures low * w <= y * w <= high * w
  {
  }

  /** A point of a segment is at most one below the smaller end and never above the larger. */
  lemma BlendIsTight(y0: int, y1: int, fract: int)
    requires 0 <= fract <= WEIGHT
    requires -STEP < y0 < STEP && -STEP < y1 < STEP
    ensures var low, high := if y0 <= y1 then y0 else y1, if y0 <= y1 then y1 else y0;
            && low - 1 <= Blend(y0, y1, fract) <= high
            && (low <= 0 ==> low <= Blend(y0, y1, fract))
  {
    var low, high := if y0 <= y1 then y0 else y1, if y0 <= y1 then y1 else y0;
    Weighted(y0, WEIGHT - fract, low, high);
    Weighted(y1, fract, low, high);
    var n := y0 * (WEIGHT - fract) + y1 * fract;
    assert low * (WEIGHT - fract) + low * fract == low * WEIGHT;
    assert high * (WEIGHT - fract) + high * fract == high * WEIGHT;
    assert low * STEP - low <= n <= high * STEP - high;
  }

  /** Every result is between the neighbouring entries, one below at most, and so fits the
      width of the table: the final cast changes nothing. */
  lemma ResultIsTight(t: seq<int>, x: int, half: int)
    requires Table(t, half) && 0 < half < STEP && FitsWord(x)
    ensures var i := if x < 0 then 0 else if x / STEP >= |t| - 1 then |t| - 1 else x / STEP;
            var j := if x < 0 || i == |t| - 1 then i else i + 1;
            var low, high := if t[i] <= t[j] then t[i] else t[j], if t[i] <= t[j] then t[j] else t[i];
            low - 1 <= InterpQ15(t, x) <= high
    ensures -half <= InterpQ15(t, x) < half
  {
    var index := x / STEP;
    if 0 <= index < |t| - 1 {
      BlendIsTight(t[index], t[index + 1], x % STEP);
    }
  }

  /** The interpolation is linear: inside a segment the result is the chord, whose weights add up to
      a whole step, less the unit of weight that the source leaves out, and rounded down.  Before the
      table and behind it the result is the entry at that end. */
  lemma IsChord(t: seq<int>, x: int)
    requires |t| >= 1 && FitsWord(x)
    ensures x < 0 ==> InterpQ15(t, x) == InterpQ7(t, x) == t[0]
    ensures x >= (|t| - 1) * 0x10_0000 ==> InterpQ15(t, x) == InterpQ7(t, x) == t[|t| - 1]
    ensures 0 <= x < (|t| - 1) * 0x10_0000 ==>
              var i, f, y := x / 0x10_0000, x % 0x10_0000, InterpQ15(t, x);
              var chord := t[i] * (0x10_0000 - f) + t[i + 1] * f;
              y == InterpQ7(t, x) && 0x10_0000 * y <= chord - t[i] < 0x10_0000 * y + 0x10_0000
  {
    BothWidthsAgree(t, x);
    var i, f := x / STEP, x % STEP;
    if 0 <= x < (|t| - 1) * STEP {
      assert t[i] * (STEP - f) == t[i] * (WEIGHT - f) + t[i];
    }
  }

  /** The last point of a segment is the first point of the next one. */
  lemma SegmentsMeet(y0: int, y1: int, y2: int)
    ensures Blend(y0, y1, WEIGHT) == Blend(y1, y2, 0)
  {
    assert y0 * 0 == 0 && y2 * 0 == 0;
  }

  lemma BlendMonotone(y0: int, y1: int, f: int, g: int)
    requires y0 <= y1 && 0 <= f <= g <= WEIGHT
    ensures Blend(y0, y1, f) <= Blend(y0, y1, g)
  {
    var d := y1 - y0;
    assert y0 * (WEIGHT - f) + y1 * f == y0 * WEIGHT + d * f;
    assert y0 * (WEIGHT - g) + y1 * g == y0 * WEIGHT + d * g;
    Weighted(f, d, 0, g);
    assert d * f <= d * g;
  }

  /** The value where segment `i` begins. */
  function Corner(t: seq<int>, i: nat): int
    requires i < |t|
  {
    Blend(t[i], t[i], 0)
  }

  lemma InSegment(t: seq<int>, i: nat, f: int)
    requires Nondecreasing(t) && i + 1 < |t| && 0 <= f <= WEIGHT
    ensures Corner(t, i) <= Blend(t[i], t[i + 1], f) <= Corner(t, i + 1)
  {
    BlendMonotone(t[i], t[i + 1], 0, f);
    BlendMonotone(t[i], t[i + 1], f, WEIGHT);
    SegmentsMeet(t[i], t[i + 1], t[i + 1]);
    SegmentsMeet(t[i], t[i], t[i + 1]);
    SegmentsMeet(t[i], t[i], t[i]);
  }

  lemma CornersMonotone(t: seq<int>, i: nat, j: nat)
    requires Nondecreasing(t) && i <= j < |t|
    ensures Corner(t, i) <= Corner(t, j)
  {
    Weighted(WEIGHT, t[j] - t[i], 0, WEIGHT);
    assert t[i] * WEIGHT <= t[j] * WEIGHT;
  }

  lemma CornerBelowEntry(t: seq<int>, half: int, i: nat)
    requires Table(t, half) && 0 < half < STEP && i < |t|
    ensures Corner(t, i) == if t[i] > 0 then t[i] - 1 else t[i]
  {
  }

  /** For a nondecreasing table the interpolation is nondecreasing from zero on, across all
      segment boundaries and into the final clamp. */
  lemma Monotone(t: seq<int>, half: int, x: int, z: int)
    requires Table(t, half) && 0 < half < STEP && Nondecreasing(t) && 0 <= x <= z
    ensures InterpQ15(t, x) <= InterpQ15(t, z)
  {
    var i, j, n := x / STEP, z / STEP, |t| - 1;
    assert i <= j;
    if i < n {
      InSegment(t, i, x % STEP);
      if j >= n {
        CornersMonotone(t, i + 1, n);
        CornerBelowEntry(t, half, n);
      } else if i == j {
        BlendMonotone(t[i], t[i + 1], x % STEP, z % STEP);
      } else {
        InSegment(t, j, z % STEP);
        CornersMonotone(t, i + 1, j);
      }
    }
  }

  /** Below zero the table is clamped to its first entry, and there the weights' missing unit
      shows: over all arguments the interpolation of a nondecreasing table is nondecreasing if
      and only if the first entry is not positive, or is the only one. */
  lemma MonotoneEverywhereIff(t: seq<int>, half: int)
    requires Table(t, half) && 0 < half < STEP && Nondecreasing(t)
    ensures (forall x, z {:trigger InterpQ15(t, x), InterpQ15(t, z)} :: x <= z ==> InterpQ15(t, x) <= InterpQ15(t, z))
            <==> t[0] <= 0 || |t| == 1
  {
    CornerBelowEntry(t, half, 0);
    if t[0] <= 0 || |t| == 1 {
      forall x, z | x <= z
        ensures InterpQ15(t, x) <= InterpQ15(t, z)
      {
        if 0 <= x {
          Monotone(t, half, x, z);
        } else if 0 <= z {
          AtZero(t, half);
          Monotone(t, half, 0, z);
        }
      }
    } else {
      SegmentsMeet(0, t[0], t[1]);
      SegmentsMeet(0, t[0], t[0]);
      assert InterpQ15(t, -1) == t[0] && InterpQ15(t, 0) == Blend(t[0], t[1], 0) == t[0] - 1;
      assert InterpQ15(t, -1) > InterpQ15(t, 0);
    }
  }

  lemma AtZero(t: seq<int>, half: int)
    requires Table(t, half) && 0 < half < STEP
    ensures InterpQ15(t, 0) == if |t| == 1 || t[0] <= 0 then t[0] else t[0] - 1
  {
    if |t| > 1 {
      SegmentsMeet(0, t[0], t[1]);
      SegmentsMeet(0, t[0], t[0]);
      CornerBelowEntry(t, half, 0);
    }
  }

  /** No entry behind the first 2^11 + 1 is ever read: the argument is signed. */
  lemma UpperHalfUnreachable(t: seq<int>, u: seq<int>, x: int)
    requires |t| > 0x800 && |u| > 0x800 && t[..0x801] == u[..0x801] && FitsWord(x)
    ensures InterpQ15(t, x) == InterpQ15(u, x)
  {
    var index := x / STEP;
    assert index < 0x800;
    assert t[0] == t[..0x801][0] && u[0] == u[..0x801][0];
    if 0 <= index {
      assert t[index] == t[..0x801][index] && u[index] == u[..0x801][index];
      assert t[index + 1] == t[..0x801][index + 1] && u[index + 1] == u[..0x801][index + 1];
    }
  }

  /** At `x` it shows whether entry `i` is what it is or `v`. */
  predicate Shows(t: seq<int>, i: nat, x: int, v: int)
    requires i < |t|
  {
    InterpQ15(t[i := v], x) != InterpQ15(t, x)
  }

  /** Changing entry `i` of the table, within its width, changes the result for some argument. */
  ghost predicate Matters(t: seq<int>, half: int, i: nat)
    requires i < |t|
  {
    exists x, v :: FitsWord(x) && -half <= v < half && Shows(t, i, x, v)
  }

  /** The documented table of 2^12 entries is only half used: an entry can change a result if and
      only if it is one of the first 2^11 + 1. */
  lemma EntryMattersIff(t: seq<int>, half: int, i: nat)
    requires Table(t, half) && 0 < half < STEP && i < |t|
    ensures Matters(t, half, i) <==> i <= 0x800
  {
    if i <= 0x800 {
      var x, v := Showing(t, half, i);
    } else {
      forall x, v | FitsWord(x)
        ensures !Shows(t, i, x, v)
      {
        UpperHalfUnreachable(t, t[i := v], x);
      }
    }
  }

  /** An argument at which entry `i` shows, and a value to show it with. */
  lemma Showing(t: seq<int>, half: int, i: nat) returns (x: int, v: int)
    requires Table(t, half) && 0 < half < STEP && i < |t| && i <= 0x800
    ensures FitsWord(x) && -half <= v < half && Shows(t, i, x, v)
  {
    v := if t[i] >= 0 then -1 else 0;
    var u := t[i := v];
    CornerBelowEntry(t, half, i);
    CornerBelowEntry(u, half, i);
    if i < 0x800 {
      x := i * STEP;
      if i + 1 < |t| {
        SegmentsMeet(0, t[i], t[i + 1]);
        SegmentsMeet(0, u[i], u[i + 1]);
        SegmentsMeet(0, t[i], t[i]);
        SegmentsMeet(0, u[i], u[i]);
      }
    } else {
      x := 0x7FFF_FFFF;
      assert x / STEP == 0x7FF && x % STEP == WEIGHT;
      SegmentsMeet(t[i - 1], t[i], t[i]);
      SegmentsMeet(u[i - 1], u[i], u[i]);
    }
  }

  /** So every entry can be used exactly in tables of at most 2^11 + 1 entries. */
  lemma FullyUsedIff(t: seq<int>, half: int)
    requires Table(t, half) && 0 < half < STEP
    ensures (forall i :: 0 <= i < |t| ==> Matters(t, half, i)) <==> |t| <= 0x801
  {
    hide Matters;
    forall i | 0 <= i < |t|
      ensures Matters(t, half, i) <==> i <= 0x800
    {
      EntryMattersIff(t, half, i);
    }
    if |t| > 0x801 {
      assert !Matters(t, half, 0x801);
    }
  }
}
