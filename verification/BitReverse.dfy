/** The software bit reversal for cores without an instruction for it, for any word width. */
module BitReverse {
  import opened Arithmetic

  function Bit(v: int, i: nat): int {
    v / Pow2(i) % 2
  }

  /** The lowest `n` bits of `v`, in reverse order. */
  function Reversed(v: int, n: nat): int {
    if n == 0 then 0 else 2 * Reversed(v, n - 1) + Bit(v, n - 1)
  }

  lemma {:induction false} ReversedRange(v: int, n: nat)
    ensures 0 <= Reversed(v, n) < Pow2(n)
  {
    if n > 0 {
      ReversedRange(v, n - 1);
    }
  }

  lemma HalvedQuotient(r: int, b: int, m: int)
    requires 0 <= b <= 1 && m > 0
    ensures (2 * r + b) / (2 * m) == r / m
  {
    var q, s := r / m, r % m;
    assert 2 * r + b == q * (2 * m) + (2 * s + b) by { assert r == m * q + s; assert q * (2 * m) == 2 * (m * q); }
    DivModUnique(2 * r + b, q, 2 * s + b, 2 * m);
  }

  /** Bit `i` of the reversed word is bit `n - 1 - i` of the word. */
  lemma {:induction false} ReversedBit(v: int, n: nat, i: nat)
    requires i < n
    ensures Bit(Reversed(v, n), i) == Bit(v, n - 1 - i)
  {
    if i > 0 {
      ReversedBit(v, n - 1, i - 1);
      HalvedQuotient(Reversed(v, n - 1), Bit(v, n - 1), Pow2(i - 1));
    }
  }

  /** A word is determined by its bits. */
  lemma {:induction false} BitsDetermine(v: int, w: int, n: nat)
    requires 0 <= v < Pow2(n) && 0 <= w < Pow2(n)
    requires forall i :: 0 <= i < n ==> Bit(v, i) == Bit(w, i)
    ensures v == w
  {
    if n > 0 {
      forall i | 0 <= i < n - 1
        ensures Bit(v / 2, i) == Bit(w / 2, i)
      {
        HalvedQuotient(v / 2, v % 2, Pow2(i));
        HalvedQuotient(w / 2, w % 2, Pow2(i));
        assert Bit(v, i + 1) == Bit(w, i + 1);
      }
      BitsDetermine(v / 2, w / 2, n - 1);
      assert Bit(v, 0) == Bit(w, 0);
    }
  }

  /** Reversing twice gives the word back. */
  lemma ReversedTwice(v: int, n: nat)
    requires 0 <= v < Pow2(n)
    ensures Reversed(Reversed(v, n), n) == v
  {
    var r := Reversed(v, n);
    ReversedRange(v, n);
    ReversedRange(r, n);
    forall i | 0 <= i < n
      ensures Bit(Reversed(r, n), i) == Bit(v, i)
    {
      ReversedBit(r, n, i);
      ReversedBit(v, n, n - 1 - i);
    }
    BitsDetermine(Reversed(r, n), v, n);
  }

  lemma BitAbove(v: int, n: nat, i: nat)
    requires 0 <= v < Pow2(n) && n <= i
    ensures Bit(v, i) == 0
  {
    if n < i {
      Pow2Monotone(n, i);
    }
    DivModUnique(v, 0, v, Pow2(i));
  }

  /** High zero bits become a shift. */
  lemma {:induction false} ReversedShort(v: int, n: nat, j: nat)
    requires 0 <= v < Pow2(n)
    ensures Reversed(v, n + j) == Reversed(v, n) * Pow2(j)
  {
    if j > 0 {
      ReversedShort(v, n, j - 1);
      BitAbove(v, n, n + j - 1);
      Doubled(Pow2(j - 1), Reversed(v, n));
    }
  }

  /** A doubled value has no lowest bit, so putting a bit there is an addition. */
  lemma EvenRemainder(result: int, m: int)
    requires m > 0
    ensures result * 2 % (2 * m) % 2 == 0 && 0 <= result * 2 % (2 * m) <= 2 * m - 2
  {
    ModOfMod(result * 2, 2, m);
  }

  /** One round of the loop in numbers: `m` is the weight of the bits reversed so far, 2*m*t that
      of the whole word.  Whatever the higher bits are, the low ones are doubled and extended. */
  lemma Round(result: int, bit: int, m: int, t: int)
    requires m > 0 && t > 0 && 0 <= bit <= 1
    ensures m * t > 0
    ensures var next := result * 2 % (2 * (m * t)) + bit;
            0 <= next < 2 * (m * t) && next % (2 * m) == 2 * (result % m) + bit
  {
    ScaledStrictly(m, 0, t);
    EvenRemainder(result, m * t);
    var doubled := result * 2 % (2 * (m * t));
    ModOfMod(result * 2, 2 * m, t);
    assert 2 * m * t == 2 * (m * t);
    DivBounds(result, m);
    DivModUnique(result * 2, result / m, 2 * (result % m), 2 * m);
    DivBounds(doubled, 2 * m);
    DivModUnique(doubled + bit, doubled / (2 * m), 2 * (result % m) + bit, 2 * m);
  }

  /** The last shift in numbers: it throws out what is above the low part. */
  lemma ShiftOut(result: int, m: int, t: int)
    requires m > 0 && t > 0
    ensures m * t > 0 && result * t % (m * t) == result % m * t
  {
    ScaledStrictly(m, 0, t);
    var q, r := result / m, result % m;
    assert result == m * q + r;
    assert result * t == q * (m * t) + r * t by { assert (m * q + r) * t == m * q * t + r * t; }
    MulMono(0, r, 0, t);
    ScaledStrictly(t, r, m);
    DivModUnique(result * t, q, r * t, m * t);
  }

  /** One round of the loop. */
  lemma RoundOfWord(result: int, word: int, low: nat, width: nat)
    requires 1 <= low < width && result % Pow2(low) == Reversed(word, low)
    ensures var next := result * 2 % Pow2(width) + Bit(word, low);
            0 <= next < Pow2(width) && next % Pow2(low + 1) == Reversed(word, low + 1)
  {
    Pow2Sum(low, width - low - 1);
    Round(result, Bit(word, low), Pow2(low), Pow2(width - low - 1));
  }

  lemma LastShift(result: int, word: int, low: nat, width: nat)
    requires low <= width && result % Pow2(low) == Reversed(word, low) && 0 <= word < Pow2(low)
    ensures result * Pow2(width - low) % Pow2(width) == Reversed(word, width)
  {
    Pow2Sum(low, width - low);
    ShiftOut(result, Pow2(low), Pow2(width - low));
    ReversedShort(word, low, width - low);
  }

  /** While bits are left, the word reaches above those handled. */
  lemma BitsLeft(word: int, low: nat, width: nat)
    requires 0 <= word < Pow2(width) && low <= width
    ensures word / Pow2(low) != 0 ==> low < width
    ensures word / Pow2(low) == 0 ==> word < Pow2(low)
  {
    DivBounds(word, Pow2(low));
    if low == width {
      DivModUnique(word, 0, word, Pow2(width));
    }
  }

  lemma QuotientHalves(v: int, m: int)
    requires m > 0
    ensures v / m / 2 == v / (2 * m)
  {
    var q, r := v / m, v % m;
    assert v == (q / 2) * (2 * m) + (q % 2 * m + r) by {
      assert v == m * q + r;
      assert m * q == (q / 2) * (2 * m) + q % 2 * m by { assert q == 2 * (q / 2) + q % 2; }
    }
    DivModUnique(v, q / 2, q % 2 * m + r, 2 * m);
  }

  /** The loop's invariant: `low` bits are done, the accumulator has them reversed at its low end,
      and anything above. */
  predicate Partly(word: int, width: nat, low: nat, result: int, value: int) {
    && 1 <= low <= width
    && 0 <= result < Pow2(width) && result % Pow2(low) == Reversed(word, low)
    && value == word / Pow2(low)
  }

  lemma PartlyStarts(word: int, width: nat)
    requires width >= 1 && 0 <= word < Pow2(width)
    ensures Partly(word, width, 1, word, word / 2)
  {
    assert Pow2(1) == 2 && Pow2(0) == 1;
    assert Reversed(word, 1) == 2 * Reversed(word, 0) + Bit(word, 0);
  }

  lemma PartlyGoesOn(word: int, width: nat, low: nat, result: int, value: int)
    requires Partly(word, width, low, result, value) && value != 0 && 0 <= word < Pow2(width)
    ensures low < width
    ensures Partly(word, width, low + 1, result * 2 % Pow2(width) + value % 2, value / 2)
  {
    BitsLeft(word, low, width);
    RoundOfWord(result, word, low, width);
    QuotientHalves(word, Pow2(low));
  }

  lemma PartlyEnds(word: int, width: nat, low: nat, result: int)
    requires Partly(word, width, low, result, 0) && 0 <= word < Pow2(width)
    ensures result * Pow2(width - low) % Pow2(width) == Reversed(word, width)
  {
    BitsLeft(word, low, width);
    LastShift(result, word, low, width);
  }

  lemma ReversedBits(word: int, width: nat)
    ensures 0 <= Reversed(word, width) < Pow2(width)
    ensures forall i :: 0 <= i < width ==> Bit(Reversed(word, width), i) == Bit(word, width - 1 - i)
  {
    ReversedRange(word, width);
    forall i | 0 <= i < width
      ensures Bit(Reversed(word, width), i) == Bit(word, width - 1 - i)
    {
      ReversedBit(word, width, i);
    }
  }

  /** `__RBIT`: the loop ends as soon as no set bit is left, so the accumulator keeps high bits of
      the original word; the shift that is left over, `s`, removes them. */
  method Rbit(width: nat, word: int) returns (result: int)
    requires width >= 1 && 0 <= word < Pow2(width)
    ensures result == Reversed(word, width)
    ensures 0 <= result < Pow2(width)
    ensures forall i :: 0 <= i < width ==> Bit(result, i) == Bit(word, width - 1 - i)
  {
    hide Reversed, Bit;
    var s := width - 1;
    result := word;
    var value := word / 2;
    ghost var low: nat := 1;
    PartlyStarts(word, width);
    while value != 0
      invariant 0 <= s < width && s == width - low
      invariant value >= 0 && Partly(word, width, low, result, value)
      decreases value
    {
      PartlyGoesOn(word, width, low, result, value);
      hide Partly;
      result := result * 2 % Pow2(width);
      result := result + value % 2;
      s := s - 1;
      value := value / 2;
      low := low + 1;
    }
    PartlyEnds(word, width, low, result);
    result := result * Pow2(s) % Pow2(width);
    ReversedBits(word, width);
  }
}
