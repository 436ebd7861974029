/** Shared facts about products, remainders and powers of two. */
module Arithmetic {

  function Pow2(n: nat): (p: int)
    ensures p >= 1
  {
    if n == 0 then 1 else 2 * Pow2(n - 1)
  }

  lemma {:induction false} Pow2Sum(a: nat, b: nat)
    ensures Pow2(a) * Pow2(b) == Pow2(a + b)
  {
    if a > 0 {
      Pow2Sum(a - 1, b);
      Doubled(Pow2(a - 1), Pow2(b));
    }
  }

  lemma Doubled(x: int, y: int)
    ensures (2 * x) * y == 2 * (x * y) && y * (2 * x) == 2 * (y * x)
  {
  }

  lemma {:induction false} Pow2Monotone(a: nat, b: nat)
    requires a < b
    ensures 2 * Pow2(a) <= Pow2(b)
  {
    if a + 1 < b {
      Pow2Monotone(a, b - 1);
    }
  }

  lemma Pow2Values()
    ensures Pow2(14) == 0x4000 && Pow2(15) == 0x8000 && Pow2(16) == 0x1_0000
    ensures Pow2(30) == 0x4000_0000 && Pow2(31) == 0x8000_0000 && Pow2(32) == 0x1_0000_0000
  {
    assert Pow2(4) == 16 && Pow2(8) == 256 && Pow2(12) == 4096;
    assert Pow2(14) == 0x4000 && Pow2(16) == 0x1_0000;
    assert Pow2(20) == 0x10_0000 && Pow2(24) == 0x100_0000 && Pow2(28) == 0x1000_0000;
    assert Pow2(30) == 0x4000_0000;
  }

  lemma MulMono(a: int, b: int, c: int, d: int)
    requires 0 <= a <= b && 0 <= c <= d
    ensures 0 <= a * c <= b * d
  {
    assert a * c <= b * c && b * c <= b * d;
  }

  lemma Scaled(k: int, a: int, b: int)
    requires k >= 0 && a <= b
    ensures k * a <= k * b
  {
  }

  lemma ScaledStrictly(k: int, a: int, b: int)
    requires k > 0 && a < b
    ensures k * a < k * b
  {
  }

  lemma DivBounds(p: int, m: int)
    requires m > 0
    ensures m * (p / m) <= p < m * (p / m) + m
  {
  }

  lemma SmallMultiple(m: int, d: int)
    requires m > 0 && -m < m * d < m
    ensures d == 0
  {
  }

  /** Quotient and remainder are unique. */
  lemma DivModUnique(a: int, q: int, r: int, m: int)
    requires m > 0 && a == q * m + r && 0 <= r < m
    ensures a / m == q && a % m == r
  {
    var d := a / m - q;
    assert m * d == r - a % m by { assert m * (a / m - q) == m * (a / m) - m * q; }
    SmallMultiple(m, d);
  }

  lemma SameRemainderIff(a: int, b: int, m: int)
    requires m > 0
    ensures a % m == b % m <==> (b - a) % m == 0
  {
    var q := b / m - a / m;
    assert b - a == q * m + (b % m - a % m) by { assert q * m == m * (b / m) - m * (a / m); }
    var r := b % m - a % m;
    if r >= 0 {
      DivModUnique(b - a, q, r, m);
    } else {
      assert (q - 1) * m == q * m - m;
      DivModUnique(b - a, q - 1, r + m, m);
    }
  }

  /** A remainder may be taken in two stages when the second divisor divides the first. */
  lemma ModOfMod(a: int, k: int, t: int)
    requires k > 0 && t > 0
    ensures k * t > 0 && a % (k * t) % k == a % k
  {
    ScaledStrictly(k, 0, t);
    var q, r := a / (k * t), a % (k * t);
    DivBounds(r, k);
    assert a == (k * t) * q + r;
    assert a == (t * q + r / k) * k + r % k by { assert (k * t) * q == (t * q) * k; }
    DivModUnique(a, t * q + r / k, r % k, k);
  }
}
