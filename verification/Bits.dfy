/**
 32-bit patterns as naturals, read unsigned (what the trailing `>>> 0` of the
 source achieves). Every operator is defined one binary digit at a time, so that
 its laws are inductions; `LowBitsIsRemainder` ties them to division.
 */
module Bits {

  const TWO32: nat := 0x1_0000_0000

  function Pow2(k: nat): (r: nat)
    ensures r >= 1
  {
    if k == 0 then 1 else 2 * Pow2(k - 1)
  }

  /** `x` with `k` zeros appended. */
  function Double(x: nat, k: nat): nat {
    if k == 0 then x else 2 * Double(x, k - 1)
  }

  /** `x` without its `k` lowest digits. */
  function Halve(x: nat, k: nat): nat {
    if k == 0 then x else Halve(x / 2, k - 1)
  }

  /** The `k` lowest digits of `x`. */
  function LowBits(x: nat, k: nat): nat {
    if k == 0 then 0 else 2 * LowBits(x / 2, k - 1) + x % 2
  }

  /** `x` with its `k` lowest digits cleared. */
  function Align(x: nat, k: nat): nat {
    if k == 0 then x else 2 * Align(x / 2, k - 1)
  }

  function And(a: nat, b: nat): nat {
    if a == 0 || b == 0 then 0
    else 2 * And(a / 2, b / 2) + (if a % 2 == 1 && b % 2 == 1 then 1 else 0)
  }

  function Or(a: nat, b: nat): nat
    decreases a + b
  {
    if a == 0 then b
    else if b == 0 then a
    else 2 * Or(a / 2, b / 2) + (if a % 2 == 1 || b % 2 == 1 then 1 else 0)
  }

  /** `a << k`, the count taken modulo 32 as JavaScript does. */
  function ShiftLeft(a: nat, k: nat): nat {
    Double(a, k % 32) % TWO32
  }

  /** `a >>> k`. */
  function ShiftRight(a: nat, k: nat): nat {
    Halve(a, k % 32)
  }

  // ---------------------------------------------------------------- powers and shifts

  lemma {:induction false} Pow2Monotone(a: nat, b: nat)
    requires a <= b
    ensures Pow2(a) <= Pow2(b)
  {
    if a < b {
      Pow2Monotone(a, b - 1);
    }
  }

  lemma Pow2At32()
    ensures Pow2(8) == 0x100 && Pow2(16) == 0x1_0000 && Pow2(24) == 0x100_0000 && Pow2(32) == TWO32
  {
    hide Pow2, Double;
    Pow2At8();
    Pow2Sum(8, 8);
    Pow2Sum(16, 8);
    Pow2Sum(24, 8);
    DoubleIsTimes(0x100, 8);
    DoubleIsTimes(0x1_0000, 8);
    DoubleIsTimes(0x100_0000, 8);
  }

  lemma Pow2At8()
    ensures Pow2(8) == 0x100
  {
  }

  /** Ones followed by zeros. */
  lemma {:induction false} DoubleOnes(a: nat, b: nat)
    ensures Double(Pow2(a) - 1, b) == Pow2(a + b) - Pow2(b)
  {
    if b > 0 {
      DoubleOnes(a, b - 1);
      assert Pow2(a + b) == 2 * Pow2(a + (b - 1));
    }
  }

  lemma {:induction false} Pow2Sum(a: nat, b: nat)
    ensures Pow2(a + b) == Double(Pow2(a), b)
  {
    if b > 0 {
      Pow2Sum(a, b - 1);
    }
  }

  lemma {:induction false} DoubleAdd(x: nat, j: nat, k: nat)
    ensures Double(Double(x, j), k) == Double(x, j + k)
  {
    if k > 0 {
      DoubleAdd(x, j, k - 1);
    }
  }

  lemma {:induction false} DoubleSum(x: nat, y: nat, k: nat)
    ensures Double(x + y, k) == Double(x, k) + Double(y, k)
  {
    if k > 0 {
      DoubleSum(x, y, k - 1);
    }
  }

  lemma {:induction false} HalveAdd(x: nat, j: nat, k: nat)
    ensures Halve(Halve(x, j), k) == Halve(x, j + k)
  {
    if j > 0 {
      HalveAdd(x / 2, j - 1, k);
    }
  }

  lemma {:induction false} DoubleBelow(x: nat, j: nat, k: nat)
    requires x < Pow2(j)
    ensures Double(x, k) + Pow2(k) <= Pow2(j + k)
  {
    if k > 0 {
      DoubleBelow(x, j, k - 1);
      assert Pow2(j + k) == 2 * Pow2(j + (k - 1));
    }
  }

  /** A number is its high digits followed by its low ones, uniquely. */
  lemma {:induction false} HighLow(x: nat, k: nat)
    ensures x == Double(Halve(x, k), k) + LowBits(x, k) && LowBits(x, k) < Pow2(k)
    ensures Align(x, k) == x - LowBits(x, k) == Double(Halve(x, k), k)
  {
    if k > 0 {
      HighLow(x / 2, k - 1);
    }
  }

  lemma {:induction false} HighLowUnique(high: nat, low: nat, k: nat)
    requires low < Pow2(k)
    ensures Halve(Double(high, k) + low, k) == high && LowBits(Double(high, k) + low, k) == low
  {
    if k > 0 {
      HighLowUnique(high, low / 2, k - 1);
      assert (Double(high, k) + low) / 2 == Double(high, k - 1) + low / 2;
    }
  }

  // ---------------------------------------------------------------- masks

  lemma {:induction false} AndOnes(n: nat, size: nat)
    requires n < Pow2(size)
    ensures And(n, Pow2(size) - 1) == n
  {
    if n != 0 && size > 0 {
      AndOnes(n / 2, size - 1);
      assert (Pow2(size) - 1) / 2 == Pow2(size - 1) - 1;
    }
  }

  /** A mask of `k` low ones keeps the `k` lowest digits. */
  lemma {:induction false} AndLowMask(n: nat, k: nat)
    ensures And(n, Pow2(k) - 1) == LowBits(n, k)
    decreases k
  {
    if n == 0 {
      HighLow(0, k);
    } else if k > 0 {
      AndLowMask(n / 2, k - 1);
      assert (Pow2(k) - 1) / 2 == Pow2(k - 1) - 1;
      assert Pow2(k) - 1 != 0;
    }
  }

  /** The pattern of `size - k` ones over `k` zeros. */
  function HighMask(size: nat, k: nat): nat
    requires k <= size
  {
    Pow2Monotone(k, size);
    Pow2(size) - Pow2(k)
  }

  /** Masking with ones over `k` zeros clears the `k` lowest digits. */
  lemma {:induction false} AndHighMask(n: nat, size: nat, k: nat)
    requires k <= size && n < Pow2(size)
    ensures And(n, HighMask(size, k)) == Align(n, k)
    decreases size
  {
    if k == 0 {
      AndOnes(n, size);
    } else if k == size {
      AlignSmall(n, k);
    } else {
      AndHighMask(n / 2, size - 1, k - 1);
      assert HighMask(size, k) == 2 * HighMask(size - 1, k - 1);
    }
  }

  lemma {:induction false} AlignSmall(n: nat, k: nat)
    requires n < Pow2(k)
    ensures Align(n, k) == 0
  {
    if k > 0 {
      AlignSmall(n / 2, k - 1);
    }
  }

  /** Or-ing patterns that share no digit position adds them. */
  lemma {:induction false} OrDisjoint(high: nat, k: nat, low: nat)
    requires low < Pow2(k)
    ensures Or(Double(high, k), low) == Double(high, k) + low
    decreases k
  {
    if k > 0 {
      OrDisjoint(high, k - 1, low / 2);
    }
  }

  // ---------------------------------------------------------------- alignment

  predicate Aligned(x: nat, k: nat) {
    Align(x, k) == x
  }

  lemma {:induction false} AlignTwice(x: nat, j: nat, k: nat)
    requires j <= k
    ensures Align(Align(x, j), k) == Align(x, k)
  {
    if j > 0 {
      AlignTwice(x / 2, j - 1, k - 1);
    }
  }

  /** The numbers that align to `x` are the `2^k` numbers from `x` on. */
  lemma {:induction false} AlignInterval(x: nat, n: nat, k: nat)
    requires Aligned(x, k)
    ensures Align(n, k) == x <==> x <= n < x + Pow2(k)
  {
    if k > 0 {
      AlignInterval(x / 2, n / 2, k - 1);
    }
  }

  /** An aligned block ends inside any larger power-of-two space it starts in. */
  lemma {:induction false} AlignedFits(x: nat, k: nat, size: nat)
    requires k <= size && Aligned(x, k) && x < Pow2(size)
    ensures x + Pow2(k) <= Pow2(size)
  {
    if k > 0 {
      AlignedFits(x / 2, k - 1, size - 1);
    }
  }

  // ---------------------------------------------------------------- division

  lemma {:induction false} DoubleIsTimes(x: nat, k: nat)
    ensures Double(x, k) == x * Pow2(k)
  {
    if k > 0 {
      DoubleIsTimes(x, k - 1);
      var p := Pow2(k - 1);
      assert x * (2 * p) == 2 * (x * p);
    }
  }

  /** Dropping and keeping `k` digits are division and remainder by 2^k. */
  lemma LowBitsIsRemainder(n: nat, k: nat)
    ensures Halve(n, k) == n / Pow2(k) && LowBits(n, k) == n % Pow2(k)
    ensures Align(n, k) == n - n % Pow2(k)
  {
    HighLow(n, k);
    DoubleIsTimes(Halve(n, k), k);
    QuotientUnique(n, Pow2(k), Halve(n, k), LowBits(n, k));
  }

  lemma QuotientUnique(n: int, m: int, q: int, r: int)
    requires m > 0 && n == q * m + r && 0 <= r < m
    ensures n / m == q && n % m == r
  {
    var q', r' := n / m, n % m;
    assert n == q' * m + r';
    assert (q - q') * m == r' - r;
    assert (q' - q) * m == r - r';
    if q > q' {
      MulAtLeast(m, q - q');
    } else if q < q' {
      MulAtLeast(m, q' - q);
    }
  }

  lemma MulAtLeast(m: int, k: int)
    requires m > 0 && k >= 1
    ensures k * m >= m
  {
    assert k * m == m + (k - 1) * m;
  }
}
