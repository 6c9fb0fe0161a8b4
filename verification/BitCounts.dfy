/** Position of the leading and of the trailing set bit of a natural number. */
module BitCounts {
  import opened Powers

  /** Index of the highest set bit: `_binaryLogarithm`, that is bitWidth - (leadingZeroBitCount + 1). */
  function Log2(n: nat): nat
    requires n > 0
  {
    if n == 1 then 0 else 1 + Log2(n / 2)
  }

  /** Index of the lowest set bit: `trailingZeroBitCount` of a non-zero value. */
  function TrailingZeros(n: nat): nat
    requires n > 0
  {
    if n % 2 == 1 then 0 else 1 + TrailingZeros(n / 2)
  }

  lemma {:induction false} Log2Bounds(n: nat)
    requires n > 0
    ensures Pow2(Log2(n)) <= n < 2 * Pow2(Log2(n))
  {
    if n > 1 {
      Log2Bounds(n / 2);
    }
  }

  lemma {:induction false} Log2Unique(n: nat, q: nat)
    requires Pow2(q) <= n < 2 * Pow2(q)
    ensures Log2(n) == q
  {
    if q > 0 {
      Log2Unique(n / 2, q - 1);
    }
  }

  lemma Log2Shift(n: nat, j: nat)
    requires n > 0
    ensures n * Pow2(j) > 0 && Log2(n * Pow2(j)) == Log2(n) + j
  {
    var q := Log2(n);
    Log2Bounds(n);
    Pow2Add(q, j);
    MulIncreasing(Pow2(q), n, Pow2(j));
    MulStrictlyIncreasing(n, 2 * Pow2(q), Pow2(j));
    MulAssociative(2, Pow2(q), Pow2(j));
    Log2Unique(n * Pow2(j), q + j);
  }

  lemma {:induction false} TrailingZerosShift(n: nat, j: nat)
    requires n > 0
    ensures n * Pow2(j) > 0 && TrailingZeros(n * Pow2(j)) == TrailingZeros(n) + j
  {
    if j > 0 {
      TrailingZerosShift(n, j - 1);
      var h := n * Pow2(j - 1);
      assert n * Pow2(j) == 2 * h;
      assert TrailingZeros(2 * h) == 1 + TrailingZeros(h);
    }
  }

  /** A higher bit does not move the lowest one. */
  lemma {:induction false} TrailingZerosBelow(m: nat, p: nat)
    requires 0 < m < Pow2(p)
    ensures TrailingZeros(Pow2(p) + m) == TrailingZeros(m) < p
  {
    if m % 2 == 0 {
      TrailingZerosBelow(m / 2, p - 1);
      assert (Pow2(p) + m) / 2 == Pow2(p - 1) + m / 2;
    }
  }

  /** 2^j divides n exactly when n has at least j trailing zeros. */
  lemma {:induction false} DividesIffTrailingZeros(n: nat, j: nat)
    requires n > 0
    ensures n % Pow2(j) == 0 <==> j <= TrailingZeros(n)
  {
    if j > 0 {
      ModEven(n, Pow2(j - 1));
      if n % 2 == 0 {
        DividesIffTrailingZeros(n / 2, j - 1);
      }
    }
  }

  lemma ModEven(n: nat, d: nat)
    requires d > 0
    ensures n % (2 * d) == 0 <==> n % 2 == 0 && n / 2 % d == 0
  {
    DivModProduct(n, 2, d);
    var a, b := n / 2 % d, n % 2;
    assert n % (d * 2) == a * 2 + b;
    assert d * 2 == 2 * d;
  }
}
