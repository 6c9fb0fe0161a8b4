/** Absolute values, powers of two and the few facts about division by them that the other modules share. */
module Powers {

  function Abs(x: int): nat { if x < 0 then 0 - x else x }

  function Pow2(n: nat): (r: nat)
    ensures r >= 1
  {
    if n == 0 then 1 else 2 * Pow2(n - 1)
  }

  lemma {:induction false} Pow2Add(a: nat, b: nat)
    ensures Pow2(a + b) == Pow2(a) * Pow2(b)
  {
    if a == 0 {
    } else {
      Pow2Add(a - 1, b);
      assert Pow2(a + b) == 2 * Pow2(a - 1 + b);
    }
  }

  lemma {:induction false} Pow2StrictlyIncreasing(a: nat, b: nat)
    requires a < b
    ensures 2 * Pow2(a) <= Pow2(b)
    decreases b - a
  {
    if a + 1 < b {
      Pow2StrictlyIncreasing(a + 1, b);
    }
  }

  lemma Pow2Increasing(a: nat, b: nat)
    requires a <= b
    ensures Pow2(a) <= Pow2(b)
  {
    if a < b {
      Pow2StrictlyIncreasing(a, b);
    }
  }

  /** q and r are the quotient and remainder, whatever way they were found. */
  lemma DivModUnique(x: int, d: int, q: int, r: int)
    requires 0 <= r < d
    requires x == q * d + r
    ensures x / d == q && x % d == r
  {
    var k := q - x / d;
    MulSub(q, x / d, d);
    assert k * d == x % d - r;
    if k >= 1 {
      MulIncreasing(1, k, d);
    } else if k <= -1 {
      MulIncreasing(k, -1, d);
    }
  }

  lemma DivModIdentity(x: int, d: int)
    requires d > 0
    ensures x == x / d * d + x % d && 0 <= x % d < d
  {
  }

  lemma DivNonNegative(x: int, d: int)
    requires 0 <= x && d > 0
    ensures x / d >= 0
  {
    if x / d < 0 {
      MulIncreasing(x / d, -1, d);
      DivModIdentity(x, d);
    }
  }

  lemma MulSub(a: int, b: int, k: int)
    ensures (a - b) * k == a * k - b * k
  {
  }

  lemma MulIncreasing(a: int, b: int, k: int)
    requires a <= b && 0 <= k
    ensures a * k <= b * k
  {
  }

  lemma MulStrictlyIncreasing(a: int, b: int, k: int)
    requires a < b && 0 < k
    ensures a * k < b * k
  {
  }

  lemma MulAdd(a: int, b: int, k: int)
    ensures (a + b) * k == a * k + b * k
  {
  }

  lemma MulAssociative(a: int, b: int, c: int)
    ensures a * b * c == a * (b * c)
  {
  }

  /** Two numbers that differ by a multiple of d agree modulo d. */
  lemma ModEqual(x: int, y: int, d: int, k: int)
    requires d > 0 && x == y + k * d
    ensures x % d == y % d
  {
    MulAdd(y / d, k, d);
    DivModUnique(x, d, y / d + k, y % d);
  }

  lemma ModSmall(x: int, d: int)
    requires 0 <= x < d
    ensures x % d == x
  {
    DivModUnique(x, d, 0, x);
  }

  lemma ModMod(x: int, d: int)
    requires d > 0
    ensures x % d % d == x % d
  {
    DivModUnique(x % d, d, 0, x % d);
  }

  /** Division by a product goes one factor at a time. */
  lemma DivModProduct(x: int, d: int, m: int)
    requires d > 0 && m > 0
    ensures d * m > 0
    ensures x % (m * d) == x / d % m * d + x % d
    ensures x / (m * d) == x / d / m
  {
    var q, r := x / d, x % d;
    var h, w := q / m, q % m;
    MulStrictlyIncreasing(0, m, d);
    assert x == h * (m * d) + (w * d + r) by {
      assert x == q * d + r && q == h * m + w;
      MulAdd(h * m, w, d);
      MulAssociative(h, m, d);
    }
    assert 0 <= w * d + r < m * d by {
      MulIncreasing(0, w, d);
      MulIncreasing(w, m - 1, d);
      MulSub(m, 1, d);
    }
    DivModUnique(x, m * d, h, w * d + r);
  }

  /** A common factor cancels. */
  lemma DivCancel(a: int, b: int, c: int)
    requires b > 0 && c > 0
    ensures b * c > 0 && (a * c) / (b * c) == a / b
  {
    MulStrictlyIncreasing(0, b, c);
    var q, r := a / b, a % b;
    MulAdd(q * b, r, c);
    MulAssociative(q, b, c);
    MulIncreasing(0, r, c);
    MulStrictlyIncreasing(r, b, c);
    DivModUnique(a * c, b * c, q, r * c);
  }

  /** Remainders may be taken before or after adding. */
  lemma ModAdd(x: int, y: int, d: int)
    requires d > 0
    ensures (x % d + y % d) % d == (x + y) % d
    ensures (x % d + y) % d == (x + y) % d
  {
    DivModIdentity(x, d);
    DivModIdentity(y, d);
    MulAdd(x / d, y / d, d);
    ModEqual(x + y, x % d + y % d, d, x / d + y / d);
    ModEqual(x + y, x % d + y, d, x / d);
  }

  /** The moduli of the machine types. */
  lemma MachineWords()
    ensures Pow2(8) == 0x100 && Pow2(15) == 0x8000 && Pow2(16) == 0x1_0000 && Pow2(32) == 0x1_0000_0000
    ensures Pow2(56) == 0x100_0000_0000_0000 && Pow2(64) == 0x1_0000_0000_0000_0000
  {
    assert Pow2(8) == 0x100;
    Pow2Add(8, 8);
    assert Pow2(16) == 2 * Pow2(15);
    Pow2Add(16, 16);
    Pow2Add(32, 16);
    Pow2Add(48, 8);
    Pow2Add(48, 16);
  }
}
