/** Exclusive or, inclusive or and conjunction of bit patterns of any width, read as natural numbers. */
module BitPatterns {
  import opened Powers

  /** Exclusive or of two bit patterns. */
  function Xor(a: nat, b: nat): nat
    decreases a + b
  {
    if a == 0 && b == 0 then 0
    else (if a % 2 == b % 2 then 0 else 1) + 2 * Xor(a / 2, b / 2)
  }

  lemma {:induction false} XorZero(n: nat)
    ensures Xor(0, n) == n
  {
    if n > 0 {
      XorZero(n / 2);
    }
  }

  lemma HalfOfOnes(half: nat, n: nat)
    ensures (2 * half - 1) / 2 == half - 1
    ensures (2 * half - 1 - n) / 2 == half - 1 - n / 2
  {
  }

  /** Exclusive or with all ones complements. */
  lemma {:induction false} XorOnes(k: nat, n: nat)
    requires n < Pow2(k)
    ensures Xor(Pow2(k) - 1, n) == Pow2(k) - 1 - n
  {
    if k > 0 {
      XorOnes(k - 1, n / 2);
      HalfOfOnes(Pow2(k - 1), n);
    }
  }

  /** One bit at a time. */
  lemma XorDouble(a: nat, b: nat, w: nat, low: nat)
    requires b % 2 == 0 && a % 2 == low % 2
    requires Xor(a / 2, b / 2) == w + low / 2
    ensures Xor(a, b) == 2 * w + low
  {
  }

  /** A pattern shifted past the low s bits only meets the bits above them. */
  lemma {:induction false} XorShifted(a: nat, n: nat, s: nat, low: nat)
    requires low < Pow2(s)
    ensures Xor(a * Pow2(s) + low, n * Pow2(s)) == Xor(a, n) * Pow2(s) + low
  {
    if s > 0 {
      var p := Pow2(s - 1);
      XorShifted(a, n, s - 1, low / 2);
      DoubleMul(a, p);
      DoubleMul(n, p);
      DoubleMul(Xor(a, n), p);
      var l, r := a * Pow2(s) + low, n * Pow2(s);
      assert l == 2 * (a * p) + low && r == 2 * (n * p);
      assert l / 2 == a * p + low / 2 && r / 2 == n * p;
      XorDouble(l, r, Xor(a, n) * p, low);
    }
  }

  lemma DoubleMul(a: nat, p: nat)
    ensures a * (2 * p) == 2 * (a * p)
    ensures 0 <= a * p
  {
  }

  /** Inclusive or of two bit patterns. */
  function Or(a: nat, b: nat): nat
    decreases a + b
  {
    if a == 0 && b == 0 then 0
    else (if a % 2 == 0 && b % 2 == 0 then 0 else 1) + 2 * Or(a / 2, b / 2)
  }

  lemma {:induction false} OrZero(n: nat)
    ensures Or(0, n) == n
  {
    if n > 0 {
      OrZero(n / 2);
    }
  }

  lemma {:induction false} OrCommutes(a: nat, b: nat)
    ensures Or(a, b) == Or(b, a)
  {
    if a != 0 || b != 0 {
      OrCommutes(a / 2, b / 2);
    }
  }

  lemma OrDouble(a: nat, b: nat, w: nat, low: nat)
    requires b % 2 == 0 && a % 2 == low % 2
    requires Or(a / 2, b / 2) == w + low / 2
    ensures Or(a, b) == 2 * w + low
  {
  }

  /** A pattern shifted past the low s bits only meets the bits above them. */
  lemma {:induction false} OrShifted(a: nat, n: nat, s: nat, low: nat)
    requires low < Pow2(s)
    ensures Or(a * Pow2(s) + low, n * Pow2(s)) == Or(a, n) * Pow2(s) + low
  {
    if s > 0 {
      var p := Pow2(s - 1);
      OrShifted(a, n, s - 1, low / 2);
      DoubleMul(a, p);
      DoubleMul(n, p);
      DoubleMul(Or(a, n), p);
      var l, r := a * Pow2(s) + low, n * Pow2(s);
      assert l == 2 * (a * p) + low && r == 2 * (n * p);
      assert l / 2 == a * p + low / 2 && r / 2 == n * p;
      OrDouble(l, r, Or(a, n) * p, low);
    }
  }

  /** Disjoint fields are simply added: n below bit k, a above it. */
  lemma OrDisjoint(a: nat, k: nat, n: nat)
    requires n < Pow2(k)
    ensures 0 <= a * Pow2(k)
    ensures Or(a * Pow2(k), n) == a * Pow2(k) + n == Or(n, a * Pow2(k))
  {
    MulIncreasing(0, a, Pow2(k));
    OrShifted(0, a, k, n);
    OrZero(a);
    OrCommutes(a * Pow2(k), n);
  }

  /** Bitwise and of two bit patterns. */
  function And(a: nat, b: nat): nat
  {
    if a == 0 then 0
    else (if a % 2 == 1 && b % 2 == 1 then 1 else 0) + 2 * And(a / 2, b / 2)
  }

  /** Whether the bit of weight 2^k is set. */
  predicate Bit(n: nat, k: nat)
  {
    if k == 0 then n % 2 == 1 else Bit(n / 2, k - 1)
  }

  lemma {:induction false} BitOfAnd(a: nat, b: nat, k: nat)
    ensures Bit(And(a, b), k) <==> Bit(a, k) && Bit(b, k)
  {
    if a == 0 {
      BitOfZero(k);
    } else {
      assert And(a, b) / 2 == And(a / 2, b / 2);
      if k > 0 {
        BitOfAnd(a / 2, b / 2, k - 1);
      }
    }
  }

  lemma {:induction false} BitOfOr(a: nat, b: nat, k: nat)
    ensures Bit(Or(a, b), k) <==> Bit(a, k) || Bit(b, k)
  {
    if a == 0 && b == 0 {
    } else {
      assert Or(a, b) / 2 == Or(a / 2, b / 2);
      if k > 0 {
        BitOfOr(a / 2, b / 2, k - 1);
      }
    }
  }

  lemma {:induction false} BitOfZero(k: nat)
    ensures !Bit(0, k)
  {
    if k > 0 {
      BitOfZero(k - 1);
    }
  }

  lemma {:induction false} BitBeyond(width: nat, n: nat, k: nat)
    requires n < Pow2(width) && width <= k
    ensures !Bit(n, k)
  {
    if width == 0 {
      BitOfZero(k);
    } else {
      BitBeyond(width - 1, n / 2, k - 1);
    }
  }

  lemma {:induction false} BitOfPow2(j: nat, k: nat)
    ensures Bit(Pow2(j), k) <==> k == j
  {
    if j == 0 {
      if k > 0 {
        BitOfZero(k - 1);
      }
    } else if k > 0 {
      BitOfPow2(j - 1, k - 1);
    }
  }

  lemma {:induction false} BitOfComplement(width: nat, n: nat, k: nat)
    requires n < Pow2(width) && k < width
    ensures Bit(Pow2(width) - 1 - n, k) <==> !Bit(n, k)
  {
    if k > 0 {
      HalfOfOnes(Pow2(width - 1), n);
      BitOfComplement(width - 1, n / 2, k - 1);
    }
  }

  /** 2^j - 1 is the pattern of the j lowest bits. */
  lemma {:induction false} BitOfLowMask(j: nat, k: nat)
    ensures Bit(Pow2(j) - 1, k) <==> k < j
  {
    if j == 0 {
      BitOfZero(k);
    } else if k > 0 {
      HalfOfOnes(Pow2(j - 1), 0);
      BitOfLowMask(j - 1, k - 1);
    }
  }

  lemma {:induction false} AndPow2(n: nat, j: nat)
    ensures And(n, Pow2(j)) == if Bit(n, j) then Pow2(j) else 0
  {
    if n == 0 {
      BitOfZero(j);
    } else if j > 0 {
      AndPow2(n / 2, j - 1);
    } else {
      AndZero(n / 2);
    }
  }

  lemma {:induction false} AndZero(n: nat)
    ensures And(n, 0) == 0
  {
    if n > 0 {
      AndZero(n / 2);
    }
  }

  lemma {:induction false} AndBelow(a: nat, b: nat)
    ensures And(a, b) <= a
  {
    if a > 0 {
      AndBelow(a / 2, b / 2);
    }
  }

  lemma {:induction false} OrBelow(width: nat, a: nat, b: nat)
    requires a < Pow2(width) && b < Pow2(width)
    ensures Or(a, b) < Pow2(width)
  {
    if a != 0 || b != 0 {
      OrBelow(width - 1, a / 2, b / 2);
    }
  }
}
