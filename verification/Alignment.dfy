/** Powers of two among the integers, and rounding addresses up to a multiple of one. */
module Alignment {
  import opened Powers
  import opened BitPatterns
  import opened BitCounts

  /** _isPowerOf2(_:) */
  predicate IsPowerOf2(x: int) { x > 0 && And(x, x - 1) == 0 }

  lemma IsPowerOf2Exactly(x: int, j: nat)
    ensures IsPowerOf2(x) ==> x == Pow2(TrailingZeros(x))
    ensures IsPowerOf2(Pow2(j))
  {
    if x > 0 {
      OnlyTheLowest(x);
    }
    OnlyTheLowest(Pow2(j));
    TrailingZerosOfPow2(j);
  }

  lemma {:induction false} TrailingZerosOfPow2(j: nat)
    ensures TrailingZeros(Pow2(j)) == j
  {
    if j > 0 {
      TrailingZerosOfPow2(j - 1);
    }
  }

  /** x & (x - 1) vanishes exactly when the lowest set bit is the only one. */
  lemma {:induction false} OnlyTheLowest(x: nat)
    requires x > 0
    ensures And(x, x - 1) == 0 <==> x == Pow2(TrailingZeros(x))
  {
    if x % 2 == 1 {
      assert (x - 1) / 2 == x / 2;
      AndSelf(x / 2);
    } else {
      assert (x - 1) / 2 == x / 2 - 1;
      OnlyTheLowest(x / 2);
    }
  }

  lemma {:induction false} AndSelf(x: nat)
    ensures And(x, x) == x
  {
    if x > 0 {
      AndSelf(x / 2);
    }
  }

  lemma AndEven(x: nat, half: nat)
    ensures And(x, 2 * half) == 2 * And(x / 2, half)
  {
  }

  lemma DoubledRemainder(x: nat, half: nat)
    requires half > 0
    ensures 2 * (x / 2 - x / 2 % half) == x - x % (2 * half)
  {
    DivModProduct(x, 2, half);
    assert half * 2 == 2 * half;
  }

  lemma AndHighMaskStep(x: nat, half: nat, ones: nat)
    requires half > 0 && And(x / 2, ones) == x / 2 - x / 2 % half
    ensures And(x, 2 * ones) == x - x % (2 * half)
  {
    hide And;
    AndEven(x, ones);
    DoubledRemainder(x, half);
  }

  /** Masking the low j bits away rounds down to a multiple of 2^j. */
  lemma {:induction false} AndHighMask(x: nat, j: nat, width: nat)
    requires x < Pow2(width) && j <= width
    ensures Pow2(j) <= Pow2(width) && And(x, Pow2(width) - Pow2(j)) == x - x % Pow2(j)
  {
    hide And;
    Pow2Increasing(j, width);
    if j == 0 {
      AndOnes(x, width);
      assert x % 1 == 0;
    } else {
      var half, ones := Pow2(j - 1), Pow2(width - 1) - Pow2(j - 1);
      assert Pow2(width) == 2 * Pow2(width - 1) && Pow2(j) == 2 * half;
      hide Pow2;
      AndHighMask(x / 2, j - 1, width - 1);
      AndHighMaskStep(x, half, ones);
    }
  }

  lemma {:induction false} AndOnes(x: nat, width: nat)
    requires x < Pow2(width)
    ensures And(x, Pow2(width) - 1) == x
  {
    if x > 0 {
      assert (Pow2(width) - 1) / 2 == Pow2(width - 1) - 1;
      AndOnes(x / 2, width - 1);
    }
  }

  /** _roundUpImpl(_:toAlignment:) on 16-bit addresses. */
  function RoundUp(offset: nat, alignment: nat): nat
    requires 0 < alignment <= 0x1_0000
  {
    var x := (offset + alignment - 1) % 0x1_0000;
    And(x, 0x1_0000 - alignment)
  }

  /** Any x not below offset that is congruent to offset + a - 1 modulo N, rounded down, is less than a ahead. */
  lemma RoundedDownIsNear(offset: nat, a: nat, N: nat)
    requires 0 < a <= N
    ensures var x := (offset + a - 1) % N; (x - x % a - offset) % N == a - 1 - x % a < a
  {
    var ahead := offset + a - 1;
    var x := ahead % N;
    DivModIdentity(x, a);
    DivModIdentity(ahead, N);
    RoundedByIsNear(offset, a, N, x, ahead / N, x % a);
  }

  lemma RoundedByIsNear(offset: nat, a: nat, N: nat, x: int, k: int, low: nat)
    requires low < a <= N && offset + a - 1 == k * N + x
    ensures (x - low - offset) % N == a - 1 - low
  {
    ModSmall(a - 1 - low, N);
    MulSub(0, k, N);
    ModEqual(x - low - offset, a - 1 - low, N, 0 - k);
  }

  lemma RoundUpRoundsDown(offset: nat, j: nat)
    requires j < 16
    ensures Pow2(j) < 0x1_0000
    ensures var x := (offset + Pow2(j) - 1) % 0x1_0000; RoundUp(offset, Pow2(j)) == x - x % Pow2(j)
  {
    hide And;
    MachineWords();
    Pow2StrictlyIncreasing(j, 16);
    AndHighMask((offset + Pow2(j) - 1) % 0x1_0000, j, 16);
  }

  lemma RoundedDownIsAligned(x: int, a: nat)
    requires a > 0
    ensures (x - x % a) % a == 0
  {
    DivModUnique(x - x % a, a, x / a, 0);
  }

  lemma RoundedDownIsNext(offset: nat, aligned: int, a: nat, b: nat, N: nat)
    requires 0 < a && 0 < b && b * a == N && a <= N
    requires var x := (offset + a - 1) % N; aligned == x - x % a
    ensures IsNextAligned(offset, aligned, a, N)
  {
    RoundedDownIsNear(offset, a, N);
    RoundedDownIsAligned((offset + a - 1) % N, a);
    AlignedThroughWrap(offset, aligned, a, b);
  }

  /** How far the address is from offset, round the address space. */
  function Gap(offset: nat, address: int, N: nat): nat
    requires N > 0
  {
    (address - offset) % N
  }

  /** The address is aligned, and going from offset to it modulo N takes less than one alignment. */
  predicate IsNextAligned(offset: nat, address: int, alignment: nat, N: nat)
    requires alignment > 0 && N > 0
  {
    var gap := Gap(offset, address, N);
    address % alignment == 0 && gap < alignment && (offset + gap) % alignment == 0
  }

  lemma WordsOfAlignment(j: nat)
    requires j < 16
    ensures Pow2(16 - j) * Pow2(j) == 0x1_0000
  {
    MachineWords();
    Pow2Add(16 - j, j);
  }

  /** _roundUpImpl finds the next aligned address, even when the address space wraps in between. */
  lemma RoundUpIsNextAligned(offset: nat, j: nat)
    requires j < 16
    ensures Pow2(j) < 0x1_0000 && IsNextAligned(offset, RoundUp(offset, Pow2(j)), Pow2(j), 0x1_0000)
  {
    hide Pow2, RoundUp, IsNextAligned;
    RoundUpRoundsDown(offset, j);
    WordsOfAlignment(j);
    RoundedDownIsNext(offset, RoundUp(offset, Pow2(j)), Pow2(j), Pow2(16 - j), 0x1_0000);
  }

  lemma AlignedThroughWrap(offset: int, aligned: int, a: nat, b: nat)
    requires a > 0 && b > 0 && aligned % a == 0
    ensures b * a > 0 && (offset + (aligned - offset) % (b * a)) % a == 0
  {
    MulStrictlyIncreasing(0, b, a);
    var N := b * a;
    var k := (aligned - offset) / N;
    DivModIdentity(aligned - offset, N);
    MulAssociative(k, b, a);
    MulSub(0, k * b, a);
    ModEqual(offset + (aligned - offset) % N, aligned, a, 0 - k * b);
  }
}
