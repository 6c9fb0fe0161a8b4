/** Binary floating point as bit patterns, for every significand width p and exponent width e:
    Float16 is (10, 5) and Float is (23, 8). A pattern is a natural number below 2^(1 + e + p). */
module BinaryFloat {
  import opened Optionals
  import opened Powers
  import opened BitCounts
  import opened FixedWidth

  datatype Widths = Widths(p: nat, e: nat) {
    predicate Valid() { p >= 1 && e >= 2 }

    function Width(): nat { 1 + e + p }

    function InfinityExponent(): nat { Pow2(e) - 1 }

    function Bias(): nat { InfinityExponent() / 2 }

    /** One past the patterns of the finite magnitudes, and the pattern of infinity. */
    function InfinityMagnitude(): nat
    {
      MulIncreasing(0, InfinityExponent(), Pow2(p));
      InfinityExponent() * Pow2(p)
    }

    /** Values are counted in units of the least subnormal; 1.0 is 2 to this power of them. */
    function UnitShift(): nat
      requires Valid()
    {
      Bias() + p - 1
    }

    predicate IsPattern(b: int) { 0 <= b < Pow2(Width()) }
  }

  type Format = f: Widths | f.Valid() witness Widths(10, 5)

  // ---------------------------------------------------------------- fields

  function SignBit(f: Format, b: nat): nat { b / Pow2(f.p + f.e) }

  predicate Negative(f: Format, b: nat) { SignBit(f, b) == 1 }

  function ExponentPattern(f: Format, b: nat): nat { b / Pow2(f.p) % Pow2(f.e) }

  function SignificandPattern(f: Format, b: nat): nat { b % Pow2(f.p) }

  /** Exponent and significand fields together: the pattern without its sign. */
  function Magnitude(f: Format, b: nat): nat { b % Pow2(f.p + f.e) }

  /** init(sign:exponentBitPattern:significandBitPattern:), which masks both fields. */
  function Pack(f: Format, negative: bool, exponent: nat, significand: nat): (b: nat)
  {
    (if negative then Pow2(f.p + f.e) else 0) + exponent % Pow2(f.e) * Pow2(f.p) + significand % Pow2(f.p)
  }

  lemma FieldsOfMagnitude(f: Format, b: nat)
    ensures ExponentPattern(f, b) == Magnitude(f, b) / Pow2(f.p)
    ensures SignificandPattern(f, b) == Magnitude(f, b) % Pow2(f.p)
    ensures Magnitude(f, b) == ExponentPattern(f, b) * Pow2(f.p) + SignificandPattern(f, b)
  {
    hide Pow2;
    ModSplit(b, f.p, f.e);
    DivModUnique(Magnitude(f, b), Pow2(f.p), ExponentPattern(f, b), SignificandPattern(f, b));
  }

  /** Packing keeps the masked fields, and its result is a pattern. */
  lemma FieldsOfPack(f: Format, negative: bool, exponent: nat, significand: nat)
    ensures var b := Pack(f, negative, exponent, significand);
            && f.IsPattern(b)
            && Negative(f, b) == negative
            && ExponentPattern(f, b) == exponent % Pow2(f.e)
            && SignificandPattern(f, b) == significand % Pow2(f.p)
            && Magnitude(f, b) == exponent % Pow2(f.e) * Pow2(f.p) + significand % Pow2(f.p)
  {
    var b := Pack(f, negative, exponent, significand);
    var E, m, s := exponent % Pow2(f.e), significand % Pow2(f.p), if negative then 1 else 0;
    assert E * Pow2(f.p) + m < Pow2(f.p + f.e) by {
      Pow2Add(f.e, f.p);
      MulIncreasing(E, Pow2(f.e) - 1, Pow2(f.p));
      MulSub(Pow2(f.e), 1, Pow2(f.p));
    }
    MulIncreasing(0, E, Pow2(f.p));
    DivModUnique(b, Pow2(f.p + f.e), s, E * Pow2(f.p) + m);
    FieldsOfMagnitude(f, b);
    DivModUnique(Magnitude(f, b), Pow2(f.p), E, m);
  }

  /** Packing the fields of a pattern gives it back. */
  lemma PackOfFields(f: Format, b: nat)
    requires f.IsPattern(b)
    ensures Pack(f, Negative(f, b), ExponentPattern(f, b), SignificandPattern(f, b)) == b
  {
    FieldsOfMagnitude(f, b);
    SignAndMagnitude(f, b);
    ModMod(b / Pow2(f.p), Pow2(f.e));
    ModMod(b, Pow2(f.p));
  }

  /** A pattern is its sign bit above its magnitude. */
  lemma SignAndMagnitude(f: Format, b: nat)
    requires f.IsPattern(b)
    ensures Magnitude(f, b) < Pow2(f.p + f.e)
    ensures b == Magnitude(f, b) + if Negative(f, b) then Pow2(f.p + f.e) else 0
    ensures Negative(f, b) <==> b >= Pow2(f.p + f.e)
  {
    var d := Pow2(f.p + f.e);
    assert Pow2(f.Width()) == 2 * d;
    if b < d {
      DivModUnique(b, d, 0, b);
    } else {
      DivModUnique(b, d, 1, b - d);
    }
  }

  // ---------------------------------------------------------------- classes and values

  predicate IsFinite(f: Format, b: nat) { ExponentPattern(f, b) < f.InfinityExponent() }

  predicate IsZero(f: Format, b: nat) { ExponentPattern(f, b) == 0 && SignificandPattern(f, b) == 0 }

  predicate IsNormal(f: Format, b: nat) { ExponentPattern(f, b) > 0 && IsFinite(f, b) }

  predicate IsNaN(f: Format, b: nat) { !IsFinite(f, b) && SignificandPattern(f, b) != 0 }

  function Infinity(f: Format, negative: bool): nat { Pack(f, negative, f.InfinityExponent(), 0) }

  function GreatestFinite(f: Format): nat { Pack(f, false, Pow2(f.e) - 2, Pow2(f.p) - 1) }

  function UnitsAt(f: Format, E: nat, m: nat): nat
  {
    if E == 0 then m
    else
      MulIncreasing(0, Pow2(f.p) + m, Pow2(E - 1));
      (Pow2(f.p) + m) * Pow2(E - 1)
  }

  function UlpAt(E: nat): nat { if E == 0 then 1 else Pow2(E - 1) }

  /** The value of a magnitude in units of the least subnormal: 0.m for exponent field 0, 1.m above.
      At infinity's magnitude it is the next power of two, the first value out of range. */
  function Units(f: Format, k: nat): nat
  {
    UnitsAt(f, k / Pow2(f.p), k % Pow2(f.p))
  }

  /** The signed value, meaningful for every pattern that is not a NaN. */
  function Value(f: Format, b: nat): int
  {
    if Negative(f, b) then 0 - Units(f, Magnitude(f, b)) else Units(f, Magnitude(f, b))
  }

  /** The gap between a magnitude and the next. */
  function Ulp(f: Format, k: nat): nat
  {
    UlpAt(k / Pow2(f.p))
  }

  lemma UnitsOfFields(f: Format, E: nat, m: nat)
    requires m < Pow2(f.p)
    ensures E * Pow2(f.p) + m >= 0
    ensures Units(f, E * Pow2(f.p) + m) == UnitsAt(f, E, m)
    ensures Ulp(f, E * Pow2(f.p) + m) == UlpAt(E)
  {
    hide Pow2;
    MulIncreasing(0, E, Pow2(f.p));
    DivModUnique(E * Pow2(f.p) + m, Pow2(f.p), E, m);
  }

  /** Consecutive magnitudes are one ulp apart, across exponents and out of the subnormals too. */
  lemma UnitsStep(f: Format, k: nat)
    ensures Units(f, k + 1) == Units(f, k) + Ulp(f, k)
  {
    hide Pow2;
    var d := Pow2(f.p);
    var E, m := k / d, k % d;
    assert k == E * d + m;
    if m + 1 < d {
      UnitsOfFields(f, E, m + 1);
      StepInside(f, E, m);
    } else {
      MulAdd(E, 1, d);
      UnitsOfFields(f, E + 1, 0);
      StepAcross(f, E);
    }
  }

  lemma StepInside(f: Format, E: nat, m: nat)
    ensures UnitsAt(f, E, m + 1) == UnitsAt(f, E, m) + UlpAt(E)
  {
    if E > 0 {
      MulAdd(Pow2(f.p) + m, 1, Pow2(E - 1));
    }
  }

  lemma StepAcross(f: Format, E: nat)
    ensures UnitsAt(f, E + 1, 0) == UnitsAt(f, E, Pow2(f.p) - 1) + UlpAt(E)
  {
    if E > 0 {
      var d, u := Pow2(f.p), Pow2(E - 1);
      assert Pow2(E) == 2 * u;
      MulSub(2 * d, 1, u);
      assert d * (2 * u) == 2 * d * u;
    }
  }

  lemma {:induction false} UnitsStrictlyIncreasing(f: Format, j: nat, k: nat)
    requires j < k
    ensures Units(f, j) < Units(f, k)
    decreases k - j
  {
    UnitsStep(f, j);
    if j + 1 < k {
      UnitsStrictlyIncreasing(f, j + 1, k);
    }
  }

  lemma UnitsIncreasing(f: Format, j: nat, k: nat)
    requires j <= k
    ensures Units(f, j) <= Units(f, k)
  {
    if j < k {
      UnitsStrictlyIncreasing(f, j, k);
    }
  }

  /** Classes read off the magnitude: finite below infinity, NaN above it. */
  lemma ClassOfMagnitude(f: Format, b: nat)
    ensures IsFinite(f, b) <==> Magnitude(f, b) < f.InfinityMagnitude()
    ensures IsNaN(f, b) <==> Magnitude(f, b) > f.InfinityMagnitude()
    ensures IsZero(f, b) <==> Magnitude(f, b) == 0
  {
    hide Pow2;
    FieldsOfMagnitude(f, b);
    var E, m, d := ExponentPattern(f, b), SignificandPattern(f, b), Pow2(f.p);
    assert E <= f.InfinityExponent();
    if E < f.InfinityExponent() {
      MulIncreasing(E, f.InfinityExponent() - 1, d);
      MulSub(f.InfinityExponent(), 1, d);
    }
    MulIncreasing(0, E, d);
    if E > 0 {
      MulIncreasing(1, E, d);
    }
  }

  lemma InfinityFits(f: Format)
    ensures f.InfinityMagnitude() < Pow2(f.p + f.e)
  {
    Pow2Add(f.e, f.p);
    MulSub(Pow2(f.e), 1, Pow2(f.p));
  }

  // ---------------------------------------------------------------- order

  /** The builtin ordered comparison: false when either side is a NaN. */
  predicate NumericLess(f: Format, a: nat, b: nat)
  {
    !IsNaN(f, a) && !IsNaN(f, b) && Value(f, a) < Value(f, b)
  }

  /** isTotallyOrdered(belowOrEqualTo:) — the second test of the source asks `other > self`, which the
      first has already answered, so it never fires. */
  predicate IsTotallyOrdered(f: Format, a: nat, b: nat)
  {
    if NumericLess(f, a, b) then true
    else if NumericLess(f, a, b) then false
    else if Negative(f, a) != Negative(f, b) then Negative(f, a)
    else if ExponentPattern(f, a) > ExponentPattern(f, b) then Negative(f, a)
    else if ExponentPattern(f, a) < ExponentPattern(f, b) then !Negative(f, a)
    else if SignificandPattern(f, a) > SignificandPattern(f, b) then Negative(f, a)
    else if SignificandPattern(f, a) < SignificandPattern(f, b) then !Negative(f, a)
    else true
  }

  /** The place of a pattern in the IEEE 754-2008 section 5.10 order: -NaN, -infinity, ..., -0, +0, ..., +NaN. */
  function Rank(f: Format, b: nat): int
  {
    if Negative(f, b) then -1 - Magnitude(f, b) else Magnitude(f, b)
  }

  lemma FieldsCompare(f: Format, a: nat, b: nat)
    ensures Magnitude(f, a) < Magnitude(f, b) <==>
            ExponentPattern(f, a) < ExponentPattern(f, b) ||
            (ExponentPattern(f, a) == ExponentPattern(f, b) && SignificandPattern(f, a) < SignificandPattern(f, b))
  {
    hide Pow2;
    FieldsOfMagnitude(f, a);
    FieldsOfMagnitude(f, b);
    var d, x, y := Pow2(f.p), ExponentPattern(f, a), ExponentPattern(f, b);
    if x < y {
      MulIncreasing(x + 1, y, d);
      MulAdd(x, 1, d);
    } else if y < x {
      MulIncreasing(y + 1, x, d);
      MulAdd(y, 1, d);
    }
  }

  /** Numeric order follows the rank, and only -0 and +0 are equal numbers of different rank. */
  lemma ValueFollowsRank(f: Format, a: nat, b: nat)
    requires Value(f, a) < Value(f, b)
    ensures Rank(f, a) < Rank(f, b)
  {
    var j, k := Magnitude(f, a), Magnitude(f, b);
    if !Negative(f, a) && !Negative(f, b) && j >= k {
      UnitsIncreasing(f, k, j);
    } else if Negative(f, a) && Negative(f, b) && j <= k {
      UnitsIncreasing(f, j, k);
    }
  }

  /** isTotallyOrdered compares ranks. */
  lemma TotalOrderIsRankOrder(f: Format, a: nat, b: nat)
    ensures IsTotallyOrdered(f, a, b) <==> Rank(f, a) <= Rank(f, b)
  {
    hide Pow2;
    FieldsCompare(f, a, b);
    FieldsCompare(f, b, a);
    if NumericLess(f, a, b) {
      ValueFollowsRank(f, a, b);
    }
  }

  lemma RankIsInjective(f: Format, a: nat, b: nat)
    requires f.IsPattern(a) && f.IsPattern(b) && Rank(f, a) == Rank(f, b)
    ensures a == b
  {
    SignAndMagnitude(f, a);
    SignAndMagnitude(f, b);
  }

  /** A total order on all bit patterns, NaNs and signed zeros included. */
  lemma IsTotallyOrderedIsATotalOrder(f: Format, a: nat, b: nat, c: nat)
    requires f.IsPattern(a) && f.IsPattern(b) && f.IsPattern(c)
    ensures IsTotallyOrdered(f, a, a)
    ensures IsTotallyOrdered(f, a, b) && IsTotallyOrdered(f, b, a) ==> a == b
    ensures IsTotallyOrdered(f, a, b) && IsTotallyOrdered(f, b, c) ==> IsTotallyOrdered(f, a, c)
    ensures IsTotallyOrdered(f, a, b) || IsTotallyOrdered(f, b, a)
  {
    TotalOrderIsRankOrder(f, a, a);
    TotalOrderIsRankOrder(f, a, b);
    TotalOrderIsRankOrder(f, b, a);
    TotalOrderIsRankOrder(f, b, c);
    TotalOrderIsRankOrder(f, a, c);
    if Rank(f, a) == Rank(f, b) {
      RankIsInjective(f, a, b);
    }
  }

  /** The order in terms of the patterns alone: negative before positive, NaNs included; then by the pattern,
      upwards for positive and downwards for negative ones. */
  lemma TotalOrderOnPatterns(f: Format, a: nat, b: nat)
    requires f.IsPattern(a) && f.IsPattern(b)
    ensures IsTotallyOrdered(f, a, b) <==>
            if Negative(f, a) != Negative(f, b) then Negative(f, a)
            else if Negative(f, a) then b <= a
            else a <= b
  {
    hide Pow2, IsTotallyOrdered;
    TotalOrderIsRankOrder(f, a, b);
    SignAndMagnitude(f, a);
    SignAndMagnitude(f, b);
  }

  /** On numbers it refines numeric order: a smaller number comes strictly first, and of two equal
      numbers with different patterns the negative zero does. */
  lemma TotalOrderAgreesWithNumericOrder(f: Format, a: nat, b: nat)
    requires f.IsPattern(a) && f.IsPattern(b) && !IsNaN(f, a) && !IsNaN(f, b)
    ensures Value(f, a) < Value(f, b) ==> IsTotallyOrdered(f, a, b) && !IsTotallyOrdered(f, b, a)
    ensures Value(f, a) == Value(f, b) && a != b ==>
            IsZero(f, a) && IsZero(f, b) && (IsTotallyOrdered(f, a, b) <==> Negative(f, a))
  {
    TotalOrderIsRankOrder(f, a, b);
    TotalOrderIsRankOrder(f, b, a);
    ClassOfMagnitude(f, a);
    ClassOfMagnitude(f, b);
    if Value(f, a) < Value(f, b) {
      ValueFollowsRank(f, a, b);
    } else if Value(f, a) == Value(f, b) && a != b {
      EqualValuesAreZeros(f, a, b);
    }
  }

  lemma EqualValuesAreZeros(f: Format, a: nat, b: nat)
    requires f.IsPattern(a) && f.IsPattern(b) && Value(f, a) == Value(f, b) && a != b
    ensures Magnitude(f, a) == 0 == Magnitude(f, b) && Negative(f, a) != Negative(f, b)
  {
    SignAndMagnitude(f, a);
    SignAndMagnitude(f, b);
    var j, k := Magnitude(f, a), Magnitude(f, b);
    if Negative(f, a) == Negative(f, b) {
      if j < k {
        UnitsStrictlyIncreasing(f, j, k);
      } else {
        UnitsStrictlyIncreasing(f, k, j);
      }
    } else {
      if j > 0 {
        UnitsStrictlyIncreasing(f, 0, j);
      }
      if k > 0 {
        UnitsStrictlyIncreasing(f, 0, k);
      }
    }
  }

  // ---------------------------------------------------------------- exponent and significandWidth

  /** `exponent`; the source answers Int.max for a non-finite value and Int.min for a zero, which are None here. */
  function Exponent(f: Format, b: nat): Option<int>
  {
    if !IsFinite(f, b) || IsZero(f, b) then None
    else
      var provisional := ExponentPattern(f, b) - f.Bias();
      if IsNormal(f, b) then Some(provisional)
      else
        var shift := f.p - Log2(SignificandPattern(f, b));
        Some(provisional + 1 - shift)
  }

  /** `trailingZeroBitCount` of a significand field, which is as wide as the whole pattern. */
  function TrailingZeroBitCount(f: Format, significand: nat): nat
  {
    if significand == 0 then f.Width() else TrailingZeros(significand)
  }

  function SignificandWidth(f: Format, b: nat): int
  {
    var m := SignificandPattern(f, b);
    var trailingZeroBits := TrailingZeroBitCount(f, m);
    if IsNormal(f, b) then
      if m == 0 then 0 else f.p - trailingZeroBits
    else if IsFinite(f, b) && m != 0 then
      var leadingZeroBits := f.Width() - 1 - Log2(m);
      f.Width() - (trailingZeroBits + leadingZeroBits + 1)
    else -1
  }

  /** Zeros, infinities and NaNs, and only they, have no exponent and a significand width of -1. */
  lemma ExponentAndWidthOfTheRest(f: Format, b: nat)
    ensures Exponent(f, b) == None <==> !IsFinite(f, b) || IsZero(f, b)
    ensures SignificandWidth(f, b) == -1 <==> !IsFinite(f, b) || IsZero(f, b)
  {
    hide Units, Pow2, Log2, TrailingZeros;
    if IsFinite(f, b) && !IsZero(f, b) {
      ExponentAndWidthOfValue(f, b);
      WidthIsNotNegative(Units(f, Magnitude(f, b)));
    }
  }

  lemma {:induction false} WidthIsNotNegative(n: nat)
    ensures n > 0 ==> TrailingZeros(n) <= Log2(n)
  {
    if n > 1 {
      WidthIsNotNegative(n / 2);
    }
  }

  /** For every finite non-zero pattern, `exponent` is the logarithm of the value and `significandWidth`
      counts the bits below its leading bit down to its lowest set bit. */
  lemma ExponentAndWidthOfValue(f: Format, b: nat)
    requires IsFinite(f, b) && !IsZero(f, b)
    ensures var u := Units(f, Magnitude(f, b));
            && u > 0
            && Exponent(f, b) == Some(Log2(u) - f.UnitShift())
            && SignificandWidth(f, b) == Log2(u) - TrailingZeros(u)
  {
    var E, m := ExponentPattern(f, b), SignificandPattern(f, b);
    FieldsOfMagnitude(f, b);
    UnitsOfFields(f, E, m);
    if E > 0 {
      NormalUnits(f, E, m);
    }
  }

  lemma NormalUnits(f: Format, E: nat, m: nat)
    requires E > 0 && m < Pow2(f.p)
    ensures UnitsAt(f, E, m) > 0
    ensures Log2(UnitsAt(f, E, m)) == f.p + E - 1
    ensures TrailingZeros(UnitsAt(f, E, m)) == E - 1 + if m == 0 then f.p else TrailingZeros(m)
  {
    var n := Pow2(f.p) + m;
    Log2Unique(n, f.p);
    Log2Shift(n, E - 1);
    TrailingZerosShift(n, E - 1);
    if m == 0 {
      TrailingZerosShift(1, f.p);
    } else {
      TrailingZerosBelow(m, f.p);
    }
  }

  // ---------------------------------------------------------------- nextUp

  /** `self + 0`: quiets a NaN, turns -0 into +0 and leaves every other value alone. */
  function PlusZero(f: Format, b: nat): nat
  {
    if IsNaN(f, b) then
      var quiet := Pow2(f.p - 1);
      if SignificandPattern(f, b) >= quiet then b else b + quiet
    else if IsZero(f, b) then 0
    else b
  }

  /** `nextUp`: an arithmetic shift makes the increment -1 for a negative pattern and +1 otherwise. */
  function NextUp(f: Format, b: nat): nat
  {
    var x := PlusZero(f, b);
    if NumericLess(f, x, Infinity(f, false)) then
      var increment := if Negative(f, x) then Pow2(f.Width()) - 1 else 1;
      (x + increment) % Pow2(f.Width())
    else x
  }

  lemma InfinityIsInfinite(f: Format, negative: bool)
    ensures var b := Infinity(f, negative);
            f.IsPattern(b) && Negative(f, b) == negative && Magnitude(f, b) == f.InfinityMagnitude() && !IsNaN(f, b)
  {
    FieldsOfPack(f, negative, f.InfinityExponent(), 0);
    ModSmall(f.InfinityExponent(), Pow2(f.e));
    ModSmall(0, Pow2(f.p));
    ClassOfMagnitude(f, Infinity(f, negative));
  }

  /** Below infinity, nextUp is the next number: greater, and with nothing representable in between. */
  lemma NextUpIsNext(f: Format, b: nat, c: nat)
    requires f.IsPattern(b) && !IsNaN(f, b) && NumericLess(f, b, Infinity(f, false))
    requires f.IsPattern(c) && !IsNaN(f, c)
    ensures f.IsPattern(NextUp(f, b)) && NumericLess(f, b, NextUp(f, b))
    ensures !(Value(f, b) < Value(f, c) < Value(f, NextUp(f, b)))
  {
    hide Units, Pow2, IsFinite, SignificandPattern, PlusZero, Widths.InfinityMagnitude;
    var x := PlusZero(f, b);
    SameValuePlusZero(f, b);
    SignAndMagnitude(f, x);
    SignAndMagnitude(f, c);
    ClassOfMagnitude(f, x);
    ClassOfMagnitude(f, c);
    InfinityIsInfinite(f, false);
    InfinityFits(f);
    var k, j := Magnitude(f, x), Magnitude(f, c);
    if Negative(f, x) {
      PatternBelow(f, x);
      UnitsStep(f, k - 1);
      Between(f, k - 1, j);
    } else {
      BelowInfinity(f, k);
      PatternAbove(f, x);
      UnitsStep(f, k);
      Between(f, k, j);
    }
  }

  /** The sign of nextUp: a negative number stays on its side, so the negative least subnormal goes to -0, and
      both zeros go to the positive least subnormal. */
  lemma NextUpSign(f: Format, b: nat)
    requires f.IsPattern(b) && !IsNaN(f, b) && NumericLess(f, b, Infinity(f, false))
    ensures Negative(f, NextUp(f, b)) <==> Negative(f, b) && !IsZero(f, b)
    ensures IsZero(f, b) ==> NextUp(f, b) == 1
  {
    if IsZero(f, b) {
      NextUpOfZero(f, b);
    } else {
      NextUpKeepsSign(f, b);
    }
  }

  lemma NextUpOfZero(f: Format, b: nat)
    requires f.IsPattern(b) && IsZero(f, b) && NumericLess(f, b, Infinity(f, false))
    ensures NextUp(f, b) == 1 && !Negative(f, 1)
  {
    hide Units, Pow2, NumericLess, Widths.InfinityMagnitude, Negative;
    assert PlusZero(f, b) == 0 && !IsNaN(f, b);
    ZeroIsBelowInfinity(f, b);
    SignAndMagnitude(f, 0);
    OneIsSmall(f);
    SignAndMagnitude(f, 1);
    ModSmall(1, Pow2(f.Width()));
  }

  lemma ZeroIsBelowInfinity(f: Format, b: nat)
    requires f.IsPattern(b) && IsZero(f, b) && NumericLess(f, b, Infinity(f, false))
    ensures NumericLess(f, 0, Infinity(f, false))
  {
    SameValuePlusZero(f, b);
  }

  lemma OneIsSmall(f: Format)
    ensures 1 < Pow2(f.p + f.e) && 1 < Pow2(f.Width())
  {
    Pow2StrictlyIncreasing(0, f.p + f.e);
    Pow2StrictlyIncreasing(0, f.Width());
  }

  lemma NextUpKeepsSign(f: Format, b: nat)
    requires f.IsPattern(b) && !IsNaN(f, b) && !IsZero(f, b) && NumericLess(f, b, Infinity(f, false))
    ensures Negative(f, NextUp(f, b)) <==> Negative(f, b)
  {
    hide Units, Pow2, IsFinite, SignificandPattern, Widths.InfinityMagnitude, IsZero, Negative, IsNaN;
    assert PlusZero(f, b) == b;
    SignAndMagnitude(f, b);
    ClassOfMagnitude(f, b);
    InfinityIsInfinite(f, false);
    InfinityFits(f);
    if Negative(f, b) {
      PatternBelow(f, b);
    } else {
      BelowInfinity(f, Magnitude(f, b));
      PatternAbove(f, b);
    }
  }

  /** Everything else comes back unchanged, but for a NaN being quieted. */
  lemma NextUpOfTheRest(f: Format, b: nat)
    requires f.IsPattern(b) && !NumericLess(f, b, Infinity(f, false))
    ensures NextUp(f, b) == if IsNaN(f, b) then PlusZero(f, b) else Infinity(f, false)
    ensures IsNaN(f, b) <==> IsNaN(f, PlusZero(f, b))
  {
    InfinityIsInfinite(f, false);
    if IsNaN(f, b) {
      QuietNaN(f, b);
    } else {
      ClassOfMagnitude(f, b);
      SignAndMagnitude(f, b);
      SignAndMagnitude(f, Infinity(f, false));
      UnitsIncreasing(f, Magnitude(f, b), f.InfinityMagnitude());
      UnitsStrictlyIncreasing(f, 0, f.InfinityMagnitude());
      if Magnitude(f, b) < f.InfinityMagnitude() {
        UnitsStrictlyIncreasing(f, Magnitude(f, b), f.InfinityMagnitude());
      }
      SameValuePlusZero(f, b);
    }
  }

  lemma SameValuePlusZero(f: Format, b: nat)
    requires f.IsPattern(b) && !IsNaN(f, b)
    ensures f.IsPattern(PlusZero(f, b)) && !IsNaN(f, PlusZero(f, b))
    ensures Value(f, PlusZero(f, b)) == Value(f, b)
    ensures Magnitude(f, PlusZero(f, b)) == Magnitude(f, b)
    ensures Negative(f, PlusZero(f, b)) ==> Magnitude(f, b) > 0
  {
    ClassOfMagnitude(f, b);
    ClassOfMagnitude(f, 0);
    SignAndMagnitude(f, 0);
    UnitsOfFields(f, 0, 0);
  }

  lemma QuietNaN(f: Format, b: nat)
    requires f.IsPattern(b) && IsNaN(f, b)
    ensures f.IsPattern(PlusZero(f, b)) && IsNaN(f, PlusZero(f, b))
  {
    var quiet, d, m := Pow2(f.p - 1), Pow2(f.p), SignificandPattern(f, b);
    if m < quiet {
      assert d == 2 * quiet;
      FieldsOfMagnitude(f, b);
      SignAndMagnitude(f, b);
      var E := ExponentPattern(f, b);
      FieldsOfPack(f, Negative(f, b), E, m + quiet);
      ModSmall(E, Pow2(f.e));
      ModSmall(m + quiet, d);
    }
  }

  lemma BelowInfinity(f: Format, k: nat)
    requires Units(f, k) < Units(f, f.InfinityMagnitude())
    ensures k < f.InfinityMagnitude()
  {
    if k >= f.InfinityMagnitude() {
      UnitsIncreasing(f, f.InfinityMagnitude(), k);
    }
  }

  lemma PatternAbove(f: Format, x: nat)
    requires f.IsPattern(x) && !Negative(f, x) && Magnitude(f, x) < f.InfinityMagnitude()
    ensures var r := (x + 1) % Pow2(f.Width());
            f.IsPattern(r) && !Negative(f, r) && Magnitude(f, r) == Magnitude(f, x) + 1 && !IsNaN(f, r)
  {
    SignAndMagnitude(f, x);
    InfinityFits(f);
    assert Pow2(f.Width()) == 2 * Pow2(f.p + f.e);
    ModSmall(x + 1, Pow2(f.Width()));
    SignAndMagnitude(f, x + 1);
    ClassOfMagnitude(f, x + 1);
  }

  lemma PatternBelow(f: Format, x: nat)
    requires f.IsPattern(x) && Negative(f, x) && 0 < Magnitude(f, x) <= f.InfinityMagnitude()
    ensures var r := (x + (Pow2(f.Width()) - 1)) % Pow2(f.Width());
            f.IsPattern(r) && Negative(f, r) && Magnitude(f, r) == Magnitude(f, x) - 1 && !IsNaN(f, r)
  {
    SignAndMagnitude(f, x);
    assert Pow2(f.Width()) == 2 * Pow2(f.p + f.e);
    DivModUnique(x + (Pow2(f.Width()) - 1), Pow2(f.Width()), 1, x - 1);
    SignAndMagnitude(f, x - 1);
    ClassOfMagnitude(f, x - 1);
  }

  /** No magnitude lies strictly between two consecutive ones. */
  lemma Between(f: Format, k: nat, j: nat)
    ensures j <= k ==> Units(f, j) <= Units(f, k)
    ensures j > k ==> Units(f, j) >= Units(f, k + 1)
  {
    if j <= k {
      UnitsIncreasing(f, j, k);
    } else {
      UnitsIncreasing(f, k + 1, j);
    }
  }
}
