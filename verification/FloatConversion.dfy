/** Conversions between integers of any width and signedness and binary floats of any format. */
module FloatConversion {
  import opened Optionals
  import opened Powers
  import opened BitCounts
  import opened BitPatterns
  import opened FixedWidth
  import opened BinaryFloat

  // ---------------------------------------------------------------- what correct rounding means

  function Distance(a: int, b: int): nat { if a < b then b - a else a - b }

  /** The integer x in the units that Value counts. */
  function InUnits(f: Format, x: int): int { x * Pow2(f.UnitShift()) }

  /** Half an ulp past the greatest finite magnitude, where section 4.3.1 of IEEE 754-2008 starts to overflow. */
  ghost predicate Overflows(f: Format, x: int)
  {
    f.InfinityMagnitude() > 0 &&
    2 * Abs(InUnits(f, x)) >= Units(f, f.InfinityMagnitude() - 1) + Units(f, f.InfinityMagnitude())
  }

  /** No finite pattern is nearer to x than b, and another one as near makes b the even one. */
  ghost predicate Nearest(f: Format, x: int, b: nat)
  {
    forall c: nat :: f.IsPattern(c) && IsFinite(f, c) ==>
      var toB, toC := Distance(InUnits(f, x), Value(f, b)), Distance(InUnits(f, x), Value(f, c));
      toB <= toC && (toB == toC && Value(f, c) != Value(f, b) ==> SignificandPattern(f, b) % 2 == 0)
  }

  /** Round to nearest, ties to even. */
  ghost predicate RoundsTo(f: Format, x: int, b: nat)
  {
    && f.IsPattern(b)
    && Negative(f, b) == (x < 0)
    && (if Overflows(f, x) then b == Infinity(f, x < 0) else IsFinite(f, b) && Nearest(f, x, b))
  }

  /** At most one pattern satisfies the definition. */
  lemma RoundingIsUnique(f: Format, x: int, a: nat, b: nat)
    requires RoundsTo(f, x, a) && RoundsTo(f, x, b)
    ensures a == b
  {
    if !Overflows(f, x) {
      NotBothNearest(f, x, a, b);
      NotBothNearest(f, x, b, a);
      SignAndMagnitude(f, a);
      SignAndMagnitude(f, b);
    }
  }

  lemma NearestBeats(f: Format, x: int, b: nat, c: nat)
    requires Nearest(f, x, b) && f.IsPattern(c) && IsFinite(f, c)
    ensures Distance(InUnits(f, x), Value(f, b)) <= Distance(InUnits(f, x), Value(f, c))
    ensures Distance(InUnits(f, x), Value(f, b)) == Distance(InUnits(f, x), Value(f, c)) && Value(f, c) != Value(f, b)
            ==> SignificandPattern(f, b) % 2 == 0
  {
  }

  lemma NotBothNearest(f: Format, x: int, a: nat, b: nat)
    requires RoundsTo(f, x, a) && RoundsTo(f, x, b) && !Overflows(f, x)
    ensures Magnitude(f, b) <= Magnitude(f, a)
  {
    hide Units, Nearest, Overflows, InUnits, IsFinite, SignificandPattern, Pow2;
    var j, k := Magnitude(f, a), Magnitude(f, b);
    if j + 1 == k {
      UnitsStrictlyIncreasing(f, j, k);
      EvenMagnitude(f, a);
      EvenMagnitude(f, b);
      NearestBeats(f, x, a, b);
      NearestBeats(f, x, b, a);
    } else if j < k {
      SignAndMagnitude(f, a);
      SignAndMagnitude(f, b);
      SignAndMagnitude(f, a + 1);
      ClassOfMagnitude(f, b);
      ClassOfMagnitude(f, a + 1);
      UnitsStrictlyIncreasing(f, j, j + 1);
      UnitsStrictlyIncreasing(f, j + 1, k);
      NearestBeats(f, x, a, b);
      NearestBeats(f, x, b, a);
      NearestBeats(f, x, a, a + 1);
    }
  }

  lemma EvenMagnitude(f: Format, b: nat)
    ensures SignificandPattern(f, b) % 2 == Magnitude(f, b) % 2
  {
    var d := Pow2(f.p - 1);
    assert Pow2(f.p) == 2 * d;
    EvenMultiple(ExponentPattern(f, b), d, SignificandPattern(f, b));
    FieldsOfMagnitude(f, b);
  }

  lemma EvenMultiple(E: nat, d: nat, m: nat)
    ensures (E * (2 * d) + m) % 2 == m % 2
  {
    DoubleMul(E, d);
  }

  /** The same thing said only about the two neighbouring magnitudes. */
  predicate NearestNeighbour(f: Format, scaled: nat, k: nat)
  {
    && (k > 0 ==> Units(f, k - 1) + Units(f, k) <= 2 * scaled)
    && (k > 0 && Units(f, k - 1) + Units(f, k) == 2 * scaled ==> k % 2 == 0)
    && 2 * scaled <= Units(f, k) + Units(f, k + 1)
    && (2 * scaled == Units(f, k) + Units(f, k + 1) ==> k % 2 == 0)
  }

  /** Beating both neighbours is enough to beat every finite pattern. */
  lemma NearestFromNeighbours(f: Format, x: int, b: nat)
    requires f.IsPattern(b) && Negative(f, b) == (x < 0)
    requires Magnitude(f, b) <= f.InfinityMagnitude()
    requires NearestNeighbour(f, Abs(InUnits(f, x)), Magnitude(f, b))
    ensures RoundsTo(f, x, b)
  {
    hide Units, Pow2, InUnits, SignificandPattern, IsFinite, Infinity, Widths.InfinityMagnitude;
    var k := Magnitude(f, b);
    InfinityIsEven(f);
    SignAndMagnitude(f, b);
    ClassOfMagnitude(f, b);
    InfinityIsInfinite(f, x < 0);
    SignAndMagnitude(f, Infinity(f, x < 0));
    if k < f.InfinityMagnitude() {
      UnitsIncreasing(f, k, f.InfinityMagnitude() - 1);
      UnitsIncreasing(f, k + 1, f.InfinityMagnitude());
      if k + 1 < f.InfinityMagnitude() {
        UnitsStrictlyIncreasing(f, k + 1, f.InfinityMagnitude());
      }
      forall c: nat | f.IsPattern(c) && IsFinite(f, c)
        ensures var toB, toC := Distance(InUnits(f, x), Value(f, b)), Distance(InUnits(f, x), Value(f, c));
                toB <= toC && (toB == toC && Value(f, c) != Value(f, b) ==> SignificandPattern(f, b) % 2 == 0)
      {
        BeatsPattern(f, x, b, c);
      }
    }
  }

  lemma BeatsPattern(f: Format, x: int, b: nat, c: nat)
    requires f.IsPattern(b) && Negative(f, b) == (x < 0)
    requires NearestNeighbour(f, Abs(InUnits(f, x)), Magnitude(f, b))
    ensures var toB, toC := Distance(InUnits(f, x), Value(f, b)), Distance(InUnits(f, x), Value(f, c));
            toB <= toC && (toB == toC && Value(f, c) != Value(f, b) ==> SignificandPattern(f, b) % 2 == 0)
  {
    hide Pow2, InUnits, SignificandPattern;
    var k, j, scaled := Magnitude(f, b), Magnitude(f, c), Abs(InUnits(f, x));
    EvenMagnitude(f, b);
    InUnitsSign(f, x);
    BeatsMagnitude(f, scaled, k, j);
    BeatsMagnitude(f, scaled, k, 0);
    UnitsIncreasing(f, 0, j);
    UnitsIncreasing(f, 0, k);
    UnitsOfFields(f, 0, 0);
  }

  lemma InUnitsSign(f: Format, x: int)
    ensures InUnits(f, x) < 0 <==> x < 0
    ensures InUnits(f, x) == 0 <==> x == 0
    ensures Abs(InUnits(f, x)) == InUnits(f, Abs(x))
  {
    if x > 0 {
      MulIncreasing(1, x, Pow2(f.UnitShift()));
    } else if x < 0 {
      MulIncreasing(x, -1, Pow2(f.UnitShift()));
      assert (0 - x) * Pow2(f.UnitShift()) == 0 - x * Pow2(f.UnitShift());
    }
  }

  lemma BeatsMagnitude(f: Format, scaled: nat, k: nat, j: nat)
    requires NearestNeighbour(f, scaled, k)
    ensures Distance(scaled, Units(f, k)) <= Distance(scaled, Units(f, j))
    ensures Distance(scaled, Units(f, k)) == Distance(scaled, Units(f, j)) && Units(f, j) != Units(f, k) ==> k % 2 == 0
  {
    if j < k {
      UnitsIncreasing(f, j, k - 1);
      UnitsStrictlyIncreasing(f, k - 1, k);
    } else if j > k {
      UnitsIncreasing(f, k + 1, j);
      UnitsStrictlyIncreasing(f, k, k + 1);
    }
  }

  lemma InfinityIsEven(f: Format)
    ensures f.InfinityMagnitude() > 0 && f.InfinityMagnitude() % 2 == 0
  {
    var d := Pow2(f.p - 1);
    Pow2Increasing(2, f.e);
    MulIncreasing(1, f.InfinityExponent(), Pow2(f.p));
    assert f.InfinityExponent() * (2 * d) == 2 * (f.InfinityExponent() * d);
  }

  lemma BiasFacts(f: Format)
    ensures Pow2(f.e) == 2 * f.Bias() + 2 && f.Bias() >= 1
  {
    assert Pow2(f.e) == 2 * (2 * Pow2(f.e - 2));
    hide Pow2;
    var k := Pow2(f.e - 2);
    assert (2 * (2 * k) - 1) / 2 == 2 * k - 1;
  }

  // ---------------------------------------------------------------- integer to float

  /** A pattern whose value is x is what x rounds to. */
  lemma ExactRounds(f: Format, x: int, b: nat)
    requires f.IsPattern(b) && Negative(f, b) == (x < 0) && IsFinite(f, b)
    requires Units(f, Magnitude(f, b)) == Abs(InUnits(f, x))
    ensures RoundsTo(f, x, b) && Value(f, b) == InUnits(f, x)
  {
    var k := Magnitude(f, b);
    ClassOfMagnitude(f, b);
    if k > 0 {
      UnitsStrictlyIncreasing(f, k - 1, k);
    }
    UnitsStrictlyIncreasing(f, k, k + 1);
    NearestFromNeighbours(f, x, b);
    InUnitsSign(f, x);
  }

  lemma ZeroConverts(f: Format)
    ensures RoundsTo(f, 0, 0) && IsFinite(f, 0) && Value(f, 0) == InUnits(f, 0)
  {
    UnitsOfFields(f, 0, 0);
    SignAndMagnitude(f, 0);
    ClassOfMagnitude(f, 0);
    InfinityIsEven(f);
    ExactRounds(f, 0, 0);
  }

  lemma GreatestFiniteExponent(f: Format)
    ensures Exponent(f, GreatestFinite(f)) == Some(f.Bias())
  {
    BiasFacts(f);
    FieldsOfPack(f, false, Pow2(f.e) - 2, Pow2(f.p) - 1);
    ModSmall(Pow2(f.e) - 2, Pow2(f.e));
    ModSmall(Pow2(f.p) - 1, Pow2(f.p));
  }

  lemma ExponentBelowWidth(m: IntType, magnitude: nat)
    requires 0 < m.width && !m.signed && m.Contains(magnitude) && magnitude > 0
    ensures Log2(magnitude) < m.width
  {
    Log2Bounds(magnitude);
    if Log2(magnitude) >= m.width {
      Pow2Increasing(m.width, Log2(magnitude));
    }
  }

  /** The pattern of exponent q >= 0 and fraction m is a normal number worth (2^p + m) 2^(bias + q - 1) units. */
  lemma NormalPattern(f: Format, negative: bool, q: nat, significand: nat)
    requires q <= f.Bias()
    ensures f.Bias() >= 1
    ensures var b := Pack(f, negative, f.Bias() + q, significand);
            var m := significand % Pow2(f.p);
            && f.IsPattern(b) && Negative(f, b) == negative && IsFinite(f, b)
            && Magnitude(f, b) == (f.Bias() + q) * Pow2(f.p) + m
            && Units(f, Magnitude(f, b)) == (Pow2(f.p) + m) * Pow2(f.Bias() + q - 1)
            && Ulp(f, Magnitude(f, b)) == Pow2(f.Bias() + q - 1)
  {
    BiasFacts(f);
    FieldsOfPack(f, negative, f.Bias() + q, significand);
    ModSmall(f.Bias() + q, Pow2(f.e));
    UnitsOfFields(f, f.Bias() + q, significand % Pow2(f.p));
  }

  /** A number of at most p + 1 bits is shifted into place with nothing lost. */
  lemma FitsExactly(f: Format, x: int, q: nat, significand: nat)
    requires x != 0 && q == Log2(Abs(x)) && q <= f.p && q <= f.Bias()
    requires var raw := IntType(f.Width(), false);
             significand == ShiftLeft(raw, raw.Wrap(Abs(x)), f.p - q)
    ensures var b := Pack(f, x < 0, f.Bias() + q, significand);
            RoundsTo(f, x, b) && IsFinite(f, b) && Value(f, b) == InUnits(f, x)
  {
    hide Pow2, ShiftLeft, IntType.Wrap;
    var a, d := Abs(x), Pow2(f.p);
    ShiftIntoPlace(f, a, q);
    DivModUnique(significand, d, 1, significand - d);
    NormalPattern(f, x < 0, q, significand);
    assert significand * Pow2(f.Bias() + q - 1) == InUnits(f, a) by {
      MulAssociative(a, Pow2(f.p - q), Pow2(f.Bias() + q - 1));
      Pow2Add(f.p - q, f.Bias() + q - 1);
    }
    InUnitsSign(f, x);
    ExactRounds(f, x, Pack(f, x < 0, f.Bias() + q, significand));
  }

  lemma ShiftIntoPlace(f: Format, a: nat, q: nat)
    requires a > 0 && q == Log2(a) && q <= f.p
    ensures var raw := IntType(f.Width(), false);
            ShiftLeft(raw, raw.Wrap(a), f.p - q) == a * Pow2(f.p - q)
    ensures Pow2(f.p) <= a * Pow2(f.p - q) < 2 * Pow2(f.p)
  {
    var raw, u := IntType(f.Width(), false), Pow2(f.p - q);
    Log2Bounds(a);
    Pow2Add(q, f.p - q);
    MulIncreasing(Pow2(q), a, u);
    MulStrictlyIncreasing(a, 2 * Pow2(q), u);
    MulAssociative(2, Pow2(q), u);
    Pow2Increasing(q + 1, f.p + 1);
    Pow2Increasing(f.p + 1, f.Width());
    WrapContained(raw, a);
    ShiftsAreExact(raw, a, f.p - q);
    WrapContained(raw, a * u);
  }

  /** More than the greatest finite exponent: at least twice the power of two that begins its binade. */
  lemma TooLarge(f: Format, x: int, q: nat)
    requires x != 0 && q == Log2(Abs(x)) && q > f.Bias()
    ensures RoundsTo(f, x, Infinity(f, x < 0)) && !IsFinite(f, Infinity(f, x < 0))
  {
    var a, B := Abs(x), f.Bias();
    Log2Bounds(a);
    Pow2Increasing(B + 1, q);
    MulIncreasing(Pow2(B + 1), a, Pow2(f.UnitShift()));
    Pow2Add(B + 1, f.UnitShift());
    InfinityUnits(f);
    InUnitsSign(f, x);
    InfinityIsEven(f);
    UnitsStrictlyIncreasing(f, f.InfinityMagnitude() - 1, f.InfinityMagnitude());
    InfinityIsInfinite(f, x < 0);
    ClassOfMagnitude(f, Infinity(f, x < 0));
  }

  lemma InfinityUnits(f: Format)
    ensures Units(f, f.InfinityMagnitude()) == Pow2(f.Bias() + 1 + f.UnitShift())
  {
    BiasFacts(f);
    UnitsOfFields(f, f.InfinityExponent(), 0);
    Pow2Add(f.p, f.InfinityExponent() - 1);
  }

  /** The rounding shift cuts the magnitude at bit s: 2^p + m above, the fraction below. */
  ghost predicate CutAt(f: Format, x: int, q: nat, m: nat, halfway: nat, fraction: nat)
  {
    && f.p < q <= f.Bias()
    && halfway == Pow2(q - f.p - 1)
    && fraction < 2 * halfway
    && m < Pow2(f.p)
    && Abs(x) == (Pow2(f.p) + m) * (2 * halfway) + fraction
  }

  lemma SplitAt(f: Format, t: IntType, x: int, q: nat, halfway: int, mask: int)
    requires 0 < t.width && !t.signed && t.Contains(Abs(x)) && x != 0
    requires q == Log2(Abs(x)) && f.p < q <= f.Bias() && q < t.width
    requires halfway == ShiftLeft(t, 1, q - f.p - 1) && mask == t.Wrap(2 * halfway - 1)
    ensures halfway >= 1 && mask == 2 * halfway - 1
    ensures var raw := IntType(f.Width(), false);
            var m := raw.Wrap(ShiftRight(t, Abs(x), q - f.p)) % Pow2(f.p);
            m >= 0 && CutAt(f, x, q, m, halfway, Abs(x) % (mask + 1))
  {
    hide ShiftLeft, ShiftRight, IntType.Wrap, Log2;
    assert Pow2(q - f.p) == 2 * Pow2(q - f.p - 1);
    hide Pow2;
    var a, s, d := Abs(x), q - f.p, Pow2(f.p);
    HalfwayFits(t, s);
    ShiftsAreExact(t, 1, s - 1);
    ShiftsAreExact(t, a, s);
    WrapContained(t, Pow2(s - 1));
    WrapContained(t, 2 * Pow2(s - 1) - 1);
    assert Pow2(s) == 2 * halfway == mask + 1;
    var top := a / Pow2(s);
    LeadingBits(a, q, f.p);
    WrapTop(f, top);
    DivModIdentity(a, Pow2(s));
    assert Abs(x) == (d + (top - d)) * (2 * halfway) + a % (mask + 1);
    assert CutAt(f, x, q, top - d, halfway, a % (mask + 1));
  }

  lemma WrapTop(f: Format, top: nat)
    requires Pow2(f.p) <= top < 2 * Pow2(f.p)
    ensures IntType(f.Width(), false).Wrap(top) % Pow2(f.p) == top - Pow2(f.p)
  {
    Pow2Increasing(f.p + 1, f.Width());
    WrapContained(IntType(f.Width(), false), top);
    DivModUnique(top, Pow2(f.p), 1, top - Pow2(f.p));
  }

  lemma HalfwayFits(t: IntType, s: nat)
    requires 0 < s < t.width && !t.signed
    ensures t.Contains(1) && t.Contains(Pow2(s - 1)) && t.Contains(2 * Pow2(s - 1) - 1)
  {
    Pow2Increasing(s, t.width);
    Pow2Increasing(1, t.width);
  }

  lemma LeadingBits(a: nat, q: nat, p: nat)
    requires a > 0 && q == Log2(a) && p <= q
    ensures Pow2(p) <= a / Pow2(q - p) < 2 * Pow2(p)
  {
    hide Pow2;
    var u, d := Pow2(q - p), Pow2(p);
    Log2Bounds(a);
    Pow2Add(p, q - p);
    var top, rest := a / u, a % u;
    assert a == top * u + rest;
    if top < d {
      MulIncreasing(top, d - 1, u);
      MulSub(d, 1, u);
    } else if top >= 2 * d {
      MulIncreasing(2 * d, top, u);
      MulAssociative(2, d, u);
    }
  }

  /** Where the cut number lies: `fraction` of 2 halfway parts of an ulp above the truncated pattern. */
  lemma CutPosition(f: Format, x: int, q: nat, m: nat, halfway: nat, fraction: nat) returns (k: nat, g: nat)
    requires CutAt(f, x, q, m, halfway, fraction)
    ensures g > 0 && k > 0 && k == (f.Bias() + q) * Pow2(f.p) + m && k % 2 == m % 2
    ensures k < f.InfinityMagnitude()
    ensures Units(f, k + 1) == Units(f, k) + 2 * (halfway * g)
    ensures Abs(InUnits(f, x)) == Units(f, k) + fraction * g
  {
    var d, u := Pow2(f.p), Pow2(f.Bias() + q - 1);
    g := Pow2(f.UnitShift());
    NormalPattern(f, false, q, m);
    ModSmall(m, d);
    var b := Pack(f, false, f.Bias() + q, m);
    k := Magnitude(f, b);
    FieldsOfPack(f, false, f.Bias() + q, m);
    EvenMagnitude(f, b);
    ClassOfMagnitude(f, b);
    UnitsStep(f, k);
    UlpParts(f, q, halfway);
    InUnitsSign(f, x);
    MulAdd((d + m) * (2 * halfway), fraction, g);
    MulAssociative(d + m, 2 * halfway, g);
    BiasFacts(f);
    MulIncreasing(1, f.Bias() + q, d);
  }

  lemma UlpParts(f: Format, q: nat, halfway: nat)
    requires f.p < q && halfway == Pow2(q - f.p - 1)
    ensures Pow2(f.Bias() + q - 1) == 2 * (halfway * Pow2(f.UnitShift())) == 2 * halfway * Pow2(f.UnitShift())
  {
    BiasFacts(f);
    Pow2Add(q - f.p - 1, f.UnitShift());
    MulAssociative(2, halfway, Pow2(f.UnitShift()));
  }

  /** Truncating is right below halfway, and at halfway when that leaves an even significand. */
  lemma RoundedDown(f: Format, x: int, q: nat, m: nat, halfway: nat, fraction: nat)
    requires CutAt(f, x, q, m, halfway, fraction)
    requires fraction < halfway || (fraction == halfway && m % 2 == 0)
    ensures var b := Pack(f, x < 0, f.Bias() + q, m);
            RoundsTo(f, x, b) && IsFinite(f, b) && (fraction == 0 <==> Value(f, b) == InUnits(f, x))
  {
    var b := Pack(f, x < 0, f.Bias() + q, m);
    var k, g := CutPosition(f, x, q, m, halfway, fraction);
    NormalPattern(f, x < 0, q, m);
    ModSmall(m, Pow2(f.p));
    assert Magnitude(f, b) == k;
    UnitsStrictlyIncreasing(f, k - 1, k);
    CompareParts(fraction, halfway, g);
    NearestFromNeighbours(f, x, b);
    InUnitsSign(f, x);
  }

  lemma CompareParts(fraction: nat, halfway: nat, g: nat)
    requires g > 0
    ensures 0 <= fraction * g && 0 <= halfway * g
    ensures fraction < halfway ==> fraction * g < halfway * g
    ensures fraction > halfway ==> fraction * g > halfway * g
    ensures fraction < 2 * halfway ==> fraction * g < 2 * (halfway * g)
    ensures fraction == 0 <==> fraction * g == 0
  {
    MulIncreasing(0, fraction, g);
    MulIncreasing(0, halfway, g);
    if fraction < halfway {
      MulStrictlyIncreasing(fraction, halfway, g);
    } else if fraction > halfway {
      MulStrictlyIncreasing(halfway, fraction, g);
    }
    if fraction < 2 * halfway {
      MulStrictlyIncreasing(fraction, 2 * halfway, g);
      MulAssociative(2, halfway, g);
    }
    if fraction > 0 {
      MulIncreasing(1, fraction, g);
    }
  }

  /** Adding one to the significand is right above halfway, and at halfway when it was odd. When the one
      carries out of the field, the mask drops it and the exponent is one more; past the greatest finite
      exponent that is infinity's own pattern. */
  lemma RoundedUp(f: Format, x: int, q: nat, m: nat, halfway: nat, fraction: nat)
    requires CutAt(f, x, q, m, halfway, fraction)
    requires fraction > halfway || (fraction == halfway && m % 2 == 1)
    ensures m + 1 < Pow2(f.Width())
    ensures var carried := m + 1 > Pow2(f.p) - 1;
            var b := if !carried then Pack(f, x < 0, f.Bias() + q, m + 1)
                     else if q + 1 <= f.Bias() then Pack(f, x < 0, f.Bias() + q + 1, m + 1)
                     else Infinity(f, x < 0);
            RoundsTo(f, x, b) && (IsFinite(f, b) ==> Value(f, b) != InUnits(f, x))
            && (IsFinite(f, b) <==> !carried || q + 1 <= f.Bias())
  {
    hide Units;
    var carried := m + 1 > Pow2(f.p) - 1;
    var k, g := CutPosition(f, x, q, m, halfway, fraction);
    UnitsStrictlyIncreasing(f, k + 1, k + 2);
    CompareParts(fraction, halfway, g);
    Pow2Increasing(f.p + 1, f.Width());
    InUnitsSign(f, x);
    var b := if !carried then Pack(f, x < 0, f.Bias() + q, m + 1)
             else if q + 1 <= f.Bias() then Pack(f, x < 0, f.Bias() + q + 1, m + 1)
             else Infinity(f, x < 0);
    RoundedUpPattern(f, x < 0, q, m, k);
    assert Magnitude(f, b) == k + 1;
    NeighbourAbove(f, Abs(InUnits(f, x)), k, halfway * g, fraction * g);
    NearestFromNeighbours(f, x, b);
    ClassOfMagnitude(f, b);
  }

  lemma NeighbourAbove(f: Format, scaled: nat, k: nat, half: nat, part: nat)
    requires Units(f, k + 1) == Units(f, k) + 2 * half && scaled == Units(f, k) + part
    requires half <= part < 2 * half && (part == half ==> k % 2 == 1)
    ensures NearestNeighbour(f, scaled, k + 1)
  {
    UnitsStrictlyIncreasing(f, k + 1, k + 2);
  }

  /** Whichever way the pattern is put together, its magnitude is the next one. */
  lemma RoundedUpPattern(f: Format, negative: bool, q: nat, m: nat, k: nat)
    requires f.p < q <= f.Bias() && m < Pow2(f.p) && k == (f.Bias() + q) * Pow2(f.p) + m
    ensures var carried := m + 1 > Pow2(f.p) - 1;
            var b := if !carried then Pack(f, negative, f.Bias() + q, m + 1)
                     else if q + 1 <= f.Bias() then Pack(f, negative, f.Bias() + q + 1, m + 1)
                     else Infinity(f, negative);
            && f.IsPattern(b) && Negative(f, b) == negative && Magnitude(f, b) == k + 1
            && (IsFinite(f, b) <==> !carried || q + 1 <= f.Bias())
  {
    hide Pow2;
    var d := Pow2(f.p);
    if m + 1 <= d - 1 {
      ModSmall(m + 1, d);
      NormalPattern(f, negative, q, m + 1);
    } else {
      MulAdd(f.Bias() + q, 1, d);
      if q + 1 <= f.Bias() {
        DivModUnique(m + 1, d, 1, 0);
        NormalPattern(f, negative, q + 1, m + 1);
      } else {
        BiasFacts(f);
        InfinityIsInfinite(f, negative);
        ClassOfMagnitude(f, Infinity(f, negative));
      }
    }
  }

  /** _convert(from:) for a binary integer. A mask is an all-ones number, so `&` with it is a remainder. */
  method ConvertInteger(f: Format, t: IntType, x: int) returns (value: nat, exact: bool)
    requires t.Valid() && t.Contains(x)
    ensures RoundsTo(f, x, value)
    ensures exact <==> IsFinite(f, value) && Value(f, value) == InUnits(f, x)
  {
    hide RoundsTo, InUnits, ShiftLeft, ShiftRight, IntType.Wrap, Value, IsFinite, Pack, Exponent, Pow2;
    if x == 0 {
      ZeroConverts(f);
      return 0, true;
    }
    var m := t.Magnitude();
    var raw := IntType(f.Width(), false);
    var magnitude := Abs(x);
    var negative := t.signed && x < 0;
    MagnitudeContains(t, x);
    var exponent := Log2(magnitude);
    ExponentBelowWidth(m, magnitude);
    GreatestFiniteExponent(f);
    if !(exponent <= Exponent(f, GreatestFinite(f)).value) {
      TooLarge(f, x, exponent);
      return Infinity(f, negative), false;
    }
    if exponent <= f.p {
      var shift := f.p - exponent;
      var significand := ShiftLeft(raw, raw.Wrap(magnitude), shift);
      ShiftIntoPlace(f, magnitude, exponent);
      FitsExactly(f, x, exponent, significand);
      return Pack(f, negative, f.Bias() + exponent, significand), true;
    }
    ghost var q := exponent;
    var shift := exponent - f.p;
    HalfwayFits(m, shift);
    var halfway := ShiftLeft(m, 1, shift - 1);
    var mask := m.Wrap(2 * halfway - 1);
    SplitAt(f, m, x, exponent, halfway, mask);
    var fraction := magnitude % (mask + 1);
    var significand := raw.Wrap(ShiftRight(m, magnitude, shift)) % Pow2(f.p);
    ghost var truncated := significand;
    if fraction > halfway || (fraction == halfway && significand % 2 == 1) {
      RoundedUp(f, x, q, truncated, halfway, fraction);
      var sum := significand + 1;
      var carry := sum >= Pow2(f.Width());
      ModSmall(sum, Pow2(f.Width()));
      significand := sum % Pow2(f.Width());
      if carry || significand > Pow2(f.p) - 1 {
        exponent := exponent + 1;
        if !(exponent <= Exponent(f, GreatestFinite(f)).value) {
          return Infinity(f, negative), false;
        }
      }
    } else {
      RoundedDown(f, x, q, truncated, halfway, fraction);
    }
    value := Pack(f, negative, f.Bias() + exponent, significand);
    exact := fraction == 0;
  }

  lemma MagnitudeContains(t: IntType, x: int)
    requires t.Valid() && t.Contains(x)
    ensures t.Magnitude().Contains(Abs(x))
    ensures t.signed && x < 0 <==> x < 0
  {
    assert Pow2(t.width) == 2 * Pow2(t.width - 1);
  }

  // ---------------------------------------------------------------- float to integer

  /** The value of a pattern that is not a NaN, cut off toward zero. */
  function Truncated(f: Format, b: nat): int
  {
    var whole := Units(f, Magnitude(f, b)) / Pow2(f.UnitShift());
    if Negative(f, b) then 0 - whole else whole
  }

  /** The literal -1. */
  function MinusOne(f: Format): nat { Pack(f, true, f.Bias(), 0) }

  /** The significand field moved so that the leading bit would stand at `exponent`. */
  function ShiftedBitPattern(f: Format, t: IntType, b: nat, exponent: int): nat
    requires 0 < t.width
  {
    var m, raw := t.Magnitude(), IntType(f.Width(), false);
    var bitPattern := SignificandPattern(f, b);
    SignificandFits(f, b);
    var bitWidth := SignificandWidth(f, b) + TrailingZeroBitCount(f, bitPattern);
    var shift := exponent - bitWidth;
    if m.width > bitWidth then ShiftLeft(m, m.Wrap(bitPattern), shift)
    else m.Wrap(ShiftLeft(raw, bitPattern, shift))
  }

  lemma SignificandFits(f: Format, b: nat)
    ensures IntType(f.Width(), false).Contains(SignificandPattern(f, b))
  {
    Pow2Increasing(f.p, f.Width());
  }

  /** _convert(from:) for a binary floating-point source: the value, if there is one, and whether it is exact. */
  function ConvertFloat(f: Format, t: IntType, b: nat): (Option<int>, bool)
    requires t.Valid()
  {
    if IsZero(f, b) then (Some(0), true)
    else if !IsFinite(f, b) then (None, false)
    else if !(t.signed || NumericLess(f, MinusOne(f), b)) then (None, false)
    else
      var exponent := Exponent(f, b).value;
      if t.width <= exponent then (None, false)
      else
        var isExact := SignificandWidth(f, b) <= exponent;
        var shiftedBitPattern := ShiftedBitPattern(f, t, b, exponent);
        var negative := Negative(f, b);
        if t.signed && t.width - 1 == exponent then
          if negative && shiftedBitPattern == 0 then (Some(t.Min()), isExact) else (None, false)
        else
          var m := t.Magnitude();
          OneFits(m);
          var magnitude := Or(ShiftLeft(m, 1, exponent), shiftedBitPattern);
          if t.signed && negative then (Some(t.Wrap(0 - t.Wrap(magnitude))), isExact)
          else (Some(t.Wrap(magnitude)), isExact)
  }

  lemma OneFits(m: IntType)
    requires 0 < m.width && !m.signed
    ensures m.Contains(1)
  {
    Pow2Increasing(1, m.width);
  }

  /** A value of exponent q has a whole part of q + 1 bits, or none when q is negative. */
  lemma WholePart(f: Format, b: nat)
    requires IsFinite(f, b) && !IsZero(f, b)
    ensures Exponent(f, b).Some?
    ensures var u, q := Units(f, Magnitude(f, b)), Exponent(f, b).value;
            var whole := u / Pow2(f.UnitShift());
            && u > 0
            && (if q >= 0 then Pow2(q) <= whole < 2 * Pow2(q) else whole == 0)
            && (whole == 0 <==> u < Pow2(f.UnitShift()))
            && (SignificandWidth(f, b) <= q <==> u == whole * Pow2(f.UnitShift()))
  {
    var u, U := Units(f, Magnitude(f, b)), f.UnitShift();
    ExponentAndWidthOfValue(f, b);
    if Log2(u) >= U {
      Log2Bounds(u);
      Pow2Increasing(U, Log2(u));
      LeadingBits(u, Log2(u), Log2(u) - U);
    } else {
      Log2Bounds(u);
      Pow2StrictlyIncreasing(Log2(u), U);
      ModSmall(u, Pow2(U));
      DivModUnique(u, Pow2(U), 0, u);
    }
    DividesIffTrailingZeros(u, U);
    DivModIdentity(u, Pow2(U));
  }

  /** The whole part of a normal number, bit by bit: the leading one and what the shift keeps of the field. */
  lemma WholePartOfFields(f: Format, E: nat, m: nat, q: nat)
    requires E == f.Bias() + q && E > 0 && m < Pow2(f.p)
    ensures UnitsAt(f, E, m) / Pow2(f.UnitShift())
         == Pow2(q) + (if q >= f.p then m * Pow2(q - f.p) else m / Pow2(f.p - q))
  {
    var d, U := Pow2(f.p), f.UnitShift();
    var v := Pow2(E - 1);
    if q >= f.p {
      var w := Pow2(q - f.p);
      Pow2Add(q - f.p, U);
      MulAssociative(d + m, w, Pow2(U));
      DivCancel((d + m) * w, 1, Pow2(U));
      MulAdd(d, m, w);
      Pow2Add(f.p, q - f.p);
    } else {
      var w := Pow2(f.p - q);
      Pow2Add(f.p - q, E - 1);
      DivCancel(d + m, w, v);
      Pow2Add(q, f.p - q);
      AddMultipleDiv(m, w, Pow2(q));
    }
  }

  lemma AddMultipleDiv(m: int, w: int, k: int)
    requires w > 0
    ensures (k * w + m) / w == k + m / w
  {
    DivModIdentity(m, w);
    MulAdd(k, m / w, w);
    DivModUnique(k * w + m, w, k + m / w, m % w);
  }

  /** The shifted field is the whole part without its leading bit, and nothing when there is no whole part. */
  lemma ShiftedBitPatternIsRest(f: Format, t: IntType, b: nat)
    requires 0 < t.width && IsFinite(f, b) && !IsZero(f, b) && Exponent(f, b).value < t.width
    ensures var q := Exponent(f, b).value;
            ShiftedBitPattern(f, t, b, q)
            == if q < 0 then 0 else Units(f, Magnitude(f, b)) / Pow2(f.UnitShift()) - Pow2(q)
  {
    hide Pow2, ShiftLeft, IntType.Wrap;
    var q, m := Exponent(f, b).value, SignificandPattern(f, b);
    FieldsOfMagnitude(f, b);
    if q >= 0 {
      BiasFacts(f);
      NonNegativeExponentIsNormal(f, b);
      WholePartOfFields(f, ExponentPattern(f, b), m, q);
    }
    if m == 0 {
      ShiftOfZero(t.Magnitude(), q - (SignificandWidth(f, b) + f.Width()));
      ShiftOfZero(IntType(f.Width(), false), q - (SignificandWidth(f, b) + f.Width()));
      DivModUnique(0, Pow2(if q < f.p && q >= 0 then f.p - q else 0), 0, 0);
      WrapContained(t.Magnitude(), 0);
    } else if q >= f.p {
      ShiftUp(f, t, m, q);
    } else {
      ShiftDown(f, t, b, q);
    }
  }

  lemma ShiftOfZero(t: IntType, count: int)
    requires 0 < t.width
    ensures t.Contains(0) && ShiftLeft(t, 0, count) == 0
  {
    WrapContained(t, 0);
    if count >= 0 {
      ShiftsAreExact(t, 0, count);
    } else {
      ShiftsAreExact(t, 0, -count);
      DivModUnique(0, Pow2(-count), 0, 0);
    }
  }

  lemma NonNegativeExponentIsNormal(f: Format, b: nat)
    requires IsFinite(f, b) && !IsZero(f, b) && Exponent(f, b).value >= 0
    ensures IsNormal(f, b) && ExponentPattern(f, b) == f.Bias() + Exponent(f, b).value
  {
    BiasFacts(f);
    if !IsNormal(f, b) {
      var m := SignificandPattern(f, b);
      Log2Bounds(m);
      if Log2(m) >= f.p {
        Pow2Increasing(f.p, Log2(m));
      }
    }
  }

  lemma ShiftUp(f: Format, t: IntType, m: nat, q: nat)
    requires f.p <= q < t.width && 0 < m < Pow2(f.p)
    ensures t.Magnitude().Contains(m) && t.Magnitude().Wrap(m) == m
    ensures ShiftLeft(t.Magnitude(), m, q - f.p) == m * Pow2(q - f.p)
  {
    var u := t.Magnitude();
    Pow2Increasing(f.p, t.width);
    WrapContained(u, m);
    ShiftsAreExact(u, m, q - f.p);
    MulStrictlyIncreasing(m, Pow2(f.p), Pow2(q - f.p));
    Pow2Add(f.p, q - f.p);
    Pow2Increasing(q, t.width);
    MulIncreasing(0, m, Pow2(q - f.p));
    WrapContained(u, m * Pow2(q - f.p));
  }

  lemma ShiftDown(f: Format, t: IntType, b: nat, q: int)
    requires 0 < t.width && IsFinite(f, b) && SignificandPattern(f, b) != 0
    requires q < f.p && q < t.width && (q < 0 || IsNormal(f, b))
    ensures var m := SignificandPattern(f, b);
            ShiftedBitPattern(f, t, b, q) == if q < 0 then 0 else m / Pow2(f.p - q)
  {
    hide ShiftLeft, IntType.Wrap;
    var m, u, raw := SignificandPattern(f, b), t.Magnitude(), IntType(f.Width(), false);
    var bitWidth := if IsNormal(f, b) then f.p else Log2(m);
    BitWidthOfField(f, b);
    var n := bitWidth - q;
    SignificandFits(f, b);
    ShiftsAreExact(raw, m, n);
    var kept := m / Pow2(n);
    assert kept <= m && (if q < 0 then kept == 0 else kept < Pow2(q)) by {
      KeptBits(m, bitWidth, q);
    }
    if u.width > bitWidth {
      assert u.Contains(m) by {
        Pow2Increasing(bitWidth + 1, u.width);
      }
      WrapContained(u, m);
      ShiftsAreExact(u, m, n);
    } else {
      assert u.Contains(kept) by {
        if q >= 0 {
          Pow2Increasing(q, u.width);
        }
      }
      WrapContained(u, kept);
    }
  }

  lemma BitWidthOfField(f: Format, b: nat)
    requires IsFinite(f, b) && SignificandPattern(f, b) != 0
    ensures var m := SignificandPattern(f, b);
            var bitWidth := if IsNormal(f, b) then f.p else Log2(m);
            SignificandWidth(f, b) + TrailingZeroBitCount(f, m) == bitWidth
            && m < Pow2(if IsNormal(f, b) then f.p else bitWidth + 1) <= Pow2(bitWidth + 1)
  {
    Log2Bounds(SignificandPattern(f, b));
  }

  lemma KeptBits(m: nat, bitWidth: nat, q: int)
    requires q <= bitWidth
    requires if q < 0 then m < Pow2(bitWidth + 1) else m < Pow2(bitWidth)
    ensures var kept := m / Pow2(bitWidth - q);
            0 <= kept <= m && (if q < 0 then kept == 0 else kept < Pow2(q))
  {
    var n := bitWidth - q;
    QuotientBetween(m, n);
    if q < 0 {
      Pow2Increasing(bitWidth + 1, n);
      DivModUnique(m, Pow2(n), 0, m);
    } else {
      Pow2Add(q, n);
      DivModIdentity(m, Pow2(n));
      if m / Pow2(n) >= Pow2(q) {
        MulIncreasing(Pow2(q), m / Pow2(n), Pow2(n));
      }
    }
  }

  /** Unsigned targets accept exactly the values above -1. */
  lemma AboveMinusOne(f: Format, b: nat)
    requires IsFinite(f, b)
    ensures NumericLess(f, MinusOne(f), b) <==> !Negative(f, b) || Units(f, Magnitude(f, b)) < Pow2(f.UnitShift())
  {
    BiasFacts(f);
    NormalPattern(f, true, 0, 0);
    ModSmall(0, Pow2(f.p));
    Pow2Add(f.p, f.Bias() - 1);
    ClassOfMagnitude(f, b);
    ClassOfMagnitude(f, MinusOne(f));
  }

  /** The bits put together again: the magnitude of the result is the whole part. */
  lemma AssembledMagnitude(f: Format, t: IntType, b: nat)
    requires t.Valid() && IsFinite(f, b) && !IsZero(f, b) && Exponent(f, b).value < t.width
    ensures var q, m := Exponent(f, b).value, t.Magnitude();
            && m.Contains(1)
            && Or(ShiftLeft(m, 1, q), ShiftedBitPattern(f, t, b, q)) == Units(f, Magnitude(f, b)) / Pow2(f.UnitShift())
  {
    hide Units, ShiftLeft, ShiftedBitPattern, Exponent, Or, Pow2, IsFinite, IsZero;
    WholePart(f, b);
    var q, m := Exponent(f, b).value, t.Magnitude();
    var rest := ShiftedBitPattern(f, t, b, q);
    ShiftedBitPatternIsRest(f, t, b);
    LeadingOne(m, q);
    if q < 0 {
      OrZero(0);
    } else {
      OrDisjoint(1, q, rest);
    }
  }

  lemma LeadingOne(m: IntType, q: int)
    requires 0 < m.width && !m.signed && q < m.width
    ensures m.Contains(1)
    ensures ShiftLeft(m, 1, q) == if q < 0 then 0 else Pow2(q)
  {
    OneFits(m);
    if q < 0 {
      ShiftsAreExact(m, 1, -q);
      Pow2Increasing(1, -q);
      DivModUnique(1, Pow2(-q), 0, 1);
    } else {
      ShiftsAreExact(m, 1, q);
      Pow2StrictlyIncreasing(q, m.width);
      WrapContained(m, Pow2(q));
    }
  }

  /** Which whole parts the target holds, by the size of the exponent alone except at its minimum. */
  lemma RangeOfExponent(t: IntType, q: int, whole: nat, negative: bool)
    requires t.Valid() && (if q >= 0 then Pow2(q) <= whole < 2 * Pow2(q) else whole == 0)
    ensures var x := if negative then 0 - whole else whole;
            && (q >= t.width ==> !t.Contains(x))
            && (t.signed && q == t.width - 1 ==>
                  (t.Contains(x) <==> negative && whole == Pow2(q)) && (t.Contains(x) ==> x == t.Min()))
            && (t.signed && q < t.width - 1 ==> t.Contains(x))
            && (!t.signed && q < t.width ==> (t.Contains(x) <==> !negative || whole == 0))
  {
    if t.signed {
      RangeOfPower(t.width - 1, q, whole);
      assert Pow2(t.width) == 2 * Pow2(t.width - 1);
    } else {
      RangeOfPower(t.width, q, whole);
    }
  }

  lemma RangeOfPower(n: nat, q: int, whole: nat)
    requires if q >= 0 then Pow2(q) <= whole < 2 * Pow2(q) else whole == 0
    ensures if q < n then whole < Pow2(n) else whole >= Pow2(n)
    ensures q > n ==> whole > Pow2(n)
  {
    if q >= n {
      Pow2Increasing(n, q);
      if q > n {
        Pow2StrictlyIncreasing(n, q);
      }
    } else if q >= 0 {
      Pow2StrictlyIncreasing(q, n);
    }
  }

  /** Converting back to the target and changing the sign gives the whole part with its sign. */
  lemma SignedResult(t: IntType, whole: nat, negative: bool)
    requires t.Valid() && t.Contains(if negative then 0 - whole else whole)
    requires negative ==> t.signed
    ensures (if negative then t.Wrap(0 - t.Wrap(whole)) else t.Wrap(whole)) == if negative then 0 - whole else whole
  {
    if negative && !t.Contains(whole) {
      assert Pow2(t.width) == 2 * Pow2(t.width - 1);
      ModEqual(0 - whole, whole, Pow2(t.width), -1);
      WrapUnique(t, 0 - whole, whole);
    } else {
      WrapContained(t, whole);
    }
    WrapContained(t, if negative then 0 - whole else whole);
  }

  /** Truncation toward zero, for every format, target and pattern: there is a result exactly when the
      truncated value fits the target, and it is exact exactly when nothing was cut off. */
  lemma ConvertFloatTruncates(f: Format, t: IntType, b: nat)
    requires t.Valid()
    ensures var fits := IsFinite(f, b) && t.Contains(Truncated(f, b));
            && ConvertFloat(f, t, b).0 == (if fits then Some(Truncated(f, b)) else None)
            && (ConvertFloat(f, t, b).1 <==> fits && Value(f, b) == InUnits(f, Truncated(f, b)))
  {
    if IsZero(f, b) {
      ZeroTruncates(f, t, b);
    } else if IsFinite(f, b) {
      FiniteTruncates(f, t, b);
    }
  }

  lemma ZeroTruncates(f: Format, t: IntType, b: nat)
    requires t.Valid() && IsZero(f, b)
    ensures IsFinite(f, b) && Truncated(f, b) == 0 && t.Contains(0) && Value(f, b) == InUnits(f, 0) == 0
  {
    BiasFacts(f);
    ClassOfMagnitude(f, b);
    UnitsOfFields(f, 0, 0);
    DivModUnique(0, Pow2(f.UnitShift()), 0, 0);
  }

  lemma FiniteTruncates(f: Format, t: IntType, b: nat)
    requires t.Valid() && IsFinite(f, b) && !IsZero(f, b)
    ensures var fits := t.Contains(Truncated(f, b));
            && ConvertFloat(f, t, b).0 == (if fits then Some(Truncated(f, b)) else None)
            && (ConvertFloat(f, t, b).1 <==> fits && Value(f, b) == InUnits(f, Truncated(f, b)))
  {
    hide Units, ShiftLeft, ShiftedBitPattern, Exponent, SignificandWidth, NumericLess, IntType.Wrap, Or;
    WholePart(f, b);
    var q, negative := Exponent(f, b).value, Negative(f, b);
    var whole := Units(f, Magnitude(f, b)) / Pow2(f.UnitShift());
    AboveMinusOne(f, b);
    RangeOfExponent(t, q, whole, negative);
    assert InUnits(f, Truncated(f, b)) ==
           if negative then 0 - whole * Pow2(f.UnitShift()) else whole * Pow2(f.UnitShift()) by {
      NegateProduct(whole, Pow2(f.UnitShift()));
    }
    var isExact := SignificandWidth(f, b) <= q;
    if !(t.signed || NumericLess(f, MinusOne(f), b)) || t.width <= q {
      assert ConvertFloat(f, t, b) == (None, false);
    } else {
      AssembledMagnitude(f, t, b);
      ShiftedBitPatternIsRest(f, t, b);
      if t.signed && t.width - 1 == q {
        assert ConvertFloat(f, t, b) ==
               if negative && whole == Pow2(q) then (Some(t.Min()), isExact) else (None, false);
      } else {
        SignedResult(t, whole, negative && t.signed);
        assert ConvertFloat(f, t, b) == (Some(Truncated(f, b)), isExact);
      }
    }
  }

  lemma NegateProduct(a: int, k: int)
    ensures (0 - a) * k == 0 - a * k
  {
  }

  // ---------------------------------------------------------------- round trips

  lemma TruncatedOfWhole(f: Format, b: nat, x: int)
    requires Value(f, b) == InUnits(f, x)
    ensures Truncated(f, b) == x
  {
    hide Units, Pow2;
    var u, d := Units(f, Magnitude(f, b)), Pow2(f.UnitShift());
    InUnitsSign(f, x);
    if Negative(f, b) {
      NegateProduct(x, d);
      DivModUnique(u, d, 0 - x, 0);
    } else {
      DivModUnique(u, d, x, 0);
    }
  }

  /** An integer that converted exactly comes back from the float. */
  lemma IntegerRoundTrip(f: Format, t: IntType, x: int, b: nat)
    requires t.Valid() && t.Contains(x)
    requires RoundsTo(f, x, b) && IsFinite(f, b) && Value(f, b) == InUnits(f, x)
    ensures ConvertFloat(f, t, b) == (Some(x), true)
  {
    TruncatedOfWhole(f, b, x);
    ConvertFloatTruncates(f, t, b);
  }

  /** A float that converted exactly comes back from the integer, but for the sign of a zero. */
  lemma FloatRoundTrip(f: Format, t: IntType, b: nat, c: nat)
    requires t.Valid() && f.IsPattern(b) && ConvertFloat(f, t, b).1
    requires ConvertFloat(f, t, b).0.Some? && RoundsTo(f, ConvertFloat(f, t, b).0.value, c)
    ensures IsFinite(f, c) && Value(f, c) == Value(f, b)
    ensures c == if IsZero(f, b) then 0 else b
  {
    hide ConvertFloat, Units, Pow2, InUnits, IsFinite, Truncated;
    ConvertFloatTruncates(f, t, b);
    var x := Truncated(f, b);
    FiniteDoesNotOverflow(f, x, b);
    NearestBeats(f, x, c, b);
    if b != c {
      EqualValuesAreZeros(f, b, c);
      ZeroIsPositive(f, x, b, c);
    } else if IsZero(f, b) {
      ZeroTruncates(f, t, b);
      SignAndMagnitude(f, c);
      ClassOfMagnitude(f, c);
    }
  }

  lemma FiniteDoesNotOverflow(f: Format, x: int, b: nat)
    requires IsFinite(f, b) && Value(f, b) == InUnits(f, x)
    ensures !Overflows(f, x)
  {
    hide Units, Pow2, InUnits, IsFinite, Widths.InfinityMagnitude;
    ClassOfMagnitude(f, b);
    InfinityIsEven(f);
    UnitsIncreasing(f, Magnitude(f, b), f.InfinityMagnitude() - 1);
    UnitsStrictlyIncreasing(f, f.InfinityMagnitude() - 1, f.InfinityMagnitude());
  }

  lemma ZeroIsPositive(f: Format, x: int, b: nat, c: nat)
    requires f.IsPattern(b) && f.IsPattern(c) && Value(f, b) == InUnits(f, x)
    requires Negative(f, c) == (x < 0) && Magnitude(f, b) == 0 == Magnitude(f, c) && Negative(f, b) != Negative(f, c)
    ensures IsZero(f, b) && Negative(f, b) && c == 0
  {
    UnitsOfFields(f, 0, 0);
    InUnitsSign(f, x);
    SignAndMagnitude(f, c);
    ClassOfMagnitude(f, b);
  }

  /** From an integer to a float and back: the identity whenever the first conversion reports it is exact. */
  method IntegerThereAndBack(f: Format, t: IntType, x: int) returns (back: Option<int>, exact: bool)
    requires t.Valid() && t.Contains(x)
    ensures exact ==> back == Some(x)
  {
    hide RoundsTo, IsFinite, Value, InUnits, ConvertFloat, Pow2;
    var value: nat;
    value, exact := ConvertInteger(f, t, x);
    back := ConvertFloat(f, t, value).0;
    if exact {
      IntegerRoundTrip(f, t, x, value);
    }
  }

  /** From a float to an integer and back: the same pattern whenever the first conversion reports it is exact,
      but for a negative zero. */
  method FloatThereAndBack(f: Format, t: IntType, b: nat) returns (back: nat, exact: bool)
    requires t.Valid() && f.IsPattern(b)
    ensures exact ==> back == if IsZero(f, b) then 0 else b
  {
    hide RoundsTo, IsFinite, Value, InUnits, ConvertFloat, Pow2, IsZero, Overflows;
    var (x, isExact) := ConvertFloat(f, t, b);
    ConvertFloatTruncates(f, t, b);
    if x == None {
      return b, false;
    }
    var whole: int := x.value;
    var value: nat, unused := ConvertInteger(f, t, whole);
    if isExact {
      FloatRoundTrip(f, t, b, value);
    }
    back, exact := value, isExact;
  }
}
