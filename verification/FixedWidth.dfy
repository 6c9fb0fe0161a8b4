/** Fixed-width integers: truncation word by word, heterogeneous comparison, smart shifts,
    clamping and distance, for every width and signedness, on the target whose Int is 16 bits wide. */
module FixedWidth {
  import opened Optionals
  import opened Powers
  import opened BitPatterns
  import opened BitCounts

  /** The width of Int and UInt, hence of one element of `words`. */
  const WORD_BITS: nat := 16

  datatype IntType = IntType(width: nat, signed: bool) {
    /** Every type fits in one word or is a whole number of words wide. */
    predicate Valid() {
      0 < width && (width <= WORD_BITS || width % WORD_BITS == 0)
    }

    function Min(): int
      requires 0 < width
    {
      if signed then 0 - Pow2(width - 1) else 0
    }

    function Max(): int
      requires 0 < width
    {
      if signed then Pow2(width - 1) - 1 else Pow2(width) - 1
    }

    predicate Contains(x: int)
      requires 0 < width
    {
      Min() <= x <= Max()
    }

    /** The unsigned type of the same width. */
    function Magnitude(): IntType { IntType(width, false) }

    /** The value of this type that has the low `width` bits of x. */
    function Wrap(x: int): (r: int)
      requires 0 < width
      ensures Contains(r)
      ensures r % Pow2(width) == x % Pow2(width)
    {
      var bits := x % Pow2(width);
      ModMod(x, Pow2(width));
      if signed && bits >= Pow2(width - 1) then
        ModEqual(bits - Pow2(width), bits, Pow2(width), -1);
        bits - Pow2(width)
      else
        bits
    }
  }

  const INT := IntType(WORD_BITS, true)

  lemma WrapUnique(t: IntType, r: int, x: int)
    requires 0 < t.width && t.Contains(r)
    requires r % Pow2(t.width) == x % Pow2(t.width)
    ensures t.Wrap(x) == r
  {
    if r >= 0 {
      DivModUnique(r, Pow2(t.width), 0, r);
    } else {
      DivModUnique(r, Pow2(t.width), -1, r + Pow2(t.width));
    }
  }

  lemma WrapContained(t: IntType, x: int)
    requires 0 < t.width && t.Contains(x)
    ensures t.Wrap(x) == x
  {
    WrapUnique(t, x, x);
  }

  // ---------------------------------------------------------------- truncation

  /** The low s + k bits are the low s bits with the next k bits above them. */
  lemma ModSplit(x: int, s: nat, k: nat)
    ensures x % Pow2(s + k) == x / Pow2(s) % Pow2(k) * Pow2(s) + x % Pow2(s)
  {
    Pow2Add(k, s);
    DivModProduct(x, Pow2(s), Pow2(k));
  }

  function WordCount(t: IntType): nat
  {
    (t.width + WORD_BITS - 1) / WORD_BITS
  }

  /** Word i of x: arithmetic shift right by whole words, then the low word, sign-extended for a
      type narrower than a word. */
  function Word(x: int, i: nat): (w: nat)
    ensures w < Pow2(WORD_BITS)
  {
    x / Pow2(WORD_BITS * i) % Pow2(WORD_BITS)
  }

  /** init(_truncatingBits:), as a pattern: truncates for a narrow type, zero-extends for a wide one. */
  function TruncatingBits(t: IntType, bits: nat): nat
  {
    bits % Pow2(t.width)
  }

  /** init(truncatingIfNeeded:) */
  method TruncatingIfNeeded(target: IntType, source: IntType, x: int) returns (r: int)
    requires target.Valid() && source.Valid() && source.Contains(x)
    ensures target.Contains(r) && r % Pow2(target.width) == x % Pow2(target.width)
    ensures r == target.Wrap(x)
  {
    hide Xor, IntType.Wrap, Extended, Pow2;
    if target.width <= WORD_BITS {
      var bits := TruncatingBits(target, Word(x, 0));
      LowBits(x, target.width);
      SameBitsSameWrap(target, bits, x);
      r := target.Wrap(bits);
    } else {
      var neg := x < 0;
      var result: nat := if neg then Pow2(target.width) - 1 else 0;
      var shift := 0;
      var i := 0;
      ExtendedBegin(target.width, neg, x);
      while i < WordCount(source)
        invariant i <= WordCount(source) && shift == WORD_BITS * i <= target.width
        invariant result == Extended(target.width, shift, neg, x)
      {
        if !(shift < target.width) {
          break;
        }
        var word := Word(x, i);
        var flipped := if neg then Pow2(WORD_BITS) - 1 - word else word;
        WordsFit(target.width, i);
        ExtendOneWord(target.width, shift, neg, x, word, flipped);
        result := Xor(result, TruncatingBits(target, TruncatingBits(target, flipped) * Pow2(shift)));
        shift := shift + WORD_BITS;
        i := i + 1;
      }
      ExtendedIsWhole(target.width, shift, source, x);
      SameBitsSameWrap(target, result, x);
      r := target.Wrap(result);
    }
  }

  lemma SameBitsSameWrap(t: IntType, a: int, b: int)
    requires 0 < t.width && a % Pow2(t.width) == b % Pow2(t.width)
    ensures t.Wrap(a) == t.Wrap(b)
  {
  }

  lemma WordsFit(width: nat, i: nat)
    requires width % WORD_BITS == 0 && WORD_BITS * i < width
    ensures WORD_BITS * i + WORD_BITS <= width
  {
  }

  lemma LowBits(x: int, k: nat)
    requires k <= WORD_BITS
    ensures Word(x, 0) % Pow2(k) % Pow2(k) == x % Pow2(k)
  {
    assert Pow2(WORD_BITS * 0) == 1;
    assert Word(x, 0) == x % Pow2(WORD_BITS);
    ModSplit(x, k, WORD_BITS - k);
    var high := x / Pow2(k) % Pow2(WORD_BITS - k);
    ModEqual(x % Pow2(WORD_BITS), x % Pow2(k), Pow2(k), high);
    ModMod(x, Pow2(k));
  }

  /** The pattern after the low `shift` bits have been filled in: the rest is the sign. */
  function Extended(width: nat, shift: nat, neg: bool, x: int): (r: nat)
    requires shift <= width
  {
    Pow2Increasing(shift, width);
    (if neg then Pow2(width) - Pow2(shift) else 0) + x % Pow2(shift)
  }

  lemma ExtendedBegin(width: nat, neg: bool, x: int)
    ensures Extended(width, 0, neg, x) == if neg then Pow2(width) - 1 else 0
  {
  }

  lemma ExtendOneWord(width: nat, shift: nat, neg: bool, x: int, word: nat, flipped: nat)
    requires shift + WORD_BITS <= width
    requires word == x / Pow2(shift) % Pow2(WORD_BITS)
    requires flipped == if neg then Pow2(WORD_BITS) - 1 - word else word
    ensures Xor(Extended(width, shift, neg, x), flipped % Pow2(width) * Pow2(shift) % Pow2(width))
         == Extended(width, shift + WORD_BITS, neg, x)
  {
    hide Xor, Pow2;
    var above := if neg then Pow2(width - shift) - 1 else 0;
    var merged := ExtendOneWordParts(width, shift, neg, x, word, flipped);
    XorOnes(width - shift, flipped);
    XorZero(flipped);
    XorShifted(above, flipped, shift, x % Pow2(shift));
  }

  /** Where the one word goes: both operands of the exclusive or, and its result, split at `shift`. */
  lemma ExtendOneWordParts(width: nat, shift: nat, neg: bool, x: int, word: nat, flipped: nat) returns (merged: nat)
    requires shift + WORD_BITS <= width
    requires word == x / Pow2(shift) % Pow2(WORD_BITS)
    requires flipped == if neg then Pow2(WORD_BITS) - 1 - word else word
    ensures flipped < Pow2(width - shift)
    ensures merged == if neg then Pow2(width - shift) - 1 - flipped else flipped
    ensures Extended(width, shift, neg, x)
         == (if neg then Pow2(width - shift) - 1 else 0) * Pow2(shift) + x % Pow2(shift)
    ensures flipped % Pow2(width) * Pow2(shift) % Pow2(width) == flipped * Pow2(shift)
    ensures Extended(width, shift + WORD_BITS, neg, x) == merged * Pow2(shift) + x % Pow2(shift)
  {
    hide Pow2;
    var whole, rest, b, d := Pow2(width), Pow2(width - shift), Pow2(WORD_BITS), Pow2(shift);
    Pow2Add(width - shift, shift);
    Pow2Add(WORD_BITS, shift);
    Pow2Increasing(WORD_BITS, width - shift);
    Pow2Increasing(WORD_BITS, width);
    merged := if neg then rest - 1 - flipped else flipped;
    ShiftedWordFits(whole, rest, d, flipped);
    FillOnes(rest, b, d, word);
    ModSplit(x, shift, WORD_BITS);
  }

  lemma ShiftedWordFits(whole: nat, rest: nat, d: nat, flipped: nat)
    requires 0 < d && whole == rest * d && flipped < rest && flipped < whole
    ensures flipped % whole * d % whole == flipped * d
  {
    ModSmall(flipped, whole);
    MulStrictlyIncreasing(flipped, rest, d);
    MulIncreasing(0, flipped, d);
    ModSmall(flipped * d, whole);
  }

  lemma FillOnes(rest: nat, b: nat, d: nat, word: nat)
    ensures (rest - 1) * d == rest * d - d
    ensures (rest - 1 - (b - 1 - word)) * d == rest * d - b * d + word * d
  {
    MulSub(rest, b, d);
    MulAdd(rest - b, word, d);
  }

  /** Once every word of the source is in, or the target is full, only the sign is above. */
  lemma ExtendedIsWhole(width: nat, shift: nat, source: IntType, x: int)
    requires source.Valid() && source.Contains(x)
    requires shift <= width && (shift == width || shift >= source.width)
    ensures Extended(width, shift, x < 0, x) % Pow2(width) == x % Pow2(width)
  {
    if shift == width {
      ModMod(x, Pow2(width));
    } else {
      Pow2Increasing(source.width, shift);
      if x < 0 {
        DivModUnique(x, Pow2(shift), -1, x + Pow2(shift));
        ModEqual(x + Pow2(width), x, Pow2(width), 1);
      } else {
        ModSmall(x, Pow2(shift));
      }
    }
  }

  // ---------------------------------------------------------------- comparison across types

  /** Heterogeneous ==: convert the narrower operand to the wider type, and between types of one
      width convert away from the signed one. */
  predicate Equal(t: IntType, x: int, u: IntType, y: int)
    requires t.Valid() && t.Contains(x) && u.Valid() && u.Contains(y)
  {
    var lhsNegative, rhsNegative := t.signed && x < 0, u.signed && y < 0;
    if lhsNegative != rhsNegative then false
    else if t.width < u.width then u.Wrap(x) == y
    else if t.width > u.width then x == t.Wrap(y)
    else if t.signed then u.Wrap(x) == y
    else x == t.Wrap(y)
  }

  /** Heterogeneous <: compare in the left type when the right operand survives the trip there. */
  predicate Less(t: IntType, x: int, u: IntType, y: int)
    requires t.Valid() && t.Contains(x) && u.Valid() && u.Contains(y)
  {
    var lhsNegative, rhsNegative := t.signed && x < 0, u.signed && y < 0;
    if lhsNegative != rhsNegative then lhsNegative
    else if x == 0 && y == 0 then false
    else
      var rhsAsSelf := t.Wrap(y);
      if u.Wrap(rhsAsSelf) == y && rhsNegative == (rhsAsSelf < 0) then x < rhsAsSelf
      else u.Wrap(x) < y
  }

  /** Values of one sign pass unharmed into a type that is strictly wider, or as wide and unsigned
      when they are not negative. */
  lemma Fits(t: IntType, x: int, u: IntType)
    requires 0 < t.width && t.Contains(x) && 0 < u.width
    requires x < 0 ==> u.signed
    requires t.width < u.width || (t.width == u.width && (x >= 0 ==> !u.signed || t.signed))
    ensures u.Contains(x) && u.Wrap(x) == x
  {
    if t.width < u.width {
      Pow2Increasing(t.width, u.width - 1);
    }
    WrapContained(u, x);
  }

  /** == between any two integer types decides equality of the numbers. */
  lemma EqualIsEquality(t: IntType, x: int, u: IntType, y: int)
    requires t.Valid() && t.Contains(x) && u.Valid() && u.Contains(y)
    ensures Equal(t, x, u, y) <==> x == y
  {
    if (x < 0) != (y < 0) {
    } else if t.width < u.width || (t.width == u.width && t.signed) {
      if t.width == u.width && !(x < 0) && u.signed {
        Fits(t, x, u);
      } else {
        Fits(t, x, u);
      }
    } else {
      Fits(u, y, t);
    }
  }

  /** A number that comes back from the left type unharmed, with its sign, was representable there. */
  lemma RoundTripIsIdentity(t: IntType, u: IntType, y: int)
    requires t.Valid() && u.Valid() && u.Contains(y)
    requires u.Wrap(t.Wrap(y)) == y && (u.signed && y < 0) == (t.Wrap(y) < 0)
    ensures t.Wrap(y) == y
  {
    var r := t.Wrap(y);
    if t.width < u.width {
      Fits(t, r, u);
    } else {
      Pow2Increasing(u.width, t.width);
      if y >= 0 {
        ModSmall(y, Pow2(t.width));
        ModSmall(r, Pow2(t.width));
      } else if t.width > u.width || t.signed {
        Fits(u, y, t);
      }
    }
  }

  /** < between any two integer types decides the order of the numbers. */
  lemma LessIsLess(t: IntType, x: int, u: IntType, y: int)
    requires t.Valid() && t.Contains(x) && u.Valid() && u.Contains(y)
    ensures Less(t, x, u, y) <==> x < y
  {
    if (x < 0) == (y < 0) && !(x == 0 && y == 0) {
      var rhsAsSelf := t.Wrap(y);
      if u.Wrap(rhsAsSelf) == y && (u.signed && y < 0) == (rhsAsSelf < 0) {
        RoundTripIsIdentity(t, u, y);
      } else {
        if t.Contains(y) {
          WrapContained(t, y);
          WrapContained(u, y);
          assert false;
        }
        // y lies outside the left type, so x, on the same side of zero, lies inside the right one.
        WrapContained(u, x);
      }
    }
  }

  // ---------------------------------------------------------------- smart shifts

  /** The generic entry points first bring the count into -width ... width. */
  function ClampedCount(t: IntType, count: int): int
  {
    if count < 0 - t.width then 0 - t.width else if count > t.width then t.width else count
  }

  /** >> with any shift count: clamps the count to the width, then dispatches on its size and sign. */
  function ShiftRight(t: IntType, x: int, count: int): (r: int)
    requires 0 < t.width && t.Contains(x)
    ensures t.Contains(r)
  {
    var shift := ClampedCount(t, count);
    if shift >= 0 then
      if shift < t.width then QuotientBelongs(t, x, shift); x / Pow2(shift)
      else if t.signed then QuotientBelongs(t, x, t.width - 1); x / Pow2(t.width - 1) else 0
    else if shift <= 0 - t.width then 0
    else t.Wrap(x * Pow2(-shift))
  }

  /** << with any shift count. */
  function ShiftLeft(t: IntType, x: int, count: int): (r: int)
    requires 0 < t.width && t.Contains(x)
    ensures t.Contains(r)
  {
    var shift := ClampedCount(t, count);
    if shift >= 0 then
      if shift < t.width then t.Wrap(x * Pow2(shift))
      else 0
    else if shift <= 0 - t.width then
      if t.signed then QuotientBelongs(t, x, t.width - 1); x / Pow2(t.width - 1) else 0
    else QuotientBelongs(t, x, -shift); x / Pow2(-shift)
  }

  lemma QuotientBelongs(t: IntType, x: int, n: nat)
    requires 0 < t.width && t.Contains(x)
    ensures t.Contains(x / Pow2(n))
  {
    QuotientBetween(x, n);
  }

  /** Floor division by a power of two moves toward zero, or toward -1. */
  lemma {:induction false} QuotientBetween(x: int, n: nat)
    ensures x >= 0 ==> 0 <= x / Pow2(n) <= x
    ensures x < 0 ==> x <= x / Pow2(n) < 0
  {
    if n > 0 {
      QuotientBetween(x, n - 1);
      DivModProduct(x, Pow2(n - 1), 2);
    }
  }

  /** For every count, however large, a shift multiplies or floor-divides by a power of two. */
  lemma ShiftsAreExact(t: IntType, x: int, n: nat)
    requires 0 < t.width && t.Contains(x)
    ensures ShiftRight(t, x, n) == x / Pow2(n) && ShiftLeft(t, x, 0 - n) == x / Pow2(n)
    ensures ShiftLeft(t, x, n) == t.Wrap(x * Pow2(n)) && ShiftRight(t, x, 0 - n) == t.Wrap(x * Pow2(n))
  {
    if n >= t.width {
      OvershiftRight(t, x, n);
      OvershiftLeft(t, x, n);
    } else if n == 0 {
      WrapContained(t, x);
    }
  }

  /** Shifting right by the width or more leaves only the sign. */
  lemma OvershiftRight(t: IntType, x: int, n: nat)
    requires 0 < t.width <= n && t.Contains(x)
    ensures x / Pow2(n) == if t.signed then x / Pow2(t.width - 1) else 0
  {
    Pow2Increasing(t.width, n);
    if x >= 0 {
      DivModUnique(x, Pow2(n), 0, x);
      if t.signed {
        DivModUnique(x, Pow2(t.width - 1), 0, x);
      }
    } else {
      DivModUnique(x, Pow2(n), -1, x + Pow2(n));
      DivModUnique(x, Pow2(t.width - 1), -1, x + Pow2(t.width - 1));
    }
  }

  lemma OvershiftLeft(t: IntType, x: int, n: nat)
    requires 0 < t.width <= n
    ensures t.Wrap(x * Pow2(n)) == 0
  {
    var d, k := Pow2(t.width), Pow2(n - t.width);
    Pow2Add(n - t.width, t.width);
    MulAssociative(x, k, d);
    ModEqual(x * Pow2(n), 0, d, x * k);
    ModSmall(0, d);
    WrapUnique(t, 0, x * Pow2(n));
  }

  // ---------------------------------------------------------------- clamping and distance

  /** init(clamping:) returns the member of the target type nearest to the source. */
  function Clamping(t: IntType, u: IntType, y: int): (r: int)
    requires t.Valid() && u.Valid() && u.Contains(y)
    ensures t.Contains(r)
    ensures forall z :: t.Contains(z) ==> (if r < y then y - r else r - y) <= (if z < y then y - z else z - y)
  {
    MinAndMaxBelong(t);
    LessIsLess(u, y, t, t.Min());
    LessIsLess(t, t.Max(), u, y);
    if Less(u, y, t, t.Min()) then t.Min()
    else if Less(t, t.Max(), u, y) then t.Max()
    else
      WrapContained(t, y);
      t.Wrap(y)
  }

  lemma MinAndMaxBelong(t: IntType)
    requires 0 < t.width
    ensures t.Contains(t.Min()) && t.Contains(t.Max())
  {
  }

  /** Int(exactly:) */
  function IntExactly(u: IntType, y: int): Option<int>
    requires u.Valid() && u.Contains(y)
  {
    if u.signed && u.width > INT.width && Less(u, y, INT, INT.Min()) then None
    else if (u.width > INT.width || (u.width == INT.width && !u.signed)) && Less(INT, INT.Max(), u, y) then None
    else Some(INT.Wrap(y))
  }

  lemma IntExactlyIsPartialIdentity(u: IntType, y: int)
    requires u.Valid() && u.Contains(y)
    ensures IntExactly(u, y) == if INT.Contains(y) then Some(y) else None
  {
    MinAndMaxBelong(INT);
    LessIsLess(u, y, INT, INT.Min());
    LessIsLess(INT, INT.Max(), u, y);
    if u.width < INT.width {
      Fits(u, y, INT);
    }
    if INT.Contains(y) {
      WrapContained(INT, y);
    }
  }

  /** distance(to:) — None is the failed precondition. Subtraction and addition wrap. */
  function Distance(t: IntType, x: int, y: int): Option<int>
    requires t.Valid() && t.Contains(x) && t.Contains(y)
  {
    if !t.signed then
      if x > y then Negated(IntExactly(t, t.Wrap(x - y)))
      else IntExactly(t, t.Wrap(y - x))
    else if (x < 0) == (y < 0) then IntExactly(t, t.Wrap(y - x))
    else
      var m := t.Magnitude();
      var sum := IntExactly(m, m.Wrap(Abs(x) + Abs(y)));
      if x < 0 then sum else Negated(sum)
  }

  function Negated(d: Option<int>): Option<int>
  {
    if d.Some? then Some(INT.Wrap(-d.value)) else None
  }

  /** The distance is found exactly when it fits Int — except Int.min, which is found only when both
      ends are signed and of one sign, because the other branches convert its magnitude first. */
  lemma DistanceIsDifference(t: IntType, x: int, y: int)
    requires t.Valid() && t.Contains(x) && t.Contains(y)
    ensures var d := y - x;
            Distance(t, x, y) ==
            if INT.Contains(d) && (d != INT.Min() || (t.signed && (x < 0) == (y < 0))) then Some(d) else None
  {
    hide Less, IntExactly, IntType.Wrap, Pow2;
    if t.signed && (x < 0) == (y < 0) {
      WrapContained(t, y - x);
      IntExactlyIsPartialIdentity(t, y - x);
    } else {
      DistanceByMagnitude(t, x, y);
    }
  }

  lemma DistanceByMagnitude(t: IntType, x: int, y: int)
    requires t.Valid() && t.Contains(x) && t.Contains(y)
    requires !t.signed || (x < 0) != (y < 0)
    ensures Distance(t, x, y) ==
            if INT.Contains(y - x) && y - x != INT.Min() then Some(y - x) else None
  {
    hide Less, IntExactly, IntType.Wrap, Pow2;
    var m := t.Magnitude();
    var d: int := Abs(y - x);
    MagnitudeFits(t, x, y);
    WrapContained(m, d);
    IntExactlyIsPartialIdentity(m, d);
    IntIsAlmostSymmetric(y - x);
    if INT.Contains(d) {
      WrapContained(INT, 0 - d);
    }
    if !t.signed {
      assert t == m;
    }
  }

  lemma MagnitudeFits(t: IntType, x: int, y: int)
    requires t.Valid() && t.Contains(x) && t.Contains(y)
    requires !t.signed || (x < 0) != (y < 0)
    ensures t.Magnitude().Contains(Abs(y - x))
    ensures t.signed ==> Abs(x) + Abs(y) == Abs(y - x)
  {
    assert Pow2(t.width) == 2 * Pow2(t.width - 1);
  }

  lemma IntIsAlmostSymmetric(d: int)
    ensures INT.Contains(Abs(d)) <==> INT.Contains(d) && d != INT.Min()
    ensures INT.Contains(Abs(d)) ==> INT.Contains(0 - Abs(d))
  {
  }

  /** Int.min itself: missed between UInt values, found between two negative Int32 values. */
  lemma DistanceMissesIntMin()
    ensures IntType(16, false).Contains(32768) && IntType(16, false).Contains(0)
    ensures Distance(IntType(16, false), 32768, 0) == None
    ensures IntType(32, true).Contains(-1) && IntType(32, true).Contains(-32769)
    ensures Distance(IntType(32, true), -1, -32769) == Some(-32768)
  {
    Pow2Increasing(16, 31);
    assert Pow2(15) == 32768 && Pow2(16) == 65536;
    DistanceIsDifference(IntType(16, false), 32768, 0);
    DistanceIsDifference(IntType(32, true), -1, -32769);
  }

  // ---------------------------------------------------------------- binary logarithm

  /** UInt(truncatingIfNeeded: x >> s) */
  function WordAt(x: nat, s: nat): (r: nat)
    ensures r < Pow2(WORD_BITS)
  {
    x / Pow2(s) % Pow2(WORD_BITS)
  }

  /** _binaryLogarithm() of BinaryInteger: skips the words that are zero, from the most significant one down. */
  method BinaryLogarithm(t: IntType, x: int) returns (log: nat)
    requires t.Valid() && t.Contains(x) && x > 0
    ensures log == Log2(x)
  {
    hide Pow2, Log2, WordAt;
    var quotient: nat := (t.width - 1) / WORD_BITS;
    var remainder: nat := (t.width - 1) % WORD_BITS + 1;
    BelowWidth(t, x);
    Pow2Increasing(t.width, WORD_BITS * quotient + WORD_BITS);
    LeadingWord(x, WORD_BITS * quotient);
    var word: nat := WordAt(x, t.width - remainder);
    while word == 0
      invariant t.width - remainder == WORD_BITS * quotient
      invariant x < Pow2(WORD_BITS * quotient + WORD_BITS)
      invariant word == WordAt(x, t.width - remainder)
      decreases quotient
    {
      LeadingWord(x, WORD_BITS * quotient);
      quotient := quotient - 1;
      remainder := remainder + WORD_BITS;
      word := WordAt(x, t.width - remainder);
    }
    LeadingWord(x, WORD_BITS * quotient);
    log := WORD_BITS * quotient + (WORD_BITS - (LeadingZeros(WORD_BITS, word) + 1));
  }

  /** leadingZeroBitCount of a non-zero value of this width. */
  function LeadingZeros(width: nat, x: nat): nat
    requires 0 < x < Pow2(width)
    ensures LeadingZeros(width, x) == width - 1 - Log2(x)
  {
    Log2Bounds(x);
    if x >= Pow2(width - 1) then
      Log2Unique(x, width - 1);
      0
    else 1 + LeadingZeros(width - 1, x)
  }

  lemma BelowWidth(t: IntType, x: int)
    requires 0 < t.width && t.Contains(x)
    ensures x < Pow2(t.width)
  {
  }

  /** Of a value below 2^(s + 16), either the word at bit s leads, or it is zero and can be skipped. */
  lemma LeadingWord(x: nat, s: nat)
    requires 0 < x < Pow2(s + WORD_BITS)
    ensures var word := WordAt(x, s);
      if word == 0 then x < Pow2(s) && s > 0 else Log2(x) == s + Log2(word)
  {
    assert Pow2(0) == 1;
    hide Pow2, Log2;
    var P, word := Pow2(s), x / Pow2(s);
    DivModIdentity(x, P);
    DivNonNegative(x, P);
    Pow2Add(WORD_BITS, s);
    if word >= Pow2(WORD_BITS) {
      MulIncreasing(Pow2(WORD_BITS), word, P);
    }
    ModSmall(word, Pow2(WORD_BITS));
    if word > 0 {
      LogOfWord(x, s, word);
    }
  }

  lemma LogOfWord(x: nat, s: nat, word: nat)
    requires 0 < word && word * Pow2(s) <= x < word * Pow2(s) + Pow2(s)
    ensures Log2(x) == s + Log2(word)
  {
    hide Pow2, Log2;
    var P, q := Pow2(s), Log2(word);
    Log2Bounds(word);
    Pow2Add(q, s);
    MulIncreasing(Pow2(q), word, P);
    MulIncreasing(word + 1, 2 * Pow2(q), P);
    MulAdd(word, 1, P);
    MulAssociative(2, Pow2(q), P);
    Log2Unique(x, s + q);
  }
}
