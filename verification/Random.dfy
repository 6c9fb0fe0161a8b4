/** Random integers: Lemire's bounded draw and sampling from a range. The generator is an arbitrary stream;
    a run sees a finite part of it, and None means that this part ended before the call could return. */
module Random {
  import opened Optionals
  import opened Powers
  import opened FixedWidth

  type UInt32 = x: nat | x < 0x1_0000_0000

  /** A RandomNumberGenerator, as the draws it will still deliver. */
  class Generator {
    var draws: seq<UInt32>

    method Next() returns (x: Option<nat>)
      modifies this
      ensures old(draws) == [] ==> x == None && draws == []
      ensures old(draws) != [] ==> x == Some(old(draws)[0]) && draws == old(draws)[1..]
    {
      if draws == [] {
        return None;
      }
      x := Some(draws[0]);
      draws := draws[1..];
    }
  }

  // ---------------------------------------------------------------- raw values of any width

  /** How many 32-bit draws make up one value. */
  function DrawCount(width: nat): nat
  {
    if width <= 32 then 1 else width / 32 + if width % 32 > 0 then 1 else 0
  }

  /** The draws as one number, the first of them lowest. */
  function Joined(draws: seq<UInt32>): nat
  {
    if draws == [] then 0 else draws[0] + 0x1_0000_0000 * Joined(draws[1..])
  }

  /** One raw value from the stream, and what is left of the stream. */
  function RawDraw(width: nat, draws: seq<UInt32>): (Option<nat>, seq<UInt32>)
  {
    var n := DrawCount(width);
    if |draws| < n then (None, []) else (Some(Joined(draws[..n]) % Pow2(width)), draws[n..])
  }

  lemma {:induction false} JoinedAppend(a: seq<UInt32>, x: UInt32)
    ensures Joined(a + [x]) == Joined(a) + x * Pow2(32 * |a|)
  {
    if a == [] {
      assert [x][1..] == [];
    } else {
      JoinedAppend(a[1..], x);
      assert (a + [x])[1..] == a[1..] + [x];
      Pow2Add(32, 32 * |a[1..]|);
      MachineWords();
      MulAssociative(x, Pow2(32 * |a[1..]|), Pow2(32));
      MulAssociative(Pow2(32), x, Pow2(32 * |a[1..]|));
      assert 0x1_0000_0000 * (x * Pow2(32 * |a[1..]|)) == x * Pow2(32 * |a|);
    }
  }

  /** _random(using:): one truncated draw, or draws shifted into place and added with wrap-around. */
  method Raw(width: nat, g: Generator) returns (x: Option<nat>)
    modifies g
    ensures (x, g.draws) == RawDraw(width, old(g.draws))
  {
    hide Pow2, Joined;
    if width <= 32 {
      var next := g.Next();
      if next == None {
        return None;
      }
      JoinedOne(old(g.draws)[..1]);
      return Some(next.value % Pow2(width));
    }
    ghost var all := g.draws;
    var tmp: nat := 0;
    JoinedNone(all[..0], width);
    var n := width / 32 + (if width % 32 > 0 then 1 else 0);
    for i := 0 to n
      invariant i <= |all| && g.draws == all[i..]
      invariant tmp == Joined(all[..i]) % Pow2(width)
    {
      var next := g.Next();
      if next == None {
        return None;
      }
      AddDraw(all[..i], next.value, width);
      assert all[..i] + [next.value] == all[..i + 1];
      tmp := (tmp + next.value % Pow2(width) * Pow2(32 * i) % Pow2(width)) % Pow2(width);
    }
    x := Some(tmp);
  }

  lemma JoinedOne(draws: seq<UInt32>)
    requires |draws| == 1
    ensures Joined(draws) == draws[0]
  {
  }

  lemma JoinedNone(draws: seq<UInt32>, width: nat)
    requires draws == []
    ensures Joined(draws) % Pow2(width) == 0
  {
    ModSmall(0, Pow2(width));
  }

  lemma AddDraw(draws: seq<UInt32>, x: UInt32, width: nat)
    requires width > 32
    ensures (Joined(draws) % Pow2(width) + x % Pow2(width) * Pow2(32 * |draws|) % Pow2(width)) % Pow2(width)
         == Joined(draws + [x]) % Pow2(width)
  {
    hide Joined, Pow2;
    MachineWords();
    Pow2Increasing(32, width);
    ModSmall(x, Pow2(width));
    JoinedAppend(draws, x);
    ModAdd(Joined(draws), x * Pow2(32 * |draws|), Pow2(width));
  }

  // ---------------------------------------------------------------- the bounded draw

  /** Which raw values the algorithm keeps: those whose product with the bound is not in the short first
      part of its 2^width-long stretch. */
  predicate Accepted(width: nat, upperBound: nat, raw: nat)
    requires 0 < upperBound
  {
    raw * upperBound % Pow2(width) >= Pow2(width) % upperBound
  }

  function Result(width: nat, upperBound: nat, raw: nat): (h: nat)
  {
    MulIncreasing(0, raw, upperBound);
    DivNonNegative(raw * upperBound, Pow2(width));
    raw * upperBound / Pow2(width)
  }

  /** The result of the first accepted raw value, and the stream after it. */
  function BoundedDraw(width: nat, upperBound: nat, draws: seq<UInt32>): (Option<nat>, seq<UInt32>)
    requires 0 < upperBound
    decreases |draws|
  {
    var (raw, rest) := RawDraw(width, draws);
    if raw == None then (None, rest)
    else if Accepted(width, upperBound, raw.value) then (Some(Result(width, upperBound, raw.value)), rest)
    else BoundedDraw(width, upperBound, rest)
  }

  /** next(upperBound:) — the threshold is only computed when the low half might be below it, and a raw
      value is tried again as long as it is. */
  method NextBelow(width: nat, upperBound: nat, g: Generator) returns (h: Option<nat>)
    requires 0 < upperBound < Pow2(width)
    modifies g
    ensures (h, g.draws) == BoundedDraw(width, upperBound, old(g.draws))
  {
    hide Pow2, RawDraw, Result, BoundedDraw;
    var random: Option<nat> := Raw(width, g);
    BoundedDrawStep(width, upperBound, old(g.draws));
    if random == None {
      return None;
    }
    var low := random.value * upperBound % Pow2(width);
    if low < upperBound {
      var t := (Pow2(width) - upperBound) % upperBound;
      ThresholdIsRemainder(width, upperBound);
      while low < t
        invariant random.Some? && low == random.value * upperBound % Pow2(width)
        invariant BoundedDraw(width, upperBound, old(g.draws)) ==
                  if Accepted(width, upperBound, random.value)
                  then (Some(Result(width, upperBound, random.value)), g.draws)
                  else BoundedDraw(width, upperBound, g.draws)
        decreases |g.draws|
      {
        BoundedDrawStep(width, upperBound, g.draws);
        random := Raw(width, g);
        if random == None {
          return None;
        }
        low := random.value * upperBound % Pow2(width);
      }
    } else {
      LowPartIsBelowBound(width, upperBound);
    }
    h := Some(Result(width, upperBound, random.value));
  }

  lemma BoundedDrawStep(width: nat, upperBound: nat, draws: seq<UInt32>)
    requires 0 < upperBound
    ensures var (raw, rest) := RawDraw(width, draws);
            && (raw.Some? ==> |rest| < |draws|)
            && BoundedDraw(width, upperBound, draws) ==
               if raw == None then (None, rest)
               else if Accepted(width, upperBound, raw.value) then (Some(Result(width, upperBound, raw.value)), rest)
               else BoundedDraw(width, upperBound, rest)
  {
  }

  /** The result of an accepted raw value is the high half of its product with the bound. */
  lemma ResultIsHighHalf(width: nat, upperBound: nat, raw: nat)
    ensures var N, h := Pow2(width), Result(width, upperBound, raw);
            h * N <= raw * upperBound < (h + 1) * N
  {
    hide Pow2;
    var N, h := Pow2(width), Result(width, upperBound, raw);
    DivModIdentity(raw * upperBound, N);
    MulAdd(h, 1, N);
  }

  /** The whole draw in terms of the products alone: a raw value r is thrown away when the low half of r * bound
      is below 2^width modulo the bound, and otherwise the high half of the product is the result. */
  lemma DrawReturnsHighHalf(width: nat, upperBound: nat, draws: seq<UInt32>)
    requires 0 < upperBound
    ensures var (raw, rest) := RawDraw(width, draws);
            var (h, after) := BoundedDraw(width, upperBound, draws);
            var N := Pow2(width);
            if raw == None then h == None && after == rest
            else if raw.value * upperBound % N < N % upperBound then
              |rest| < |draws| && (h, after) == BoundedDraw(width, upperBound, rest)
            else
              h.Some? && after == rest && h.value * N <= raw.value * upperBound < (h.value + 1) * N
  {
    hide Pow2, RawDraw, Result, BoundedDraw;
    var (raw, rest) := RawDraw(width, draws);
    BoundedDrawStep(width, upperBound, draws);
    if raw.Some? {
      ResultIsHighHalf(width, upperBound, raw.value);
    }
  }

  /** The wrapped negation modulo the bound is 2^width modulo the bound. */
  lemma ThresholdIsRemainder(width: nat, upperBound: nat)
    requires 0 < upperBound < Pow2(width)
    ensures (Pow2(width) - upperBound) % upperBound == Pow2(width) % upperBound
  {
    ModEqual(Pow2(width) - upperBound, Pow2(width), upperBound, -1);
  }

  lemma LowPartIsBelowBound(width: nat, upperBound: nat)
    requires 0 < upperBound
    ensures Pow2(width) % upperBound < upperBound
  {
  }

  // ---------------------------------------------------------------- counting

  predicate Within(from: int, size: nat, r: int) { from <= r < from + size }

  function Interval(from: int, size: nat): set<int>
  {
    set r: int | from <= r < from + size && Within(from, size, r)
  }

  lemma {:induction false} IntervalSize(from: int, size: nat)
    ensures |Interval(from, size)| == size
  {
    if size == 0 {
      assert Interval(from, 0) == {};
    } else {
      IntervalSize(from, size - 1);
      assert Interval(from, size) == Interval(from, size - 1) + {from + size - 1};
    }
  }

  /** The numbers below count * d that leave remainder v. */
  function Residues(d: nat, v: nat, count: nat): set<int>
    requires v < d
  {
    set x: int | 0 <= x < count * d && x % d == v
  }

  lemma {:induction false} ResiduesSize(d: nat, v: nat, count: nat)
    requires v < d
    ensures |Residues(d, v, count)| == count
  {
    if count == 0 {
      assert Residues(d, v, 0) == {};
    } else {
      var last := (count - 1) * d + v;
      ResiduesSize(d, v, count - 1);
      MulSub(count, 1, d);
      DivModUnique(last, d, count - 1, v);
      MulIncreasing(0, count - 1, d);
      var below := (count - 1) * d;
      forall x | below <= x < below + d
        ensures x % d == v <==> x == last
      {
        DivModUnique(x, d, count - 1, x - below);
      }
      assert Residues(d, v, count) == Residues(d, v, count - 1) + {last};
    }
  }

  /** The n draws that join to x. */
  function Digits(x: nat, n: nat): (draws: seq<UInt32>)
    ensures |draws| == n
  {
    if n == 0 then [] else [x % 0x1_0000_0000] + Digits(x / 0x1_0000_0000, n - 1)
  }

  /** Joining is a bijection between n draws and the numbers below 2^(32 n). */
  lemma {:induction false} DigitsOfJoined(draws: seq<UInt32>)
    ensures Digits(Joined(draws), |draws|) == draws
    ensures Joined(draws) < Pow2(32 * |draws|)
  {
    if draws != [] {
      var rest := Joined(draws[1..]);
      DigitsOfJoined(draws[1..]);
      DivModUnique(Joined(draws), 0x1_0000_0000, rest, draws[0]);
      TwoTo32More(|draws| - 1);
      assert Joined(draws) == draws[0] + 0x1_0000_0000 * rest;
    }
  }

  lemma {:induction false} JoinedOfDigits(x: nat, n: nat)
    requires x < Pow2(32 * n)
    ensures Joined(Digits(x, n)) == x
  {
    if n > 0 {
      var draws := Digits(x, n);
      TwoTo32More(n - 1);
      JoinedOfDigits(x / 0x1_0000_0000, n - 1);
      assert draws[0] == x % 0x1_0000_0000 && draws[1..] == Digits(x / 0x1_0000_0000, n - 1);
    }
  }

  lemma TwoTo32More(n: nat)
    ensures Pow2(32 * (n + 1)) == 0x1_0000_0000 * Pow2(32 * n)
  {
    MachineWords();
    Pow2Add(32, 32 * n);
  }

  /** As many draws as the width needs, and at least one. */
  lemma EnoughDraws(width: nat)
    ensures width <= 32 * DrawCount(width) && DrawCount(width) >= 1
    ensures DrawCount(width) > 1 ==> 32 * (DrawCount(width) - 1) < width
  {
  }

  /** The numbers below 2^(32 n) that are v modulo 2^width, and the draws that join to them. */
  function JoinedFor(width: nat, v: nat): set<int>
  {
    set x: int | 0 <= x < Pow2(32 * DrawCount(width)) && x % Pow2(width) == v
  }

  function DrawsFor(width: nat, v: nat): set<seq<UInt32>>
  {
    AllDigits(JoinedFor(width, v), DrawCount(width))
  }

  function AllDigits(xs: set<int>, n: nat): set<seq<UInt32>>
    requires forall x <- xs :: 0 <= x
  {
    set x: int | x in xs :: Digits(x, n)
  }

  lemma AnyOf<T>(s: set<T>) returns (x: T)
    requires s != {}
    ensures x in s
  {
    x :| x in s;
  }

  lemma {:induction false} DigitsSize(xs: set<int>, n: nat)
    requires forall x <- xs :: 0 <= x < Pow2(32 * n)
    ensures |AllDigits(xs, n)| == |xs|
  {
    hide Pow2, Digits, Joined;
    if xs != {} {
      var y := AnyOf(xs);
      DigitsSize(xs - {y}, n);
      JoinedOfDigits(y, n);
      forall x <- xs - {y} ensures Digits(x, n) != Digits(y, n) {
        JoinedOfDigits(x, n);
      }
      assert Digits(y, n) !in AllDigits(xs - {y}, n);
      assert AllDigits(xs, n) == AllDigits(xs - {y}, n) + {Digits(y, n)};
    }
  }

  /** Every raw value of every width comes from equally many sequences of draws. */
  lemma RawIsUnbiased(width: nat, v: nat)
    requires v < Pow2(width)
    ensures forall s: seq<UInt32> :: s in DrawsFor(width, v) <==> Draws(width, s, v)
    ensures width <= 32 * DrawCount(width)
    ensures |DrawsFor(width, v)| == Pow2(32 * DrawCount(width) - width)
  {
    hide Pow2, Digits, Joined, DrawsFor, Draws, DrawCount;
    var n := DrawCount(width);
    EnoughDraws(width);
    JoinedForSize(width, v);
    DrawsForSize(width, v);
    forall s: seq<UInt32>
      ensures s in DrawsFor(width, v) <==> Draws(width, s, v)
    {
      DrawsForMembers(width, v, s);
    }
  }

  lemma JoinedForSize(width: nat, v: nat)
    requires v < Pow2(width) && width <= 32 * DrawCount(width)
    ensures |JoinedFor(width, v)| == Pow2(32 * DrawCount(width) - width)
  {
    hide Pow2, DrawCount;
    var n := DrawCount(width);
    Pow2Add(32 * n - width, width);
    ResiduesSize(Pow2(width), v, Pow2(32 * n - width));
    assert JoinedFor(width, v) == Residues(Pow2(width), v, Pow2(32 * n - width));
  }

  lemma DrawsForSize(width: nat, v: nat)
    ensures |DrawsFor(width, v)| == |JoinedFor(width, v)|
  {
    hide Pow2, Digits, DrawCount;
    DigitsSize(JoinedFor(width, v), DrawCount(width));
  }

  /** These draws, no more and no fewer, make the raw value v. */
  predicate Draws(width: nat, s: seq<UInt32>, v: nat)
  {
    |s| == DrawCount(width) && RawDraw(width, s) == (Some(v), [])
  }

  lemma DrawsForMembers(width: nat, v: nat, s: seq<UInt32>)
    ensures s in DrawsFor(width, v) <==> Draws(width, s, v)
  {
    hide Pow2, Digits, Joined;
    var n := DrawCount(width);
    if |s| == n {
      assert s[..n] == s && s[n..] == [];
      DigitsOfJoined(s);
      assert Draws(width, s, v) <==> Joined(s) % Pow2(width) == v;
      if s in DrawsFor(width, v) {
        var x: int :| x in JoinedFor(width, v) && s == Digits(x, n);
        JoinedOfDigits(x, n);
      }
    }
  }

  /** The accepted raw values that give the result h. */
  function AcceptedFor(width: nat, upperBound: nat, h: nat): set<int>
    requires 0 < upperBound
  {
    set r: int | 0 <= r < Pow2(width) && Accepted(width, upperBound, r) && Result(width, upperBound, r) == h
  }

  /** r * u reaches L exactly from the rounded-up quotient on. */
  lemma CeilingQuotient(u: nat, L: int, r: int)
    requires u > 0
    ensures L <= r * u <==> (L + u - 1) / u <= r
  {
    var a := (L + u - 1) / u;
    DivModIdentity(L + u - 1, u);
    if a <= r {
      MulIncreasing(a, r, u);
    } else {
      MulIncreasing(r, a - 1, u);
      MulSub(a, 1, u);
    }
  }

  /** A raw value is accepted with result h exactly when its product falls in the long last part of stretch h. */
  lemma AcceptedWindow(N: nat, u: nat, h: nat, r: nat)
    requires 0 < u <= N && h < u
    ensures r < N && r * u % N >= N % u && r * u / N == h
        <==> h * N + N % u <= r * u < h * N + N
  {
    var x := r * u;
    DivModIdentity(x, N);
    if h * N + N % u <= x < h * N + N {
      DivModUnique(x, N, h, x - h * N);
      MulIncreasing(h + 1, u, N);
      MulAdd(h, 1, N);
      if r >= N {
        MulIncreasing(N, r, u);
      }
    }
  }

  /** No bias: every result has the same number of accepted raw values, the whole quotient 2^width / bound. */
  lemma DrawIsUnbiased(width: nat, upperBound: nat, h: nat)
    requires 0 < upperBound < Pow2(width) && h < upperBound
    ensures |AcceptedFor(width, upperBound, h)| == Pow2(width) / upperBound
  {
    hide Pow2;
    var N, u := Pow2(width), upperBound;
    var q, L := N / u, h * N + N % u;
    var a := (L + u - 1) / u;
    DivModIdentity(N, u);
    MulIncreasing(0, h, N);
    assert a >= 0 by {
      DivNonNegative(L + u - 1, u);
    }
    DivNonNegative(N, u);
    forall r: int
      ensures r in AcceptedFor(width, u, h) <==> r in Interval(a, q)
    {
      if r >= 0 {
        AcceptedWindow(N, u, h, r);
        CeilingQuotient(u, L, r);
        CeilingQuotient(u, L, r - q);
        MulSub(r, q, u);
      }
    }
    assert AcceptedFor(width, u, h) == Interval(a, q);
    IntervalSize(a, q);
  }

  /** The accepted raw values with a result below k. */
  function AcceptedBelow(width: nat, upperBound: nat, k: nat): set<int>
    requires 0 < upperBound
  {
    set r: int | 0 <= r < Pow2(width) && Accepted(width, upperBound, r) && Result(width, upperBound, r) < k
  }

  lemma {:induction false} AcceptedBelowSize(width: nat, upperBound: nat, k: nat)
    requires 0 < upperBound < Pow2(width) && k <= upperBound
    ensures |AcceptedBelow(width, upperBound, k)| == k * (Pow2(width) / upperBound)
  {
    hide Pow2;
    var N, u := Pow2(width), upperBound;
    if k == 0 {
      assert AcceptedBelow(width, u, 0) == {};
    } else {
      AcceptedBelowSize(width, u, k - 1);
      DrawIsUnbiased(width, u, k - 1);
      MulSub(k, 1, N / u);
      assert AcceptedBelow(width, u, k) == AcceptedBelow(width, u, k - 1) + AcceptedFor(width, u, k - 1);
      assert AcceptedBelow(width, u, k - 1) !! AcceptedFor(width, u, k - 1);
    }
  }

  function Rejected(width: nat, upperBound: nat): set<int>
    requires 0 < upperBound
  {
    set r: int | 0 <= r < Pow2(width) && !Accepted(width, upperBound, r)
  }

  /** The result is in range, and fewer than half of the raw values are thrown away. */
  lemma FewRejected(width: nat, upperBound: nat)
    requires 0 < upperBound < Pow2(width)
    ensures |Rejected(width, upperBound)| == Pow2(width) % upperBound
    ensures 2 * |Rejected(width, upperBound)| < Pow2(width)
    ensures forall r: int :: 0 <= r < Pow2(width) ==> Result(width, upperBound, r) < upperBound
  {
    hide Pow2;
    var N, u := Pow2(width), upperBound;
    forall r: int | 0 <= r < N
      ensures Result(width, u, r) < u
    {
      ResultBelowBound(width, u, r);
    }
    var all, accepted := Interval(0, N), AcceptedBelow(width, u, u);
    assert all == accepted + Rejected(width, u);
    assert accepted !! Rejected(width, u);
    IntervalSize(0, N);
    AcceptedBelowSize(width, u, u);
    DivModIdentity(N, u);
    if N / u >= 1 {
      MulIncreasing(1, N / u, u);
    } else {
      MulIncreasing(N / u, 0, u);
    }
  }

  lemma ResultBelowBound(width: nat, upperBound: nat, r: nat)
    requires 0 < upperBound && r < Pow2(width)
    ensures Result(width, upperBound, r) < upperBound
  {
    hide Pow2;
    var N, h := Pow2(width), Result(width, upperBound, r);
    DivModIdentity(r * upperBound, N);
    MulStrictlyIncreasing(r, N, upperBound);
    if h >= upperBound {
      MulIncreasing(upperBound, h, N);
    }
  }

  // ---------------------------------------------------------------- ranges

  /** lowerBound plus the draw, added with wrap-around on the magnitude type and reinterpreted. */
  function Offset(t: IntType, lower: int, h: nat): int
    requires 0 < t.width
  {
    var m := t.Magnitude();
    t.Wrap(m.Wrap(m.Wrap(lower) + h))
  }

  /** The distance between the bounds on the magnitude type, whose subtraction wrapped on the type itself. */
  function Delta(t: IntType, lower: int, upper: int): nat
    requires 0 < t.width
  {
    t.Magnitude().Wrap(t.Wrap(upper - lower))
  }

  lemma WrapsAdd(m: IntType, x: int, h: int)
    requires 0 < m.width
    ensures m.Wrap(m.Wrap(x) + h) % Pow2(m.width) == (x + h) % Pow2(m.width)
  {
    hide Pow2, IntType.Wrap;
    ModAdd(x, h, Pow2(m.width));
    ModAdd(m.Wrap(x), h, Pow2(m.width));
  }

  lemma DeltaCancels(t: IntType, lower: int, upper: int)
    requires 0 < t.width && t.Contains(lower) && t.Contains(upper) && lower <= upper
    ensures Delta(t, lower, upper) == upper - lower < Pow2(t.width)
  {
    assert t.signed ==> Pow2(t.width) == 2 * Pow2(t.width - 1);
    hide Pow2, IntType.Wrap;
    WrapUnique(t.Magnitude(), upper - lower, t.Wrap(upper - lower));
  }

  lemma OffsetCancels(t: IntType, lower: int, h: nat)
    requires 0 < t.width && t.Contains(lower) && t.Contains(lower + h)
    ensures Offset(t, lower, h) == lower + h
  {
    hide Pow2, IntType.Wrap, IntType.Contains;
    var m := t.Magnitude();
    WrapsAdd(m, lower, h);
    WrapUnique(t, lower + h, m.Wrap(m.Wrap(lower) + h));
  }

  /** The wrapping cancels out, even when upper - lower overflows the type. */
  lemma WrappingCancels(t: IntType, lower: int, upper: int, h: nat)
    requires 0 < t.width && t.Contains(lower) && t.Contains(upper) && lower <= upper
    ensures Delta(t, lower, upper) == upper - lower < Pow2(t.width)
    ensures h <= upper - lower ==> Offset(t, lower, h) == lower + h
  {
    hide Pow2, Offset, Delta;
    DeltaCancels(t, lower, upper);
    if h <= upper - lower {
      OffsetCancels(t, lower, h);
    }
  }

  /** random(in: Range) — the first accepted draw, counted from the lower bound. */
  method InRange(t: IntType, lower: int, upper: int, g: Generator) returns (r: Option<int>)
    requires t.Valid() && t.Contains(lower) && t.Contains(upper) && lower < upper
    modifies g
    ensures var (h, rest) := BoundedDraw(t.width, upper - lower, old(g.draws));
            g.draws == rest && r == if h == None then None else Some(lower + h.value)
    ensures r.Some? ==> lower <= r.value < upper
  {
    hide Pow2, Delta, Offset, BoundedDraw;
    WrappingCancels(t, lower, upper, 0);
    var delta := Delta(t, lower, upper);
    DrawBelowBound(t.width, delta, g.draws);
    var h := NextBelow(t.width, delta, g);
    if h == None {
      return None;
    }
    WrappingCancels(t, lower, upper, h.value);
    r := Some(Offset(t, lower, h.value));
  }

  /** random(in: ClosedRange) — the full range of the type needs no bound at all. */
  method InClosedRange(t: IntType, lower: int, upper: int, g: Generator) returns (r: Option<int>)
    requires t.Valid() && t.Contains(lower) && t.Contains(upper) && lower <= upper
    modifies g
    ensures var full := upper - lower == Pow2(t.width) - 1;
            var (h, rest) := if full then RawDraw(t.width, old(g.draws))
                             else BoundedDraw(t.width, upper - lower + 1, old(g.draws));
            && g.draws == rest
            && r == if h == None then None else Some(if full then t.Wrap(h.value) else lower + h.value)
    ensures r.Some? ==> lower <= r.value <= upper
  {
    hide Delta, Offset, BoundedDraw, RawDraw;
    WrappingCancels(t, lower, upper, 0);
    var delta := Delta(t, lower, upper);
    if delta == t.Magnitude().Max() {
      FullRange(t, lower, upper);
      var raw := Raw(t.width, g);
      return if raw == None then None else Some(t.Wrap(raw.value));
    }
    delta := delta + 1;
    DrawBelowBound(t.width, delta, g.draws);
    var h := NextBelow(t.width, delta, g);
    if h == None {
      return None;
    }
    WrappingCancels(t, lower, upper, h.value);
    r := Some(Offset(t, lower, h.value));
  }

  lemma FullRange(t: IntType, lower: int, upper: int)
    requires 0 < t.width && t.Contains(lower) && t.Contains(upper) && upper - lower == Pow2(t.width) - 1
    ensures lower == t.Min() && upper == t.Max()
  {
    assert t.signed ==> Pow2(t.width) == 2 * Pow2(t.width - 1);
  }

  lemma DrawBelowBound(width: nat, upperBound: nat, draws: seq<UInt32>)
    requires 0 < upperBound
    ensures BoundedDraw(width, upperBound, draws).0.Some? ==> BoundedDraw(width, upperBound, draws).0.value < upperBound
    decreases |draws|
  {
    var (raw, rest) := RawDraw(width, draws);
    if raw.Some? {
      ResultBelowBound(width, upperBound, raw.value);
      if !Accepted(width, upperBound, raw.value) {
        DrawBelowBound(width, upperBound, rest);
      }
    }
  }

  /** Every member of a range, half-open or closed, has the same number of accepted raw values. */
  lemma RangeIsUnbiased(t: IntType, lower: int, size: nat, x: int)
    requires 0 < t.width && 0 < size < Pow2(t.width)
    requires t.Contains(lower) && t.Contains(lower + size - 1) && lower <= x < lower + size
    ensures |set raw: int | 0 <= raw < Pow2(t.width) && Accepted(t.width, size, raw)
                            && Offset(t, lower, Result(t.width, size, raw)) == x| == Pow2(t.width) / size
  {
    hide Pow2, Offset;
    var hits := set raw: int | 0 <= raw < Pow2(t.width) && Accepted(t.width, size, raw)
                               && Offset(t, lower, Result(t.width, size, raw)) == x;
    forall raw: int | 0 <= raw < Pow2(t.width)
      ensures Offset(t, lower, Result(t.width, size, raw)) == lower + Result(t.width, size, raw)
    {
      ResultBelowBound(t.width, size, raw);
      WrappingCancels(t, lower, lower + size - 1, Result(t.width, size, raw));
    }
    assert hits == AcceptedFor(t.width, size, x - lower);
    DrawIsUnbiased(t.width, size, x - lower);
  }

  /** And over the full range each member has exactly one. */
  lemma FullRangeIsUnbiased(t: IntType, x: int)
    requires 0 < t.width && t.Contains(x)
    ensures (set raw: int | 0 <= raw < Pow2(t.width) && t.Wrap(raw) == x) == {x % Pow2(t.width)}
  {
    var N := Pow2(t.width);
    WrapUnique(t, x, x % N) by {
      ModMod(x, N);
    }
    forall raw: int | 0 <= raw < N && t.Wrap(raw) == x
      ensures raw == x % N
    {
      ModSmall(raw, N);
    }
  }
}
