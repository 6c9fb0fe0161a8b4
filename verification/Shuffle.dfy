/** The in-place Fisher-Yates shuffle: a bijection between choice sequences and permutations, and with the
    bounded draw an exactly uniform one. */
module Shuffle {
  import opened Optionals
  import opened Powers
  import opened FixedWidth
  import opened MutableCollection
  import opened Random

  function StepCount(n: nat): nat { if n <= 1 then 0 else n - 1 }

  /** Choices for the first steps: among n elements, then n - 1, and so on. */
  ghost predicate FirstChoices(c: seq<nat>, n: nat)
  {
    && |c| <= StepCount(n)
    && forall k :: 0 <= k < |c| ==> c[k] < n - k
  }

  /** A choice for every step. */
  ghost predicate Choices(c: seq<nat>, n: nat)
  {
    FirstChoices(c, n) && |c| == StepCount(n)
  }

  /** Swap the chosen element to the front, then go on behind it. */
  function Shuffled<T>(s: seq<T>, c: seq<nat>): (r: seq<T>)
    requires FirstChoices(c, |s|)
    ensures |r| == |s|
    decreases |c|
  {
    if c == [] then s
    else
      var t := Swapped(s, 0, c[0]);
      [t[0]] + Shuffled(t[1..], c[1..])
  }

  // ---------------------------------------------------------------- permutations

  lemma HeadAndTail<T>(s: seq<T>)
    requires s != []
    ensures multiset(s) == multiset{s[0]} + multiset(s[1..])
  {
    assert s == [s[0]] + s[1..];
  }

  /** Every run permutes the elements, finished or not. */
  lemma {:induction false} ShuffledPermutes<T>(s: seq<T>, c: seq<nat>)
    requires FirstChoices(c, |s|)
    ensures multiset(Shuffled(s, c)) == multiset(s)
    decreases |c|
  {
    if c != [] {
      var t := Swapped(s, 0, c[0]);
      SwapKeepsElements(s, 0, c[0]);
      ShuffledPermutes(t[1..], c[1..]);
      HeadAndTail(t);
      HeadAndTail(Shuffled(s, c));
    }
  }

  ghost predicate Distinct<T>(s: seq<T>)
  {
    forall i, j :: 0 <= i < j < |s| ==> s[i] != s[j]
  }

  lemma DistinctTail<T>(s: seq<T>, j: nat)
    requires Distinct(s) && j < |s|
    ensures Distinct(Swapped(s, 0, j)[1..])
  {
  }

  /** Different choices give different results when the elements are distinct. */
  lemma {:induction false} ShuffledIsInjective<T>(s: seq<T>, c: seq<nat>, d: seq<nat>)
    requires Distinct(s) && Choices(c, |s|) && Choices(d, |s|) && Shuffled(s, c) == Shuffled(s, d)
    ensures c == d
    decreases |c|
  {
    if c != [] {
      assert Shuffled(s, c)[0] == s[c[0]] && Shuffled(s, d)[0] == s[d[0]];
      var t := Swapped(s, 0, c[0]);
      DistinctTail(s, c[0]);
      assert Shuffled(t[1..], c[1..]) == Shuffled(s, c)[1..] == Shuffled(s, d)[1..] == Shuffled(t[1..], d[1..]);
      ShuffledIsInjective(t[1..], c[1..], d[1..]);
      assert c == [c[0]] + c[1..] && d == [d[0]] + d[1..];
    }
  }

  function Find<T(==)>(s: seq<T>, x: T): (i: nat)
    requires x in s
    ensures i < |s| && s[i] == x
  {
    if s[0] == x then 0 else 1 + Find(s[1..], x)
  }

  /** The choices that lead to a given permutation. */
  function ChoicesFor<T(==)>(s: seq<T>, t: seq<T>): (c: seq<nat>)
    requires multiset(s) == multiset(t)
    ensures Choices(c, |s|)
    ensures Shuffled(s, c) == t
    decreases |s|
  {
    SameSize(s, t);
    if |s| <= 1 then
      SameSingleton(s, t);
      []
    else
      assert t[0] in multiset(s);
      var j := Find(s, t[0]);
      var u := Swapped(s, 0, j);
      SwapKeepsElements(s, 0, j);
      TailsMatch(u, t);
      var rest := ChoicesFor(u[1..], t[1..]);
      PrependChoice(s, t, j, rest);
      [j] + rest
  }

  lemma PrependChoice<T>(s: seq<T>, t: seq<T>, j: nat, rest: seq<nat>)
    requires |s| > 1 && |t| == |s| && j < |s| && s[j] == t[0]
    requires Choices(rest, |s| - 1) && Shuffled(Swapped(s, 0, j)[1..], rest) == t[1..]
    ensures Choices([j] + rest, |s|) && Shuffled(s, [j] + rest) == t
  {
    assert ([j] + rest)[1..] == rest;
    assert t == [t[0]] + t[1..];
  }

  lemma TailsMatch<T>(u: seq<T>, t: seq<T>)
    requires u != [] && t != [] && multiset(u) == multiset(t) && u[0] == t[0]
    ensures multiset(u[1..]) == multiset(t[1..])
  {
    HeadAndTail(u);
    HeadAndTail(t);
    assert multiset(u[1..]) == multiset(u) - multiset{u[0]};
    assert multiset(t[1..]) == multiset(t) - multiset{t[0]};
  }

  lemma SameSize<T>(s: seq<T>, t: seq<T>)
    requires multiset(s) == multiset(t)
    ensures |s| == |t|
  {
    assert |multiset(s)| == |s| && |multiset(t)| == |t|;
  }

  lemma SameSingleton<T>(s: seq<T>, t: seq<T>)
    requires multiset(s) == multiset(t) && |s| == |t| <= 1
    ensures s == t
  {
    if |s| == 1 {
      assert s[0] in multiset(t);
      assert s == [s[0]] && t == [t[0]];
    }
  }

  /** Fisher-Yates is a bijection: each permutation of distinct elements comes from exactly one choice sequence. */
  lemma ShuffleIsABijection<T>(s: seq<T>, t: seq<T>, c: seq<nat>)
    requires Distinct(s) && multiset(s) == multiset(t) && Choices(c, |s|)
    ensures Shuffled(s, c) == t <==> c == ChoicesFor(s, t)
  {
    if Shuffled(s, c) == t {
      ShuffledIsInjective(s, c, ChoicesFor(s, t));
    }
  }

  // ---------------------------------------------------------------- in place

  lemma SwapBehindHead<T>(head: T, s: seq<T>, i: nat, j: nat)
    requires i < |s| && j < |s|
    ensures Swapped([head] + s, i + 1, j + 1) == [head] + Swapped(s, i, j)
  {
  }

  /** The next step of the loop swaps at the current index. */
  lemma {:induction false} ShuffledStep<T>(s: seq<T>, c: seq<nat>, x: nat)
    requires FirstChoices(c, |s|) && |c| < StepCount(|s|) && x < |s| - |c|
    ensures FirstChoices(c + [x], |s|)
    ensures Shuffled(s, c + [x]) == Swapped(Shuffled(s, c), |c|, |c| + x)
    decreases |c|
  {
    var d := c + [x];
    if c == [] {
      var t := Swapped(s, 0, x);
      assert Shuffled(t[1..], d[1..]) == t[1..];
      assert t == [t[0]] + t[1..];
    } else {
      var t := Swapped(s, 0, c[0]);
      assert d[1..] == c[1..] + [x];
      ShuffledStep(t[1..], c[1..], x);
      SwapBehindHead(t[0], Shuffled(t[1..], c[1..]), |c| - 1, |c| - 1 + x);
    }
  }

  /** The choices that `steps` successive bounded draws make, and the stream after them. */
  function DrawnChoices(n: nat, steps: nat, stream: seq<UInt32>): Option<(seq<nat>, seq<UInt32>)>
    requires steps <= StepCount(n)
    decreases steps
  {
    if steps == 0 then Some(([], stream))
    else
      var before := DrawnChoices(n, steps - 1, stream);
      if before == None then None
      else
        var (h, rest) := BoundedDraw(WORD_BITS, n - (steps - 1), before.value.1);
        if h == None then None else Some((before.value.0 + [h.value], rest))
  }

  lemma {:induction false} NoneFromThenOn(n: nat, steps: nat, all: nat, stream: seq<UInt32>)
    requires steps <= all <= StepCount(n) && DrawnChoices(n, steps, stream) == None
    ensures DrawnChoices(n, all, stream) == None
    decreases all
  {
    if steps < all {
      NoneFromThenOn(n, steps, all - 1, stream);
    }
  }

  lemma IntHolds(amount: nat)
    requires 0 < amount < 0x8000
    ensures INT.Valid() && INT.Contains(0) && INT.Contains(amount)
  {
    MachineWords();
  }

  /** shuffle(using:). Counts are Ints, so they stay below 2^15. The choice at step k is Int.random(in: 0 ..< n - k);
      false means that the recorded part of the stream ended first. */
  method ShuffleInPlace<T>(a: array<T>, g: Generator) returns (done: bool, ghost choices: seq<nat>)
    requires a.Length < 0x8000
    modifies a, g
    ensures FirstChoices(choices, a.Length) && a[..] == Shuffled(old(a[..]), choices)
    ensures DrawnChoices(a.Length, StepCount(a.Length), old(g.draws)) == if done then Some((choices, g.draws)) else None
    ensures done ==> Choices(choices, a.Length)
  {
    hide Pow2, Shuffled, BoundedDraw;
    choices := [];
    done := true;
    ghost var start, stream := a[..], g.draws;
    NothingYet(start);
    if !(a.Length > 1) {
      return;
    }
    var amount := a.Length;
    var currentIndex := 0;
    while amount > 1
      invariant 1 <= amount && currentIndex == a.Length - amount == |choices|
      invariant FirstChoices(choices, a.Length) && a[..] == Shuffled(start, choices)
      invariant DrawnChoices(a.Length, currentIndex, stream) == Some((choices, g.draws))
    {
      IntHolds(amount);
      var random := InRange(INT, 0, amount, g);
      if random == None {
        NoneFromThenOn(a.Length, currentIndex + 1, StepCount(a.Length), stream);
        done := false;
        return;
      }
      amount := amount - 1;
      ShuffledStep(start, choices, random.value);
      SwapAt(a, currentIndex, currentIndex + random.value);
      choices := choices + [random.value];
      currentIndex := currentIndex + 1;
    }
  }

  lemma NothingYet<T>(s: seq<T>)
    ensures Shuffled(s, []) == s
  {
  }

  // ---------------------------------------------------------------- uniformity

  /** All accepted raw values, step after step, that make the choices c among n, n - 1, ... elements. */
  function RunsFor(n: nat, c: seq<nat>): set<seq<int>>
    requires |c| <= StepCount(n)
    decreases |c|
  {
    if c == [] then {[]}
    else Products(AcceptedFor(WORD_BITS, n, c[0]), RunsFor(n - 1, c[1..]))
  }

  /** How many runs lead to one permutation: the product of the quotients 2^16 / n, 2^16 / (n - 1), ... */
  function RunCount(n: nat): nat
  {
    if n <= 1 then 1
    else
      DivNonNegative(Pow2(WORD_BITS), n);
      MulIncreasing(0, Pow2(WORD_BITS) / n, RunCount(n - 1));
      Pow2(WORD_BITS) / n * RunCount(n - 1)
  }

  function Prefixed(h: int, tails: set<seq<int>>): set<seq<int>>
  {
    set rest | rest in tails :: [h] + rest
  }

  lemma PrefixIsInjective(h: int, t: seq<int>, u: seq<int>)
    requires [h] + t == [h] + u
    ensures t == u
  {
    assert ([h] + t)[1..] == t && ([h] + u)[1..] == u;
  }

  lemma {:induction false} PrefixedSize(h: int, tails: set<seq<int>>)
    ensures |Prefixed(h, tails)| == |tails|
  {
    if tails == {} {
      assert Prefixed(h, tails) == {};
    } else {
      var t :| t in tails;
      PrefixedSize(h, tails - {t});
      assert Prefixed(h, tails) == Prefixed(h, tails - {t}) + {[h] + t};
      forall u | u in tails - {t}
        ensures [h] + u != [h] + t
      {
        if [h] + u == [h] + t {
          PrefixIsInjective(h, u, t);
        }
      }
      assert [h] + t !in Prefixed(h, tails - {t});
    }
  }

  function Products(heads: set<int>, tails: set<seq<int>>): set<seq<int>>
  {
    set raw, rest | raw in heads && rest in tails :: [raw] + rest
  }

  lemma ProductSplit(heads: set<int>, tails: set<seq<int>>, h: int)
    requires h in heads
    ensures Products(heads, tails) == Products(heads - {h}, tails) + Prefixed(h, tails)
    ensures Products(heads - {h}, tails) !! Prefixed(h, tails)
  {
    forall x | x in Products(heads, tails)
      ensures x in Products(heads - {h}, tails) || x in Prefixed(h, tails)
    {
      var raw, rest :| raw in heads && rest in tails && x == [raw] + rest;
      if raw != h {
        assert raw in heads - {h};
      }
    }
    forall x | x in Products(heads - {h}, tails)
      ensures x[0] != h
    {
    }
  }

  lemma {:induction false} ProductSize(heads: set<int>, tails: set<seq<int>>)
    ensures |Products(heads, tails)| == |heads| * |tails|
  {
    if heads == {} {
      assert Products(heads, tails) == {};
    } else {
      hide Products, Prefixed;
      var h := AnyOf(heads);
      ProductSize(heads - {h}, tails);
      PrefixedSize(h, tails);
      ProductSplit(heads, tails, h);
      DisjointSizes(Products(heads - {h}, tails), Prefixed(h, tails));
      SizeWithout(heads, h);
      MulAdd(|heads - {h}|, 1, |tails|);
    }
  }

  lemma SizeWithout<T>(s: set<T>, x: T)
    requires x in s
    ensures |s| == |s - {x}| + 1
  {
  }

  lemma DisjointSizes<T>(a: set<T>, b: set<T>)
    requires a !! b
    ensures |a + b| == |a| + |b|
  {
  }

  /** Exactly uniform: whatever the choices, the same number of accepted raw runs makes them. */
  lemma {:induction false} EveryChoiceIsEquallyLikely(n: nat, c: seq<nat>)
    requires n < 0x8000 && Choices(c, n)
    ensures |RunsFor(n, c)| == RunCount(n)
    decreases n
  {
    hide Pow2, AcceptedFor;
    if n > 1 {
      PowerAboveCount(n);
      DrawIsUnbiased(WORD_BITS, n, c[0]);
      EveryChoiceIsEquallyLikely(n - 1, c[1..]);
      ProductSize(AcceptedFor(WORD_BITS, n, c[0]), RunsFor(n - 1, c[1..]));
    }
  }

  lemma PowerAboveCount(n: nat)
    requires n < 0x8000
    ensures n < Pow2(WORD_BITS)
  {
    MachineWords();
  }

  /** So every permutation of distinct elements is equally likely: the runs that produce it are the runs of its
      one choice sequence, and their number depends on the length alone. */
  lemma ShuffleIsUniform<T>(s: seq<T>, t: seq<T>)
    requires Distinct(s) && multiset(s) == multiset(t) && |s| < 0x8000
    ensures |RunsFor(|s|, ChoicesFor(s, t))| == RunCount(|s|)
    ensures forall c :: Choices(c, |s|) && Shuffled(s, c) == t ==> c == ChoicesFor(s, t)
  {
    EveryChoiceIsEquallyLikely(|s|, ChoicesFor(s, t));
    forall c | Choices(c, |s|) && Shuffled(s, c) == t
      ensures c == ChoicesFor(s, t)
    {
      ShuffleIsABijection(s, t, c);
    }
  }

  // ---------------------------------------------------------------- the draws behind a shuffle

  /** One step first, then the others among one element fewer. */
  lemma {:induction false} DrawnFromTheFront(n: nat, steps: nat, stream: seq<UInt32>)
    requires 0 < steps <= StepCount(n)
    ensures var (h, rest) := BoundedDraw(WORD_BITS, n, stream);
            DrawnChoices(n, steps, stream) ==
            if h == None then None
            else
              var others := DrawnChoices(n - 1, steps - 1, rest);
              if others == None then None else Some(([h.value] + others.value.0, others.value.1))
    decreases steps
  {
    hide BoundedDraw;
    var (h, rest) := BoundedDraw(WORD_BITS, n, stream);
    if steps > 1 {
      DrawnFromTheFront(n, steps - 1, stream);
      var others := DrawnChoices(n - 1, steps - 2, rest);
      if h != None && others != None {
        var (last, end) := BoundedDraw(WORD_BITS, n - (steps - 1), others.value.1);
        if last != None {
          assert [h.value] + others.value.0 + [last.value] == [h.value] + (others.value.0 + [last.value]);
        }
      }
    } else {
      assert DrawnChoices(n, 0, stream) == Some(([], stream));
      if h != None {
        assert [] + [h.value] == [h.value] + [];
      }
    }
  }

  /** The 16-bit raw value of one 32-bit draw. */
  function RawOf(x: UInt32): nat { x % Pow2(WORD_BITS) }

  lemma RawDrawOne(x: UInt32, rest: seq<UInt32>)
    ensures RawDraw(WORD_BITS, [x] + rest) == (Some(RawOf(x)), rest)
  {
    hide Pow2;
    assert ([x] + rest)[..1] == [x] && ([x] + rest)[1..] == rest;
    JoinedOne([x]);
  }

  /** These draws are the raw values of the run, in order, for choices among n, n - 1, ... elements; before
      each of them any number of draws may be rejected. */
  ghost predicate Makes(n: nat, draws: seq<UInt32>, run: seq<int>)
    requires |run| <= StepCount(n)
    decreases |draws|
  {
    if run == [] then draws == []
    else
      && draws != []
      && if Accepted(WORD_BITS, n, RawOf(draws[0])) then run[0] == RawOf(draws[0]) && Makes(n - 1, draws[1..], run[1..])
         else Makes(n, draws[1..], run)
  }

  lemma {:induction false} RunsAreAsLong(n: nat, c: seq<nat>, run: seq<int>)
    requires |c| <= StepCount(n) && run in RunsFor(n, c)
    ensures |run| == |c|
    decreases |c|
  {
    if c != [] {
      RunsAreAsLong(n - 1, c[1..], run[1..]);
    }
  }

  /** Whatever draws make a run for the choices c, the shuffle makes exactly these choices and uses exactly
      these draws. */
  lemma {:induction false} RunMakesChoices(n: nat, c: seq<nat>, run: seq<int>, draws: seq<UInt32>, rest: seq<UInt32>)
    requires |c| <= StepCount(n) && run in RunsFor(n, c) && |run| == |c| && Makes(n, draws, run)
    ensures DrawnChoices(n, |c|, draws + rest) == Some((c, rest))
    decreases |draws|
  {
    hide Pow2, BoundedDraw, Accepted, Result, RawOf;
    if c == [] {
      assert draws + rest == rest;
    } else {
      var x, others := draws[0], draws[1..] + rest;
      assert draws + rest == [x] + others;
      RawDrawOne(x, others);
      BoundedDrawStep(WORD_BITS, n, draws + rest);
      DrawnFromTheFront(n, |c|, draws + rest);
      if Accepted(WORD_BITS, n, RawOf(x)) {
        RunMakesChoices(n - 1, c[1..], run[1..], draws[1..], rest);
        assert [c[0]] + c[1..] == c;
      } else {
        RunMakesChoices(n, c, run, draws[1..], rest);
        DrawnFromTheFront(n, |c|, others);
      }
    }
  }

  /** And whenever the shuffle makes the choices c, its draws made a run for c. */
  lemma {:induction false} ChoicesComeFromRun(n: nat, c: seq<nat>, stream: seq<UInt32>, rest: seq<UInt32>)
    returns (draws: seq<UInt32>, run: seq<int>)
    requires |c| <= StepCount(n) && DrawnChoices(n, |c|, stream) == Some((c, rest))
    ensures stream == draws + rest
    ensures |run| == |c| && run in RunsFor(n, c) && Makes(n, draws, run)
    decreases |stream|
  {
    hide Pow2, BoundedDraw, Accepted, Result, RawOf;
    if c == [] {
      draws, run := [], [];
    } else {
      DrawnFromTheFront(n, |c|, stream);
      BoundedDrawStep(WORD_BITS, n, stream);
      var x, others := stream[0], stream[1..];
      assert stream == [x] + others;
      RawDrawOne(x, others);
      if Accepted(WORD_BITS, n, RawOf(x)) {
        draws, run := ChoicesComeFromRun(n - 1, c[1..], others, rest);
        draws, run := [x] + draws, [RawOf(x)] + run;
      } else {
        DrawnFromTheFront(n, |c|, others);
        draws, run := ChoicesComeFromRun(n, c, others, rest);
        draws := [x] + draws;
      }
    }
  }
}
