/** Lazy filtering of a collection: its iterator, and the base indices it uses as its own. */
module LazyFilter {
  import opened Optionals
  import opened Powers
  import opened IndexSteps

  /** The eagerly filtered sequence. */
  function Filtered<T>(base: seq<T>, p: T -> bool): seq<T>
  {
    if base == [] then [] else (if p(base[0]) then [base[0]] else []) + Filtered(base[1..], p)
  }

  lemma {:induction false} FilteredConcat<T>(a: seq<T>, b: seq<T>, p: T -> bool)
    ensures Filtered(a + b, p) == Filtered(a, p) + Filtered(b, p)
  {
    if a == [] {
      assert a + b == b;
    } else {
      assert (a + b)[0] == a[0] && (a + b)[1..] == a[1..] + b;
      FilteredConcat(a[1..], b, p);
      var first := if p(a[0]) then [a[0]] else [];
      assert first + (Filtered(a[1..], p) + Filtered(b, p)) == (first + Filtered(a[1..], p)) + Filtered(b, p);
    }
  }

  /** Filtering the filtered collection again conjoins the two predicates. */
  lemma {:induction false} FilterOfFilter<T>(base: seq<T>, p: T -> bool, q: T -> bool)
    ensures Filtered(Filtered(base, p), q) == Filtered(base, x => q(x) && p(x))
  {
    if base != [] {
      FilterOfFilter(base[1..], p, q);
      FilteredConcat(if p(base[0]) then [base[0]] else [], Filtered(base[1..], p), q);
    }
  }

  /** How many of the first i elements match. */
  function Rank<T>(base: seq<T>, p: T -> bool, i: nat): nat
    requires i <= |base|
  {
    if i == 0 then 0 else Rank(base, p, i - 1) + if p(base[i - 1]) then 1 else 0
  }

  function Total<T>(base: seq<T>, p: T -> bool): nat { Rank(base, p, |base|) }

  lemma {:induction false} RankIsLength<T>(base: seq<T>, p: T -> bool, i: nat)
    requires i <= |base|
    ensures Rank(base, p, i) == |Filtered(base[..i], p)|
  {
    if i > 0 {
      RankIsLength(base, p, i - 1);
      assert base[..i] == base[..i - 1] + [base[i - 1]];
      FilteredConcat(base[..i - 1], [base[i - 1]], p);
    }
  }

  lemma TotalIsLength<T>(base: seq<T>, p: T -> bool)
    ensures Total(base, p) == |Filtered(base, p)|
  {
    RankIsLength(base, p, |base|);
    assert base[..|base|] == base;
  }

  lemma {:induction false} RankIncreases<T>(base: seq<T>, p: T -> bool, a: nat, b: nat)
    requires a <= b <= |base|
    ensures Rank(base, p, a) <= Rank(base, p, b)
    ensures a < b && p(base[a]) ==> Rank(base, p, a) < Rank(base, p, b)
    decreases b - a
  {
    if a < b {
      assert Rank(base, p, a + 1) == Rank(base, p, a) + if p(base[a]) then 1 else 0;
      RankIncreases(base, p, a + 1, b);
    }
  }

  // ---------------------------------------------------------------- the iterator

  class Iterator<T> {
    var base: seq<T>
    const isIncluded: T -> bool

    /** Everything still to come. */
    function Remaining(): seq<T>
      reads this
    {
      Filtered(base, isIncluded)
    }

    constructor (base: seq<T>, p: T -> bool)
      ensures Remaining() == Filtered(base, p)
    {
      this.base := base;
      isIncluded := p;
    }

    /** next() */
    method Next() returns (element: Option<T>)
      modifies this
      ensures old(Remaining()) == [] ==> element == None && Remaining() == []
      ensures old(Remaining()) != [] ==> element == Some(old(Remaining())[0]) && Remaining() == old(Remaining())[1..]
    {
      while base != []
        invariant Remaining() == old(Remaining())
        decreases |base|
      {
        var n := base[0];
        base := base[1..];
        if isIncluded(n) {
          return Some(n);
        }
      }
      return None;
    }
  }

  // ---------------------------------------------------------------- indices

  /** A base index of a matching element, or the end. */
  predicate Valid<T>(base: seq<T>, p: T -> bool, i: nat)
  {
    i <= |base| && (i < |base| ==> p(base[i]))
  }

  /** The order on valid indices is the order of their ranks; only the end has the highest. */
  lemma OrderIsRankOrder<T>(base: seq<T>, p: T -> bool, i: nat, j: nat)
    requires Valid(base, p, i) && Valid(base, p, j)
    ensures i < j <==> Rank(base, p, i) < Rank(base, p, j)
    ensures i == j <==> Rank(base, p, i) == Rank(base, p, j)
  {
    if i < j {
      RankIncreases(base, p, i, j);
    } else if j < i {
      RankIncreases(base, p, j, i);
    }
  }

  lemma RankBounds<T>(base: seq<T>, p: T -> bool, i: nat)
    requires Valid(base, p, i)
    ensures Rank(base, p, i) <= Total(base, p)
    ensures Rank(base, p, i) == Total(base, p) <==> i == |base|
  {
    RankIncreases(base, p, i, |base|);
  }

  /** The valid index of a rank: with OrderIsRankOrder, an order isomorphism onto 0 ... total. */
  function IndexAt<T>(base: seq<T>, p: T -> bool, rank: nat): (i: nat)
    requires rank <= Total(base, p)
    ensures Valid(base, p, i) && Rank(base, p, i) == rank
  {
    IndexFrom(base, p, rank, 0)
  }

  function IndexFrom<T>(base: seq<T>, p: T -> bool, rank: nat, from: nat): (i: nat)
    requires from <= |base| && Rank(base, p, from) <= rank <= Total(base, p)
    ensures Valid(base, p, i) && Rank(base, p, i) == rank
    decreases |base| - from
  {
    if from == |base| || (p(base[from]) && Rank(base, p, from) == rank) then from
    else IndexFrom(base, p, rank, from + 1)
  }

  /** Subscripting reads the filtered sequence. */
  lemma SubscriptReadsFiltered<T>(base: seq<T>, p: T -> bool, i: nat)
    requires Valid(base, p, i) && i < |base|
    ensures Rank(base, p, i) < |Filtered(base, p)| && Filtered(base, p)[Rank(base, p, i)] == base[i]
  {
    assert base == base[..i] + base[i..];
    FilteredConcat(base[..i], base[i..], p);
    RankIsLength(base, p, i);
  }

  /** startIndex */
  method StartIndex<T>(base: seq<T>, p: T -> bool) returns (index: nat)
    ensures Valid(base, p, index) && Rank(base, p, index) == 0
  {
    index := 0;
    while index != |base| && !p(base[index])
      invariant index <= |base| && Rank(base, p, index) == 0
    {
      index := index + 1;
    }
  }

  /** formIndex(after:) from any base index but the end. */
  method FormIndexAfter<T>(base: seq<T>, p: T -> bool, i: nat) returns (index: nat)
    requires i < |base|
    ensures i < index && Valid(base, p, index) && Rank(base, p, index) == Rank(base, p, i + 1)
  {
    index := i + 1;
    while index != |base| && !p(base[index])
      invariant i < index <= |base| && Rank(base, p, index) == Rank(base, p, i + 1)
    {
      index := index + 1;
    }
  }

  /** formIndex(before:), which needs a matching element before i. */
  method FormIndexBefore<T>(base: seq<T>, p: T -> bool, i: nat) returns (index: nat)
    requires i <= |base| && Rank(base, p, i) > 0
    ensures index < i && Valid(base, p, index) && Rank(base, p, index) == Rank(base, p, i) - 1
  {
    index := i - 1;
    while !p(base[index])
      invariant index < i && Rank(base, p, index + 1) == Rank(base, p, i)
      decreases index
    {
      index := index - 1;
    }
  }

  /** after and before are inverse to each other. */
  method AfterThenBefore<T>(base: seq<T>, p: T -> bool, i: nat) returns (r: nat)
    requires Valid(base, p, i) && i < |base|
    ensures r == i
  {
    var next: nat := FormIndexAfter(base, p, i);
    r := FormIndexBefore(base, p, next);
    OrderIsRankOrder(base, p, r, i);
  }

  method BeforeThenAfter<T>(base: seq<T>, p: T -> bool, i: nat) returns (r: nat)
    requires Valid(base, p, i) && Rank(base, p, i) > 0
    ensures r == i
  {
    var previous: nat := FormIndexBefore(base, p, i);
    r := FormIndexAfter(base, p, previous);
    OrderIsRankOrder(base, p, r, i);
  }

  /** _advanceIndex(_:step:) */
  method AdvanceIndex<T>(base: seq<T>, p: T -> bool, i: nat, step: int) returns (index: nat)
    requires Valid(base, p, i) && step in {-1, 1} && 0 <= Rank(base, p, i) + step <= Total(base, p)
    ensures Valid(base, p, index) && Rank(base, p, index) == Rank(base, p, i) + step
  {
    RankBounds(base, p, i);
    index := i + step;
    while index != |base| && !p(base[index])
      invariant step == 1 ==> index <= |base| && Rank(base, p, index) == Rank(base, p, i) + 1
      invariant step == -1 ==> index < i && Rank(base, p, index + 1) == Rank(base, p, i)
      decreases if step == 1 then |base| - index else index
    {
      index := index + step;
    }
  }

  /** distance(from:to:) */
  method Distance<T>(base: seq<T>, p: T -> bool, start: nat, end: nat) returns (count: int)
    requires Valid(base, p, start) && Valid(base, p, end)
    ensures count == Rank(base, p, end) - Rank(base, p, start)
  {
    var from: nat, to: nat, step;
    if start > end {
      from, to, step := end, start, -1;
    } else {
      from, to, step := start, end, 1;
    }
    ghost var first := from;
    count := 0;
    OrderIsRankOrder(base, p, from, to);
    while from != to
      invariant Valid(base, p, from) && Rank(base, p, from) <= Rank(base, p, to)
      invariant count == step * (Rank(base, p, from) - Rank(base, p, first))
      decreases Rank(base, p, to) - Rank(base, p, from)
    {
      OrderIsRankOrder(base, p, from, to);
      count := count + step;
      from := FormIndexAfter(base, p, from);
    }
  }

  /** index(_:offsetBy:) */
  method IndexOffsetBy<T>(base: seq<T>, p: T -> bool, i: nat, n: int) returns (r: nat)
    requires Valid(base, p, i) && 0 <= Rank(base, p, i) + n <= Total(base, p)
    ensures Valid(base, p, r) && Rank(base, p, r) == Rank(base, p, i) + n
  {
    r := i;
    var step := Signum(n);
    RankBounds(base, p, i);
    for k := 0 to Abs(n)
      invariant Valid(base, p, r) && Rank(base, p, r) == Rank(base, p, i) + Along(n, k)
    {
      r := AdvanceIndex(base, p, r, step);
    }
  }

  /** index(_:offsetBy:limitedBy:) — the caller stays within bounds unless the limit stops it. */
  method IndexOffsetByLimited<T>(base: seq<T>, p: T -> bool, i: nat, n: int, limit: nat) returns (r: Option<nat>)
    requires Valid(base, p, i) && Valid(base, p, limit)
    requires Passes(Rank(base, p, i), n, Rank(base, p, limit)) || 0 <= Rank(base, p, i) + n <= Total(base, p)
    ensures r == None <==> Passes(Rank(base, p, i), n, Rank(base, p, limit))
    ensures r.Some? ==> Valid(base, p, r.value) && Rank(base, p, r.value) == Rank(base, p, i) + n
  {
    var at: nat := i;
    var step := Signum(n);
    RankBounds(base, p, limit);
    RankBounds(base, p, i);
    for k := 0 to Abs(n)
      invariant Valid(base, p, at) && Rank(base, p, at) == Rank(base, p, i) + Along(n, k)
      invariant Passes(Rank(base, p, i), n, Rank(base, p, limit)) <==>
                Passes(Rank(base, p, at), n - Along(n, k), Rank(base, p, limit))
    {
      OrderIsRankOrder(base, p, at, limit);
      if at == limit {
        return None;
      }
      at := AdvanceIndex(base, p, at, step);
    }
    r := Some(at);
  }

  /** formIndex(_:offsetBy:limitedBy:) */
  method FormIndexLimited<T>(base: seq<T>, p: T -> bool, i: nat, n: int, limit: nat) returns (reached: bool, r: nat)
    requires Valid(base, p, i) && Valid(base, p, limit)
    requires Passes(Rank(base, p, i), n, Rank(base, p, limit)) || 0 <= Rank(base, p, i) + n <= Total(base, p)
    ensures reached <==> !Passes(Rank(base, p, i), n, Rank(base, p, limit))
    ensures Valid(base, p, r)
    ensures Rank(base, p, r) == if reached then Rank(base, p, i) + n else Rank(base, p, limit)
  {
    var advanced: Option<nat> := IndexOffsetByLimited(base, p, i, n, limit);
    if advanced.Some? {
      return true, advanced.value;
    }
    return false, limit;
  }

  /** Offsets add up, whatever their signs. */
  method OffsetsCompose<T>(base: seq<T>, p: T -> bool, i: nat, m: int, n: int) returns (inSteps: nat, atOnce: nat)
    requires Valid(base, p, i)
    requires 0 <= Rank(base, p, i) + m <= Total(base, p) && 0 <= Rank(base, p, i) + m + n <= Total(base, p)
    ensures inSteps == atOnce
  {
    inSteps := IndexOffsetBy(base, p, i, m);
    inSteps := IndexOffsetBy(base, p, inSteps, n);
    atOnce := IndexOffsetBy(base, p, i, m + n);
    OrderIsRankOrder(base, p, inSteps, atOnce);
  }

  /** Iterating to nil delivers the filtered sequence. */
  method Iterated<T>(base: seq<T>, p: T -> bool) returns (all: seq<T>)
    ensures all == Filtered(base, p)
  {
    all := [];
    var elements := new Iterator(base, p);
    var element := elements.Next();
    while element != None
      invariant all + (if element.Some? then [element.value] else []) + elements.Remaining() == Filtered(base, p)
      invariant element == None ==> elements.Remaining() == []
      decreases |elements.Remaining()|, element.Some?
    {
      all := all + [element.value];
      element := elements.Next();
    }
  }

  /** Walking the indices from startIndex to endIndex delivers the same. */
  method Indexed<T>(base: seq<T>, p: T -> bool) returns (all: seq<T>)
    ensures all == Filtered(base, p)
  {
    hide Filtered;
    TotalIsLength(base, p);
    all := [];
    var i: nat := StartIndex(base, p);
    while i != |base|
      invariant Valid(base, p, i) && Rank(base, p, i) <= |Filtered(base, p)|
      invariant all == Filtered(base, p)[..Rank(base, p, i)]
    {
      RankBounds(base, p, i);
      SubscriptReadsFiltered(base, p, i);
      all := all + [base[i]];
      i := FormIndexAfter(base, p, i);
    }
  }
}
