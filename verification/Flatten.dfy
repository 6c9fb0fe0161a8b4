/** Lazy flattening of a collection of collections: its iterator, and its two-level indices. */
module Flatten {
  import opened Optionals
  import opened Powers
  import opened IndexSteps

  /** All elements of all inner collections, in order. */
  function Concat<T>(base: seq<seq<T>>): seq<T>
  {
    if base == [] then [] else base[0] + Concat(base[1..])
  }

  /** How many elements lie in the first `outer` inner collections. */
  function Offset<T>(base: seq<seq<T>>, outer: nat): nat
    requires outer <= |base|
  {
    if outer == 0 then 0 else |base[0]| + Offset(base[1..], outer - 1)
  }

  lemma {:induction false} OffsetStep<T>(base: seq<seq<T>>, outer: nat)
    requires outer < |base|
    ensures Offset(base, outer + 1) == Offset(base, outer) + |base[outer]|
  {
    if outer > 0 {
      OffsetStep(base[1..], outer - 1);
    }
  }

  lemma {:induction false} OffsetIncreases<T>(base: seq<seq<T>>, a: nat, b: nat)
    requires a <= b <= |base|
    ensures Offset(base, a) <= Offset(base, b)
    decreases b - a
  {
    if a < b {
      OffsetStep(base, a);
      OffsetIncreases(base, a + 1, b);
    }
  }

  lemma {:induction false} ConcatAt<T>(base: seq<seq<T>>, outer: nat, inner: nat)
    requires outer < |base| && inner < |base[outer]|
    ensures Offset(base, outer) + inner < |Concat(base)|
    ensures Concat(base)[Offset(base, outer) + inner] == base[outer][inner]
  {
    if outer > 0 {
      ConcatAt(base[1..], outer - 1, inner);
    }
  }

  function Total<T>(base: seq<seq<T>>): nat { Offset(base, |base|) }

  lemma {:induction false} TotalIsLength<T>(base: seq<seq<T>>)
    ensures |Concat(base)| == Total(base)
  {
    if base != [] {
      TotalIsLength(base[1..]);
    }
  }

  // ---------------------------------------------------------------- the iterator

  /** FlattenSequence.Iterator: what the outer iterator will still deliver, and what the current inner one will. */
  class Iterator<T> {
    var base: seq<seq<T>>
    var inner: Option<seq<T>>

    /** Everything still to come. */
    function Remaining(): seq<T>
      reads this
    {
      (if inner.Some? then inner.value else []) + Concat(base)
    }

    constructor (base: seq<seq<T>>)
      ensures Remaining() == Concat(base)
    {
      this.base := base;
      inner := None;
    }

    /** next() — moves to the next inner iterator as often as the current one is exhausted. */
    method Next() returns (element: Option<T>)
      modifies this
      ensures old(Remaining()) == [] ==> element == None && Remaining() == []
      ensures old(Remaining()) != [] ==> element == Some(old(Remaining())[0]) && Remaining() == old(Remaining())[1..]
    {
      while true
        invariant Remaining() == old(Remaining())
        decreases |base|
      {
        if inner != None && inner.value != [] {
          element := Some(inner.value[0]);
          inner := Some(inner.value[1..]);
          return;
        }
        if base == [] {
          return None;
        }
        inner, base := Some(base[0]), base[1..];
      }
    }
  }

  // ---------------------------------------------------------------- indices

  datatype Index = Index(outer: nat, inner: Option<nat>)

  /** An index into a non-empty inner collection, or the end: inner is nil exactly there. */
  predicate Valid<T>(base: seq<seq<T>>, i: Index)
  {
    if i.inner.Some? then i.outer < |base| && i.inner.value < |base[i.outer]| else i.outer == |base|
  }

  function EndIndex<T>(base: seq<seq<T>>): Index { Index(|base|, None) }

  /** The place of a valid index among all of them. */
  function Position<T>(base: seq<seq<T>>, i: Index): nat
    requires Valid(base, i)
  {
    Offset(base, i.outer) + if i.inner.Some? then i.inner.value else 0
  }

  lemma PositionBounds<T>(base: seq<seq<T>>, i: Index)
    requires Valid(base, i)
    ensures i.inner.Some? ==> Offset(base, i.outer) <= Position(base, i) < Offset(base, i.outer + 1)
    ensures Position(base, i) <= Total(base)
    ensures Position(base, i) == Total(base) <==> i == EndIndex(base)
  {
    if i.inner.Some? {
      OffsetStep(base, i.outer);
      OffsetIncreases(base, i.outer + 1, |base|);
    }
  }

  /** Index < compares outer indices, then inner ones; at the end both inner ones are nil. */
  predicate IndexLess(i: Index, j: Index)
  {
    if i.outer != j.outer then i.outer < j.outer
    else if i.inner.Some? && j.inner.Some? then i.inner.value < j.inner.value
    else false
  }

  /** The order on valid indices is the order of their positions, so equal positions mean equal indices. */
  lemma OrderIsPositionOrder<T>(base: seq<seq<T>>, i: Index, j: Index)
    requires Valid(base, i) && Valid(base, j)
    ensures IndexLess(i, j) <==> Position(base, i) < Position(base, j)
    ensures i == j <==> Position(base, i) == Position(base, j)
  {
    PositionBounds(base, i);
    PositionBounds(base, j);
    if i.outer < j.outer {
      OffsetIncreases(base, i.outer + 1, j.outer);
    } else if j.outer < i.outer {
      OffsetIncreases(base, j.outer + 1, i.outer);
    }
  }

  /** The index at a position: with OrderIsPositionOrder, an order isomorphism onto 0 ... total. */
  function IndexAt<T>(base: seq<seq<T>>, position: nat): (i: Index)
    requires position <= Total(base)
    ensures Valid(base, i) && Position(base, i) == position
  {
    if base == [] then EndIndex(base)
    else if position < |base[0]| then Index(0, Some(position))
    else
      var i := IndexAt(base[1..], position - |base[0]|);
      Index(i.outer + 1, i.inner)
  }

  /** Subscripting reads the concatenation. */
  lemma SubscriptReadsConcat<T>(base: seq<seq<T>>, i: Index)
    requires Valid(base, i) && i != EndIndex(base)
    ensures Position(base, i) < |Concat(base)| && base[i.outer][i.inner.value] == Concat(base)[Position(base, i)]
  {
    ConcatAt(base, i.outer, i.inner.value);
  }

  /** The first index at or after the start of an inner collection: skips the empty ones. */
  method FirstFrom<T>(base: seq<seq<T>>, from: nat) returns (i: Index)
    requires from <= |base|
    ensures Valid(base, i) && Position(base, i) == Offset(base, from)
  {
    var outer := from;
    while outer != |base|
      invariant from <= outer <= |base| && Offset(base, outer) == Offset(base, from)
    {
      if base[outer] != [] {
        return Index(outer, Some(0));
      }
      OffsetStep(base, outer);
      outer := outer + 1;
    }
    return EndIndex(base);
  }

  /** startIndex */
  method StartIndex<T>(base: seq<seq<T>>) returns (i: Index)
    ensures Valid(base, i) && Position(base, i) == 0
  {
    i := FirstFrom(base, 0);
  }

  /** _index(after:) */
  method IndexAfter<T>(base: seq<seq<T>>, i: Index) returns (r: Index)
    requires Valid(base, i) && i != EndIndex(base)
    ensures Valid(base, r) && Position(base, r) == Position(base, i) + 1
  {
    var nextInner := i.inner.value + 1;
    if nextInner != |base[i.outer]| {
      return Index(i.outer, Some(nextInner));
    }
    OffsetStep(base, i.outer);
    r := FirstFrom(base, i.outer + 1);
  }

  /** _index(before:) */
  method IndexBefore<T>(base: seq<seq<T>>, i: Index) returns (r: Index)
    requires Valid(base, i) && Position(base, i) > 0
    ensures Valid(base, r) && Position(base, r) == Position(base, i) - 1
  {
    var prevOuter: nat := i.outer;
    SomethingBefore(base, i);
    if prevOuter == |base| {
      prevOuter := prevOuter - 1;
      OffsetStep(base, prevOuter);
    }
    var prevInner: nat := if i.inner.Some? then i.inner.value else |base[prevOuter]|;
    while prevInner == 0
      invariant prevOuter < |base| && prevInner <= |base[prevOuter]|
      invariant Offset(base, prevOuter) + prevInner == Position(base, i)
      decreases prevOuter
    {
      OffsetStep(base, prevOuter - 1);
      prevOuter := prevOuter - 1;
      prevInner := |base[prevOuter]|;
    }
    return Index(prevOuter, Some(prevInner - 1));
  }

  lemma SomethingBefore<T>(base: seq<seq<T>>, i: Index)
    requires Valid(base, i) && Position(base, i) > 0
    ensures base != []
  {
  }

  /** after and before are inverse to each other, because both land on the one index of their position. */
  method AfterThenBefore<T>(base: seq<seq<T>>, i: Index) returns (r: Index)
    requires Valid(base, i) && i != EndIndex(base)
    ensures r == i
  {
    var next := IndexAfter(base, i);
    r := IndexBefore(base, next);
    OrderIsPositionOrder(base, r, i);
  }

  method BeforeThenAfter<T>(base: seq<seq<T>>, i: Index) returns (r: Index)
    requires Valid(base, i) && Position(base, i) > 0
    ensures r == i
  {
    var previous := IndexBefore(base, i);
    PositionBounds(base, i);
    PositionBounds(base, previous);
    r := IndexAfter(base, previous);
    OrderIsPositionOrder(base, r, i);
  }

  /** distance(from:to:) */
  method Distance<T>(base: seq<seq<T>>, start: Index, end: Index) returns (count: int)
    requires Valid(base, start) && Valid(base, end)
    ensures count == Position(base, end) - Position(base, start)
  {
    OrderIsPositionOrder(base, end, start);
    var from, to, step;
    if IndexLess(end, start) {
      from, to, step := end, start, -1;
    } else {
      from, to, step := start, end, 1;
    }
    ghost var first := Position(base, from);
    count := 0;
    while from != to
      invariant Valid(base, from) && first <= Position(base, from) <= Position(base, to)
      invariant count == step * (Position(base, from) - first)
      decreases Position(base, to) - Position(base, from)
    {
      OrderIsPositionOrder(base, from, to);
      PositionBounds(base, from);
      PositionBounds(base, to);
      count := count + step;
      from := IndexAfter(base, from);
    }
  }

  /** _advanceIndex(_:step:) */
  method AdvanceIndex<T>(base: seq<seq<T>>, i: Index, step: int) returns (r: Index)
    requires Valid(base, i) && step in {-1, 1} && 0 <= Position(base, i) + step <= Total(base)
    ensures Valid(base, r) && Position(base, r) == Position(base, i) + step
  {
    PositionBounds(base, i);
    if step < 0 {
      r := IndexBefore(base, i);
    } else {
      r := IndexAfter(base, i);
    }
  }

  /** index(_:offsetBy:) */
  method IndexOffsetBy<T>(base: seq<seq<T>>, i: Index, n: int) returns (r: Index)
    requires Valid(base, i) && 0 <= Position(base, i) + n <= Total(base)
    ensures Valid(base, r) && Position(base, r) == Position(base, i) + n
  {
    r := i;
    var step := Signum(n);
    PositionBounds(base, i);
    for k := 0 to Abs(n)
      invariant Valid(base, r) && Position(base, r) == Position(base, i) + Along(n, k)
    {
      r := AdvanceIndex(base, r, step);
    }
  }

  /** index(_:offsetBy:limitedBy:) — the caller stays within bounds unless the limit stops it. */
  method IndexOffsetByLimited<T>(base: seq<seq<T>>, i: Index, n: int, limit: Index) returns (r: Option<Index>)
    requires Valid(base, i) && Valid(base, limit)
    requires Passes(Position(base, i), n, Position(base, limit)) || 0 <= Position(base, i) + n <= Total(base)
    ensures r == None <==> Passes(Position(base, i), n, Position(base, limit))
    ensures r.Some? ==> Valid(base, r.value) && Position(base, r.value) == Position(base, i) + n
  {
    var at := i;
    var step := Signum(n);
    PositionBounds(base, limit);
    for k := 0 to Abs(n)
      invariant Valid(base, at) && Position(base, at) == Position(base, i) + Along(n, k)
      invariant Passes(Position(base, i), n, Position(base, limit)) <==>
                Passes(Position(base, at), n - Along(n, k), Position(base, limit))
    {
      OrderIsPositionOrder(base, at, limit);
      PositionBounds(base, at);
      if at == limit {
        return None;
      }
      at := AdvanceIndex(base, at, step);
    }
    r := Some(at);
  }

  /** formIndex(_:offsetBy:limitedBy:) */
  method FormIndexLimited<T>(base: seq<seq<T>>, i: Index, n: int, limit: Index) returns (reached: bool, r: Index)
    requires Valid(base, i) && Valid(base, limit)
    requires Passes(Position(base, i), n, Position(base, limit)) || 0 <= Position(base, i) + n <= Total(base)
    ensures reached <==> !Passes(Position(base, i), n, Position(base, limit))
    ensures Valid(base, r)
    ensures Position(base, r) == if reached then Position(base, i) + n else Position(base, limit)
  {
    var advanced := IndexOffsetByLimited(base, i, n, limit);
    if advanced.Some? {
      return true, advanced.value;
    }
    return false, limit;
  }

  /** Offsets add up, whatever their signs. */
  method OffsetsCompose<T>(base: seq<seq<T>>, i: Index, m: int, n: int) returns (inSteps: Index, atOnce: Index)
    requires Valid(base, i)
    requires 0 <= Position(base, i) + m <= Total(base) && 0 <= Position(base, i) + m + n <= Total(base)
    ensures inSteps == atOnce
  {
    inSteps := IndexOffsetBy(base, i, m);
    inSteps := IndexOffsetBy(base, inSteps, n);
    atOnce := IndexOffsetBy(base, i, m + n);
    OrderIsPositionOrder(base, inSteps, atOnce);
  }

  /** Iterating to nil delivers the concatenation. */
  method Iterated<T>(base: seq<seq<T>>) returns (all: seq<T>)
    ensures all == Concat(base)
  {
    all := [];
    var elements := new Iterator(base);
    var element := elements.Next();
    while element != None
      invariant all + (if element.Some? then [element.value] else []) + elements.Remaining() == Concat(base)
      invariant element == None ==> elements.Remaining() == []
      decreases |elements.Remaining()|, element.Some?
    {
      all := all + [element.value];
      element := elements.Next();
    }
  }

  /** Walking the indices from startIndex to endIndex delivers the same. */
  method Indexed<T>(base: seq<seq<T>>) returns (all: seq<T>)
    ensures all == Concat(base)
  {
    TotalIsLength(base);
    all := [];
    var i := StartIndex(base);
    while i != EndIndex(base)
      invariant Valid(base, i) && Position(base, i) <= |Concat(base)|
      invariant all == Concat(base)[..Position(base, i)]
      decreases Total(base) - Position(base, i)
    {
      PositionBounds(base, i);
      SubscriptReadsConcat(base, i);
      all := all + [base[i.outer][i.inner.value]];
      i := IndexAfter(base, i);
    }
    PositionBounds(base, i);
  }
}
