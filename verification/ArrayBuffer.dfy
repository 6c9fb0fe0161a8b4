/** replaceSubrange on a contiguous buffer, down to single slots: a slot is live or uninitialized, reading and
    assigning need a live one, initializing needs an uninitialized one. */
module ArrayBuffer {

  datatype Slot<+T> = Uninitialized | Live(value: T)

  // ---------------------------------------------------------------- pointer operations

  /** (p + i).move() */
  method Move<T>(slots: array<Slot<T>>, i: nat) returns (x: T)
    requires i < slots.Length && slots[i].Live?
    modifies slots
    ensures x == old(slots[i].value) && slots[..] == old(slots[..])[i := Uninitialized]
  {
    x := slots[i].value;
    slots[i] := Uninitialized;
  }

  /** (p + i).initialize(to: x) */
  method Initialize<T>(slots: array<Slot<T>>, i: nat, x: T)
    requires i < slots.Length && slots[i] == Uninitialized
    modifies slots
    ensures slots[..] == old(slots[..])[i := Live(x)]
  {
    slots[i] := Live(x);
  }

  /** p[i] = x */
  method Assign<T>(slots: array<Slot<T>>, i: nat, x: T)
    requires i < slots.Length && slots[i].Live?
    modifies slots
    ensures slots[..] == old(slots[..])[i := Live(x)]
  {
    slots[i] := Live(x);
  }

  predicate Inside(i: int, start: int, n: int) { start <= i < start + n }

  /** What a move of n slots leaves behind: the values at the target, nothing in the rest of the source. */
  function Moved<T>(s: seq<Slot<T>>, target: nat, source: nat, n: nat): (r: seq<Slot<T>>)
    requires target + n <= |s| && source + n <= |s|
    ensures |r| == |s|
  {
    seq(|s|, i requires 0 <= i < |s| =>
      if Inside(i, target, n) then s[source + (i - target)]
      else if Inside(i, source, n) then Uninitialized
      else s[i])
  }

  ghost predicate AllLive<T>(s: seq<Slot<T>>, start: nat, n: nat)
  {
    start + n <= |s| && forall i :: start <= i < start + n ==> s[i].Live?
  }

  /** Target slots outside the source hold nothing. */
  ghost predicate Vacant<T>(s: seq<Slot<T>>, target: nat, source: nat, n: nat)
  {
    target + n <= |s| && forall i :: target <= i < target + n && !Inside(i, source, n) ==> s[i] == Uninitialized
  }

  /** One slot further up: the slot to read is still live, and by then the slot to initialize is vacant. */
  lemma MovedUp<T>(s: seq<Slot<T>>, target: nat, source: nat, n: nat, i: nat)
    requires AllLive(s, source, n) && target + n <= |s| && i < n
    requires target < source || target >= source + n
    ensures var m := Moved(s, target, source, i);
            var cleared := m[source + i := Uninitialized];
            && m[source + i] == s[source + i]
            && (Vacant(s, target, source, n) ==> cleared[target + i] == Uninitialized)
            && (AllLive(s, target, n) && (target + n <= source || source + n <= target) ==> cleared[target + i].Live?)
            && cleared[target + i := s[source + i]] == Moved(s, target, source, i + 1)
  {
  }

  /** One slot further down. */
  lemma MovedDown<T>(s: seq<Slot<T>>, target: nat, source: nat, n: nat, i: nat)
    requires AllLive(s, source, n) && Vacant(s, target, source, n) && 0 < i <= n
    requires source <= target < source + n
    ensures var m := Moved(s, target + i, source + i, n - i);
            var cleared := m[source + (i - 1) := Uninitialized];
            && m[source + (i - 1)] == s[source + (i - 1)]
            && cleared[target + (i - 1)] == Uninitialized
            && cleared[target + (i - 1) := s[source + (i - 1)]] ==
               Moved(s, target + (i - 1), source + (i - 1), n - (i - 1))
  {
  }

  lemma MovedNothing<T>(s: seq<Slot<T>>, target: nat, source: nat)
    requires target <= |s| && source <= |s|
    ensures Moved(s, target, source, 0) == s
  {
  }

  /** moveInitialize(from:count:) — front to back when the target starts below the source or beyond its end,
      back to front otherwise. */
  method MoveInitialize<T>(slots: array<Slot<T>>, target: nat, source: nat, n: nat)
    requires AllLive(slots[..], source, n) && Vacant(slots[..], target, source, n)
    modifies slots
    ensures slots[..] == Moved(old(slots[..]), target, source, n)
  {
    hide Moved, Vacant;
    ghost var before := slots[..];
    VacantFits(before, target, source, n);
    if target < source || target >= source + n {
      MovedNothing(before, target, source);
      for i := 0 to n
        invariant slots[..] == Moved(before, target, source, i)
      {
        MovedUp(before, target, source, n, i);
        var x := Move(slots, source + i);
        Initialize(slots, target + i, x);
      }
    } else {
      MovedNothing(before, target + n, source + n);
      var i := n;
      while i != 0
        invariant 0 <= i <= n && slots[..] == Moved(before, target + i, source + i, n - i)
      {
        MovedDown(before, target, source, n, i);
        i := i - 1;
        var x := Move(slots, source + i);
        Initialize(slots, target + i, x);
      }
    }
  }

  lemma VacantFits<T>(s: seq<Slot<T>>, target: nat, source: nat, n: nat)
    requires Vacant(s, target, source, n)
    ensures target + n <= |s|
  {
  }

  /** moveAssign(from:count:) — over live slots, from a range that does not overlap. */
  method MoveAssign<T>(slots: array<Slot<T>>, target: nat, source: nat, n: nat)
    requires AllLive(slots[..], target, n) && AllLive(slots[..], source, n)
    requires target + n <= source || source + n <= target
    modifies slots
    ensures slots[..] == Moved(old(slots[..]), target, source, n)
  {
    hide Moved;
    ghost var before := slots[..];
    MovedNothing(before, target, source);
    for i := 0 to n
      invariant slots[..] == Moved(before, target, source, i)
    {
      MovedUp(before, target, source, n, i);
      var x := Move(slots, source + i);
      Assign(slots, target + i, x);
    }
  }

  /** deinitialize(count:) */
  method Deinitialize<T>(slots: array<Slot<T>>, start: nat, n: nat)
    requires AllLive(slots[..], start, n)
    modifies slots
    ensures forall i :: 0 <= i < slots.Length ==>
              slots[i] == if Inside(i, start, n) then Uninitialized else old(slots[i])
  {
    for i := 0 to n
      invariant forall k :: 0 <= k < slots.Length ==>
                  slots[k] == if Inside(k, start, i) then Uninitialized else old(slots[k])
    {
      var _ := Move(slots, start + i);
    }
  }

  // ---------------------------------------------------------------- the buffer

  /** The memory of a buffer that holds exactly these elements. */
  ghost predicate HoldsExactly<T>(s: seq<Slot<T>>, elements: seq<T>)
  {
    && |elements| <= |s|
    && (forall i :: 0 <= i < |elements| ==> s[i] == Live(elements[i]))
    && (forall i :: |elements| <= i < |s| ==> s[i] == Uninitialized)
  }

  /** s[..lo] + new + s[hi..] */
  function Replaced<T>(s: seq<T>, lo: nat, hi: nat, new_: seq<T>): seq<T>
    requires lo <= hi <= |s|
  {
    s[..lo] + new_ + s[hi..]
  }

  class Buffer<T> {
    const slots: array<Slot<T>>
    var count: nat

    /** Exactly the first `count` slots are live, and these are their values. */
    ghost predicate Represents(elements: seq<T>)
      reads this, slots
    {
      count == |elements| && HoldsExactly(slots[..], elements)
    }

    constructor (capacity: nat)
      ensures Represents([]) && slots.Length == capacity && fresh(slots)
    {
      slots := new Slot<T>[capacity](_ => Uninitialized);
      count := 0;
    }

    /** replaceSubrange(_:with:elementsOf:) — in place, for a buffer with room for the result. */
    method ReplaceSubrange(lowerBound: nat, upperBound: nat, newCount: nat, newValues: seq<T>, ghost elements: seq<T>)
      requires Represents(elements)
      requires lowerBound <= upperBound <= count && newCount == |newValues|
      requires count + newCount - (upperBound - lowerBound) <= slots.Length
      modifies this`count, slots
      ensures Represents(Replaced(elements, lowerBound, upperBound, newValues))
    {
      hide Moved, Grown, Overwritten, HoldsExactly;
      var oldCount := count;
      var eraseCount := upperBound - lowerBound;
      var growth := newCount - eraseCount;
      count := oldCount + growth;
      var oldTailIndex := upperBound;
      var newTailIndex := oldTailIndex + growth;
      var tailCount := oldCount - upperBound;
      if growth > 0 {
        GrowBegins(slots[..], elements, lowerBound, upperBound, newTailIndex, newValues);
        MoveInitialize(slots, newTailIndex, oldTailIndex, tailCount);
        var i := 0;
        for j := lowerBound to upperBound
          invariant i == j - lowerBound && count == oldCount + growth
          invariant Grown(slots[..], elements, lowerBound, upperBound, newTailIndex, j, newValues)
        {
          GrowStep(slots[..], elements, lowerBound, upperBound, newTailIndex, j, newValues);
          Assign(slots, j, newValues[i]);
          i := i + 1;
        }
        for j := oldTailIndex to newTailIndex
          invariant i == j - lowerBound && count == oldCount + growth
          invariant Grown(slots[..], elements, lowerBound, upperBound, newTailIndex, j, newValues)
        {
          GrowStep(slots[..], elements, lowerBound, upperBound, newTailIndex, j, newValues);
          Initialize(slots, j, newValues[i]);
          i := i + 1;
        }
        GrowEnds(slots[..], elements, lowerBound, upperBound, newTailIndex, newValues);
      } else {
        var i := lowerBound;
        OverwriteBegins(slots[..], elements, lowerBound, newValues);
        for j := 0 to newCount
          invariant i == lowerBound + j && count == oldCount + growth
          invariant Overwritten(slots[..], elements, lowerBound, i, newValues)
        {
          OverwriteStep(slots[..], elements, lowerBound, i, newValues);
          Assign(slots, i, newValues[j]);
          i := i + 1;
        }
        if growth == 0 {
          SameSizeEnds(slots[..], elements, lowerBound, upperBound, newValues);
          return;
        }
        var shrinkage := -growth;
        ghost var overwritten := slots[..];
        ShrinkMoves(overwritten, elements, lowerBound, upperBound, newValues);
        if tailCount > shrinkage {
          MoveAssign(slots, newTailIndex, oldTailIndex, shrinkage);
          MoveInitialize(slots, oldTailIndex, oldTailIndex + shrinkage, tailCount - shrinkage);
          LongTailEnds(overwritten, slots[..], elements, lowerBound, upperBound, newValues);
        } else {
          MoveAssign(slots, newTailIndex, oldTailIndex, tailCount);
          Deinitialize(slots, newTailIndex + tailCount, shrinkage - tailCount);
          ShortTailEnds(overwritten, slots[..], elements, lowerBound, upperBound, newValues);
        }
      }
    }
  }

  // ---------------------------------------------------------------- growing

  /** While growing: the tail is in its new place, the new values reach up to `end`, and the rest of the hole
      behind the old elements is vacant. */
  ghost predicate Grown<T>(s: seq<Slot<T>>, elements: seq<T>, lo: nat, hi: nat, newTail: nat, end: nat, values: seq<T>)
  {
    && lo <= hi <= |elements| && newTail == lo + |values| && hi < newTail && newTail - hi + |elements| <= |s|
    && lo <= end <= newTail
    && (forall k :: 0 <= k < lo ==> s[k] == Live(elements[k]))
    && (forall k :: lo <= k < end ==> s[k] == Live(values[k - lo]))
    && (forall k :: end <= k < hi ==> s[k].Live?)
    && (forall k :: hi <= k < newTail && end <= k ==> s[k] == Uninitialized)
    && (forall k :: newTail <= k < newTail - hi + |elements| ==> s[k] == Live(elements[k - (newTail - hi)]))
    && (forall k :: newTail - hi + |elements| <= k < |s| ==> s[k] == Uninitialized)
  }

  lemma GrowBegins<T>(s: seq<Slot<T>>, elements: seq<T>, lo: nat, hi: nat, newTail: nat, values: seq<T>)
    requires HoldsExactly(s, elements) && lo <= hi <= |elements| && newTail == lo + |values| && hi < newTail
    requires newTail - hi + |elements| <= |s|
    ensures AllLive(s, hi, |elements| - hi) && Vacant(s, newTail, hi, |elements| - hi)
    ensures Grown(Moved(s, newTail, hi, |elements| - hi), elements, lo, hi, newTail, lo, values)
  {
  }

  lemma GrowStep<T>(s: seq<Slot<T>>, elements: seq<T>, lo: nat, hi: nat, newTail: nat, end: nat, values: seq<T>)
    requires Grown(s, elements, lo, hi, newTail, end, values) && end < newTail
    ensures end < |s| && (if end < hi then s[end].Live? else s[end] == Uninitialized)
    ensures Grown(s[end := Live(values[end - lo])], elements, lo, hi, newTail, end + 1, values)
  {
  }

  lemma GrowEnds<T>(s: seq<Slot<T>>, elements: seq<T>, lo: nat, hi: nat, newTail: nat, values: seq<T>)
    requires Grown(s, elements, lo, hi, newTail, newTail, values)
    ensures HoldsExactly(s, Replaced(elements, lo, hi, values))
  {
  }

  // ---------------------------------------------------------------- not growing

  /** While not growing: the new values reach up to `end`, everything else is as it was. */
  ghost predicate Overwritten<T>(s: seq<Slot<T>>, elements: seq<T>, lo: nat, end: nat, values: seq<T>)
  {
    && lo <= end <= |elements| <= |s| && end <= lo + |values|
    && (forall k :: 0 <= k < lo ==> s[k] == Live(elements[k]))
    && (forall k :: lo <= k < end ==> s[k] == Live(values[k - lo]))
    && (forall k :: end <= k < |elements| ==> s[k] == Live(elements[k]))
    && (forall k :: |elements| <= k < |s| ==> s[k] == Uninitialized)
  }

  lemma OverwriteBegins<T>(s: seq<Slot<T>>, elements: seq<T>, lo: nat, values: seq<T>)
    requires HoldsExactly(s, elements) && lo <= |elements|
    ensures Overwritten(s, elements, lo, lo, values)
  {
  }

  lemma OverwriteStep<T>(s: seq<Slot<T>>, elements: seq<T>, lo: nat, end: nat, values: seq<T>)
    requires Overwritten(s, elements, lo, end, values) && end < |elements| && end < lo + |values|
    ensures s[end].Live? && Overwritten(s[end := Live(values[end - lo])], elements, lo, end + 1, values)
  {
  }

  lemma SameSizeEnds<T>(s: seq<Slot<T>>, elements: seq<T>, lo: nat, hi: nat, values: seq<T>)
    requires lo <= hi <= |elements| && |values| == hi - lo && Overwritten(s, elements, lo, hi, values)
    ensures HoldsExactly(s, Replaced(elements, lo, hi, values))
  {
  }

  /** The tail moves down in two parts when it is longer than the gap: the first part over the erased elements,
      the second over the slots that the first has left. */
  lemma ShrinkMoves<T>(s: seq<Slot<T>>, elements: seq<T>, lo: nat, hi: nat, values: seq<T>)
    requires lo <= hi <= |elements| && |values| < hi - lo && Overwritten(s, elements, lo, lo + |values|, values)
    ensures var newTail, tail := lo + |values|, |elements| - hi;
            var gap := hi - newTail;
            var n := if tail > gap then gap else tail;
            && AllLive(s, newTail, n) && AllLive(s, hi, n)
            && (tail > gap ==> AllLive(Moved(s, newTail, hi, n), hi + gap, tail - gap)
                               && Vacant(Moved(s, newTail, hi, n), hi, hi + gap, tail - gap))
            && (tail <= gap ==> AllLive(Moved(s, newTail, hi, n), newTail + tail, gap - tail))
  {
  }

  lemma LongTailEnds<T>(s: seq<Slot<T>>, s': seq<Slot<T>>, elements: seq<T>, lo: nat, hi: nat, values: seq<T>)
    requires lo <= hi <= |elements| && |values| < hi - lo && Overwritten(s, elements, lo, lo + |values|, values)
    requires var newTail, tail := lo + |values|, |elements| - hi;
             var gap := hi - newTail;
             tail > gap && s' == Moved(Moved(s, newTail, hi, gap), hi, hi + gap, tail - gap)
    ensures HoldsExactly(s', Replaced(elements, lo, hi, values))
  {
  }

  lemma ShortTailEnds<T>(s: seq<Slot<T>>, s': seq<Slot<T>>, elements: seq<T>, lo: nat, hi: nat, values: seq<T>)
    requires lo <= hi <= |elements| && |values| < hi - lo && Overwritten(s, elements, lo, lo + |values|, values)
    requires var newTail, tail := lo + |values|, |elements| - hi;
             var gap := hi - newTail;
             && tail <= gap && |s'| == |s|
             && forall i :: 0 <= i < |s| ==> s'[i] == if Inside(i, newTail + tail, gap - tail) then Uninitialized
                                                      else Moved(s, newTail, hi, tail)[i]
    ensures HoldsExactly(s', Replaced(elements, lo, hi, values))
  {
  }
}
