/** The two in-place partitions of a mutable collection. */
module Partition {
  import opened MutableCollection

  /** The elements that fail the predicate, in order. */
  function Failing<T>(s: seq<T>, p: T -> bool): (r: seq<T>)
    ensures |r| <= |s|
  {
    if s == [] then []
    else Failing(s[..|s| - 1], p) + if p(s[|s| - 1]) then [] else [s[|s| - 1]]
  }

  lemma FailingStep<T>(s: seq<T>, p: T -> bool, k: nat)
    requires k < |s|
    ensures Failing(s[..k + 1], p) == Failing(s[..k], p) + if p(s[k]) then [] else [s[k]]
  {
    assert s[..k + 1][..k] == s[..k];
  }

  lemma {:induction false} FailingAppend<T>(a: seq<T>, b: seq<T>, p: T -> bool)
    ensures Failing(a + b, p) == Failing(a, p) + Failing(b, p)
  {
    if b == [] {
      assert a + b == a;
    } else {
      var n := |b| - 1;
      FailingAppend(a, b[..n], p);
      assert (a + b)[..|a + b| - 1] == a + b[..n];
    }
  }

  lemma FailingFront<T>(s: seq<T>, p: T -> bool, k: nat)
    requires k < |s|
    ensures |Failing(s[k..], p)| == |Failing(s[k + 1..], p)| + if p(s[k]) then 0 else 1
  {
    assert s[k..] == [s[k]] + s[k + 1..];
    FailingAppend([s[k]], s[k + 1..], p);
    assert [s[k]][..0] == [];
  }

  lemma {:induction false} AllFailing<T>(s: seq<T>, p: T -> bool)
    requires forall k :: 0 <= k < |s| ==> !p(s[k])
    ensures Failing(s, p) == s
  {
    if s != [] {
      AllFailing(s[..|s| - 1], p);
      assert s == s[..|s| - 1] + [s[|s| - 1]];
    }
  }

  /** The elements before the pivot fail the predicate, the others satisfy it. */
  ghost predicate Split<T>(s: seq<T>, p: T -> bool, pivot: nat)
  {
    && pivot <= |s|
    && (forall k :: 0 <= k < pivot ==> !p(s[k]))
    && (forall k :: pivot <= k < |s| ==> p(s[k]))
  }

  // ---------------------------------------------------------------- half-stable

  /** firstIndex(where:) */
  method FirstIndex<T>(a: array<T>, p: T -> bool) returns (i: nat)
    ensures i <= a.Length
    ensures forall k :: 0 <= k < i ==> !p(a[k])
    ensures i < a.Length ==> p(a[i])
  {
    i := 0;
    while i != a.Length
      invariant i <= a.Length
      invariant forall k :: 0 <= k < i ==> !p(a[k])
    {
      if p(a[i]) {
        return;
      }
      i := i + 1;
    }
  }

  /** Behind the failing elements seen so far lie the satisfying ones, and from j on nothing has moved. */
  ghost predicate HalfDone<T>(start: seq<T>, now: seq<T>, p: T -> bool, i: nat, j: nat)
  {
    && i <= j <= |start| == |now|
    && now[..i] == Failing(start[..j], p)
    && (forall k :: 0 <= k < i ==> !p(now[k]))
    && (forall k :: i <= k < j ==> p(now[k]))
    && (forall k :: j <= k < |now| ==> now[k] == start[k])
    && multiset(now) == multiset(start)
  }

  lemma HalfBegin<T>(start: seq<T>, p: T -> bool, i: nat)
    requires i <= |start| && (forall k :: 0 <= k < i ==> !p(start[k]))
    ensures HalfDone(start, start, p, i, i)
  {
    AllFailing(start[..i], p);
  }

  lemma HalfStep<T>(start: seq<T>, now: seq<T>, p: T -> bool, i: nat, j: nat)
    requires HalfDone(start, now, p, i, j) && i <= j < |now|
    ensures p(now[j]) ==> HalfDone(start, now, p, i, j + 1)
    ensures !p(now[j]) ==> HalfDone(start, Swapped(now, i, j), p, i + 1, j + 1)
  {
    FailingStep(start, p, j);
    if !p(now[j]) {
      SwapKeepsElements(now, i, j);
      assert Swapped(now, i, j)[..i + 1] == now[..i] + [now[j]];
    }
  }

  lemma HalfEnd<T>(start: seq<T>, now: seq<T>, p: T -> bool, i: nat)
    requires HalfDone(start, now, p, i, |start|)
    ensures Split(now, p, i) && now[..i] == Failing(start, p) && multiset(now) == multiset(start)
  {
    assert start[..|start|] == start;
  }

  /** _halfStablePartition(isSuffixElement:) — the first part keeps the failing elements in their old order. */
  method HalfStablePartition<T>(a: array<T>, p: T -> bool) returns (pivot: nat)
    modifies a
    ensures Split(a[..], p, pivot)
    ensures a[..pivot] == Failing(old(a[..]), p)
    ensures multiset(a[..]) == multiset(old(a[..]))
  {
    hide HalfDone;
    ghost var start := a[..];
    var i: nat := FirstIndex(a, p);
    HalfBegin(start, p, i);
    if i == a.Length {
      HalfEnd(start, a[..], p, i);
      return i;
    }
    HalfStep(start, a[..], p, i, i);
    var j := i + 1;
    while j != a.Length
      invariant i < j <= a.Length
      invariant HalfDone(start, a[..], p, i, j)
    {
      HalfStep(start, a[..], p, i, j);
      if !p(a[j]) {
        SwapAt(a, i, j);
        i := i + 1;
      }
      j := j + 1;
    }
    HalfEnd(start, a[..], p, i);
    return i;
  }

  // ---------------------------------------------------------------- from both ends

  /** How many of the first elements are on the wrong side. */
  function Misplaced<T>(s: seq<T>, p: T -> bool, pivot: nat): nat
    requires pivot <= |s|
  {
    pivot - |Failing(s[..pivot], p)|
  }

  /** The ends are settled, the middle is untouched, and each swap so far paired one misplaced element of the
      front with one of the back. */
  ghost predicate Ends<T>(start: seq<T>, now: seq<T>, p: T -> bool, lo: nat, hi: nat, swaps: nat)
  {
    && lo <= hi <= |start| == |now|
    && (forall k :: 0 <= k < lo ==> !p(now[k]))
    && (forall k :: hi <= k < |now| ==> p(now[k]))
    && (forall k :: lo <= k < hi ==> now[k] == start[k])
    && multiset(now) == multiset(start)
    && lo - |Failing(start[..lo], p)| == swaps == |Failing(start[hi..], p)|
  }

  lemma EndsBegin<T>(start: seq<T>, p: T -> bool)
    ensures Ends(start, start, p, 0, |start|, 0)
  {
  }

  lemma EndsForward<T>(start: seq<T>, now: seq<T>, p: T -> bool, lo: nat, hi: nat, swaps: nat)
    requires Ends(start, now, p, lo, hi, swaps) && lo < hi && !p(now[lo])
    ensures Ends(start, now, p, lo + 1, hi, swaps)
  {
    FailingStep(start, p, lo);
  }

  lemma EndsBackward<T>(start: seq<T>, now: seq<T>, p: T -> bool, lo: nat, hi: nat, swaps: nat)
    requires Ends(start, now, p, lo, hi, swaps) && lo < hi && p(now[hi - 1])
    ensures Ends(start, now, p, lo, hi - 1, swaps)
  {
    FailingFront(start, p, hi - 1);
  }

  lemma EndsSwap<T>(start: seq<T>, now: seq<T>, p: T -> bool, lo: nat, hi: nat, swaps: nat)
    requires Ends(start, now, p, lo, hi + 1, swaps) && lo < hi && p(now[lo]) && !p(now[hi])
    ensures Ends(start, Swapped(now, lo, hi), p, lo + 1, hi, swaps + 1)
  {
    FailingStep(start, p, lo);
    FailingFront(start, p, hi);
    SwapKeepsElements(now, lo, hi);
  }

  lemma EndsMeet<T>(start: seq<T>, now: seq<T>, p: T -> bool, pivot: nat, swaps: nat)
    requires Ends(start, now, p, pivot, pivot, swaps)
    ensures Split(now, p, pivot) && multiset(now) == multiset(start)
    ensures pivot == |Failing(start, p)| && swaps == Misplaced(start, p, pivot)
  {
    assert start[..pivot] + start[pivot..] == start;
    FailingAppend(start[..pivot], start[pivot..], p);
  }

  /** _partitionImpl(by:) — one swap for each misplaced element of the first part. */
  method PartitionTwoEnded<T>(a: array<T>, p: T -> bool) returns (pivot: nat, ghost swaps: nat)
    modifies a
    ensures Split(a[..], p, pivot)
    ensures pivot == |Failing(old(a[..]), p)|
    ensures multiset(a[..]) == multiset(old(a[..]))
    ensures swaps == Misplaced(old(a[..]), p, pivot)
  {
    hide Ends, Failing, Swapped, Split, Misplaced;
    ghost var start := a[..];
    var lo: nat := 0;
    var hi: nat := a.Length;
    swaps := 0;
    EndsBegin(start, p);
    label Loop:
    while true
      invariant lo <= hi <= a.Length && Ends(start, a[..], p, lo, hi, swaps)
      decreases hi - lo
    {
      label FindLo: {
        while lo < hi
          invariant lo <= hi && Ends(start, a[..], p, lo, hi, swaps)
        {
          if p(a[lo]) {
            break FindLo;
          }
          EndsForward(start, a[..], p, lo, hi, swaps);
          lo := lo + 1;
        }
        break Loop;
      }
      label FindHi: {
        hi := hi - 1;
        while lo < hi
          invariant lo <= hi < a.Length && p(a[lo]) && Ends(start, a[..], p, lo, hi + 1, swaps)
        {
          if !p(a[hi]) {
            break FindHi;
          }
          EndsBackward(start, a[..], p, lo, hi + 1, swaps);
          hi := hi - 1;
        }
        EndsBackward(start, a[..], p, lo, hi + 1, swaps);
        break Loop;
      }
      EndsSwap(start, a[..], p, lo, hi, swaps);
      SwapAt(a, lo, hi);
      swaps := swaps + 1;
      lo := lo + 1;
    }
    EndsMeet(start, a[..], p, lo, swaps);
    pivot := lo;
  }
}
