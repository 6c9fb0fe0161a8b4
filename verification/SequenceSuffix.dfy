/** suffix(_:) and dropLast(_:) of a single-pass sequence, which keep the last elements in a ring buffer.
    A sequence is its elements and the underestimatedCount it announces. */
module SequenceSuffix {
  import opened Optionals
  import opened ArrayBuffer

  function Min(a: nat, b: nat): nat { if a < b then a else b }

  /** The ring read from its oldest element on. */
  function Unrolled<T>(ring: seq<T>, i: nat): seq<T>
    requires i <= |ring|
  {
    ring[i..] + ring[..i]
  }

  /** Overwriting the oldest element and stepping on drops it and appends the new one. */
  lemma RingStep<T>(ring: seq<T>, i: nat, x: T)
    requires i < |ring|
    ensures Unrolled(ring[i := x], (i + 1) % |ring|) == Unrolled(ring, i)[1..] + [x]
  {
    if i + 1 == |ring| {
      assert (i + 1) % |ring| == 0;
    } else {
      assert (i + 1) % |ring| == i + 1;
    }
  }

  /** Live slots with these values. */
  function Filled<T>(s: seq<T>): (r: seq<Slot<T>>)
    ensures |r| == |s|
    ensures forall i :: 0 <= i < |s| ==> r[i] == Live(s[i])
  {
    seq(|s|, i requires 0 <= i < |s| => Live(s[i]))
  }

  lemma FilledAppend<T>(a: seq<T>, x: T)
    ensures Filled(a) + [Live(x)] == Filled(a + [x])
  {
  }

  /** What the ring holds after m elements. */
  ghost predicate RingHolds<T>(ring: seq<Slot<T>>, s: seq<T>, m: nat, k: nat, count: nat, i: nat)
  {
    && m <= |s| && count == Min(m, k) <= |ring|
    && (if m < k then i == 0 && ring[..m] == Filled(s[..m])
        else |ring| == k && i < k && Unrolled(ring, i) == Filled(s[m - k..m]))
  }

  lemma RingFills<T>(ring: seq<Slot<T>>, s: seq<T>, m: nat, k: nat, count: nat, i: nat)
    requires RingHolds(ring, s, m, k, count, i) && m < |s| && count < k
    requires |ring| <= k && count < |ring|
    ensures RingHolds(ring[count := Live(s[m])], s, m + 1, k, count + 1, i)
  {
    var ring' := ring[count := Live(s[m])];
    FilledAppend(s[..m], s[m]);
    assert s[..m] + [s[m]] == s[..m + 1];
    assert ring'[..m + 1] == ring[..m] + [Live(s[m])];
    if m + 1 == k {
      assert ring'[..k] == ring' == Unrolled(ring', 0);
    }
  }

  lemma RingTurns<T>(ring: seq<Slot<T>>, s: seq<T>, m: nat, k: nat, count: nat, i: nat)
    requires RingHolds(ring, s, m, k, count, i) && m < |s| && 0 < k && count == k
    ensures i < |ring| == k
    ensures RingHolds(ring[i := Live(s[m])], s, m + 1, k, count, (i + 1) % k)
  {
    RingStep(ring, i, Live(s[m]));
    FilledAppend(s[m - k + 1..m], s[m]);
    assert s[m - k + 1..m] + [s[m]] == s[m + 1 - k..m + 1];
    assert Filled(s[m - k..m])[1..] == Filled(s[m - k + 1..m]);
  }

  /** suffix(_:) — None is the out-of-bounds trap of the ring buffer's subscript. */
  method Suffix<T>(s: seq<T>, underestimatedCount: nat, maxLength: nat) returns (r: Option<array<Slot<T>>>)
    requires underestimatedCount <= |s|
    ensures r.Some? <==> maxLength <= underestimatedCount || underestimatedCount == |s|
    ensures r.Some? ==> r.value[..] == Filled(s[|s| - Min(maxLength, |s|)..])
  {
    hide RingHolds;
    if maxLength == 0 {
      var empty := new Slot<T>[0];
      return Some(empty);
    }
    var ringBufferCapacity := Min(maxLength, underestimatedCount);
    var ringBuffer := new Slot<T>[ringBufferCapacity](_ => Uninitialized);
    var i: nat := 0;
    var ringBufferCount: nat := 0;
    RingBegins(ringBuffer[..], s, maxLength);
    for m := 0 to |s|
      invariant RingHolds(ringBuffer[..], s, m, maxLength, ringBufferCount, i)
    {
      RingCount(ringBuffer[..], s, m, maxLength, ringBufferCount, i);
      if ringBufferCount < maxLength {
        if ringBufferCount >= ringBuffer.Length {
          return None;
        }
        RingFills(ringBuffer[..], s, m, maxLength, ringBufferCount, i);
        ghost var before := ringBuffer[..];
        ringBuffer[ringBufferCount] := Live(s[m]);
        assert ringBuffer[..] == before[ringBufferCount := Live(s[m])];
        ringBufferCount := ringBufferCount + 1;
      } else {
        RingTurns(ringBuffer[..], s, m, maxLength, ringBufferCount, i);
        ghost var before := ringBuffer[..];
        ringBuffer[i] := Live(s[m]);
        assert ringBuffer[..] == before[i := Live(s[m])];
        i := (i + 1) % maxLength;
      }
    }
    RingEnds(ringBuffer[..], s, maxLength, ringBufferCount, i);
    if i != 0 {
      var rotated := Rotated(ringBuffer, i);
      r := Some(rotated);
    } else {
      assert ringBuffer[..] == Unrolled(ringBuffer[..], 0);
      r := Some(ringBuffer);
    }
  }

  /** One element whose count is underestimated by one: asking for the last element writes past the ring. */
  method SuffixTraps<T>(x: T) returns (r: Option<array<Slot<T>>>)
    ensures r == None
  {
    r := Suffix([x], 0, 1);
  }

  /** The reordered copy, oldest element first. */
  method Rotated<T>(ringBuffer: array<Slot<T>>, i: nat) returns (rotated: array<Slot<T>>)
    requires i <= ringBuffer.Length
    ensures fresh(rotated) && rotated[..] == Unrolled(ringBuffer[..], i)
  {
    rotated := new Slot<T>[ringBuffer.Length](_ => Uninitialized);
    var rotatedIndex := 0;
    for j := i to ringBuffer.Length
      invariant rotatedIndex == j - i
      invariant forall k :: 0 <= k < rotatedIndex ==> rotated[k] == ringBuffer[i + k]
    {
      rotated[rotatedIndex] := ringBuffer[j];
      rotatedIndex := rotatedIndex + 1;
    }
    ghost var front := ringBuffer.Length - i;
    for j := 0 to i
      invariant rotatedIndex == front + j
      invariant forall k :: 0 <= k < front ==> rotated[k] == ringBuffer[i + k]
      invariant forall k :: 0 <= k < j ==> rotated[front + k] == ringBuffer[k]
    {
      rotated[rotatedIndex] := ringBuffer[j];
      rotatedIndex := rotatedIndex + 1;
    }
    forall k | 0 <= k < ringBuffer.Length
      ensures rotated[k] == Unrolled(ringBuffer[..], i)[k]
    {
      if k >= front {
        assert rotated[front + (k - front)] == ringBuffer[k - front];
      }
    }
    assert rotated[..] == Unrolled(ringBuffer[..], i);
  }

  lemma RingBegins<T>(ring: seq<Slot<T>>, s: seq<T>, k: nat)
    requires k > 0
    ensures RingHolds(ring, s, 0, k, 0, 0)
  {
  }

  lemma RingCount<T>(ring: seq<Slot<T>>, s: seq<T>, m: nat, k: nat, count: nat, i: nat)
    requires RingHolds(ring, s, m, k, count, i)
    ensures count == Min(m, k) && (count == k ==> |ring| == k)
  {
  }

  lemma RingEnds<T>(ring: seq<Slot<T>>, s: seq<T>, k: nat, count: nat, i: nat)
    requires RingHolds(ring, s, |s|, k, count, i) && |ring| <= Min(k, |s|)
    ensures i <= |ring| && Unrolled(ring, i) == Filled(s[|s| - Min(k, |s|)..])
    ensures Min(k, |s|) == |ring|
  {
    if |s| < k {
      assert ring[..|s|] == ring;
      assert s[..|s|] == s;
    }
  }

  /** dropLast(_:) — elements leave the ring for the result as long as the result has room. */
  method DropLast<T>(s: seq<T>, underestimatedCount: nat, k: nat) returns (r: array<Slot<T>>)
    requires underestimatedCount <= |s|
    ensures r[..] == Filled(if k == 0 then s else s[..if underestimatedCount <= k then 0 else underestimatedCount - k])
  {
    hide RingHolds;
    if k == 0 {
      r := new Slot<T>[|s|](j requires 0 <= j < |s| => Live(s[j]));
      assert r[..] == Filled(s);
      return;
    }
    if underestimatedCount <= k {
      r := new Slot<T>[0];
      return;
    }
    var resultBufferCapacity := underestimatedCount - k;
    var result := new Slot<T>[resultBufferCapacity](_ => Uninitialized);
    var ringBuffer := new Slot<T>[k](_ => Uninitialized);
    var i: nat := 0;
    var ringBufferCount: nat := 0;
    var resultCount: nat := 0;
    RingBegins(ringBuffer[..], s, k);
    for m := 0 to |s|
      invariant resultCount == if m < k then 0 else Min(m - k, resultBufferCapacity)
      invariant RingHolds(ringBuffer[..], s, Min(m, resultCount + k), k, ringBufferCount, i)
      invariant result[..resultCount] == Filled(s[..resultCount])
    {
      RingCount(ringBuffer[..], s, Min(m, resultCount + k), k, ringBufferCount, i);
      if ringBufferCount < k {
        RingFills(ringBuffer[..], s, m, k, ringBufferCount, i);
        ghost var before := ringBuffer[..];
        ringBuffer[ringBufferCount] := Live(s[m]);
        assert ringBuffer[..] == before[ringBufferCount := Live(s[m])];
        ringBufferCount := ringBufferCount + 1;
      } else if resultCount < resultBufferCapacity {
        RingTurns(ringBuffer[..], s, m, k, ringBufferCount, i);
        OldestInRing(ringBuffer[..], s, m, k, ringBufferCount, i);
        FilledAppend(s[..resultCount], s[resultCount]);
        assert s[..resultCount] + [s[resultCount]] == s[..resultCount + 1];
        ghost var before, written := ringBuffer[..], result[..resultCount];
        result[resultCount] := ringBuffer[i];
        assert result[..resultCount + 1] == written + [ringBuffer[i]];
        resultCount := resultCount + 1;
        ringBuffer[i] := Live(s[m]);
        assert ringBuffer[..] == before[i := Live(s[m])];
        i := (i + 1) % k;
      }
    }
    assert result[..] == result[..resultCount];
    r := result;
  }

  lemma OldestInRing<T>(ring: seq<Slot<T>>, s: seq<T>, m: nat, k: nat, count: nat, i: nat)
    requires RingHolds(ring, s, m, k, count, i) && 0 < k <= m
    ensures i < |ring| && ring[i] == Live(s[m - k])
  {
    assert Unrolled(ring, i)[0] == ring[i];
  }

  /** dropLast drops exactly the last k elements when the count is exact or there is nothing to keep, and
      otherwise too many. */
  lemma DropLastIsExactWhen<T>(s: seq<T>, underestimatedCount: nat, k: nat)
    requires 0 < k && underestimatedCount <= |s|
    ensures s[..if underestimatedCount <= k then 0 else underestimatedCount - k] == s[..|s| - Min(k, |s|)]
        <==> underestimatedCount == |s| || |s| <= k
  {
    var kept := if underestimatedCount <= k then 0 else underestimatedCount - k;
    assert |s[..kept]| == kept && |s[..|s| - Min(k, |s|)]| == |s| - Min(k, |s|);
  }
}
