/** The array builder: storage that doubles when it is full, filled slot by slot. */
module ArrayBuilder {
  import opened Optionals
  import opened Powers
  import opened FixedWidth
  import opened ArrayBuffer

  /** The least capacity that a 16-bit Int cannot double. */
  const LARGEST: nat := 0x4000

  /** _growArrayCapacity(_:) */
  function GrowArrayCapacity(capacity: nat): int { INT.Wrap(capacity * 2) }

  /** The product is right exactly below LARGEST; from there on it wraps to a negative number. */
  lemma DoublingIsExactWhen(capacity: nat)
    requires capacity < 0x8000
    ensures GrowArrayCapacity(capacity) == 2 * capacity <==> capacity < LARGEST
    ensures capacity >= LARGEST ==> GrowArrayCapacity(capacity) < 0
  {
    MachineWords();
    if capacity < LARGEST {
      WrapContained(INT, capacity * 2);
    } else {
      ModEqual(capacity * 2 - 0x1_0000, capacity * 2, 0x1_0000, -1);
      WrapUnique(INT, capacity * 2 - 0x1_0000, capacity * 2);
    }
  }

  /** The capacity at which doubling from here must stop. */
  function Reach(capacity: nat): (r: nat)
    requires capacity < 0x8000
    ensures capacity <= r < 0x8000
    ensures LARGEST <= r
    decreases 0x8000 - capacity
  {
    if capacity >= LARGEST then capacity else Reach(Doubled(capacity))
  }

  function Doubled(capacity: nat): nat { if capacity == 0 then 1 else 2 * capacity }

  /** (target + k).initialize(to: (source + k).move()) between two allocations. */
  method MoveInitializeAcross<T>(target: array<Slot<T>>, source: array<Slot<T>>, n: nat, ghost elements: seq<T>)
    requires target != source && n == |elements| <= target.Length && n <= source.Length
    requires HoldsExactly(target[..], []) && HoldsExactly(source[..], elements)
    modifies target, source
    ensures HoldsExactly(target[..], elements) && HoldsExactly(source[..], [])
  {
    for i := 0 to n
      invariant HoldsExactly(target[..], elements[..i])
      invariant forall k :: 0 <= k < source.Length ==>
                  source[k] == if i <= k < n then Live(elements[k]) else Uninitialized
    {
      var x := Move(source, i);
      Initialize(target, i, x);
    }
    assert elements[..n] == elements;
  }

  /** _UnsafePartiallyInitializedContiguousArrayBuffer. `elements` is what has been added, `moves` how many
      elements reallocations have moved. */
  class Builder<T> {
    var result: array<Slot<T>>
    var count: nat
    var p: nat
    var remainingCapacity: int
    ghost var elements: seq<T>
    ghost var moves: nat

    /** The slots written so far are the elements, the room left is exact, and the moves are paid for: none
        without a reallocation, and after one fewer than the capacity, which is less than twice the elements. */
    ghost predicate Valid()
      reads this, result
    {
      && HoldsExactly(result[..], elements)
      && p == |elements|
      && remainingCapacity == result.Length - |elements|
      && (count == 0 <==> result.Length == 0)
      && (moves == 0 || (moves < result.Length && result.Length < 2 * |elements|))
    }

    constructor (initialCapacity: nat)
      ensures Valid() && elements == [] && moves == 0 && fresh(result)
      ensures remainingCapacity == initialCapacity
    {
      result := new Slot<T>[initialCapacity](_ => Uninitialized);
      count := initialCapacity;
      p := 0;
      remainingCapacity := initialCapacity;
      elements := [];
      moves := 0;
    }

    /** add(_:) — false when the elements would be moved past the end of the new storage. */
    method Add(element: T) returns (ok: bool)
      requires Valid() && result.Length < 0x8000
      modifies this, result
      ensures ok <==> old(remainingCapacity) > 0 || old(result.Length) < LARGEST
      ensures ok ==> Valid() && elements == old(elements) + [element]
      ensures ok ==> if old(remainingCapacity) > 0 then result == old(result)
                     else fresh(result) && result.Length == Doubled(old(result.Length))
      ensures !ok ==> p == |elements| > 1 && remainingCapacity == 1 - |elements|
    {
      hide GrowArrayCapacity;
      if remainingCapacity == 0 {
        DoublingIsExactWhen(result.Length);
        var grown := GrowArrayCapacity(result.Length);
        var newCapacity := if grown > 1 then grown else 1;
        var newResult := new Slot<T>[newCapacity](_ => Uninitialized);
        assert HoldsExactly(newResult[..], []);
        hide HoldsExactly;
        p := result.Length;
        remainingCapacity := newResult.Length - result.Length;
        if !(count == 0) {
          if newResult.Length < result.Length {
            return false;
          }
          MoveInitializeAcross(newResult, result, result.Length, elements);
          moves := moves + result.Length;
        }
        count := newCapacity;
        result := newResult;
      }
      Store(element);
      ok := true;
    }

    /** addWithExistingCapacity(_:) */
    method AddWithExistingCapacity(element: T)
      requires Valid() && remainingCapacity > 0
      modifies this, result
      ensures Valid() && elements == old(elements) + [element]
      ensures result == old(result) && remainingCapacity == old(remainingCapacity) - 1 && moves == old(moves)
    {
      Store(element);
    }

    /** What both ways of adding end with. */
    method Store(element: T)
      requires HoldsExactly(result[..], elements) && p == |elements| && remainingCapacity == result.Length - |elements|
      requires remainingCapacity > 0 && count != 0
      requires moves == 0 || (moves < result.Length && result.Length < 2 * (|elements| + 1))
      modifies this, result
      ensures Valid() && elements == old(elements) + [element]
      ensures result == old(result) && remainingCapacity == old(remainingCapacity) - 1 && moves == old(moves)
    {
      remainingCapacity := remainingCapacity - 1;
      Initialize(result, p, element);
      p := p + 1;
      elements := elements + [element];
    }

    /** finish() — the buffer, with its count set to what was added. */
    method Finish() returns (buffer: array<Slot<T>>, finalCount: nat)
      requires Valid()
      modifies this
      ensures HoldsExactly(buffer[..], old(elements)) && finalCount == |old(elements)|
      ensures buffer == old(result)
    {
      if result.Length != 0 {
        count := result.Length - remainingCapacity;
      }
      buffer, finalCount := result, count;
      result := new Slot<T>[0];
      remainingCapacity := 0;
    }
  }

  /** _copySequenceToContiguousArray(_:) — a sequence of n elements that announces at most n of them. None is a
      move past the end of the storage, which happens exactly when doubling cannot reach the length. */
  method CopySequence<T>(source: seq<T>, underestimatedCount: nat)
    returns (copy: Option<(array<Slot<T>>, nat)>, ghost moves: nat)
    requires underestimatedCount <= |source| && underestimatedCount < 0x8000
    ensures copy.Some? <==> |source| <= Reach(underestimatedCount)
    ensures copy.Some? ==> HoldsExactly(copy.value.0[..], source) && copy.value.1 == |source|
    ensures copy.Some? ==> moves == 0 || moves < 2 * |source|
    ensures underestimatedCount == |source| ==> copy.Some? && moves == 0
  {
    var builder := new Builder<T>(underestimatedCount);
    var next := 0;
    for i := 0 to underestimatedCount
      invariant next == i && builder.Valid() && builder.elements == source[..next] && builder.moves == 0
      invariant builder.remainingCapacity == underestimatedCount - i && builder.result.Length == underestimatedCount
      invariant fresh(builder) && fresh(builder.result)
    {
      builder.AddWithExistingCapacity(source[next]);
      next := next + 1;
    }
    while next < |source|
      invariant underestimatedCount <= next <= |source| && builder.Valid() && builder.elements == source[..next]
      invariant next == underestimatedCount ==> builder.moves == 0
      invariant builder.result.Length < 0x8000 && Reach(builder.result.Length) == Reach(underestimatedCount)
      invariant fresh(builder) && fresh(builder.result)
    {
      var ok := builder.Add(source[next]);
      if !ok {
        return None, builder.moves;
      }
      next := next + 1;
    }
    assert source[..next] == source;
    moves := builder.moves;
    var buffer, count := builder.Finish();
    copy := Some((buffer, count));
  }

  /** From nothing announced doubling reaches 2^14 elements, and one more fails. */
  method LongestUnannounced<T>(source: seq<T>) returns (copied: bool)
    ensures copied <==> |source| <= 16384
  {
    ReachesThroughPowers(0);
    var copy, _ := CopySequence(source, 0);
    copied := copy.Some?;
  }

  lemma {:induction false} ReachesThroughPowers(k: nat)
    requires k <= 14
    ensures Pow2(k) <= LARGEST && Reach(Pow2(k)) == LARGEST
    ensures k == 0 ==> Reach(0) == LARGEST
    decreases 14 - k
  {
    MachineWords();
    Pow2Increasing(k, 14);
    assert Pow2(15) == 2 * Pow2(14);
    if k < 14 {
      Pow2StrictlyIncreasing(k, 14);
      ReachesThroughPowers(k + 1);
    }
  }

  // ---------------------------------------------------------------- appending a collection

  /** += on buffers: in place when there is room, otherwise in storage of at least twice the capacity, or as
      much as is needed where doubling wraps. */
  method AppendCollection<T>(lhs: array<Slot<T>>, oldCount: nat, rhs: seq<T>, ghost elements: seq<T>)
    returns (storage: array<Slot<T>>, newCount: nat, ghost moves: nat)
    requires HoldsExactly(lhs[..], elements) && oldCount == |elements|
    requires oldCount + |rhs| < 0x8000
    modifies lhs
    ensures HoldsExactly(storage[..], elements + rhs) && newCount == |elements + rhs|
    ensures newCount <= lhs.Length ==> storage == lhs && moves == 0
    ensures newCount > lhs.Length ==> fresh(storage) && moves == oldCount && HoldsExactly(lhs[..], [])
    ensures lhs.Length < newCount && lhs.Length < LARGEST ==> storage.Length >= 2 * lhs.Length
  {
    newCount := oldCount + |rhs|;
    moves := 0;
    if newCount <= lhs.Length {
      storage := lhs;
    } else {
      if lhs.Length < LARGEST {
        DoublingIsExactWhen(lhs.Length);
      }
      var grown := GrowArrayCapacity(lhs.Length);
      storage := new Slot<T>[if newCount > grown then newCount else grown](_ => Uninitialized);
      MoveInitializeAcross(storage, lhs, oldCount, elements);
      moves := oldCount;
    }
    InitializeFrom(storage, oldCount, rhs, elements);
  }

  /** initialize(from:) on the slots after those in use. */
  method InitializeFrom<T>(storage: array<Slot<T>>, start: nat, source: seq<T>, ghost elements: seq<T>)
    requires HoldsExactly(storage[..], elements) && start == |elements| && start + |source| <= storage.Length
    modifies storage
    ensures HoldsExactly(storage[..], elements + source)
  {
    hide HoldsExactly;
    assert elements + source[..0] == elements;
    for i := 0 to |source|
      invariant HoldsExactly(storage[..], elements + source[..i])
    {
      HoldsOneMore(storage[..], elements + source[..i], source[i]);
      assert source[..i + 1] == source[..i] + [source[i]];
      assert elements + source[..i + 1] == elements + source[..i] + [source[i]];
      Initialize(storage, start + i, source[i]);
    }
    assert source[..|source|] == source;
  }

  lemma HoldsOneMore<T>(s: seq<Slot<T>>, elements: seq<T>, x: T)
    requires HoldsExactly(s, elements) && |elements| < |s|
    ensures s[|elements|] == Uninitialized && HoldsExactly(s[|elements| := Live(x)], elements + [x])
  {
  }
}
