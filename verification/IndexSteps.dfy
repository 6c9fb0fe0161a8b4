/** Counted steps along a line of positions, which the indices of the lazy collections take. */
module IndexSteps {

  function Signum(n: int): int { if n > 0 then 1 else if n < 0 then -1 else 0 }

  /** The displacement after k steps of the way to n. */
  function Along(n: int, k: nat): int { if n >= 0 then k else 0 - k }

  /** Whether going n steps from a position leaves the limit behind. */
  predicate Passes(from: nat, n: int, limit: nat)
  {
    if n >= 0 then from <= limit < from + n else from + n < limit <= from
  }
}
