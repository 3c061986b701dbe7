/** The galloping search that measures how many leading rows of a sorted window stay within a bound. */
module Gallop {
  import opened Orders
  import opened LoserTree

  /** How often in a row an input must win before its rows are emitted in runs. */
  const RUN_DETECTION_STREAK := 3

  ghost function Pow2(n: nat): (p: nat)
    ensures p > 0
  {
    if n == 0 then 1 else 2 * Pow2(n - 1)
  }

  lemma {:induction false} Log2OfPow2(n: nat)
    ensures Log2(Pow2(n)) == n
  {
    if n > 0 {
      Log2OfPow2(n - 1);
    }
  }

  lemma ExponentIsLog2(j: nat, n: nat)
    requires Pow2(j) <= n
    ensures j <= Log2(n)
  {
    Log2OfPow2(j);
    Log2Monotone(Pow2(j), n);
  }

  /** `row` compares to `bound` within `max`: 0 includes ties and -1 excludes them. */
  predicate Within<T>(cmp: (T, T) -> int, row: T, bound: T, max: int) {
    cmp(row, bound) <= max
  }

  /** Within a sorted window, the rows within the bound form a prefix. */
  lemma WithinIsPrefix<T(!new)>(cmp: (T, T) -> int, window: seq<T>, bound: T, max: int)
    requires TotalPreorder(cmp) && Sorted(cmp, window) && (max == 0 || max == -1)
    ensures forall i, j :: 0 <= i <= j < |window| && Within(cmp, window[j], bound, max) ==>
        Within(cmp, window[i], bound, max)
  {
    forall i, j | 0 <= i <= j < |window| && Within(cmp, window[j], bound, max)
      ensures Within(cmp, window[i], bound, max)
    {
      if i < j {
        assert Chained(cmp, window[i], window[j], bound);
        assert Chained(cmp, bound, window[i], window[j]);
      }
    }
  }

  /**
   * The length of the prefix of `window` within the bound, found with at most 2*log2(n) + 3 comparisons.
   */
  method RunLength<T(!new)>(window: seq<T>, bound: T, cmp: (T, T) -> int, max: int)
    returns (n: nat, ghost comparisons: nat)
    requires TotalPreorder(cmp) && Sorted(cmp, window) && (max == 0 || max == -1)
    ensures n <= |window|
    ensures forall i :: 0 <= i < n ==> Within(cmp, window[i], bound, max)
    ensures forall i :: n <= i < |window| ==> !Within(cmp, window[i], bound, max)
    ensures comparisons <= if |window| == 0 then 0 else 2 * Log2(|window|) + 3
  {
    WithinIsPrefix(cmp, window, bound, max);
    comparisons := 0;
    if |window| == 0 {
      return 0, 0;
    }
    comparisons := 1;
    if !Within(cmp, window[0], bound, max) {
      return 0, comparisons;
    }
    comparisons := 2;
    if Within(cmp, window[|window| - 1], bound, max) {
      return |window|, comparisons;
    }
    var lo, hi := 0, 1;
    ghost var j: nat := 0;
    while hi < |window| && Within(cmp, window[hi], bound, max)
      invariant 0 <= lo < hi && lo < |window| && Within(cmp, window[lo], bound, max)
      invariant hi == Pow2(j)
      invariant if j == 0 then lo == 0 else lo == Pow2(j - 1)
      invariant comparisons == 2 + j
      decreases |window| - hi
    {
      lo := hi;
      hi := hi * 2;
      j := j + 1;
      comparisons := comparisons + 1;
    }
    ghost var budget: nat := if j == 0 then 0 else j - 1;
    if hi < |window| {
      ExponentIsLog2(j, |window|);
      comparisons := comparisons + 1;
    } else if j > 0 {
      ExponentIsLog2(j - 1, |window|);
    }
    assert hi - lo <= Pow2(budget) && comparisons + budget <= 2 * Log2(|window|) + 3;
    hi := if hi < |window| then hi else |window|;
    while lo + 1 < hi
      invariant 0 <= lo < hi <= |window| && Within(cmp, window[lo], bound, max)
      invariant hi < |window| ==> !Within(cmp, window[hi], bound, max)
      invariant hi - lo <= Pow2(budget)
      invariant comparisons + budget <= 2 * Log2(|window|) + 3
      decreases hi - lo
    {
      var mid := (lo + hi) / 2;
      comparisons := comparisons + 1;
      if Within(cmp, window[mid], bound, max) {
        lo := mid;
      } else {
        hi := mid;
      }
      budget := budget - 1;
    }
    return hi, comparisons;
  }
}
