/** Comparison functions and sorted sequences shared by the merge, refinement and dedupe models. */
module Orders {

  /** Transitivity at three given values; named so that the verifier uses it only where a proof asks for it. */
  ghost predicate Chained<T>(cmp: (T, T) -> int, a: T, b: T, c: T) {
    cmp(a, b) <= 0 && cmp(b, c) <= 0 ==> cmp(a, c) <= 0
  }

  /** `cmp` has the sign conventions of a Go comparison function and orders T totally, up to ties. */
  ghost predicate TotalPreorder<T(!new)>(cmp: (T, T) -> int) {
    && (forall a, b :: cmp(a, b) < 0 <==> cmp(b, a) > 0)
    && (forall a, b, c :: Chained(cmp, a, b, c))
  }

  ghost predicate Sorted<T>(cmp: (T, T) -> int, s: seq<T>) {
    forall i, j :: 0 <= i < j < |s| ==> cmp(s[i], s[j]) <= 0
  }

  ghost predicate AllSorted<T>(cmp: (T, T) -> int, ins: seq<seq<T>>) {
    forall i :: 0 <= i < |ins| ==> Sorted(cmp, ins[i])
  }

  /** Every row of `s` is at most every row of `t`. */
  ghost predicate AllAtMost<T>(cmp: (T, T) -> int, s: seq<T>, t: seq<T>) {
    forall i, j :: 0 <= i < |s| && 0 <= j < |t| ==> cmp(s[i], t[j]) <= 0
  }

  /** Sortedness only needs to be checked between neighbours. */
  lemma {:induction false} NeighboursSuffice<T(!new)>(cmp: (T, T) -> int, s: seq<T>)
    requires TotalPreorder(cmp)
    requires forall i :: 0 <= i < |s| - 1 ==> cmp(s[i], s[i + 1]) <= 0
    ensures Sorted(cmp, s)
  {
    forall i, j | 0 <= i < j < |s| ensures cmp(s[i], s[j]) <= 0 {
      NeighbourChain(cmp, s, i, j);
    }
  }

  lemma {:induction false} NeighbourChain<T(!new)>(cmp: (T, T) -> int, s: seq<T>, i: nat, j: nat)
    requires TotalPreorder(cmp)
    requires forall i :: 0 <= i < |s| - 1 ==> cmp(s[i], s[i + 1]) <= 0
    requires i < j < |s|
    ensures cmp(s[i], s[j]) <= 0
    decreases j - i
  {
    if i + 1 < j {
      NeighbourChain(cmp, s, i, j - 1);
      assert cmp(s[j - 1], s[j - 1 + 1]) <= 0;
      assert Chained(cmp, s[i], s[j - 1], s[j]);
    }
  }

  lemma SortedConcat<T>(cmp: (T, T) -> int, s: seq<T>, t: seq<T>)
    requires Sorted(cmp, s) && Sorted(cmp, t) && AllAtMost(cmp, s, t)
    ensures Sorted(cmp, s + t)
  {
  }
}
