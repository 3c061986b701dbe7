/** Stable sorting: what the Go library's stable sort returns, whatever its algorithm. */
module Sorting {
  import opened Orders

  /** Inserts `x` after all elements that are at most `x`. */
  function Insert<T>(cmp: (T, T) -> int, s: seq<T>, x: T): (r: seq<T>)
    ensures |r| == |s| + 1
  {
    if s == [] then [x]
    else
      var n := |s| - 1;
      if cmp(s[n], x) <= 0 then s + [x] else Insert(cmp, s[..n], x) + [s[n]]
  }

  function StableSort<T>(cmp: (T, T) -> int, s: seq<T>): (r: seq<T>)
    ensures |r| == |s|
  {
    if s == [] then [] else Insert(cmp, StableSort(cmp, s[..|s| - 1]), s[|s| - 1])
  }

  ghost function Filter<T>(p: T -> bool, s: seq<T>): (r: seq<T>) {
    if s == [] then []
    else Filter(p, s[..|s| - 1]) + if p(s[|s| - 1]) then [s[|s| - 1]] else []
  }

  lemma FilterSnoc<T>(p: T -> bool, s: seq<T>, x: T)
    ensures Filter(p, s + [x]) == Filter(p, s) + if p(x) then [x] else []
  {
    assert (s + [x])[..|s|] == s;
  }

  lemma {:induction false} FilterConcat<T>(p: T -> bool, s: seq<T>, t: seq<T>)
    ensures Filter(p, s + t) == Filter(p, s) + Filter(p, t)
  {
    if t == [] {
      assert s + t == s;
    } else {
      var n := |t| - 1;
      assert s + t == (s + t[..n]) + [t[n]];
      FilterSnoc(p, s + t[..n], t[n]);
      FilterConcat(p, s, t[..n]);
    }
  }

  lemma {:induction false} InsertKeepsElements<T>(cmp: (T, T) -> int, s: seq<T>, x: T)
    ensures multiset(Insert(cmp, s, x)) == multiset(s) + multiset{x}
  {
    if s != [] {
      var n := |s| - 1;
      assert s == s[..n] + [s[n]];
      InsertKeepsElements(cmp, s[..n], x);
    }
  }

  lemma {:induction false} InsertSorts<T(!new)>(cmp: (T, T) -> int, s: seq<T>, x: T)
    requires TotalPreorder(cmp) && Sorted(cmp, s)
    ensures Sorted(cmp, Insert(cmp, s, x))
  {
    if s != [] {
      var n := |s| - 1;
      if cmp(s[n], x) <= 0 {
        forall i | 0 <= i <= n ensures cmp(s[i], x) <= 0 {
          assert i < n ==> cmp(s[i], s[n]) <= 0;
          assert Chained(cmp, s[i], s[n], x);
        }
        hide TotalPreorder;
        SortedSnoc(cmp, s, x);
      } else {
        assert cmp(x, s[n]) <= 0;
        InsertSorts(cmp, s[..n], x);
        InsertKeepsElements(cmp, s[..n], x);
        hide TotalPreorder;
        var r := Insert(cmp, s[..n], x);
        forall i | 0 <= i < |r| ensures cmp(r[i], s[n]) <= 0 {
          assert r[i] in multiset(r);
          if r[i] != x {
            assert r[i] in s[..n];
          }
        }
        SortedSnoc(cmp, r, s[n]);
      }
    }
  }

  lemma SortedSnoc<T>(cmp: (T, T) -> int, s: seq<T>, x: T)
    requires Sorted(cmp, s) && forall i :: 0 <= i < |s| ==> cmp(s[i], x) <= 0
    ensures Sorted(cmp, s + [x])
  {
  }

  /** The elements satisfying `p`, all of them tied with one another, keep their order. */
  lemma {:induction false} InsertIsStable<T>(cmp: (T, T) -> int, s: seq<T>, x: T, p: T -> bool)
    requires forall a, b | a in s && b == x && p(a) && p(b) :: cmp(a, b) <= 0
    ensures Filter(p, Insert(cmp, s, x)) == Filter(p, s) + if p(x) then [x] else []
  {
    if s == [] {
      assert [x] == [] + [x];
      FilterSnoc(p, [], x);
    } else {
      var n := |s| - 1;
      if cmp(s[n], x) <= 0 {
        FilterSnoc(p, s, x);
      } else {
        InsertIsStable(cmp, s[..n], x, p);
        FilterSnoc(p, Insert(cmp, s[..n], x), s[n]);
      }
    }
  }

  lemma {:induction false} SortKeepsElements<T>(cmp: (T, T) -> int, s: seq<T>)
    ensures multiset(StableSort(cmp, s)) == multiset(s)
  {
    if s != [] {
      var n := |s| - 1;
      assert s == s[..n] + [s[n]];
      SortKeepsElements(cmp, s[..n]);
      InsertKeepsElements(cmp, StableSort(cmp, s[..n]), s[n]);
    }
  }

  lemma {:induction false} SortSorts<T(!new)>(cmp: (T, T) -> int, s: seq<T>)
    requires TotalPreorder(cmp)
    ensures Sorted(cmp, StableSort(cmp, s))
  {
    if s != [] {
      var n := |s| - 1;
      SortSorts(cmp, s[..n]);
      InsertSorts(cmp, StableSort(cmp, s[..n]), s[n]);
    }
  }

  lemma {:induction false} SortIsStable<T>(cmp: (T, T) -> int, s: seq<T>, p: T -> bool)
    requires forall a, b | a in s && b in s && p(a) && p(b) :: cmp(a, b) <= 0
    ensures Filter(p, StableSort(cmp, s)) == Filter(p, s)
  {
    if s != [] {
      var n := |s| - 1;
      var init := StableSort(cmp, s[..n]);
      SortIsStable(cmp, s[..n], p);
      SortKeepsElements(cmp, s[..n]);
      forall a | a in init ensures a in s {
        assert a in multiset(s[..n]);
      }
      InsertIsStable(cmp, init, s[n], p);
    }
  }

  /** Two sorted arrangements of the same elements agree up to ties. */
  lemma {:induction false} SortedArrangementsTie<T(!new)>(cmp: (T, T) -> int, s: seq<T>, t: seq<T>)
    requires TotalPreorder(cmp) && Sorted(cmp, s) && Sorted(cmp, t) && multiset(s) == multiset(t)
    ensures |s| == |t| && forall i :: 0 <= i < |s| ==> cmp(s[i], t[i]) == 0
  {
    assert |multiset(s)| == |s| && |multiset(t)| == |t|;
    forall i | 0 <= i < |s| ensures cmp(s[i], t[i]) == 0 {
      SortedArrangementsAtMost(cmp, s, t, i);
      SortedArrangementsAtMost(cmp, t, s, i);
    }
  }

  lemma SortedArrangementsAtMost<T(!new)>(cmp: (T, T) -> int, s: seq<T>, t: seq<T>, i: nat)
    requires TotalPreorder(cmp) && Sorted(cmp, s) && Sorted(cmp, t) && multiset(s) == multiset(t)
    requires i < |s| == |t|
    ensures cmp(s[i], t[i]) <= 0
  {
    if cmp(s[i], t[i]) > 0 {
      // the i + 1 smallest elements of t would all be among the i elements before s[i]
      var below := x => cmp(x, s[i]) < 0;
      CountBelow(cmp, s, below, i);
      forall j | 0 <= j <= i ensures below(t[j]) {
        assert Chained(cmp, t[j], t[i], s[i]);
        assert Chained(cmp, s[i], t[j], t[i]);
      }
      FilterAll(below, t[..i + 1]);
      assert t == t[..i + 1] + t[i + 1..];
      FilterConcat(below, t[..i + 1], t[i + 1..]);
      FilterSize(below, s, t);
    }
  }

  lemma FilterSize<T>(p: T -> bool, s: seq<T>, t: seq<T>)
    requires multiset(s) == multiset(t)
    ensures |Filter(p, s)| == |Filter(p, t)|
  {
    FilterIsElements(p, s);
    FilterIsElements(p, t);
    MultisetsAgree(multiset(Filter(p, s)), multiset(Filter(p, t)));
    assert |Filter(p, s)| == |multiset(Filter(p, s))| && |Filter(p, t)| == |multiset(Filter(p, t))|;
  }

  lemma MultisetsAgree<T>(a: multiset<T>, b: multiset<T>)
    requires forall x :: a[x] == b[x]
    ensures a == b
  {
  }

  lemma {:induction false} FilterAll<T>(p: T -> bool, s: seq<T>)
    requires forall i :: 0 <= i < |s| ==> p(s[i])
    ensures Filter(p, s) == s
  {
    if s != [] {
      FilterAll(p, s[..|s| - 1]);
    }
  }

  lemma {:induction false} FilterIsElements<T>(p: T -> bool, s: seq<T>)
    ensures forall x :: multiset(Filter(p, s))[x] == if p(x) then multiset(s)[x] else 0
  {
    if s != [] {
      var n := |s| - 1;
      assert s == s[..n] + [s[n]];
      FilterIsElements(p, s[..n]);
    }
  }

  lemma {:induction false} CountBelow<T(!new)>(cmp: (T, T) -> int, s: seq<T>, below: T -> bool, i: nat)
    requires TotalPreorder(cmp) && Sorted(cmp, s) && i < |s|
    requires forall x :: below(x) <==> cmp(x, s[i]) < 0
    ensures |Filter(below, s)| <= i
    decreases |s|
  {
    var n := |s| - 1;
    if i < n {
      assert cmp(s[i], s[n]) <= 0;
      CountBelow(cmp, s[..n], below, i);
    } else {
      FilterShortens(below, s[..n]);
    }
  }

  lemma {:induction false} FilterSelects<T>(p: T -> bool, s: seq<T>)
    ensures forall x :: x in Filter(p, s) ==> x in s && p(x)
  {
    if s != [] {
      FilterSelects(p, s[..|s| - 1]);
    }
  }

  lemma {:induction false} FilterShortens<T>(p: T -> bool, s: seq<T>)
    ensures |Filter(p, s)| <= |s|
  {
    if s != [] {
      FilterShortens(p, s[..|s| - 1]);
    }
  }
}
