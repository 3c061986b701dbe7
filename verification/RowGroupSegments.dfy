/** Splitting the row groups of a merge into segments whose key ranges do not overlap. */
module RowGroupSegments {
  import opened MergeTraces
  import opened Options
  import opened Orders
  import opened Sequences
  import opened Sorting

  /** A row group with the bounds of its rows in sort order, when they could be determined. */
  datatype Group<T> = Group(index: nat, numRows: nat, bounds: Option<Bounds<T>>)

  datatype Bounds<T> = Bounds(minRow: T, maxRow: T)

  function MinCmp<T>(cmp: (T, T) -> int): (Group<T>, Group<T>) -> int {
    (a: Group<T>, b: Group<T>) =>
      if a.bounds.Some? && b.bounds.Some? then cmp(a.bounds.value.minRow, b.bounds.value.minRow)
      else if a.bounds.Some? then 1
      else if b.bounds.Some? then -1
      else 0
  }

  ghost predicate AllBounded<T>(groups: seq<Group<T>>) {
    forall i :: 0 <= i < |groups| ==> groups[i].bounds.Some?
  }

  ghost predicate ByMinRow<T>(cmp: (T, T) -> int, groups: seq<Group<T>>) {
    AllBounded(groups) && forall i, j :: 0 <= i < j < |groups| ==>
      cmp(groups[i].bounds.value.minRow, groups[j].bounds.value.minRow) <= 0
  }

  /** All keys of `a` are strictly less than all keys of `b`. */
  ghost predicate StrictlyBelow<T>(cmp: (T, T) -> int, a: Group<T>, b: Group<T>) {
    a.bounds.Some? && b.bounds.Some? && cmp(a.bounds.value.maxRow, b.bounds.value.minRow) < 0
  }

  ghost predicate Separated<T>(cmp: (T, T) -> int, a: seq<Group<T>>, b: seq<Group<T>>) {
    forall g, h :: g in a && h in b ==> StrictlyBelow(cmp, g, h)
  }

  /** Every group but the first overlaps an earlier one, so the segment cannot be split. */
  ghost predicate Connected<T>(cmp: (T, T) -> int, segment: seq<Group<T>>) {
    forall i :: 0 < i < |segment| ==> Overlaps(cmp, segment[..i], segment[i])
  }

  ghost predicate Overlaps<T>(cmp: (T, T) -> int, before: seq<Group<T>>, g: Group<T>) {
    exists h :: h in before && !StrictlyBelow(cmp, h, g)
  }

  /** The segments are consecutive stretches of the groups, each in one piece and strictly below all later ones. */
  ghost predicate Segmented<T>(cmp: (T, T) -> int, groups: seq<Group<T>>, segments: seq<seq<Group<T>>>) {
    && Concat(segments) == groups
    && (forall s :: 0 <= s < |segments| ==> segments[s] != [] && Connected(cmp, segments[s]))
    && (forall s, t :: 0 <= s < t < |segments| ==> Separated(cmp, segments[s], segments[t]))
  }

  /** `max` is the largest key of the groups. */
  ghost predicate MaxOf<T>(cmp: (T, T) -> int, groups: seq<Group<T>>, max: T) {
    && (forall g :: g in groups ==> g.bounds.Some? && cmp(g.bounds.value.maxRow, max) <= 0)
    && exists g :: g in groups && g.bounds.Some? && g.bounds.value.maxRow == max
  }

  /** A group that starts after the largest key so far is strictly above everything before it, and so are later ones. */
  lemma StartsAbove<T(!new)>(cmp: (T, T) -> int, groups: seq<Group<T>>, start: nat, i: nat, max: T)
    requires TotalPreorder(cmp) && ByMinRow(cmp, groups) && start < i < |groups|
    requires MaxOf(cmp, groups[start..i], max) && cmp(groups[i].bounds.value.minRow, max) > 0
    ensures Separated(cmp, groups[start..i], groups[i..])
  {
    forall g, h | g in groups[start..i] && h in groups[i..] ensures StrictlyBelow(cmp, g, h) {
      var j :| i <= j < |groups| && groups[j] == h;
      var k :| start <= k < i && groups[k] == g;
      assert i < j ==> cmp(groups[i].bounds.value.minRow, h.bounds.value.minRow) <= 0;
      assert h.bounds.Some? && g.bounds.Some? && cmp(g.bounds.value.maxRow, max) <= 0;
      hide ByMinRow, MaxOf, TotalPreorder;
      KeyAbove(cmp, groups[i].bounds.value.minRow, h.bounds.value.minRow, g.bounds.value.maxRow, max);
    }
  }

  lemma KeyAbove<T(!new)>(cmp: (T, T) -> int, first: T, key: T, top: T, max: T)
    requires TotalPreorder(cmp) && cmp(first, max) > 0 && (key == first || cmp(first, key) <= 0) && cmp(top, max) <= 0
    ensures cmp(top, key) < 0
  {
    assert Chained(cmp, key, top, max);
    assert Chained(cmp, first, key, max);
    assert cmp(key, top) > 0 <==> cmp(top, key) < 0;
  }

  lemma MaxGrows<T(!new)>(cmp: (T, T) -> int, groups: seq<Group<T>>, max: T, g: Group<T>)
    requires TotalPreorder(cmp) && MaxOf(cmp, groups, max) && g.bounds.Some?
    ensures cmp(g.bounds.value.maxRow, max) <= 0 ==> MaxOf(cmp, groups + [g], max)
    ensures cmp(g.bounds.value.maxRow, max) > 0 ==> MaxOf(cmp, groups + [g], g.bounds.value.maxRow)
  {
    var top := g.bounds.value.maxRow;
    if cmp(top, max) <= 0 {
      var h :| h in groups && h.bounds.Some? && h.bounds.value.maxRow == max;
      assert h in groups + [g];
    } else {
      forall h | h in groups + [g] ensures h.bounds.Some? && cmp(h.bounds.value.maxRow, top) <= 0 {
        assert Chained(cmp, h.bounds.value.maxRow, max, top);
      }
      assert g in groups + [g];
    }
  }

  lemma ConnectedGrows<T>(cmp: (T, T) -> int, segment: seq<Group<T>>, g: Group<T>)
    requires Connected(cmp, segment) && (segment != [] ==> Overlaps(cmp, segment, g))
    ensures Connected(cmp, segment + [g])
  {
    forall i | 0 < i < |segment + [g]| ensures Overlaps(cmp, (segment + [g])[..i], (segment + [g])[i]) {
      assert (segment + [g])[..i] == segment[..i];
    }
  }

  /** Groups before `start` are in closed segments, and groups [start, i) make up the open one. */
  ghost predicate Splitting<T>(
    cmp: (T, T) -> int, groups: seq<Group<T>>, segments: seq<seq<Group<T>>>, start: nat, i: nat, max: T)
  {
    && start < i <= |groups| && Concat(segments) == groups[..start]
    && (forall s :: 0 <= s < |segments| ==> segments[s] != [] && Connected(cmp, segments[s]))
    && (forall s, t :: 0 <= s < t < |segments| ==> Separated(cmp, segments[s], segments[t]))
    && (forall s :: 0 <= s < |segments| ==> Separated(cmp, segments[s], groups[start..]))
    && Connected(cmp, groups[start..i]) && MaxOf(cmp, groups[start..i], max)
  }

  /** Splits groups ordered by their smallest key wherever a group starts above all keys before it. */
  method SplitSegments<T(!new)>(groups: seq<Group<T>>, compare: (T, T) -> int) returns (segments: seq<seq<Group<T>>>)
    requires TotalPreorder(compare) && ByMinRow(compare, groups) && groups != []
    ensures Segmented(compare, groups, segments)
  {
    hide TotalPreorder, ByMinRow, Splitting, Segmented;
    segments := [];
    var segmentStart: nat := 0;
    OrderedAreBounded(compare, groups);
    var currentMax := groups[0].bounds.value.maxRow;
    SplitBegins(compare, groups);
    for i := 1 to |groups|
      invariant segmentStart < i && Splitting(compare, groups, segments, segmentStart, i, currentMax)
    {
      var bounds := groups[i].bounds.value;
      if compare(bounds.minRow, currentMax) <= 0 {
        SplitExtends(compare, groups, segments, segmentStart, i, currentMax);
        if compare(bounds.maxRow, currentMax) > 0 {
          currentMax := bounds.maxRow;
        }
      } else {
        SplitCloses(compare, groups, segments, segmentStart, i, currentMax);
        segments := segments + [groups[segmentStart..i]];
        segmentStart := i;
        currentMax := bounds.maxRow;
      }
    }
    SplitEnds(compare, groups, segments, segmentStart, currentMax);
    segments := segments + [groups[segmentStart..]];
  }

  lemma SplitBegins<T(!new)>(cmp: (T, T) -> int, groups: seq<Group<T>>)
    requires TotalPreorder(cmp) && AllBounded(groups) && groups != []
    ensures Splitting(cmp, groups, [], 0, 1, groups[0].bounds.value.maxRow)
  {
    FirstOfSegment(cmp, groups, 0);
  }

  lemma SplitExtends<T(!new)>(
      cmp: (T, T) -> int, groups: seq<Group<T>>, segments: seq<seq<Group<T>>>, start: nat, i: nat, max: T)
    requires TotalPreorder(cmp) && AllBounded(groups) && i < |groups|
    requires Splitting(cmp, groups, segments, start, i, max) && cmp(groups[i].bounds.value.minRow, max) <= 0
    ensures var top := groups[i].bounds.value.maxRow;
      Splitting(cmp, groups, segments, start, i + 1, if cmp(top, max) > 0 then top else max)
  {
    hide TotalPreorder, Connected, Separated, MaxOf;
    assert groups[start..i] + [groups[i]] == groups[start..i + 1];
    OverlapFound(cmp, groups[start..i], groups[i], max);
    MaxGrows(cmp, groups[start..i], max, groups[i]);
  }

  lemma SplitCloses<T(!new)>(
      cmp: (T, T) -> int, groups: seq<Group<T>>, segments: seq<seq<Group<T>>>, start: nat, i: nat, max: T)
    requires TotalPreorder(cmp) && ByMinRow(cmp, groups) && i < |groups|
    requires Splitting(cmp, groups, segments, start, i, max) && cmp(groups[i].bounds.value.minRow, max) > 0
    ensures Splitting(cmp, groups, segments + [groups[start..i]], i, i + 1, groups[i].bounds.value.maxRow)
  {
    hide TotalPreorder, Connected, Separated, MaxOf, ByMinRow;
    OrderedAreBounded(cmp, groups);
    StartsAbove(cmp, groups, start, i, max);
    SegmentClosed(cmp, groups, segments, start, i);
    FirstOfSegment(cmp, groups, i);
  }

  lemma SplitEnds<T>(
      cmp: (T, T) -> int, groups: seq<Group<T>>, segments: seq<seq<Group<T>>>, start: nat, max: T)
    requires Splitting(cmp, groups, segments, start, |groups|, max)
    ensures Segmented(cmp, groups, segments + [groups[start..]])
  {
    hide Connected, Separated, MaxOf;
    SegmentClosed(cmp, groups, segments, start, |groups|);
    assert groups[..|groups|] == groups && groups[start..] == groups[start..|groups|];
  }

  lemma OrderedAreBounded<T>(cmp: (T, T) -> int, groups: seq<Group<T>>)
    requires ByMinRow(cmp, groups)
    ensures AllBounded(groups)
  {
  }

  lemma FirstOfSegment<T(!new)>(cmp: (T, T) -> int, groups: seq<Group<T>>, i: nat)
    requires TotalPreorder(cmp) && AllBounded(groups) && i < |groups|
    ensures Connected(cmp, groups[i..i + 1]) && MaxOf(cmp, groups[i..i + 1], groups[i].bounds.value.maxRow)
  {
    assert groups[i..i + 1] == [groups[i]];
    assert groups[i] in groups[i..i + 1];
  }

  lemma OverlapFound<T(!new)>(cmp: (T, T) -> int, segment: seq<Group<T>>, g: Group<T>, max: T)
    requires TotalPreorder(cmp) && Connected(cmp, segment) && MaxOf(cmp, segment, max)
    requires g.bounds.Some? && cmp(g.bounds.value.minRow, max) <= 0
    ensures Connected(cmp, segment + [g])
  {
    var h :| h in segment && h.bounds.Some? && h.bounds.value.maxRow == max;
    assert !StrictlyBelow(cmp, h, g);
    ConnectedGrows(cmp, segment, g);
  }

  lemma SegmentClosed<T>(
      cmp: (T, T) -> int, groups: seq<Group<T>>, segments: seq<seq<Group<T>>>, start: nat, i: nat)
    requires start < i <= |groups| && Concat(segments) == groups[..start]
    requires forall s :: 0 <= s < |segments| ==> Separated(cmp, segments[s], groups[start..])
    requires i < |groups| ==> Separated(cmp, groups[start..i], groups[i..])
    ensures Concat(segments + [groups[start..i]]) == groups[..i]
    ensures forall s :: 0 <= s < |segments| ==> Separated(cmp, segments[s], groups[start..i])
    ensures forall s :: 0 <= s < |segments + [groups[start..i]]| ==>
      Separated(cmp, (segments + [groups[start..i]])[s], groups[i..])
  {
    ConcatSnoc(segments, groups[start..i]);
    assert groups[..start] + groups[start..i] == groups[..i];
    forall g | g in groups[start..i] || g in groups[i..] ensures g in groups[start..] {
      if g in groups[start..i] {
        var k :| start <= k < i && groups[k] == g;
        assert groups[start..][k - start] == g;
      } else {
        var k :| i <= k < |groups| && groups[k] == g;
        assert groups[start..][k - start] == g;
      }
    }
    assert groups[|groups|..] == [];
  }

  // ----- all row groups of a merge -----

  ghost predicate Numbered<T>(groups: seq<Group<T>>) {
    forall i :: 0 <= i < |groups| ==> groups[i].index == i
  }

  function NotEmpty<T>(): Group<T> -> bool {
    (g: Group<T>) => g.numRows > 0
  }

  /** Whether the bounds of some row group that holds rows are not known. */
  predicate BoundsMissing<T>(groups: seq<Group<T>>) {
    exists g :: g in groups && g.numRows > 0 && g.bounds.None?
  }

  function Unbounded<T>(groups: seq<Group<T>>): seq<Group<T>> {
    seq(|groups|, i requires 0 <= i < |groups| => groups[i].(bounds := None))
  }

  /** An arrangement of the groups that hold rows by their smallest keys; a sort may choose any. */
  ghost predicate Arranged<T>(cmp: (T, T) -> int, groups: seq<Group<T>>, arranged: seq<Group<T>>) {
    ByMinRow(cmp, arranged) && multiset(arranged) == multiset(Filter(NotEmpty(), groups))
  }

  /** The segments of the row groups to merge; a single one, without bounds, when some bounds are not known. */
  ghost predicate SegmentsOf<T>(
    cmp: (T, T) -> int, groups: seq<Group<T>>, arranged: seq<Group<T>>, segments: seq<seq<Group<T>>>)
  {
    if BoundsMissing(groups) then segments == [Unbounded(groups)]
    else Arranged(cmp, groups, arranged) && Segmented(cmp, arranged, segments)
  }

  /** Sorts groups by their smallest keys; nothing is promised about the order of groups that tie. */
  method SortRanges<T(!new)>(ranges: seq<Group<T>>, compare: (T, T) -> int) returns (sorted: seq<Group<T>>)
    requires TotalPreorder(compare) && AllBounded(ranges)
    ensures ByMinRow(compare, sorted) && multiset(sorted) == multiset(ranges)
  {
    SortedByMinRow(compare, ranges);
    SortKeepsElements(MinCmp(compare), ranges);
    sorted := StableSort(MinCmp(compare), ranges);
  }

  method OverlappingRowGroups<T(!new)>(groups: seq<Group<T>>, compare: (T, T) -> int)
    returns (segments: seq<seq<Group<T>>>, ghost arranged: seq<Group<T>>)
    requires TotalPreorder(compare)
    ensures SegmentsOf(compare, groups, arranged, segments)
  {
    hide TotalPreorder, Connected, Separated;
    arranged := [];
    var ranges := [];
    for i := 0 to |groups|
      invariant ranges == Filter(NotEmpty(), groups[..i])
      invariant forall j :: 0 <= j < i && groups[j].numRows > 0 ==> groups[j].bounds.Some?
    {
      assert groups[..i + 1] == groups[..i] + [groups[i]];
      FilterSnoc(NotEmpty(), groups[..i], groups[i]);
      if groups[i].numRows > 0 {
        if groups[i].bounds.None? {
          return [Unbounded(groups)], arranged;
        }
        ranges := ranges + [groups[i]];
      }
    }
    assert groups[..|groups|] == groups;
    NotEmptyAreBounded(groups);
    SingleSegment(compare, ranges);
    arranged := ranges;
    if |ranges| == 0 {
      return [], arranged;
    }
    if |ranges| == 1 {
      return [ranges], arranged;
    }
    var sorted := SortRanges(ranges, compare);
    arranged := sorted;
    assert |multiset(sorted)| == |multiset(ranges)|;
    segments := SplitSegments(sorted, compare);
  }

  lemma NotEmptyAreBounded<T>(groups: seq<Group<T>>)
    requires !BoundsMissing(groups)
    ensures AllBounded(Filter(NotEmpty(), groups))
  {
    FilterSelects(NotEmpty<T>(), groups);
    var ranges := Filter(NotEmpty(), groups);
    forall i | 0 <= i < |ranges| ensures ranges[i].bounds.Some? {
      assert ranges[i] in ranges;
    }
  }

  lemma SingleSegment<T>(cmp: (T, T) -> int, ranges: seq<Group<T>>)
    requires AllBounded(ranges)
    ensures |ranges| <= 1 ==> ByMinRow(cmp, ranges)
    ensures |ranges| == 0 ==> Segmented(cmp, ranges, [])
    ensures |ranges| == 1 ==> Segmented(cmp, ranges, [ranges])
  {
    if |ranges| == 1 {
      assert [ranges][..0] == [] && Concat([ranges][..0]) == [];
      assert [] + ranges == ranges;
    }
  }

  lemma MinCmpIsTotal<T(!new)>(cmp: (T, T) -> int)
    requires TotalPreorder(cmp)
    ensures TotalPreorder(MinCmp(cmp))
  {
    forall a: Group<T>, b: Group<T> ensures MinCmp(cmp)(a, b) < 0 <==> MinCmp(cmp)(b, a) > 0 {
      if a.bounds.Some? && b.bounds.Some? {
        assert cmp(a.bounds.value.minRow, b.bounds.value.minRow) < 0 <==>
          cmp(b.bounds.value.minRow, a.bounds.value.minRow) > 0;
      }
    }
    forall a: Group<T>, b: Group<T>, c: Group<T> ensures Chained(MinCmp(cmp), a, b, c) {
      if a.bounds.Some? && b.bounds.Some? && c.bounds.Some? {
        assert Chained(cmp, a.bounds.value.minRow, b.bounds.value.minRow, c.bounds.value.minRow);
      }
    }
  }

  lemma SortedByMinRow<T(!new)>(cmp: (T, T) -> int, ranges: seq<Group<T>>)
    requires TotalPreorder(cmp) && AllBounded(ranges)
    ensures ByMinRow(cmp, StableSort(MinCmp(cmp), ranges))
  {
    MinCmpIsTotal(cmp);
    SortSorts(MinCmp(cmp), ranges);
    SortKeepsElements(MinCmp(cmp), ranges);
    var sorted := StableSort(MinCmp(cmp), ranges);
    forall i | 0 <= i < |sorted| ensures sorted[i].bounds.Some? {
      assert sorted[i] in multiset(ranges);
    }
  }

  // ----- what merging segment by segment reads -----

  /** The rows of each group lie within its bounds. */
  ghost predicate EnclosedRows<T>(cmp: (T, T) -> int, rows: seq<seq<T>>, g: Group<T>) {
    && g.index < |rows| && |rows[g.index]| == g.numRows
    && (g.bounds.Some? ==> forall j :: 0 <= j < |rows[g.index]| ==>
        && cmp(g.bounds.value.minRow, rows[g.index][j]) <= 0
        && cmp(rows[g.index][j], g.bounds.value.maxRow) <= 0)
  }

  ghost predicate AllEnclosed<T>(cmp: (T, T) -> int, rows: seq<seq<T>>, gs: seq<Group<T>>) {
    forall g :: g in gs ==> EnclosedRows(cmp, rows, g)
  }

  /** All rows of some groups. */
  ghost function RowsIn<T>(rows: seq<seq<T>>, gs: seq<Group<T>>): multiset<T>
    requires forall g :: g in gs ==> g.index < |rows|
  {
    if gs == [] then multiset{} else RowsIn(rows, gs[..|gs| - 1]) + multiset(rows[gs[|gs| - 1].index])
  }

  lemma {:induction false} RowsInConcat<T>(rows: seq<seq<T>>, gs: seq<Group<T>>, hs: seq<Group<T>>)
    requires forall g :: g in gs || g in hs ==> g.index < |rows|
    ensures RowsIn(rows, gs + hs) == RowsIn(rows, gs) + RowsIn(rows, hs)
  {
    if hs == [] {
      assert gs + hs == gs;
    } else {
      var n := |hs| - 1;
      assert (gs + hs)[..|gs| + n] == gs + hs[..n];
      RowsInConcat(rows, gs, hs[..n]);
    }
  }

  /** The last element of a sequence, and the rest of it, in another arrangement. */
  lemma WithoutLast<T>(s: seq<T>, t: seq<T>) returns (k: nat)
    requires multiset(s) == multiset(t) && s != []
    ensures k < |t| && t[k] == s[|s| - 1] && multiset(s[..|s| - 1]) == multiset(t[..k] + t[k + 1..])
  {
    var n := |s| - 1;
    assert s == s[..n] + [s[n]];
    assert s[n] in multiset(t);
    k :| 0 <= k < |t| && t[k] == s[n];
    assert t == t[..k] + [t[k]] + t[k + 1..];
    assert multiset(s[..n]) == multiset(s) - multiset{s[n]};
  }

  /** The rows of some groups do not depend on the order of the groups. */
  lemma {:induction false} RowsInArranged<T>(rows: seq<seq<T>>, gs: seq<Group<T>>, hs: seq<Group<T>>)
    requires multiset(gs) == multiset(hs) && forall g :: g in gs ==> g.index < |rows|
    ensures forall h :: h in hs ==> h.index < |rows|
    ensures RowsIn(rows, gs) == RowsIn(rows, hs)
    decreases |gs|
  {
    hide RowsIn;
    assert forall h :: h in hs ==> h in multiset(gs);
    if gs == [] {
      assert |multiset(hs)| == |hs|;
    } else {
      var n := |gs| - 1;
      var k := WithoutLast(gs, hs);
      assert gs == gs[..n] + [gs[n]];
      RowsInSnoc(rows, gs[..n], gs[n]);
      RowsInArranged(rows, gs[..n], hs[..k] + hs[k + 1..]);
      RowsInWithout(rows, hs, k);
    }
  }

  lemma RowsInWithout<T>(rows: seq<seq<T>>, hs: seq<Group<T>>, k: nat)
    requires k < |hs| && forall h :: h in hs ==> h.index < |rows|
    ensures RowsIn(rows, hs) == RowsIn(rows, hs[..k] + hs[k + 1..]) + multiset(rows[hs[k].index])
  {
    hide RowsIn;
    var before, after := hs[..k], hs[k + 1..];
    assert hs == before + [hs[k]] + after;
    RowsInConcat(rows, before + [hs[k]], after);
    RowsInSnoc(rows, before, hs[k]);
    RowsInConcat(rows, before, after);
  }

  lemma RowsInSnoc<T>(rows: seq<seq<T>>, gs: seq<Group<T>>, g: Group<T>)
    requires g.index < |rows| && forall h :: h in gs ==> h.index < |rows|
    ensures RowsIn(rows, gs + [g]) == RowsIn(rows, gs) + multiset(rows[g.index])
  {
    assert (gs + [g])[..|gs|] == gs;
  }

  lemma {:induction false} RowsInNotEmpty<T>(rows: seq<seq<T>>, gs: seq<Group<T>>)
    requires forall h :: h in gs ==> h.index < |rows| && |rows[h.index]| == h.numRows
    ensures forall h :: h in Filter(NotEmpty(), gs) ==> h in gs
    ensures RowsIn(rows, Filter(NotEmpty(), gs)) == RowsIn(rows, gs)
  {
    hide Filter, RowsIn;
    FilterSelects(NotEmpty<T>(), gs);
    if gs == [] {
      FilterAll(NotEmpty<T>(), gs);
    } else {
      var n := |gs| - 1;
      RowsInNotEmpty(rows, gs[..n]);
      assert gs == gs[..n] + [gs[n]];
      FilterSnoc(NotEmpty<T>(), gs[..n], gs[n]);
      RowsInSnoc(rows, gs[..n], gs[n]);
      if gs[n].numRows > 0 {
        RowsInSnoc(rows, Filter(NotEmpty(), gs[..n]), gs[n]);
      } else {
        assert Filter(NotEmpty(), gs[..n]) + [] == Filter(NotEmpty(), gs[..n]);
        assert multiset(rows[gs[n].index]) == multiset{};
      }
    }
  }

  lemma {:induction false} RowsInNumbered<T>(rows: seq<seq<T>>, groups: seq<Group<T>>)
    requires Numbered(groups) && |groups| == |rows|
    ensures RowsIn(rows, groups) == RowsOf(rows)
  {
    if groups != [] {
      var n := |groups| - 1;
      RowsInNumbered(rows[..n], groups[..n]);
      RowsInPrefix(rows, groups[..n], n);
      RowsOfSnoc(rows[..n], rows[n]);
      assert rows == rows[..n] + [rows[n]];
    }
  }

  lemma {:induction false} RowsInPrefix<T>(rows: seq<seq<T>>, gs: seq<Group<T>>, n: nat)
    requires n <= |rows| && forall g :: g in gs ==> g.index < n
    ensures RowsIn(rows, gs) == RowsIn(rows[..n], gs)
  {
    if gs != [] {
      RowsInPrefix(rows, gs[..|gs| - 1], n);
    }
  }

  lemma {:induction false} RowInSomeGroup<T>(rows: seq<seq<T>>, gs: seq<Group<T>>, x: T)
    requires (forall g :: g in gs ==> g.index < |rows|) && x in RowsIn(rows, gs)
    ensures exists g :: g in gs && x in rows[g.index]
  {
    var n := |gs| - 1;
    if x in rows[gs[n].index] {
      assert gs[n] in gs;
    } else {
      RowInSomeGroup(rows, gs[..n], x);
    }
  }

  /** Every row of a segment is strictly less than every row of a later one. */
  lemma RowsStrictlyBelow<T(!new)>(
      cmp: (T, T) -> int, rows: seq<seq<T>>, gs: seq<Group<T>>, hs: seq<Group<T>>, x: T, y: T)
    requires TotalPreorder(cmp) && Separated(cmp, gs, hs) && AllEnclosed(cmp, rows, gs) && AllEnclosed(cmp, rows, hs)
    requires x in RowsIn(rows, gs) && y in RowsIn(rows, hs)
    ensures cmp(x, y) < 0
  {
    RowInSomeGroup(rows, gs, x);
    RowInSomeGroup(rows, hs, y);
    var g :| g in gs && x in rows[g.index];
    var h :| h in hs && y in rows[h.index];
    assert StrictlyBelow(cmp, g, h) && EnclosedRows(cmp, rows, g) && EnclosedRows(cmp, rows, h);
    var top, bottom := g.bounds.value.maxRow, h.bounds.value.minRow;
    assert Chained(cmp, bottom, y, x);
    assert Chained(cmp, bottom, x, top);
  }

  /** Each segment is read as a sorted arrangement of its rows. */
  ghost predicate SegmentsRead<T>(
    cmp: (T, T) -> int, rows: seq<seq<T>>, segments: seq<seq<Group<T>>>, outs: seq<seq<T>>)
  {
    && |outs| == |segments|
    && forall s :: 0 <= s < |segments| ==> SegmentRead(cmp, rows, segments[s], outs[s])
  }

  ghost predicate SegmentRead<T>(cmp: (T, T) -> int, rows: seq<seq<T>>, segment: seq<Group<T>>, out: seq<T>) {
    AllEnclosed(cmp, rows, segment) && Sorted(cmp, out) && multiset(out) == RowsIn(rows, segment)
  }

  lemma {:induction false} SegmentsConcat<T(!new)>(
      cmp: (T, T) -> int, rows: seq<seq<T>>, segments: seq<seq<Group<T>>>, outs: seq<seq<T>>)
    requires TotalPreorder(cmp) && SegmentsRead(cmp, rows, segments, outs)
    requires forall s, t :: 0 <= s < t < |segments| ==> Separated(cmp, segments[s], segments[t])
    ensures AllEnclosed(cmp, rows, Concat(segments))
    ensures Sorted(cmp, Concat(outs)) && multiset(Concat(outs)) == RowsIn(rows, Concat(segments))
  {
    hide TotalPreorder, Separated, RowsIn, EnclosedRows, Sorted, AllAtMost;
    SortedNothing(cmp);
    if segments == [] {
      NoSegments(rows, Concat(segments));
    } else {
      var n := |segments| - 1;
      SegmentsConcat(cmp, rows, segments[..n], outs[..n]);
      var gs, hs, before, last := Concat(segments[..n]), segments[n], Concat(outs[..n]), outs[n];
      assert SegmentRead(cmp, rows, hs, last);
      AllSeparated(cmp, segments[..n], hs);
      OutsBelow(cmp, rows, gs, hs, before, last);
      SortedConcat(cmp, before, last);
      Sizes(cmp, rows, gs);
      Sizes(cmp, rows, hs);
      RowsInConcat(rows, gs, hs);
    }
  }

  lemma OutsBelow<T(!new)>(
      cmp: (T, T) -> int, rows: seq<seq<T>>, gs: seq<Group<T>>, hs: seq<Group<T>>, before: seq<T>, last: seq<T>)
    requires TotalPreorder(cmp) && Separated(cmp, gs, hs) && AllEnclosed(cmp, rows, gs) && AllEnclosed(cmp, rows, hs)
    requires multiset(before) == RowsIn(rows, gs) && multiset(last) == RowsIn(rows, hs)
    ensures AllAtMost(cmp, before, last)
  {
    hide TotalPreorder, Separated, RowsIn, AllEnclosed;
    Sizes(cmp, rows, gs);
    Sizes(cmp, rows, hs);
    forall i, j | 0 <= i < |before| && 0 <= j < |last| ensures cmp(before[i], last[j]) <= 0 {
      assert before[i] in multiset(before) && last[j] in multiset(last);
      RowsStrictlyBelow(cmp, rows, gs, hs, before[i], last[j]);
    }
  }

  lemma SortedNothing<T>(cmp: (T, T) -> int)
    ensures Sorted(cmp, [])
  {
  }

  lemma NoSegments<T>(rows: seq<seq<T>>, gs: seq<Group<T>>)
    requires gs == []
    ensures RowsIn(rows, gs) == multiset{}
  {
  }

  lemma {:induction false} AllSeparated<T>(cmp: (T, T) -> int, segments: seq<seq<Group<T>>>, hs: seq<Group<T>>)
    requires forall s :: 0 <= s < |segments| ==> Separated(cmp, segments[s], hs)
    ensures Separated(cmp, Concat(segments), hs)
  {
    if segments != [] {
      AllSeparated(cmp, segments[..|segments| - 1], hs);
      assert Separated(cmp, segments[|segments| - 1], hs);
    }
  }

  /** Reading the segments one after the other gives all rows of all row groups in sorted order. */
  lemma SegmentsReadEverything<T(!new)>(
      cmp: (T, T) -> int, rows: seq<seq<T>>, groups: seq<Group<T>>, arranged: seq<Group<T>>,
      segments: seq<seq<Group<T>>>, outs: seq<seq<T>>)
    requires TotalPreorder(cmp) && Numbered(groups) && |groups| == |rows| && AllEnclosed(cmp, rows, groups)
    requires SegmentsOf(cmp, groups, arranged, segments) && SegmentsRead(cmp, rows, segments, outs)
    ensures Sorted(cmp, Concat(outs)) && multiset(Concat(outs)) == RowsOf(rows)
  {
    hide TotalPreorder, EnclosedRows, RowsIn, Connected, ByMinRow, Sorted, SegmentRead;
    Sizes(cmp, rows, groups);
    RowsInNumbered(rows, groups);
    if BoundsMissing(groups) {
      assert SegmentRead(cmp, rows, segments[0], outs[0]);
      ReadOnly(cmp, rows, segments[0], outs);
      RowsInUnbounded(rows, groups);
    } else {
      SegmentsConcat(cmp, rows, segments, outs);
      RowsInNotEmpty(rows, groups);
      RowsInArranged(rows, Filter(NotEmpty(), groups), arranged);
    }
  }

  lemma ReadOnly<T>(cmp: (T, T) -> int, rows: seq<seq<T>>, segment: seq<Group<T>>, outs: seq<seq<T>>)
    requires |outs| == 1 && SegmentRead(cmp, rows, segment, outs[0])
    ensures forall g :: g in segment ==> g.index < |rows|
    ensures Sorted(cmp, Concat(outs)) && multiset(Concat(outs)) == RowsIn(rows, segment)
  {
    assert forall g :: g in segment ==> EnclosedRows(cmp, rows, g);
    assert outs[..0] == [] && [] + outs[0] == outs[0];
  }

  lemma {:induction false} RowsInUnbounded<T>(rows: seq<seq<T>>, groups: seq<Group<T>>)
    requires forall g :: g in groups ==> g.index < |rows|
    ensures forall g :: g in Unbounded(groups) ==> g.index < |rows|
    ensures RowsIn(rows, Unbounded(groups)) == RowsIn(rows, groups)
  {
    if groups != [] {
      var n := |groups| - 1;
      assert Unbounded(groups)[..n] == Unbounded(groups[..n]);
      RowsInUnbounded(rows, groups[..n]);
      assert groups[n] in groups;
    }
  }

  lemma Sizes<T>(cmp: (T, T) -> int, rows: seq<seq<T>>, groups: seq<Group<T>>)
    requires AllEnclosed(cmp, rows, groups)
    ensures forall g :: g in groups ==> g.index < |rows| && |rows[g.index]| == g.numRows
  {
  }
}
