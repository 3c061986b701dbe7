/** Plans of merge regions: what a refined plan has to satisfy, and how it is built up. */
module RefinePlan {
  import opened MergeTraces
  import opened Orders
  import opened Sequences
  import opened Sorting

  /** Rows [off, end) of a row group of the segment. */
  datatype Part = Part(index: nat, off: nat, end: nat)

  /** A plan entry: rows of a single row group, or several parts to be merged. */
  datatype Entry = Single(part: Part) | Merge(parts: seq<Part>)

  function PartsOf(e: Entry): seq<Part> {
    match e
    case Single(p) => [p]
    case Merge(ps) => ps
  }

  ghost function Flat(plan: seq<Entry>): seq<Part> {
    if plan == [] then [] else Flat(plan[..|plan| - 1]) + PartsOf(plan[|plan| - 1])
  }

  lemma FlatSnoc(plan: seq<Entry>, e: Entry)
    ensures Flat(plan + [e]) == Flat(plan) + PartsOf(e)
  {
    assert (plan + [e])[..|plan|] == plan;
  }

  function IndexCmp(a: Part, b: Part): int {
    a.index - b.index
  }

  /** Closes a region: nothing, its only part, or a merge of its parts in index order. */
  function Close(plan: seq<Entry>, region: seq<Part>): seq<Entry> {
    if |region| == 0 then plan
    else if |region| == 1 then plan + [Single(region[0])]
    else plan + [Merge(StableSort(IndexCmp, region))]
  }

  // ----- rows of parts -----

  ghost predicate ValidPart<T>(rows: seq<seq<T>>, p: Part) {
    p.index < |rows| && p.off < p.end <= |rows[p.index]|
  }

  ghost predicate ValidParts<T>(rows: seq<seq<T>>, ps: seq<Part>) {
    forall p :: p in ps ==> ValidPart(rows, p)
  }

  ghost function PartRows<T>(rows: seq<seq<T>>, p: Part): seq<T>
    requires ValidPart(rows, p)
  {
    rows[p.index][p.off..p.end]
  }

  /** Every row of `p` is at most every row of `q`. */
  ghost predicate PartBelow<T>(cmp: (T, T) -> int, rows: seq<seq<T>>, p: Part, q: Part) {
    ValidPart(rows, p) && ValidPart(rows, q) && AllAtMost(cmp, PartRows(rows, p), PartRows(rows, q))
  }

  ghost predicate Below<T>(cmp: (T, T) -> int, rows: seq<seq<T>>, ps: seq<Part>, qs: seq<Part>) {
    forall p, q :: p in ps && q in qs ==> PartBelow(cmp, rows, p, q)
  }

  /** The rows of each row group from its cursor on have not been planned yet. */
  ghost predicate Cursors<T>(rows: seq<seq<T>>, cursors: seq<nat>) {
    |cursors| == |rows| && forall i :: 0 <= i < |rows| ==> cursors[i] <= |rows[i]|
  }

  ghost predicate PartBelowRest<T>(cmp: (T, T) -> int, rows: seq<seq<T>>, p: Part, i: nat, from: nat) {
    ValidPart(rows, p) && i < |rows| && from <= |rows[i]| && AllAtMost(cmp, PartRows(rows, p), rows[i][from..])
  }

  ghost predicate BelowRest<T>(cmp: (T, T) -> int, rows: seq<seq<T>>, ps: seq<Part>, cursors: seq<nat>)
    requires |cursors| == |rows|
  {
    forall p, i :: p in ps && 0 <= i < |rows| ==> PartBelowRest(cmp, rows, p, i, cursors[i])
  }

  // ----- coverage -----

  ghost function Of(i: nat): Part -> bool {
    (p: Part) => p.index == i
  }

  /** The parts are consecutive ranges from 0 to `c`. */
  ghost predicate Consecutive(ps: seq<Part>, c: nat) {
    if ps == [] then c == 0
    else
      var last := ps[|ps| - 1];
      last.end == c && last.off < last.end && Consecutive(ps[..|ps| - 1], last.off)
  }

  ghost predicate Covers(parts: seq<Part>, cursors: seq<nat>) {
    forall i: nat :: i < |cursors| ==> Consecutive(Filter(Of(i), parts), cursors[i])
  }

  /** At most one part of each row group. */
  ghost predicate OneEach(ps: seq<Part>) {
    forall k, l :: 0 <= k < l < |ps| ==> ps[k].index != ps[l].index
  }

  /** Parts are listed in the order of their row groups, at most one of each. */
  ghost predicate InIndexOrder(ps: seq<Part>) {
    forall k, l :: 0 <= k < l < |ps| ==> ps[k].index < ps[l].index
  }

  ghost predicate EntriesInOrder(plan: seq<Entry>) {
    forall e :: 0 <= e < |plan| ==> InIndexOrder(PartsOf(plan[e]))
  }

  lemma InOrderIsOneEach(ps: seq<Part>)
    requires InIndexOrder(ps)
    ensures OneEach(ps)
  {
  }

  lemma SortedByIndex(ps: seq<Part>)
    requires OneEach(ps) && Sorted(IndexCmp, ps)
    ensures InIndexOrder(ps)
  {
    forall k, l | 0 <= k < l < |ps| ensures ps[k].index < ps[l].index {
      assert IndexCmp(ps[k], ps[l]) <= 0;
    }
  }

  lemma IndexCmpIsTotal()
    ensures TotalPreorder(IndexCmp)
  {
  }

  lemma {:induction false} FilterEmpty(ps: seq<Part>, i: nat)
    ensures Filter(Of(i), ps) == [] <==> forall p :: p in ps ==> p.index != i
  {
    if ps != [] {
      var n := |ps| - 1;
      FilterEmpty(ps[..n], i);
      assert ps == ps[..n] + [ps[n]];
    }
  }

  /** A part of each row group at most, in terms of the parts of one row group. */
  lemma {:induction false} OneEachOf(ps: seq<Part>)
    ensures OneEach(ps) <==> forall i: nat :: |Filter(Of(i), ps)| <= 1
  {
    if ps != [] {
      var n := |ps| - 1;
      var init := ps[..n];
      OneEachOf(init);
      FilterEmpty(init, ps[n].index);
      assert ps == init + [ps[n]];
      hide Filter;
      FilterSnocs(init, ps[n]);
      if OneEach(ps) {
        forall i: nat ensures |Filter(Of(i), ps)| <= 1 {
          assert |Filter(Of(i), init)| <= 1;
        }
      } else if OneEach(init) {
        var k, l :| 0 <= k < l < |ps| && ps[k].index == ps[l].index;
        assert l == n && init[k] == ps[k];
      } else {
        var i: nat :| |Filter(Of(i), init)| > 1;
      }
    }
  }

  lemma FilterSnocs(ps: seq<Part>, p: Part)
    ensures forall i: nat :: Filter(Of(i), ps + [p]) == Filter(Of(i), ps) + if p.index == i then [p] else []
  {
    forall i: nat ensures Filter(Of(i), ps + [p]) == Filter(Of(i), ps) + if p.index == i then [p] else [] {
      FilterSnoc(Of(i), ps, p);
    }
  }

  /** A closed region lists its parts in the order of their row groups. */
  lemma CloseInOrder(plan: seq<Entry>, region: seq<Part>)
    requires OneEach(region) && EntriesInOrder(plan)
    ensures EntriesInOrder(Close(plan, region))
  {
    if |region| > 1 {
      hide OneEach;
      var sorted := StableSort(IndexCmp, region);
      OneEachOf(region);
      OneEachOf(sorted);
      forall i: nat ensures |Filter(Of(i), sorted)| <= 1 {
        SortIsStable(IndexCmp, region, Of(i));
      }
      IndexCmpIsTotal();
      SortSorts(IndexCmp, region);
      SortedByIndex(sorted);
    }
  }

  // ----- the invariant of a plan under construction -----

  ghost predicate Ordered<T>(cmp: (T, T) -> int, rows: seq<seq<T>>, plan: seq<Entry>) {
    forall a, b :: 0 <= a < b < |plan| ==> Below(cmp, rows, PartsOf(plan[a]), PartsOf(plan[b]))
  }

  ghost predicate PlanInv<T>(
    cmp: (T, T) -> int, rows: seq<seq<T>>, plan: seq<Entry>, region: seq<Part>, cursors: seq<nat>)
  {
    && Cursors(rows, cursors)
    && ValidParts(rows, Flat(plan)) && ValidParts(rows, region)
    && Ordered(cmp, rows, plan)
    && Below(cmp, rows, Flat(plan), region)
    && BelowRest(cmp, rows, Flat(plan), cursors)
    && Covers(Flat(plan) + region, cursors)
    && OneEach(region) && EntriesInOrder(plan)
  }

  lemma EmptyPlan<T>(cmp: (T, T) -> int, rows: seq<seq<T>>, cursors: seq<nat>)
    requires |cursors| == |rows| && forall i :: 0 <= i < |rows| ==> cursors[i] == 0
    ensures PlanInv(cmp, rows, [], [], cursors)
  {
  }

  /** Moving the next rows of a row group into the open region keeps the invariant. */
  lemma Extend<T>(
      cmp: (T, T) -> int, rows: seq<seq<T>>, plan: seq<Entry>, region: seq<Part>, cursors: seq<nat>, i: nat, to: nat)
    requires PlanInv(cmp, rows, plan, region, cursors)
    requires i < |rows| && cursors[i] < to <= |rows[i]| && forall p :: p in region ==> p.index != i
    ensures PlanInv(cmp, rows, plan, region + [Part(i, cursors[i], to)], cursors[i := to])
  {
    hide Filter, Consecutive, Flat, EntriesInOrder, Ordered, AllAtMost;
    var part, next := Part(i, cursors[i], to), cursors[i := to];
    var flat := Flat(plan);
    forall p | p in flat ensures PartBelow(cmp, rows, p, part) {
      assert PartBelowRest(cmp, rows, p, i, cursors[i]);
      assert PartRows(rows, part) == rows[i][cursors[i]..][..to - cursors[i]];
      AtMostSlices(cmp, PartRows(rows, p), rows[i][cursors[i]..], to - cursors[i]);
    }
    forall p, j | p in flat && 0 <= j < |rows| ensures PartBelowRest(cmp, rows, p, j, next[j]) {
      assert PartBelowRest(cmp, rows, p, j, cursors[j]);
      assert rows[i][to..] == rows[i][cursors[i]..][to - cursors[i]..];
      assert PartBelowRest(cmp, rows, p, i, cursors[i]);
      AtMostSlices(cmp, PartRows(rows, p), rows[i][cursors[i]..], to - cursors[i]);
    }
    forall j: nat | j < |rows| ensures Consecutive(Filter(Of(j), flat + (region + [part])), next[j]) {
      assert Consecutive(Filter(Of(j), flat + region), cursors[j]);
      assert flat + (region + [part]) == flat + region + [part];
      FilterSnoc(Of(j), flat + region, part);
      ConsecutiveSnoc(Filter(Of(j), flat + region), cursors[j], part);
    }
  }

  lemma AtMostSlices<T>(cmp: (T, T) -> int, s: seq<T>, t: seq<T>, n: nat)
    requires AllAtMost(cmp, s, t) && n <= |t|
    ensures AllAtMost(cmp, s, t[..n]) && AllAtMost(cmp, s, t[n..])
  {
  }

  lemma ConsecutiveSnoc(ps: seq<Part>, c: nat, p: Part)
    requires Consecutive(ps, c) && p.off < p.end
    ensures p.off == c ==> Consecutive(ps + [p], p.end)
    ensures ps + [] == ps
  {
    assert (ps + [p])[..|ps|] == ps;
  }

  lemma ClosedParts(plan: seq<Entry>, region: seq<Part>)
    ensures forall p :: p in Flat(Close(plan, region)) <==> p in Flat(plan) || p in region
    ensures region != [] ==>
      var n := |Close(plan, region)| - 1;
      n == |plan| && Close(plan, region)[..n] == plan && forall p :: p in PartsOf(Close(plan, region)[n]) <==> p in region
    ensures forall i: nat :: Filter(Of(i), Flat(Close(plan, region))) == Filter(Of(i), Flat(plan) + region)
  {
    if |region| == 0 {
      assert Flat(plan) + region == Flat(plan);
    } else {
      var e := if |region| == 1 then Single(region[0]) else Merge(StableSort(IndexCmp, region));
      assert Close(plan, region) == plan + [e];
      FlatSnoc(plan, e);
      SortKeepsElements(IndexCmp, region);
      forall p ensures p in PartsOf(e) <==> p in region {
        assert p in region <==> p in multiset(region);
        assert p in StableSort(IndexCmp, region) <==> p in multiset(StableSort(IndexCmp, region));
      }
      forall i: nat ensures Filter(Of(i), Flat(plan + [e])) == Filter(Of(i), Flat(plan) + region) {
        SortIsStable(IndexCmp, region, Of(i));
        FilterConcat(Of(i), Flat(plan), PartsOf(e));
        FilterConcat(Of(i), Flat(plan), region);
        assert |region| == 1 ==> PartsOf(e) == region;
      }
    }
  }

  /** Closing the region keeps the invariant when all its rows are at most all rows not planned yet. */
  lemma CloseKeeps<T>(cmp: (T, T) -> int, rows: seq<seq<T>>, plan: seq<Entry>, region: seq<Part>, cursors: seq<nat>)
    requires PlanInv(cmp, rows, plan, region, cursors)
    requires BelowRest(cmp, rows, region, cursors)
    ensures PlanInv(cmp, rows, Close(plan, region), [], cursors)
  {
    ClosedParts(plan, region);
    var plan' := Close(plan, region);
    forall a, b | 0 <= a < b < |plan'| ensures Below(cmp, rows, PartsOf(plan'[a]), PartsOf(plan'[b])) {
      if b == |plan| {
        assert plan'[a] == plan[a];
        EntryInFlat(plan, a);
      } else {
        assert plan'[a] == plan[a] && plan'[b] == plan[b];
      }
    }
    assert Flat(plan') + [] == Flat(plan');
    CloseInOrder(plan, region);
  }

  lemma {:induction false} EntryInFlat(plan: seq<Entry>, a: nat)
    requires a < |plan|
    ensures forall p :: p in PartsOf(plan[a]) ==> p in Flat(plan)
  {
    if a < |plan| - 1 {
      EntryInFlat(plan[..|plan| - 1], a);
    }
  }

  // ----- what a finished plan reads -----

  ghost function Join<T>(rows: seq<seq<T>>, ps: seq<Part>): seq<T>
    requires ValidParts(rows, ps)
  {
    if ps == [] then [] else Join(rows, ps[..|ps| - 1]) + PartRows(rows, ps[|ps| - 1])
  }

  lemma JoinSnoc<T>(rows: seq<seq<T>>, ps: seq<Part>, p: Part)
    requires ValidParts(rows, ps) && ValidPart(rows, p)
    ensures ValidParts(rows, ps + [p]) && Join(rows, ps + [p]) == Join(rows, ps) + PartRows(rows, p)
  {
    assert (ps + [p])[..|ps|] == ps;
  }

  lemma {:induction false} FilterValid<T>(rows: seq<seq<T>>, ps: seq<Part>, i: nat)
    requires ValidParts(rows, ps)
    ensures ValidParts(rows, Filter(Of(i), ps))
    ensures forall p :: p in Filter(Of(i), ps) ==> p.index == i
  {
    if ps != [] {
      FilterValid(rows, ps[..|ps| - 1], i);
    }
  }

  /** Consecutive parts of one row group read its rows up to the last cut, in order. */
  lemma {:induction false} ConsecutiveRows<T>(rows: seq<seq<T>>, ps: seq<Part>, i: nat, c: nat)
    requires ValidParts(rows, ps) && i < |rows| && Consecutive(ps, c)
    requires forall p :: p in ps ==> p.index == i
    ensures c <= |rows[i]| && Join(rows, ps) == rows[i][..c]
  {
    if ps != [] {
      var last := ps[|ps| - 1];
      ConsecutiveRows(rows, ps[..|ps| - 1], i, last.off);
      assert ValidPart(rows, last);
      assert rows[i][..c] == rows[i][..last.off] + rows[i][last.off..c];
    }
  }

  /** In a complete plan, the parts of each row group, in plan order, are its rows, each once and in order. */
  lemma EachRowGroupIsCovered<T>(cmp: (T, T) -> int, rows: seq<seq<T>>, plan: seq<Entry>, cursors: seq<nat>, i: nat)
    requires PlanInv(cmp, rows, plan, [], cursors) && i < |rows| && cursors[i] == |rows[i]|
    ensures ValidParts(rows, Filter(Of(i), Flat(plan)))
    ensures Join(rows, Filter(Of(i), Flat(plan))) == rows[i]
  {
    FilterValid(rows, Flat(plan), i);
    assert Flat(plan) + [] == Flat(plan);
    ConsecutiveRows(rows, Filter(Of(i), Flat(plan)), i, cursors[i]);
  }

  ghost function ByGroup<T>(rows: seq<seq<T>>, ps: seq<Part>): (r: seq<seq<T>>)
    requires ValidParts(rows, ps)
    ensures |r| == |rows|
  {
    seq(|rows|, i requires 0 <= i < |rows| => FilterValid(rows, ps, i); Join(rows, Filter(Of(i), ps)))
  }

  lemma GroupsAfter<T>(rows: seq<seq<T>>, ps: seq<Part>, p: Part)
    requires ValidParts(rows, ps) && ValidPart(rows, p) && ValidParts(rows, ps + [p])
    ensures var before := ByGroup(rows, ps);
      ByGroup(rows, ps + [p]) == before[p.index := before[p.index] + PartRows(rows, p)]
  {
    var before := ByGroup(rows, ps);
    var after, expected := ByGroup(rows, ps + [p]), before[p.index := before[p.index] + PartRows(rows, p)];
    forall i: nat | i < |rows| ensures after[i] == expected[i] {
      FilterValid(rows, ps, i);
      FilterSnoc(Of(i), ps, p);
      if i == p.index {
        JoinSnoc(rows, Filter(Of(i), ps), p);
      } else {
        assert Filter(Of(i), ps) + [] == Filter(Of(i), ps);
      }
    }
  }

  /** The rows of all parts together are the rows of the parts of each row group together. */
  lemma {:induction false} PartsByGroup<T>(rows: seq<seq<T>>, ps: seq<Part>)
    requires ValidParts(rows, ps)
    ensures multiset(Join(rows, ps)) == RowsOf(ByGroup(rows, ps))
  {
    hide ByGroup, RowsOf, PartRows;
    if ps == [] {
      NoGroups(rows);
    } else {
      var n := |ps| - 1;
      var p, init := ps[n], ps[..n];
      assert ps == init + [p];
      assert ValidPart(rows, p);
      PartsByGroup(rows, init);
      var before, after := ByGroup(rows, init), ByGroup(rows, ps);
      var grown := before[p.index] + PartRows(rows, p);
      GroupsAfter(rows, init, p);
      RowsOfUpdate(before, p.index, grown);
      assert multiset(grown) == multiset(before[p.index]) + multiset(PartRows(rows, p));
      AddPart(RowsOf(after), RowsOf(before), multiset(before[p.index]), multiset(PartRows(rows, p)));
    }
  }

  lemma NoGroups<T>(rows: seq<seq<T>>)
    ensures RowsOf(ByGroup(rows, [])) == multiset{}
  {
    RowsOfEmpty(ByGroup(rows, []));
  }

  lemma AddPart<T>(after: multiset<T>, before: multiset<T>, m: multiset<T>, p: multiset<T>)
    requires after + m == before + (m + p)
    ensures after == before + p
  {
    assert before + (m + p) == before + p + m;
    MultisetCancel(after, before + p, m);
  }

  /** Each plan entry is read as a sorted arrangement of the rows of its parts. */
  ghost predicate ReadsOf<T>(cmp: (T, T) -> int, rows: seq<seq<T>>, plan: seq<Entry>, outs: seq<seq<T>>)
    requires ValidParts(rows, Flat(plan))
  {
    && |outs| == |plan|
    && forall e: nat :: e < |plan| ==> ReadOf(cmp, rows, PartsOf(plan[e]), outs[e])
  }

  ghost predicate ReadOf<T>(cmp: (T, T) -> int, rows: seq<seq<T>>, ps: seq<Part>, out: seq<T>) {
    ValidParts(rows, ps) && Sorted(cmp, out) && multiset(out) == multiset(Join(rows, ps))
  }

  lemma {:induction false} JoinConcat<T>(rows: seq<seq<T>>, ps: seq<Part>, qs: seq<Part>)
    requires ValidParts(rows, ps) && ValidParts(rows, qs)
    ensures ValidParts(rows, ps + qs) && Join(rows, ps + qs) == Join(rows, ps) + Join(rows, qs)
  {
    hide ValidPart, PartRows;
    if qs == [] {
      assert ps + qs == ps && Join(rows, ps) + [] == Join(rows, ps);
    } else {
      var n := |qs| - 1;
      hide Join;
      assert qs == qs[..n] + [qs[n]] && ps + qs == (ps + qs[..n]) + [qs[n]];
      JoinConcat(rows, ps, qs[..n]);
      JoinSnoc(rows, ps + qs[..n], qs[n]);
      JoinSnoc(rows, qs[..n], qs[n]);
    }
  }

  lemma {:induction false} RowOfSomePart<T>(rows: seq<seq<T>>, ps: seq<Part>, x: T)
    requires ValidParts(rows, ps) && x in Join(rows, ps)
    ensures exists p :: p in ps && ValidPart(rows, p) && x in PartRows(rows, p)
  {
    var n := |ps| - 1;
    if x in PartRows(rows, ps[n]) {
    } else {
      RowOfSomePart(rows, ps[..n], x);
    }
  }

  /** Rows read from an entry are at most rows read from another when its parts are below the other's. */
  lemma ReadsBelow<T>(
      cmp: (T, T) -> int, rows: seq<seq<T>>, ps: seq<Part>, qs: seq<Part>, out: seq<T>, out': seq<T>)
    requires Below(cmp, rows, ps, qs) && ValidParts(rows, ps) && ValidParts(rows, qs)
    requires multiset(out) == multiset(Join(rows, ps)) && multiset(out') == multiset(Join(rows, qs))
    ensures AllAtMost(cmp, out, out')
  {
    forall i, j | 0 <= i < |out| && 0 <= j < |out'| ensures cmp(out[i], out'[j]) <= 0 {
      assert out[i] in multiset(Join(rows, ps)) && out'[j] in multiset(Join(rows, qs));
      RowOfSomePart(rows, ps, out[i]);
      RowOfSomePart(rows, qs, out'[j]);
      var p :| p in ps && ValidPart(rows, p) && out[i] in PartRows(rows, p);
      var q :| q in qs && ValidPart(rows, q) && out'[j] in PartRows(rows, q);
      assert PartBelow(cmp, rows, p, q);
    }
  }

  lemma {:induction false} ReadsInOrder<T>(cmp: (T, T) -> int, rows: seq<seq<T>>, plan: seq<Entry>, outs: seq<seq<T>>)
    requires ValidParts(rows, Flat(plan)) && Ordered(cmp, rows, plan) && ReadsOf(cmp, rows, plan, outs)
    ensures Sorted(cmp, Concat(outs)) && multiset(Concat(outs)) == multiset(Join(rows, Flat(plan)))
  {
    if plan == [] {
      assert multiset(Join(rows, [])) == multiset{};
    } else {
      var n := |plan| - 1;
      var init, e := plan[..n], plan[n];
      FlatSnoc(init, e);
      assert plan == init + [e];
      hide Flat, Join, Below, PartsOf, Sorted;
      InitInOrder(cmp, rows, plan, outs);
      ReadsInOrder(cmp, rows, init, outs[..n]);
      assert ReadOf(cmp, rows, PartsOf(e), outs[n]);
      JoinConcat(rows, Flat(init), PartsOf(e));
      InitBelowLast(cmp, rows, plan);
      ReadsBelow(cmp, rows, Flat(init), PartsOf(e), Concat(outs[..n]), outs[n]);
      SortedConcat(cmp, Concat(outs[..n]), outs[n]);
    }
  }

  lemma InitInOrder<T>(cmp: (T, T) -> int, rows: seq<seq<T>>, plan: seq<Entry>, outs: seq<seq<T>>)
    requires ValidParts(rows, Flat(plan)) && Ordered(cmp, rows, plan) && ReadsOf(cmp, rows, plan, outs) && plan != []
    ensures var n := |plan| - 1;
      ValidParts(rows, Flat(plan[..n])) && Ordered(cmp, rows, plan[..n]) && ReadsOf(cmp, rows, plan[..n], outs[..n])
  {
    hide Below, ReadOf, PartsOf, ValidPart;
    var n := |plan| - 1;
    forall a, b | 0 <= a < b < n ensures Below(cmp, rows, PartsOf(plan[..n][a]), PartsOf(plan[..n][b])) {
      assert Below(cmp, rows, PartsOf(plan[a]), PartsOf(plan[b]));
    }
    forall k: nat | k < n ensures ReadOf(cmp, rows, PartsOf(plan[..n][k]), outs[..n][k]) {
      assert ReadOf(cmp, rows, PartsOf(plan[k]), outs[k]);
    }
  }

  lemma InitBelowLast<T>(cmp: (T, T) -> int, rows: seq<seq<T>>, plan: seq<Entry>)
    requires Ordered(cmp, rows, plan) && plan != []
    ensures Below(cmp, rows, Flat(plan[..|plan| - 1]), PartsOf(plan[|plan| - 1]))
  {
    hide PartBelow, PartsOf, Flat;
    var n := |plan| - 1;
    forall p, q | p in Flat(plan[..n]) && q in PartsOf(plan[n]) ensures PartBelow(cmp, rows, p, q) {
      var a := InSomeEntry(plan[..n], p);
      assert Below(cmp, rows, PartsOf(plan[a]), PartsOf(plan[n]));
    }
  }

  lemma {:induction false} InSomeEntry(plan: seq<Entry>, p: Part) returns (a: nat)
    requires p in Flat(plan)
    ensures a < |plan| && p in PartsOf(plan[a])
  {
    var n := |plan| - 1;
    if p in PartsOf(plan[n]) {
      a := n;
    } else {
      a := InSomeEntry(plan[..n], p);
    }
  }

  /** Reading a complete plan entry by entry gives a sorted arrangement of all rows of all row groups. */
  lemma PlanReadsEverything<T>(
      cmp: (T, T) -> int, rows: seq<seq<T>>, plan: seq<Entry>, cursors: seq<nat>, outs: seq<seq<T>>)
    requires PlanInv(cmp, rows, plan, [], cursors) && forall i :: 0 <= i < |rows| ==> cursors[i] == |rows[i]|
    requires ReadsOf(cmp, rows, plan, outs)
    ensures Sorted(cmp, Concat(outs)) && multiset(Concat(outs)) == RowsOf(rows)
  {
    ReadsInOrder(cmp, rows, plan, outs);
    PartsByGroup(rows, Flat(plan));
    forall i: nat | i < |rows| ensures ByGroup(rows, Flat(plan))[i] == rows[i] {
      EachRowGroupIsCovered(cmp, rows, plan, cursors, i);
    }
    assert ByGroup(rows, Flat(plan)) == rows;
  }
}
