/** Merging segment by segment, refined or not, against the plain merge of all row groups. */
module MergedSegments {
  import opened KWayMerge
  import opened LoserTree
  import opened MergeTraces
  import opened Orders
  import RefinePlan
  import RefinedMerge
  import opened RowGroupSegments
  import SegmentPlanner
  import opened Sequences
  import opened Sorting
  import opened TieOrder

  ghost function SegmentRows<T>(rows: seq<seq<T>>, segment: seq<Group<T>>): (ins: seq<seq<T>>)
    requires forall g :: g in segment ==> g.index < |rows|
    ensures |ins| == |segment|
  {
    seq(|segment|, i requires 0 <= i < |segment| => GroupRows(rows, segment, i))
  }

  ghost function GroupRows<T>(rows: seq<seq<T>>, segment: seq<Group<T>>, i: nat): seq<T>
    requires i < |segment| && forall g :: g in segment ==> g.index < |rows|
  {
    rows[segment[i].index]
  }

  lemma {:induction false} RowsOfSegment<T>(rows: seq<seq<T>>, segment: seq<Group<T>>)
    requires forall g :: g in segment ==> g.index < |rows|
    ensures RowsOf(SegmentRows(rows, segment)) == RowsIn(rows, segment)
  {
    if segment != [] {
      var n := |segment| - 1;
      RowsOfSegment(rows, segment[..n]);
      assert SegmentRows(rows, segment) == SegmentRows(rows, segment[..n]) + [rows[segment[n].index]];
      RowsOfSnoc(SegmentRows(rows, segment[..n]), rows[segment[n].index]);
    }
  }

  lemma SegmentIsSorted<T>(cmp: (T, T) -> int, rows: seq<seq<T>>, segment: seq<Group<T>>)
    requires AllSorted(cmp, rows) && forall g :: g in segment ==> g.index < |rows|
    ensures AllSorted(cmp, SegmentRows(rows, segment))
  {
    forall i | 0 <= i < |segment| ensures Sorted(cmp, SegmentRows(rows, segment)[i]) {
      assert segment[i] in segment;
      assert Sorted(cmp, rows[segment[i].index]);
    }
  }

  /** Any merge of the row groups of a segment reads the segment. */
  lemma MergedSegmentIsRead<T(!new)>(cmp: (T, T) -> int, rows: seq<seq<T>>, segment: seq<Group<T>>, trace: seq<nat>)
    requires TotalPreorder(cmp) && AllSorted(cmp, rows) && AllEnclosed(cmp, rows, segment)
    requires forall g :: g in segment ==> g.index < |rows|
    requires Greedy(cmp, SegmentRows(rows, segment), trace) && Complete(SegmentRows(rows, segment), trace)
    ensures Fits(SegmentRows(rows, segment), trace)
    ensures SegmentRead(cmp, rows, segment, Output(SegmentRows(rows, segment), trace))
  {
    hide TotalPreorder, AllSorted, Sorted, Greedy, Complete;
    SegmentIsSorted(cmp, rows, segment);
    CompleteMergeIsSortedUnion(cmp, SegmentRows(rows, segment), trace);
    RowsOfSegment(rows, segment);
  }

  /** The k-way reader makes such a merge. */
  lemma TournamentReadsSegment<T(!new)>(cmp: (T, T) -> int, rows: seq<seq<T>>, segment: seq<Group<T>>)
    requires TotalPreorder(cmp) && AllSorted(cmp, rows) && AllEnclosed(cmp, rows, segment)
    requires forall g :: g in segment ==> g.index < |rows|
    ensures Fits(SegmentRows(rows, segment), MergeOrder(cmp, SegmentRows(rows, segment)))
    ensures SegmentRead(cmp, rows, segment, Merged(cmp, SegmentRows(rows, segment)))
  {
    hide TotalPreorder, AllSorted, Sorted, AllEnclosed;
    SegmentIsSorted(cmp, rows, segment);
    TournamentMerges(cmp, SegmentRows(rows, segment));
    MergedSegmentIsRead(cmp, rows, segment, MergeOrder(cmp, SegmentRows(rows, segment)));
  }

  /** So do the calls of the two-way reader, which merges segments of two row groups, however they are made. */
  lemma TwoWayReadsSegment<T(!new)>(cmp: (T, T) -> int, rows: seq<seq<T>>, segment: seq<Group<T>>, calls: seq<Call>)
    requires TotalPreorder(cmp) && AllSorted(cmp, rows) && AllEnclosed(cmp, rows, segment) && |segment| == 2
    requires forall g :: g in segment ==> g.index < |rows|
    requires var ins := SegmentRows(rows, segment); CallsComplete(cmp, ins[0], ins[1], calls)
    ensures
      var ins := SegmentRows(rows, segment);
      var trace := CallsTrace(cmp, ins[0], ins[1], calls);
      Fits(ins, trace) && SegmentRead(cmp, rows, segment, Output(ins, trace))
  {
    hide TotalPreorder, AllSorted, Sorted, AllEnclosed, CanCallAll;
    var ins := SegmentRows(rows, segment);
    SegmentIsSorted(cmp, rows, segment);
    CallsMerge(cmp, ins, calls);
    MergedSegmentIsRead(cmp, rows, segment, CallsTrace(cmp, ins[0], ins[1], calls));
  }

  /** So does reading a refined plan of the segment, whichever way its entries are merged. */
  lemma RefinedSegmentIsRead<T(!new)>(
      cmp: (T, T) -> int, rows: seq<seq<T>>, segment: seq<Group<T>>, plan: seq<RefinePlan.Entry>, traces: seq<seq<nat>>)
    requires TotalPreorder(cmp) && AllSorted(cmp, rows) && AllEnclosed(cmp, rows, segment)
    requires forall g :: g in segment ==> g.index < |rows|
    requires var ins := SegmentRows(rows, segment);
      RefinePlan.PlanInv(cmp, ins, plan, [], SegmentPlanner.Lengths(ins)) && RefinedMerge.AllMerge(cmp, ins, plan, traces)
    ensures SegmentRead(cmp, rows, segment, Concat(RefinedMerge.ReadPlan(cmp, SegmentRows(rows, segment), plan, traces)))
  {
    hide TotalPreorder, AllSorted, Sorted;
    var ins := SegmentRows(rows, segment);
    SegmentIsSorted(cmp, rows, segment);
    TournamentMerges(cmp, ins);
    RefinedMerge.RefinedReadsLikePlain(cmp, ins, plan, traces, MergeOrder(cmp, ins));
    RowsOfSegment(rows, segment);
  }

  /**
   * Whichever way each segment is read, the segments one after the other give the rows of any merge of all row groups,
   * in an order that differs at most between rows that compare equal.
   */
  lemma SegmentsReadLikePlain<T(!new)>(
      cmp: (T, T) -> int, rows: seq<seq<T>>, groups: seq<Group<T>>, arranged: seq<Group<T>>,
      segments: seq<seq<Group<T>>>, outs: seq<seq<T>>, plainTrace: seq<nat>)
    requires TotalPreorder(cmp) && AllSorted(cmp, rows)
    requires Numbered(groups) && |groups| == |rows| && AllEnclosed(cmp, rows, groups)
    requires SegmentsOf(cmp, groups, arranged, segments) && SegmentsRead(cmp, rows, segments, outs)
    requires Greedy(cmp, rows, plainTrace) && Complete(rows, plainTrace)
    ensures Fits(rows, plainTrace)
    ensures var out, plain := Concat(outs), Output(rows, plainTrace);
      && Sorted(cmp, out) && multiset(out) == multiset(plain)
      && |out| == |plain| && forall i :: 0 <= i < |out| ==> cmp(out[i], plain[i]) == 0
  {
    hide TotalPreorder, AllSorted, AllEnclosed, SegmentsOf, SegmentsRead, Greedy, Complete;
    SegmentsReadEverything(cmp, rows, groups, arranged, segments, outs);
    CompleteMergeIsSortedUnion(cmp, rows, plainTrace);
    SortedArrangementsTie(cmp, Concat(outs), Output(rows, plainTrace));
  }
}
