/** Reading a refined plan entry by entry gives what the plain merge of the whole segment gives, up to tied rows. */
module RefinedMerge {
  import opened LoserTree
  import opened MergeTraces
  import opened Orders
  import opened RefinePlan
  import opened SegmentPlanner
  import opened Sequences
  import opened Sorting
  import opened TieOrder

  ghost function PartInputs<T>(rows: seq<seq<T>>, ps: seq<Part>): (ins: seq<seq<T>>)
    requires ValidParts(rows, ps)
    ensures |ins| == |ps|
  {
    seq(|ps|, i requires 0 <= i < |ps| => PartAt(rows, ps, i))
  }

  ghost function PartAt<T>(rows: seq<seq<T>>, ps: seq<Part>, i: nat): seq<T>
    requires ValidParts(rows, ps) && i < |ps|
  {
    PartRows(rows, ps[i])
  }

  lemma PartsAreSorted<T>(cmp: (T, T) -> int, rows: seq<seq<T>>, ps: seq<Part>)
    requires AllSorted(cmp, rows) && ValidParts(rows, ps)
    ensures AllSorted(cmp, PartInputs(rows, ps))
  {
    forall i | 0 <= i < |ps| ensures Sorted(cmp, PartInputs(rows, ps)[i]) {
      assert ps[i] in ps && ValidPart(rows, ps[i]);
      assert Sorted(cmp, rows[ps[i].index]);
      assert PartInputs(rows, ps)[i] == rows[ps[i].index][ps[i].off..ps[i].end];
    }
  }

  lemma {:induction false} PartInputsAreJoined<T>(rows: seq<seq<T>>, ps: seq<Part>)
    requires ValidParts(rows, ps)
    ensures RowsOf(PartInputs(rows, ps)) == multiset(Join(rows, ps))
  {
    hide PartInputs, PartRows, RowsOf;
    if ps == [] {
      NoParts(rows);
    } else {
      var n := |ps| - 1;
      PartInputsAreJoined(rows, ps[..n]);
      LastPart(rows, ps);
      RowsOfSnoc(PartInputs(rows, ps[..n]), PartRows(rows, ps[n]));
    }
  }

  lemma NoParts<T>(rows: seq<seq<T>>)
    ensures RowsOf(PartInputs(rows, [])) == multiset{}
  {
  }

  lemma LastPart<T>(rows: seq<seq<T>>, ps: seq<Part>)
    requires ValidParts(rows, ps) && ps != []
    ensures var n := |ps| - 1;
      ValidPart(rows, ps[n]) && ValidParts(rows, ps[..n])
      && PartInputs(rows, ps) == PartInputs(rows, ps[..n]) + [PartRows(rows, ps[n])]
      && Join(rows, ps) == Join(rows, ps[..n]) + PartRows(rows, ps[n])
  {
    var n := |ps| - 1;
    assert ps[n] in ps;
    assert PartInputs(rows, ps) == PartInputs(rows, ps[..n]) + [PartRows(rows, ps[n])];
  }

  // ----- reading a plan -----

  /** A trace of a merge of the parts of an entry, from beginning to end. */
  ghost predicate Merges<T>(cmp: (T, T) -> int, rows: seq<seq<T>>, e: Entry, trace: seq<nat>) {
    && ValidParts(rows, PartsOf(e))
    && var ins := PartInputs(rows, PartsOf(e));
       Fits(ins, trace) && Greedy(cmp, ins, trace) && Complete(ins, trace)
  }

  /** One such trace for each entry of the plan. */
  ghost predicate AllMerge<T>(cmp: (T, T) -> int, rows: seq<seq<T>>, plan: seq<Entry>, traces: seq<seq<nat>>) {
    |traces| == |plan| && forall e: nat :: e < |plan| ==> Merges(cmp, rows, plan[e], traces[e])
  }

  ghost function ReadEntry<T>(cmp: (T, T) -> int, rows: seq<seq<T>>, e: Entry, trace: seq<nat>): seq<T>
    requires Merges(cmp, rows, e, trace)
  {
    Output(PartInputs(rows, PartsOf(e)), trace)
  }

  /** What the entries read, one after the other. */
  ghost function ReadPlan<T>(cmp: (T, T) -> int, rows: seq<seq<T>>, plan: seq<Entry>, traces: seq<seq<nat>>)
    : (outs: seq<seq<T>>)
    requires AllMerge(cmp, rows, plan, traces)
    ensures |outs| == |plan|
  {
    seq(|plan|, e requires 0 <= e < |plan| => ReadAt(cmp, rows, plan, traces, e))
  }

  ghost function ReadAt<T>(cmp: (T, T) -> int, rows: seq<seq<T>>, plan: seq<Entry>, traces: seq<seq<nat>>, e: nat): seq<T>
    requires AllMerge(cmp, rows, plan, traces) && e < |plan|
  {
    ReadEntry(cmp, rows, plan[e], traces[e])
  }

  lemma EntryIsRead<T(!new)>(cmp: (T, T) -> int, rows: seq<seq<T>>, e: Entry, trace: seq<nat>)
    requires TotalPreorder(cmp) && AllSorted(cmp, rows) && Merges(cmp, rows, e, trace)
    ensures ReadOf(cmp, rows, PartsOf(e), ReadEntry(cmp, rows, e, trace))
  {
    PartsAreSorted(cmp, rows, PartsOf(e));
    CompleteMergeIsSortedUnion(cmp, PartInputs(rows, PartsOf(e)), trace);
    PartInputsAreJoined(rows, PartsOf(e));
  }

  lemma PlanIsRead<T(!new)>(cmp: (T, T) -> int, rows: seq<seq<T>>, plan: seq<Entry>, traces: seq<seq<nat>>)
    requires TotalPreorder(cmp) && AllSorted(cmp, rows) && ValidParts(rows, Flat(plan))
    requires AllMerge(cmp, rows, plan, traces)
    ensures ReadsOf(cmp, rows, plan, ReadPlan(cmp, rows, plan, traces))
  {
    hide TotalPreorder, AllSorted, ReadOf, Merges;
    forall e: nat | e < |plan| ensures ReadOf(cmp, rows, PartsOf(plan[e]), ReadPlan(cmp, rows, plan, traces)[e]) {
      EntryIsRead(cmp, rows, plan[e], traces[e]);
    }
  }

  /** The k-way reader merges any entry, and reads an entry of a single part as it is. */
  lemma TournamentMergesEntry<T(!new)>(cmp: (T, T) -> int, rows: seq<seq<T>>, e: Entry)
    requires TotalPreorder(cmp) && AllSorted(cmp, rows) && ValidParts(rows, PartsOf(e))
    ensures Merges(cmp, rows, e, MergeOrder(cmp, PartInputs(rows, PartsOf(e))))
  {
    PartsAreSorted(cmp, rows, PartsOf(e));
    TournamentMerges(cmp, PartInputs(rows, PartsOf(e)));
  }

  /** The two-way reader merges an entry of two parts, however it is called. */
  lemma TwoWayMergesEntry<T(!new)>(cmp: (T, T) -> int, rows: seq<seq<T>>, e: Entry, calls: seq<Call>)
    requires TotalPreorder(cmp) && AllSorted(cmp, rows) && ValidParts(rows, PartsOf(e)) && |PartsOf(e)| == 2
    requires var ins := PartInputs(rows, PartsOf(e)); CallsComplete(cmp, ins[0], ins[1], calls)
    ensures var ins := PartInputs(rows, PartsOf(e)); Merges(cmp, rows, e, CallsTrace(cmp, ins[0], ins[1], calls))
  {
    var ins := PartInputs(rows, PartsOf(e));
    PartsAreSorted(cmp, rows, PartsOf(e));
    CallsMerge(cmp, ins, calls);
  }

  /** Any merge of a single part reads it as it is. */
  lemma SinglesAreRead<T(!new)>(cmp: (T, T) -> int, rows: seq<seq<T>>, p: Part, trace: seq<nat>)
    requires Merges(cmp, rows, Single(p), trace)
    ensures ValidPart(rows, p) && ReadEntry(cmp, rows, Single(p), trace) == PartRows(rows, p)
  {
    assert p in [p];
    var ins := PartInputs(rows, [p]);
    OutputKeepsInputOrder(ins, trace, 0);
    OnlyInput(Output(ins, trace), trace);
    assert ins[0] == PartAt(rows, [p], 0);
  }

  lemma {:induction false} OnlyInput<T>(out: seq<T>, trace: seq<nat>)
    requires |out| == |trace| && forall t :: 0 <= t < |trace| ==> trace[t] < 1
    ensures TakenFrom(out, trace, 0) == out
  {
    if out != [] {
      OnlyInput(out[..|out| - 1], trace[..|out| - 1]);
    }
  }

  // ----- the plan as one merge of the row groups -----

  /** The row groups that a merge of parts takes rows from. */
  ghost function GroupsOf(ps: seq<Part>, trace: seq<nat>): (groups: seq<nat>)
    requires forall t :: 0 <= t < |trace| ==> trace[t] < |ps|
    ensures |groups| == |trace|
  {
    seq(|trace|, t requires 0 <= t < |trace| => ps[trace[t]].index)
  }

  /** Following the merge of parts that begin where `before` has got to reads on from there. */
  lemma {:induction false} PartsFollow<T>(rows: seq<seq<T>>, ps: seq<Part>, before: seq<nat>, trace: seq<nat>)
    requires ValidParts(rows, ps) && OneEach(ps) && Fits(rows, before) && Fits(PartInputs(rows, ps), trace)
    requires forall p :: p in ps ==> Taken(before, p.index) == p.off
    ensures Fits(rows, before + GroupsOf(ps, trace))
    ensures Output(rows, before + GroupsOf(ps, trace)) == Output(rows, before) + Output(PartInputs(rows, ps), trace)
    ensures forall k: nat :: k < |ps| ==> Taken(before + GroupsOf(ps, trace), ps[k].index) == ps[k].off + Taken(trace, k)
    ensures forall i: nat :: (forall p :: p in ps ==> p.index != i) ==>
      Taken(before + GroupsOf(ps, trace), i) == Taken(before, i)
    decreases |trace|
  {
    hide Output, Fits, Taken, ValidParts, OneEach;
    if trace == [] {
      NothingFollows(rows, ps, before);
    } else {
      var n := |trace| - 1;
      var init, w := trace[..n], trace[n];
      assert trace == init + [w];
      LastOf(PartInputs(rows, ps), trace);
      PartsFollow(rows, ps, before, init);
      PartFollows(rows, ps, before, init, w);
    }
  }

  lemma NothingFollows<T>(rows: seq<seq<T>>, ps: seq<Part>, before: seq<nat>)
    requires ValidParts(rows, ps) && Fits(rows, before) && Fits(PartInputs(rows, ps), [])
    requires forall p :: p in ps ==> Taken(before, p.index) == p.off
    ensures before + GroupsOf(ps, []) == before && Output(PartInputs(rows, ps), []) == []
    ensures Output(rows, before) == Output(rows, before) + []
    ensures forall k: nat :: Taken([], k) == 0
  {
  }

  /** The last step of a trace takes a row that its input still has. */
  lemma LastOf<T>(ins: seq<seq<T>>, trace: seq<nat>)
    requires Fits(ins, trace) && trace != []
    ensures var n := |trace| - 1;
      Fits(ins, trace[..n]) && trace[n] < |ins| && Taken(trace[..n], trace[n]) < |ins[trace[n]]|
  {
    var n := |trace| - 1;
    OutputPrefix(ins, trace, n);
    TakenPrefix(trace, n, trace[n]);
  }

  lemma PartFollows<T>(rows: seq<seq<T>>, ps: seq<Part>, before: seq<nat>, init: seq<nat>, w: nat)
    requires ValidParts(rows, ps) && OneEach(ps) && Fits(rows, before) && Fits(PartInputs(rows, ps), init)
    requires w < |ps| && Taken(init, w) < |PartInputs(rows, ps)[w]| && Fits(PartInputs(rows, ps), init + [w])
    requires Fits(rows, before + GroupsOf(ps, init))
    requires Output(rows, before + GroupsOf(ps, init)) == Output(rows, before) + Output(PartInputs(rows, ps), init)
    requires forall k: nat :: k < |ps| ==> Taken(before + GroupsOf(ps, init), ps[k].index) == ps[k].off + Taken(init, k)
    requires forall i: nat :: (forall p :: p in ps ==> p.index != i) ==>
      Taken(before + GroupsOf(ps, init), i) == Taken(before, i)
    ensures Fits(rows, before + GroupsOf(ps, init + [w]))
    ensures Output(rows, before + GroupsOf(ps, init + [w])) == Output(rows, before) + Output(PartInputs(rows, ps), init + [w])
    ensures forall k: nat :: k < |ps| ==> Taken(before + GroupsOf(ps, init + [w]), ps[k].index) == ps[k].off + Taken(init + [w], k)
    ensures forall i: nat :: (forall p :: p in ps ==> p.index != i) ==>
      Taken(before + GroupsOf(ps, init + [w]), i) == Taken(before, i)
  {
    assert forall t :: 0 <= t < |init| ==> init[t] < |ps|;
    hide Output, Fits, Taken, OneEach, PartInputs;
    var ins, all, p := PartInputs(rows, ps), before + GroupsOf(ps, init), ps[w];
    InputIsPart(rows, ps, w);
    assert before + GroupsOf(ps, init + [w]) == all + [p.index];
    RowFollows(rows, ins, p, Output(rows, before), all, init, w);
    PartTaken(ps, before, all, init, w);
  }

  lemma InputIsPart<T>(rows: seq<seq<T>>, ps: seq<Part>, w: nat)
    requires ValidParts(rows, ps) && w < |ps|
    ensures ps[w].index < |rows| && ps[w].off <= ps[w].end <= |rows[ps[w].index]|
    ensures PartInputs(rows, ps)[w] == rows[ps[w].index][ps[w].off..ps[w].end]
  {
    assert ps[w] in ps && ValidPart(rows, ps[w]);
    assert PartInputs(rows, ps)[w] == PartAt(rows, ps, w);
  }

  /** The next row of a part is the next row of its row group. */
  lemma RowFollows<T>(
      rows: seq<seq<T>>, ins: seq<seq<T>>, p: Part, out: seq<T>, all: seq<nat>, init: seq<nat>, w: nat)
    requires Fits(rows, all) && Fits(ins, init) && w < |ins| && Taken(init, w) < |ins[w]|
    requires p.index < |rows| && p.off <= p.end <= |rows[p.index]| && ins[w] == rows[p.index][p.off..p.end]
    requires Taken(all, p.index) == p.off + Taken(init, w) && Output(rows, all) == out + Output(ins, init)
    ensures Fits(rows, all + [p.index]) && Fits(ins, init + [w])
    ensures Output(rows, all + [p.index]) == out + Output(ins, init + [w])
  {
    hide Output, Fits, Taken;
    OutputExtends(rows, all, p.index);
    OutputExtends(ins, init, w);
  }

  lemma PartTaken(ps: seq<Part>, before: seq<nat>, all: seq<nat>, init: seq<nat>, w: nat)
    requires OneEach(ps) && w < |ps|
    requires forall k: nat :: k < |ps| ==> Taken(all, ps[k].index) == ps[k].off + Taken(init, k)
    requires forall i: nat :: (forall p :: p in ps ==> p.index != i) ==> Taken(all, i) == Taken(before, i)
    ensures forall k: nat :: k < |ps| ==> Taken(all + [ps[w].index], ps[k].index) == ps[k].off + Taken(init + [w], k)
    ensures forall i: nat :: (forall p :: p in ps ==> p.index != i) ==> Taken(all + [ps[w].index], i) == Taken(before, i)
  {
    hide Taken;
    forall k: nat | k < |ps| ensures Taken(all + [ps[w].index], ps[k].index) == ps[k].off + Taken(init + [w], k) {
      TakenSnoc(all, ps[w].index, ps[k].index);
      TakenSnoc(init, w, k);
      assert k != w ==> ps[k].index != ps[w].index;
    }
    forall i: nat | forall q :: q in ps ==> q.index != i ensures Taken(all + [ps[w].index], i) == Taken(before, i) {
      TakenSnoc(all, ps[w].index, i);
      assert ps[w] in ps;
    }
  }

  /** The row groups that reading a plan takes rows from. */
  ghost function PlanTrace<T>(cmp: (T, T) -> int, rows: seq<seq<T>>, plan: seq<Entry>, traces: seq<seq<nat>>): seq<nat>
    requires AllMerge(cmp, rows, plan, traces)
    decreases |plan|
  {
    if plan == [] then []
    else
      var n := |plan| - 1;
      assert Merges(cmp, rows, plan[n], traces[n]);
      assert AllMerge(cmp, rows, plan[..n], traces[..n]) by { InitMerges(cmp, rows, plan, traces); }
      PlanTrace(cmp, rows, plan[..n], traces[..n]) + GroupsOf(PartsOf(plan[n]), traces[n])
  }

  lemma InitMerges<T>(cmp: (T, T) -> int, rows: seq<seq<T>>, plan: seq<Entry>, traces: seq<seq<nat>>)
    requires AllMerge(cmp, rows, plan, traces) && plan != []
    ensures AllMerge(cmp, rows, plan[..|plan| - 1], traces[..|plan| - 1])
  {
    hide Merges;
    var n := |plan| - 1;
    forall e: nat | e < n ensures Merges(cmp, rows, plan[..n][e], traces[..n][e]) {
      assert Merges(cmp, rows, plan[e], traces[e]);
    }
  }

  /** How far each row group has been planned before an entry. */
  ghost function CursorsBefore(ps: seq<Part>, cursors: seq<nat>): (c: seq<nat>)
    ensures |c| == |cursors|
  {
    seq(|cursors|, i requires 0 <= i < |cursors| => CursorBefore(ps, cursors, i))
  }

  ghost function CursorBefore(ps: seq<Part>, cursors: seq<nat>, i: nat): nat
    requires i < |cursors|
  {
    if Filter(Of(i), ps) == [] then cursors[i] else Filter(Of(i), ps)[0].off
  }

  /** The parts of an entry begin where the entries before it have got to, and end where it has got to. */
  lemma CoversBefore(plan: seq<Entry>, cursors: seq<nat>)
    requires plan != [] && Covers(Flat(plan), cursors) && OneEach(PartsOf(plan[|plan| - 1]))
    requires forall p :: p in PartsOf(plan[|plan| - 1]) ==> p.index < |cursors|
    ensures
      var n, ps := |plan| - 1, PartsOf(plan[|plan| - 1]);
      var before := CursorsBefore(ps, cursors);
      && Covers(Flat(plan[..n]), before)
      && (forall p :: p in ps ==> before[p.index] == p.off && cursors[p.index] == p.end)
      && (forall i: nat :: i < |cursors| && (forall p :: p in ps ==> p.index != i) ==> before[i] == cursors[i])
  {
    hide Consecutive, OneEach, Filter, Flat, PartsOf, Covers;
    var n, ps := |plan| - 1, PartsOf(plan[|plan| - 1]);
    var before := CursorsBefore(ps, cursors);
    assert Covers(Flat(plan[..n]), before) by {
      InitCovered(plan, cursors);
    }
    forall p | p in ps ensures before[p.index] == p.off && cursors[p.index] == p.end {
      CoverBefore(plan, cursors, p.index);
      OnlyPart(ps, p);
    }
    forall i: nat | i < |cursors| && forall p :: p in ps ==> p.index != i ensures before[i] == cursors[i] {
      FilterEmpty(ps, i);
    }
  }

  lemma InitCovered(plan: seq<Entry>, cursors: seq<nat>)
    requires plan != [] && Covers(Flat(plan), cursors) && OneEach(PartsOf(plan[|plan| - 1]))
    ensures Covers(Flat(plan[..|plan| - 1]), CursorsBefore(PartsOf(plan[|plan| - 1]), cursors))
  {
    hide Consecutive, OneEach, Filter, Flat, PartsOf;
    forall i: nat | i < |cursors|
      ensures Consecutive(Filter(Of(i), Flat(plan[..|plan| - 1])), CursorsBefore(PartsOf(plan[|plan| - 1]), cursors)[i])
    {
      CoverBefore(plan, cursors, i);
    }
  }

  lemma CoverBefore(plan: seq<Entry>, cursors: seq<nat>, i: nat)
    requires plan != [] && Covers(Flat(plan), cursors) && OneEach(PartsOf(plan[|plan| - 1])) && i < |cursors|
    ensures
      var n, ps := |plan| - 1, PartsOf(plan[|plan| - 1]);
      && Consecutive(Filter(Of(i), Flat(plan[..n])), CursorBefore(ps, cursors, i))
      && |Filter(Of(i), ps)| <= 1
      && (Filter(Of(i), ps) != [] ==> cursors[i] == Filter(Of(i), ps)[0].end)
  {
    hide Consecutive, OneEach, Filter;
    var n, ps := |plan| - 1, PartsOf(plan[|plan| - 1]);
    OneEachOf(ps);
    assert Consecutive(Filter(Of(i), Flat(plan)), cursors[i]);
    FilterConcat(Of(i), Flat(plan[..n]), ps);
    BeforeLast(Filter(Of(i), Flat(plan[..n])), Filter(Of(i), ps), cursors[i]);
  }

  lemma OnlyPart(ps: seq<Part>, p: Part)
    requires p in ps && |Filter(Of(p.index), ps)| <= 1
    ensures Filter(Of(p.index), ps) == [p]
  {
    FilterIsElements(Of(p.index), ps);
    assert p in multiset(Filter(Of(p.index), ps));
  }

  lemma BeforeLast(parts: seq<Part>, last: seq<Part>, c: nat)
    requires Consecutive(parts + last, c) && |last| <= 1
    ensures last == [] ==> Consecutive(parts, c)
    ensures last != [] ==> Consecutive(parts, last[0].off) && c == last[0].end
  {
    if last == [] {
      assert parts + last == parts;
    } else {
      assert (parts + last)[..|parts|] == parts;
    }
  }

  /** Reading a plan follows one trace of the row groups, and has taken of each what has been planned. */
  lemma {:induction false} PlanIsOneTrace<T>(
      cmp: (T, T) -> int, rows: seq<seq<T>>, plan: seq<Entry>, traces: seq<seq<nat>>, cursors: seq<nat>)
    requires AllMerge(cmp, rows, plan, traces) && EntriesInOrder(plan) && |cursors| == |rows|
    requires Covers(Flat(plan), cursors)
    ensures var trace := PlanTrace(cmp, rows, plan, traces);
      && Fits(rows, trace) && Output(rows, trace) == Concat(ReadPlan(cmp, rows, plan, traces))
      && forall i: nat :: i < |rows| ==> Taken(trace, i) == cursors[i]
    decreases |plan|
  {
    hide Output, Fits, Taken, OneEach, InIndexOrder, Merges, Covers, PartInputs, GroupsOf, CursorsBefore, ReadPlan, Flat;
    if plan == [] {
      EmptyTrace(rows, cursors);
    } else {
      var n, ps := |plan| - 1, PartsOf(plan[|plan| - 1]);
      InitMerges(cmp, rows, plan, traces);
      assert Merges(cmp, rows, plan[n], traces[n]) && InIndexOrder(ps);
      InOrderIsOneEach(ps);
      EntryTrace(cmp, rows, plan[n], traces[n]);
      CoversBefore(plan, cursors);
      var before := CursorsBefore(ps, cursors);
      assert EntriesInOrder(plan[..n]);
      PlanIsOneTrace(cmp, rows, plan[..n], traces[..n], before);
      var trace := PlanTrace(cmp, rows, plan[..n], traces[..n]);
      PartsFollow(rows, ps, trace, traces[n]);
      ReadLast(cmp, rows, plan, traces);
      EntryEnds(ps, trace, GroupsOf(ps, traces[n]), traces[n], before, cursors);
    }
  }

  /** After an entry each row group has been taken up to where the entry has got to. */
  lemma EntryEnds(
      ps: seq<Part>, trace: seq<nat>, more: seq<nat>, entry: seq<nat>, before: seq<nat>, cursors: seq<nat>)
    requires |before| == |cursors| && forall p :: p in ps ==> p.index < |cursors| && cursors[p.index] == p.end
    requires forall k: nat :: k < |ps| ==> Taken(entry, k) == ps[k].end - ps[k].off
    requires forall k: nat :: k < |ps| ==> Taken(trace + more, ps[k].index) == ps[k].off + Taken(entry, k)
    requires forall i: nat :: i < |cursors| ==> Taken(trace, i) == before[i]
    requires forall i: nat :: (forall p :: p in ps ==> p.index != i) ==> Taken(trace + more, i) == Taken(trace, i)
    requires forall i: nat :: i < |cursors| && (forall p :: p in ps ==> p.index != i) ==> before[i] == cursors[i]
    ensures forall i: nat :: i < |cursors| ==> Taken(trace + more, i) == cursors[i]
  {
    hide Taken;
    forall i: nat | i < |cursors| ensures Taken(trace + more, i) == cursors[i] {
      if p :| p in ps && p.index == i {
        var k :| 0 <= k < |ps| && ps[k] == p;
        assert Taken(trace + more, ps[k].index) == ps[k].off + Taken(entry, k);
      }
    }
  }

  lemma EmptyTrace<T>(rows: seq<seq<T>>, cursors: seq<nat>)
    requires |cursors| == |rows| && Covers(Flat([]), cursors)
    ensures Fits(rows, []) && Output(rows, []) == []
    ensures forall i: nat :: i < |rows| ==> Taken([], i) == cursors[i]
  {
    forall i: nat | i < |rows| ensures cursors[i] == 0 {
      assert Consecutive(Filter(Of(i), Flat([])), cursors[i]);
    }
  }

  /** What a merge of the parts of an entry is: it fits, and takes all rows of each part. */
  lemma EntryTrace<T>(cmp: (T, T) -> int, rows: seq<seq<T>>, e: Entry, trace: seq<nat>)
    requires Merges(cmp, rows, e, trace)
    ensures ValidParts(rows, PartsOf(e)) && Fits(PartInputs(rows, PartsOf(e)), trace)
    ensures forall p :: p in PartsOf(e) ==> p.index < |rows|
    ensures forall k: nat :: k < |PartsOf(e)| ==> Taken(trace, k) == PartsOf(e)[k].end - PartsOf(e)[k].off
    ensures forall t :: 0 <= t < |trace| ==> trace[t] < |PartsOf(e)|
  {
    var ps := PartsOf(e);
    forall p | p in ps ensures p.index < |rows| {
      assert ValidPart(rows, p);
    }
    forall k: nat | k < |ps| ensures Taken(trace, k) == ps[k].end - ps[k].off {
      assert ps[k] in ps && ValidPart(rows, ps[k]);
      assert PartInputs(rows, ps)[k] == PartAt(rows, ps, k);
    }
  }

  lemma ReadLast<T>(cmp: (T, T) -> int, rows: seq<seq<T>>, plan: seq<Entry>, traces: seq<seq<nat>>)
    requires AllMerge(cmp, rows, plan, traces) && plan != []
    ensures var n := |plan| - 1;
      && AllMerge(cmp, rows, plan[..n], traces[..n]) && Merges(cmp, rows, plan[n], traces[n])
      && Concat(ReadPlan(cmp, rows, plan, traces))
        == Concat(ReadPlan(cmp, rows, plan[..n], traces[..n])) + ReadEntry(cmp, rows, plan[n], traces[n])
  {
    hide Merges;
    var n := |plan| - 1;
    InitMerges(cmp, rows, plan, traces);
    assert Merges(cmp, rows, plan[n], traces[n]);
    assert ReadPlan(cmp, rows, plan, traces)[..n] == ReadPlan(cmp, rows, plan[..n], traces[..n]);
  }

  /**
   * The rows that a refined plan reads, whichever way its entries are merged, are the rows that any merge of the whole
   * segment reads, in an order that differs at most between rows that compare equal. The rows of each row group keep
   * their order: what is read follows a complete trace of the row groups.
   */
  lemma RefinedReadsLikePlain<T(!new)>(
      cmp: (T, T) -> int, rows: seq<seq<T>>, plan: seq<Entry>, traces: seq<seq<nat>>, plainTrace: seq<nat>)
    requires TotalPreorder(cmp) && AllSorted(cmp, rows)
    requires PlanInv(cmp, rows, plan, [], Lengths(rows)) && AllMerge(cmp, rows, plan, traces)
    requires Greedy(cmp, rows, plainTrace) && Complete(rows, plainTrace)
    ensures Fits(rows, plainTrace)
    ensures
      var refined, plain := Concat(ReadPlan(cmp, rows, plan, traces)), Output(rows, plainTrace);
      && Sorted(cmp, refined) && multiset(refined) == multiset(plain)
      && |refined| == |plain| && forall i :: 0 <= i < |refined| ==> cmp(refined[i], plain[i]) == 0
    ensures
      var refined, trace := Concat(ReadPlan(cmp, rows, plan, traces)), PlanTrace(cmp, rows, plan, traces);
      && Fits(rows, trace) && Complete(rows, trace) && Output(rows, trace) == refined
      && forall i: nat :: i < |rows| ==> TakenFrom(refined, trace, i) == rows[i]
  {
    hide TotalPreorder, AllSorted, ReadPlan, AllMerge, Output, TakenFrom, PlanTrace;
    PlanIsRead(cmp, rows, plan, traces);
    PlanReadsEverything(cmp, rows, plan, Lengths(rows), ReadPlan(cmp, rows, plan, traces));
    CompleteMergeIsSortedUnion(cmp, rows, plainTrace);
    SortedArrangementsTie(cmp, Concat(ReadPlan(cmp, rows, plan, traces)), Output(rows, plainTrace));
    assert Flat(plan) + [] == Flat(plan);
    PlanIsOneTrace(cmp, rows, plan, traces, Lengths(rows));
    var trace := PlanTrace(cmp, rows, plan, traces);
    forall i: nat | i < |rows| ensures TakenFrom(Output(rows, trace), trace, i) == rows[i] {
      OutputKeepsInputOrder(rows, trace, i);
    }
  }
}
