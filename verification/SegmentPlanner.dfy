/** The planner of one overlapping segment, with the variables the sweep updates. */
module SegmentPlanner {
  import opened Options
  import opened Orders
  import opened RefinePlan
  import opened RefineSegment
  import opened Sorting

  /** The row numbers a map of cursors stands for: a row group without an entry has nothing planned yet. */
  ghost function CursorList(cursors: map<nat, nat>, n: nat): (c: seq<nat>)
    ensures |c| == n
  {
    seq(n, i requires 0 <= i < n => CursorAt(cursors, i))
  }

  function CursorAt(cursors: map<nat, nat>, i: nat): nat {
    if i in cursors then cursors[i] else 0
  }

  lemma CursorMoves(cursors: map<nat, nat>, n: nat, i: nat, to: nat)
    requires i < n
    ensures CursorList(cursors[i := to], n) == CursorList(cursors, n)[i := to]
  {
  }

  /** The pending lone stretch is the one the events say, if any. */
  ghost predicate PendingAt<T>(events: seq<Event<T>>, t: nat, lone: int, leftK: Option<T>)
    requires t <= |events|
  {
    && (lone >= 0 ==> t > 0 && Active(events, t) == {lone} && leftK == LeftKey(events, t))
    && (forall i :: Active(events, t) == {i} ==> lone == i)
  }

  /** Slices are cut exactly when some lone stretch is large; until then no active target has been touched. */
  ghost predicate SlicedSoFar<T>(
    targets: seq<Target<T>>, events: seq<Event<T>>, t: nat, sliced: bool, cursors: map<nat, nat>)
    requires t <= |events|
  {
    && (sliced <==> exists u :: 0 < u < t && LargeLoneStretch(targets, events, u))
    && (!sliced ==> forall i :: i in Active(events, t) ==> CursorAt(cursors, i) == 0)
  }

  lemma SlicedGrows<T>(
      targets: seq<Target<T>>, events: seq<Event<T>>, t: nat, sliced: bool, cursors: map<nat, nat>, sliced': bool,
      cursors': map<nat, nat>)
    requires t < |events| && SlicedSoFar(targets, events, t, sliced, cursors)
    requires sliced' <==> sliced || LargeLoneStretch(targets, events, t)
    requires !sliced' ==> forall i :: i in Active(events, t + 1) ==> CursorAt(cursors', i) == 0
    ensures SlicedSoFar(targets, events, t + 1, sliced', cursors')
  {
    hide LargeLoneStretch, Active;
    if LargeLoneStretch(targets, events, t) {
      LargeIsInside(targets, events, t);
    }
  }

  lemma LargeIsInside<T>(targets: seq<Target<T>>, events: seq<Event<T>>, t: nat)
    requires LargeLoneStretch(targets, events, t)
    ensures 0 < t < |events|
  {
  }

  /** Whether the stretch before event `t` is sliced depends on the bounds alone as long as nothing has been sliced. */
  lemma SlicedWhenLarge<T>(
      targets: seq<Target<T>>, events: seq<Event<T>>, t: nat, lone: int, leftK: Option<T>, sliced: bool,
      cursors: map<nat, nat>)
    requires t < |events| && PendingAt(events, t, lone, leftK) && SlicedSoFar(targets, events, t, sliced, cursors)
    requires lone < |targets|
    ensures lone < 0 ==> !LargeLoneStretch(targets, events, t)
    ensures lone >= 0 ==> t > 0 && Active(events, t) == {lone} && leftK == LeftKey(events, t)
    ensures !sliced && lone >= 0 ==>
      LargeLoneStretch(targets, events, t) ==
        Sliceable(targets[lone], leftK, RightKey(events[t]), CursorAt(cursors, lone))
  {
    hide Sliceable, Seen, Active;
    if !sliced && lone >= 0 {
      assert lone in Active(events, t);
      if LargeLoneStretch(targets, events, t) {
        var i: nat :| i < |targets| && Active(events, t) == {i}
          && Sliceable(targets[i], LeftKey(events, t), RightKey(events[t]), 0);
        assert i == lone;
      }
    }
  }

  /** Slicing a pending lone stretch keeps the plan well formed. */
  lemma ResolveKeeps<T(!new)>(
      cmp: (T, T) -> int, targets: seq<Target<T>>, rows: seq<seq<T>>, events: seq<Event<T>>, t: nat,
      plan: seq<Entry>, region: seq<Part>, cursors: map<nat, nat>, i: nat)
    requires TotalPreorder(cmp) && Described(cmp, targets, rows) && Swept(cmp, targets, events) && 0 < t < |events|
    requires var c := CursorList(cursors, |rows|);
      Sweeping(cmp, targets, rows, Seen(events, t, true), Seen(events, t, false), plan, region, c)
    requires i < |targets| && Active(events, t) == {i}
    requires Sliceable(targets[i], LeftKey(events, t), RightKey(events[t]), CursorAt(cursors, i))
    ensures
      var from := CursorAt(cursors, i);
      var off, end := LoneOff(targets[i], LeftKey(events, t), from), LoneEnd(targets[i], RightKey(events[t]));
      var plan' := Close(plan, BelowSlice(region, i, from, off)) + [Single(Part(i, off, end))];
      end >= 0 &&
      Sweeping(cmp, targets, rows, Seen(events, t, true), Seen(events, t, false), plan', [],
        CursorList(cursors[i := end], |rows|))
  {
    hide TotalPreorder, Described, Swept, Seen, Sweeping, LoneSlice, Close;
    var from := CursorAt(cursors, i);
    var off, end := LoneOff(targets[i], LeftKey(events, t), from), LoneEnd(targets[i], RightKey(events[t]));
    CutsAreLone(cmp, targets, rows, events, t, i, from);
    assert |rows| == |targets| by { Sizes(cmp, targets, rows); }
    CursorMoves(cursors, |rows|, i, end);
    SliceKeeps(cmp, targets, rows, Seen(events, t, true), Seen(events, t, false), plan, region,
      CursorList(cursors, |rows|), i, off, end);
  }

  lemma Sizes<T(!new)>(cmp: (T, T) -> int, targets: seq<Target<T>>, rows: seq<seq<T>>)
    requires Described(cmp, targets, rows)
    ensures |rows| == |targets|
    ensures forall i :: 0 <= i < |rows| ==> |rows[i]| == targets[i].numRows
    ensures forall i :: 0 <= i < |rows| ==> cmp(targets[i].minRow, targets[i].maxRow) <= 0
  {
    forall i | 0 <= i < |rows|
      ensures |rows[i]| == targets[i].numRows && cmp(targets[i].minRow, targets[i].maxRow) <= 0
    {
      assert Enclosed(cmp, targets[i], rows[i]);
    }
  }

  ghost predicate AllBelow(s: set<nat>, n: nat) {
    forall i :: i in s ==> i < n
  }

  /** A start event makes its target active, an end event makes it inactive. */
  lemma ActiveAfter<T(!new)>(
      cmp: (T, T) -> int, targets: seq<Target<T>>, rows: seq<seq<T>>, events: seq<Event<T>>, t: nat)
    requires TotalPreorder(cmp) && Described(cmp, targets, rows) && Swept(cmp, targets, events) && t < |events|
    ensures events[t].index < |targets| && AllBelow(Active(events, t + 1), |targets|)
    ensures if events[t].start
      then events[t].index !in Seen(events, t, true) && Active(events, t + 1) == Active(events, t) + {events[t].index}
      else events[t].index in Active(events, t) && Active(events, t + 1) == Active(events, t) - {events[t].index}
  {
    hide TotalPreorder, Described;
    SeenGrows(events, t, true);
    SeenGrows(events, t, false);
    NotSeenYet(cmp, targets, events, t);
    Sizes(cmp, targets, rows);
    SweepFrontier(cmp, targets, events, t);
    SweepFrontier(cmp, targets, events, t + 1);
    if !events[t].start {
      StartsBeforeEnds(cmp, targets, events, t);
    }
  }

  /** As long as nothing has been sliced, no active target has been touched. */
  lemma SlicedStep<T(!new)>(
      cmp: (T, T) -> int, targets: seq<Target<T>>, rows: seq<seq<T>>, events: seq<Event<T>>, t: nat,
      plan: seq<Entry>, region: seq<Part>, cursors: map<nat, nat>, sliced: bool, sliced': bool, cursors': map<nat, nat>)
    requires TotalPreorder(cmp) && Described(cmp, targets, rows) && Swept(cmp, targets, events) && t < |events|
    requires Sweeping(cmp, targets, rows, Seen(events, t, true), Seen(events, t, false), plan, region,
      CursorList(cursors, |rows|))
    requires SlicedSoFar(targets, events, t, sliced, cursors)
    requires sliced' <==> sliced || LargeLoneStretch(targets, events, t)
    requires !sliced' ==> forall i :: i in Active(events, t + 1) ==> CursorAt(cursors', i) == CursorAt(cursors, i)
    ensures SlicedSoFar(targets, events, t + 1, sliced', cursors')
  {
    hide TotalPreorder, Described, Swept, Seen, Active, LargeLoneStretch, PlanInv, Frontier;
    ActiveAfter(cmp, targets, rows, events, t);
    Sizes(cmp, targets, rows);
    var i := events[t].index;
    assert CursorList(cursors, |rows|)[i] == CursorAt(cursors, i);
    SlicedGrows(targets, events, t, sliced, cursors, sliced', cursors');
  }

  lemma SingletonOf(s: set<nat>, i: nat)
    requires i in s && |s| == 1
    ensures s == {i}
  {
    assert |s - {i}| == 0;
    assert s == s - {i} + {i};
  }

  lemma StartKeeps<T(!new)>(
      cmp: (T, T) -> int, targets: seq<Target<T>>, rows: seq<seq<T>>, events: seq<Event<T>>, t: nat,
      plan: seq<Entry>, region: seq<Part>, cursors: seq<nat>)
    requires TotalPreorder(cmp) && Described(cmp, targets, rows) && Swept(cmp, targets, events)
    requires t < |events| && events[t].start
    requires Sweeping(cmp, targets, rows, Seen(events, t, true), Seen(events, t, false), plan, region, cursors)
    ensures Sweeping(cmp, targets, rows, Seen(events, t + 1, true), Seen(events, t + 1, false), plan, region, cursors)
  {
    hide TotalPreorder, Described, PlanInv, Frontier, Seen;
    Sizes(cmp, targets, rows);
    SweepFrontier(cmp, targets, events, t + 1);
    SeenGrows(events, t, true);
    SeenGrows(events, t, false);
    PlanCursors(cmp, rows, plan, region, cursors);
  }

  /** The part of a row group from its cursor to its end, if it is not empty. */
  function Rest(i: nat, from: nat, numRows: nat): seq<Part> {
    if from >= numRows then [] else [Part(i, from, numRows)]
  }

  lemma EndKeeps<T(!new)>(
      cmp: (T, T) -> int, targets: seq<Target<T>>, rows: seq<seq<T>>, events: seq<Event<T>>, t: nat,
      plan: seq<Entry>, region: seq<Part>, cursors: seq<nat>)
    requires TotalPreorder(cmp) && Described(cmp, targets, rows) && Swept(cmp, targets, events)
    requires t < |events| && !events[t].start && events[t].index < |rows|
    requires Sweeping(cmp, targets, rows, Seen(events, t, true), Seen(events, t, false), plan, region, cursors)
    ensures |cursors| == |rows| &&
      var i, n := events[t].index, targets[events[t].index].numRows;
      cursors[i] <= n && Sweeping(cmp, targets, rows, Seen(events, t + 1, true), Seen(events, t + 1, false), plan,
        region + Rest(i, cursors[i], n), cursors[i := n])
  {
    hide TotalPreorder, Described, PlanInv, Frontier, Seen;
    Sizes(cmp, targets, rows);
    SweepFrontier(cmp, targets, events, t);
    SweepFrontier(cmp, targets, events, t + 1);
    StartsBeforeEnds(cmp, targets, events, t);
    SeenGrows(events, t, true);
    SeenGrows(events, t, false);
    PlanCursors(cmp, rows, plan, region, cursors);
    var i, n := events[t].index, targets[events[t].index].numRows;
    if cursors[i] < n {
      Extend(cmp, rows, plan, region, cursors, i, n);
    } else {
      assert cursors[i := n] == cursors && region + Rest(i, cursors[i], n) == region;
    }
  }

  class Planner<T(!new)> {
    const compare: (T, T) -> int
    const targets: seq<Target<T>>
    const events: seq<Event<T>>
    ghost const rows: seq<seq<T>>

    var plan: seq<Entry>
    var region: seq<Part>
    var cursors: map<nat, nat>
    var active: set<nat>
    var sliced: bool
    var pendingLone: int
    var pendingLeftK: Option<T>

    constructor (compare: (T, T) -> int, targets: seq<Target<T>>, events: seq<Event<T>>, ghost rows: seq<seq<T>>)
      requires TotalPreorder(compare) && Described(compare, targets, rows) && Swept(compare, targets, events)
      ensures this.compare == compare && this.targets == targets && this.events == events && this.rows == rows
      ensures At(0)
    {
      this.compare, this.targets, this.events, this.rows := compare, targets, events, rows;
      plan, region, cursors, active, sliced, pendingLone, pendingLeftK := [], [], map[], {}, false, -1, None;
      new;
      EmptyPlan(compare, rows, CursorList(cursors, |rows|));
    }

    ghost predicate Given() {
      TotalPreorder(compare) && Described(compare, targets, rows) && Swept(compare, targets, events)
    }

    /** What has been planned when `started` and `ended` are the targets whose start and end have been swept. */
    ghost predicate Planned(started: set<nat>, ended: set<nat>)
      reads `plan, `region, `cursors
    {
      Sweeping(compare, targets, rows, started, ended, plan, region, CursorList(cursors, |rows|))
    }

    /** The state after `t` events. */
    ghost predicate At(t: nat)
      reads this
    {
      && Given() && t <= |events|
      && Planned(Seen(events, t, true), Seen(events, t, false))
      && active == Active(events, t)
      && pendingLone < |targets| && PendingAt(events, t, pendingLone, pendingLeftK)
      && SlicedSoFar(targets, events, t, sliced, cursors)
    }

    /** The rows of a target that are not planned yet. */
    method Remainder(i: nat) returns (part: Option<Part>)
      requires i < |targets|
      modifies `cursors
      ensures var from := CursorAt(old(cursors), i);
        if from >= targets[i].numRows then part == None && cursors == old(cursors)
        else part == Some(Part(i, from, targets[i].numRows)) && cursors == old(cursors)[i := targets[i].numRows]
    {
      var off := CursorAt(cursors, i);
      if off >= targets[i].numRows {
        return None;
      }
      cursors := cursors[i := targets[i].numRows];
      return Some(Part(i, off, targets[i].numRows));
    }

    method CloseRegion()
      modifies `plan, `region
      ensures plan == Close(old(plan), old(region)) && region == []
    {
      if |region| == 1 {
        plan := plan + [Single(region[0])];
      } else if |region| > 1 {
        plan := plan + [Merge(StableSort(IndexCmp, region))];
      }
      region := [];
    }

    /** Closes the region below rows [off, end) of target `i` and makes those rows an entry of their own. */
    method EmitSlice(i: nat, off: nat, end: nat)
      requires CursorAt(cursors, i) <= off
      modifies `plan, `region, `cursors, `sliced
      ensures plan == Close(old(plan), BelowSlice(old(region), i, CursorAt(old(cursors), i), off)) + [Single(Part(i, off, end))]
      ensures region == [] && cursors == old(cursors)[i := end] && sliced
    {
      if off > CursorAt(cursors, i) {
        region := region + [Part(i, CursorAt(cursors, i), off)];
      }
      CloseRegion();
      plan := plan + [Single(Part(i, off, end))];
      cursors := cursors[i := end];
      sliced := true;
    }

    /**
     * Ends the pending lone stretch, bounded above by the event `t` if that is a start: a large one is sliced out and
     * the region below it closed, any other simply stays part of the region.
     */
    method ResolveLone(rightK: Option<T>, ghost t: nat)
      requires At(t) && t < |events| && rightK == RightKey(events[t])
      requires 0 <= pendingLone < |targets|
      modifies `plan, `region, `cursors, `sliced, `pendingLone
      ensures pendingLone == -1
      ensures Planned(Seen(events, t, true), Seen(events, t, false))
      ensures sliced <==> old(sliced) || LargeLoneStretch(targets, events, t)
      ensures
        var i, t, from := old(pendingLone), targets[old(pendingLone)], CursorAt(old(cursors), old(pendingLone));
        if Sliceable(t, pendingLeftK, rightK, from) then
          var off, end := LoneOff(t, pendingLeftK, from), LoneEnd(t, rightK);
          && end >= 0 && sliced && region == [] && cursors == old(cursors)[i := end]
          && plan == Close(old(plan), BelowSlice(old(region), i, from, off)) + [Single(Part(i, off, end))]
        else
          sliced == old(sliced) && region == old(region) && cursors == old(cursors) && plan == old(plan)
    {
      hide TotalPreorder, Described, Swept, Seen, Active, Sweeping, LargeLoneStretch, SlicedSoFar, Close, PendingAt, LeftKey;
      var i := pendingLone;
      SlicedWhenLarge(targets, events, t, i, pendingLeftK, sliced, cursors);
      if Sliceable(targets[i], pendingLeftK, rightK, CursorAt(cursors, i)) {
        ResolveKeeps(compare, targets, rows, events, t, plan, region, cursors, i);
      }
      pendingLone := -1;
      var t := targets[i];
      if t.cutAbove.None? || t.cutBelow.None? {
        return;
      }
      var off := 0;
      if pendingLeftK.Some? {
        off := t.cutAbove.value(pendingLeftK.value);
      }
      var end: int := t.numRows;
      if rightK.Some? {
        end := t.cutBelow.value(rightK.value);
      }
      off := if off < CursorAt(cursors, i) then CursorAt(cursors, i) else off;
      end := if end < t.numRows then end else t.numRows;
      if end - off < MIN_STREAMED_REGION_ROWS {
        return;
      }
      EmitSlice(i, off, end);
    }

    /** A start event ends a pending lone stretch; a target that starts alone begins one. */
    method Start(ev: Event<T>, ghost t: nat)
      requires At(t) && t < |events| && ev == events[t] && ev.start
      modifies this
      ensures At(t + 1)
    {
      hide TotalPreorder, Described, Swept, Seen, Active, Sweeping, LargeLoneStretch, SlicedSoFar, Sliceable, Close;
      ActiveAfter(compare, targets, rows, events, t);
      SlicedWhenLarge(targets, events, t, pendingLone, pendingLeftK, sliced, cursors);
      ghost var plan0, region0, cursors0, sliced0 := plan, region, cursors, sliced;
      if pendingLone >= 0 {
        ResolveLone(Some(ev.key), t);
      }
      StartKeeps(compare, targets, rows, events, t, plan, region, CursorList(cursors, |rows|));
      SlicedStep(compare, targets, rows, events, t, plan0, region0, cursors0, sliced0, sliced, cursors);
      active := active + {ev.index};
      if |active| == 1 {
        SingletonOf(active, ev.index);
        pendingLone := ev.index;
        pendingLeftK := None;
      }
    }

    /** An end event plans the rest of its target's rows; a target left alone begins a lone stretch. */
    method End(ev: Event<T>, ghost t: nat)
      requires At(t) && t < |events| && ev == events[t] && !ev.start
      modifies this
      ensures At(t + 1)
    {
      hide TotalPreorder, Described, Swept, Seen, Active, Sweeping, LargeLoneStretch, SlicedSoFar, Sliceable, Close;
      ActiveAfter(compare, targets, rows, events, t);
      Sizes(compare, targets, rows);
      SlicedWhenLarge(targets, events, t, pendingLone, pendingLeftK, sliced, cursors);
      ghost var plan0, region0, cursors0, sliced0 := plan, region, cursors, sliced;
      if ev.index == pendingLone {
        ResolveLone(None, t);
      }
      EndKeeps(compare, targets, rows, events, t, plan, region, CursorList(cursors, |rows|));
      CursorMoves(cursors, |rows|, ev.index, targets[ev.index].numRows);
      active := active - {ev.index};
      var part := Remainder(ev.index);
      if part.Some? {
        region := region + [part.value];
      } else {
        assert region + [] == region;
        assert CursorList(cursors, |rows|)[ev.index := targets[ev.index].numRows] == CursorList(cursors, |rows|);
      }
      SlicedStep(compare, targets, rows, events, t, plan0, region0, cursors0, sliced0, sliced, cursors);
      if |active| == 1 && pendingLone < 0 {
        var lone :| lone in active;
        SingletonOf(active, lone);
        pendingLone := lone;
        pendingLeftK := Some(ev.key);
      }
    }
  }
  // ----- the finished plan -----

  ghost function Lengths<T>(rows: seq<seq<T>>): (c: seq<nat>)
    ensures |c| == |rows|
  {
    seq(|rows|, i requires 0 <= i < |rows| => |rows[i]|)
  }

  /** When all events have been swept, every row is in the plan or in the open region. */
  lemma AllPlanned<T(!new)>(
      cmp: (T, T) -> int, targets: seq<Target<T>>, rows: seq<seq<T>>, events: seq<Event<T>>, plan: seq<Entry>,
      region: seq<Part>, cursors: seq<nat>)
    requires TotalPreorder(cmp) && Described(cmp, targets, rows) && Swept(cmp, targets, events)
    requires Sweeping(cmp, targets, rows, Seen(events, |events|, true), Seen(events, |events|, false), plan, region, cursors)
    ensures PlanInv(cmp, rows, Close(plan, region), [], Lengths(rows))
  {
    hide TotalPreorder, Described, PlanInv, Frontier, Close;
    PlanCursors(cmp, rows, plan, region, cursors);
    forall j | 0 <= j < |rows| ensures cursors[j] == |rows[j]| {
      var f :| 0 <= f < |events| && events[f] == Event(KeyOf(targets, false, j), false, j);
      assert j in Seen(events, |events|, false);
    }
    assert cursors == Lengths(rows);
    NothingLeft(cmp, rows, region, cursors);
    CloseKeeps(cmp, rows, plan, region, cursors);
  }

  lemma NothingLeft<T>(cmp: (T, T) -> int, rows: seq<seq<T>>, region: seq<Part>, cursors: seq<nat>)
    requires cursors == Lengths(rows) && ValidParts(rows, region)
    ensures BelowRest(cmp, rows, region, cursors)
  {
    forall p, i | p in region && 0 <= i < |rows| ensures PartBelowRest(cmp, rows, p, i, cursors[i]) {
      assert rows[i][cursors[i]..] == [];
    }
  }

  ghost function SweepEvents<T>(cmp: (T, T) -> int, targets: seq<Target<T>>): seq<Event<T>> {
    StableSort(EventCmp(cmp), EventsOf(targets))
  }

  /**
   * Plans the refinement of a segment. There is a plan exactly when some stretch of a single row group is large
   * enough, and it arranges all rows of all row groups without ever putting a greater row before a smaller one.
   */
  method Refine<T(!new)>(targets: seq<Target<T>>, compare: (T, T) -> int, ghost rows: seq<seq<T>>)
    returns (refined: Option<seq<Entry>>)
    requires TotalPreorder(compare) && Described(compare, targets, rows)
    ensures refined.Some?
      <==> |targets| >= 2 && exists u :: LargeLoneStretch(targets, SweepEvents(compare, targets), u)
    ensures refined.Some? ==> PlanInv(compare, rows, refined.value, [], Lengths(rows))
  {
    hide TotalPreorder, Described, Swept, Sweeping, PlanInv, LargeLoneStretch, Seen, Active, Close;
    if |targets| < 2 {
      return None;
    }
    var events := StableSort(EventCmp(compare), EventsOf(targets));
    SortedEventsAreSwept(compare, targets);
    var planner := new Planner<T>(compare, targets, events, rows);
    for t := 0 to |events|
      invariant planner.compare == compare && planner.targets == targets && planner.events == events
      invariant planner.rows == rows && fresh(planner)
      invariant planner.At(t)
    {
      if events[t].start {
        planner.Start(events[t], t);
      } else {
        planner.End(events[t], t);
      }
    }
    AllPlanned(compare, targets, rows, events, planner.plan, planner.region, CursorList(planner.cursors, |rows|));
    planner.CloseRegion();
    if exists u :: LargeLoneStretch(targets, events, u) {
      var u :| LargeLoneStretch(targets, events, u);
      LargeIsInside(targets, events, u);
    }
    if !planner.sliced {
      return None;
    }
    ghost var u :| 0 < u < |events| && LargeLoneStretch(targets, events, u);
    assert LargeLoneStretch(targets, SweepEvents(compare, targets), u);
    return Some(planner.plan);
  }
}
