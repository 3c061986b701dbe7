/** The sweep that slices the stretches covered by a single row group out of a merge segment. */
module RefineSegment {
  import opened Options
  import opened Orders
  import opened RefinePlan
  import opened Sorting

  const MIN_STREAMED_REGION_ROWS := 1024

  /** One row group of the segment, with conservative row lookups on its sort key where it supports them. */
  datatype Target<!T> = Target(
    minRow: T, maxRow: T, numRows: nat, cutAbove: Option<T -> int>, cutBelow: Option<T -> int>)

  datatype Event<T> = Event(key: T, start: bool, index: nat)

  // ----- what the planner relies on -----

  /** The bounds of each row group enclose its rows, which are sorted. */
  ghost predicate Enclosed<T>(cmp: (T, T) -> int, t: Target<T>, rows: seq<T>) {
    && |rows| == t.numRows
    && Sorted(cmp, rows)
    && cmp(t.minRow, t.maxRow) <= 0
    && forall j :: 0 <= j < |rows| ==> cmp(t.minRow, rows[j]) <= 0 && cmp(rows[j], t.maxRow) <= 0
  }

  /** All rows from the cut on are strictly greater than the key. */
  ghost predicate CutsAbove<T>(cmp: (T, T) -> int, rows: seq<T>, cut: int, key: T) {
    forall j :: 0 <= j < |rows| && j >= cut ==> cmp(rows[j], key) > 0
  }

  /** All rows before the cut are strictly less than the key. */
  ghost predicate CutsBelow<T>(cmp: (T, T) -> int, rows: seq<T>, cut: int, key: T) {
    forall j :: 0 <= j < |rows| && j < cut ==> cmp(rows[j], key) < 0
  }

  /** The lookups of a row group are sound for the smallest and largest keys of all row groups of the segment. */
  ghost predicate SoundCuts<T>(cmp: (T, T) -> int, targets: seq<Target<T>>, t: Target<T>, rows: seq<T>) {
    forall k: nat, start: bool :: k < |targets| ==> SoundCutsAt(cmp, t, rows, KeyOf(targets, start, k))
  }

  ghost predicate SoundCutsAt<T>(cmp: (T, T) -> int, t: Target<T>, rows: seq<T>, key: T) {
    && (t.cutAbove.Some? ==> CutsAbove(cmp, rows, t.cutAbove.value(key), key))
    && (t.cutBelow.Some? ==> CutsBelow(cmp, rows, t.cutBelow.value(key), key))
  }

  ghost predicate Described<T>(cmp: (T, T) -> int, targets: seq<Target<T>>, rows: seq<seq<T>>) {
    && |rows| == |targets|
    && forall i :: 0 <= i < |rows| ==> Enclosed(cmp, targets[i], rows[i]) && SoundCuts(cmp, targets, targets[i], rows[i])
  }

  // ----- the events of the sweep -----

  function EventCmp<T>(cmp: (T, T) -> int): (Event<T>, Event<T>) -> int {
    (a: Event<T>, b: Event<T>) =>
      var c := cmp(a.key, b.key);
      if c != 0 then c
      else if a.start && !b.start then -1
      else if !a.start && b.start then 1
      else 0
  }

  lemma EventCmpIsTotal<T(!new)>(cmp: (T, T) -> int)
    requires TotalPreorder(cmp)
    ensures TotalPreorder(EventCmp(cmp))
  {
    var ec := EventCmp(cmp);
    forall a, b ensures ec(a, b) < 0 <==> ec(b, a) > 0 {
      assert cmp(a.key, b.key) < 0 <==> cmp(b.key, a.key) > 0;
      assert cmp(b.key, a.key) < 0 <==> cmp(a.key, b.key) > 0;
    }
    forall a, b, c ensures Chained(ec, a, b, c) {
      assert Chained(cmp, a.key, b.key, c.key);
      assert Chained(cmp, c.key, a.key, b.key);
      assert Chained(cmp, b.key, c.key, a.key);
    }
  }

  function EventsOf<T>(targets: seq<Target<T>>): (events: seq<Event<T>>)
    ensures |events| == 2 * |targets|
  {
    if targets == [] then []
    else
      var n := |targets| - 1;
      EventsOf(targets[..n]) + [Event(targets[n].minRow, true, n), Event(targets[n].maxRow, false, n)]
  }

  ghost function KeyOf<T>(targets: seq<Target<T>>, start: bool, i: nat): T
    requires i < |targets|
  {
    if start then targets[i].minRow else targets[i].maxRow
  }

  /** Every event carries its target's smallest or largest key. */
  ghost predicate Named<T>(targets: seq<Target<T>>, events: seq<Event<T>>) {
    forall e :: 0 <= e < |events| ==>
      events[e].index < |targets| && events[e].key == KeyOf(targets, events[e].start, events[e].index)
  }

  ghost predicate NoneRepeated<T>(events: seq<Event<T>>) {
    forall e, f :: 0 <= e < f < |events| ==> events[e].start != events[f].start || events[e].index != events[f].index
  }

  ghost predicate NoneMissing<T>(targets: seq<Target<T>>, events: seq<Event<T>>) {
    forall i: nat, start: bool :: i < |targets| ==> Event(KeyOf(targets, start, i), start, i) in events
  }

  /** The events are one start and one end for each target, in sweep order. */
  ghost predicate Swept<T>(cmp: (T, T) -> int, targets: seq<Target<T>>, events: seq<Event<T>>) {
    Sorted(EventCmp(cmp), events) && Named(targets, events) && NoneRepeated(events) && NoneMissing(targets, events)
  }

  lemma {:induction false} EventsAreUnique<T>(targets: seq<Target<T>>)
    ensures Named(targets, EventsOf(targets))
    ensures NoneRepeated(EventsOf(targets))
    ensures NoneMissing(targets, EventsOf(targets))
  {
    hide NoneRepeated, NoneMissing;
    if targets == [] {
      assert NoneRepeated(EventsOf(targets)) by { NoEvents(targets); }
      assert NoneMissing(targets, EventsOf(targets)) by { NoEvents(targets); }
    } else {
      var n := |targets| - 1;
      EventsAreUnique(targets[..n]);
      var before := EventsOf(targets[..n]);
      var events := before + [Event(targets[n].minRow, true, n), Event(targets[n].maxRow, false, n)];
      assert EventsOf(targets) == events;
      StillDistinct(targets, before, events);
      StillComplete(targets, before, events);
    }
  }

  lemma NoEvents<T>(targets: seq<Target<T>>)
    requires targets == []
    ensures NoneRepeated(EventsOf(targets)) && NoneMissing(targets, EventsOf(targets))
  {
  }

  lemma StillDistinct<T>(targets: seq<Target<T>>, before: seq<Event<T>>, events: seq<Event<T>>)
    requires |targets| > 0 && Named(targets[..|targets| - 1], before) && NoneRepeated(before)
    requires var n := |targets| - 1;
      events == before + [Event(targets[n].minRow, true, n), Event(targets[n].maxRow, false, n)]
    ensures NoneRepeated(events)
  {
  }

  lemma StillComplete<T>(targets: seq<Target<T>>, before: seq<Event<T>>, events: seq<Event<T>>)
    requires |targets| > 0 && NoneMissing(targets[..|targets| - 1], before)
    requires var n := |targets| - 1;
      events == before + [Event(targets[n].minRow, true, n), Event(targets[n].maxRow, false, n)]
    ensures NoneMissing(targets, events)
  {
    var n := |targets| - 1;
    forall i: nat, start: bool | i < |targets| ensures Event(KeyOf(targets, start, i), start, i) in events {
      if i < n {
        assert Event(KeyOf(targets[..n], start, i), start, i) in before;
      } else {
        assert events[if start then |before| else |before| + 1] == Event(KeyOf(targets, start, i), start, i);
      }
    }
  }

  /** No element occurs twice in an arrangement of distinct elements. */
  lemma {:induction false} DistinctArrangement<T>(s: seq<T>, t: seq<T>)
    requires multiset(s) == multiset(t)
    requires forall i, j :: 0 <= i < j < |s| ==> s[i] != s[j]
    ensures forall i, j :: 0 <= i < j < |t| ==> t[i] != t[j]
  {
    forall i, j | 0 <= i < j < |t| ensures t[i] != t[j] {
      assert t == t[..i] + [t[i]] + t[i + 1..j] + [t[j]] + t[j + 1..];
      if t[i] == t[j] {
        assert multiset(t)[t[i]] >= 2;
        AtMostOnce(s, t[i]);
      }
    }
  }

  lemma {:induction false} AtMostOnce<T>(s: seq<T>, x: T)
    requires forall i, j :: 0 <= i < j < |s| ==> s[i] != s[j]
    ensures multiset(s)[x] <= 1
  {
    if s != [] {
      var n := |s| - 1;
      assert s == s[..n] + [s[n]];
      AtMostOnce(s[..n], x);
      if s[n] == x {
        assert x !in s[..n];
      }
    }
  }

  lemma SortedEventsAreSwept<T(!new)>(cmp: (T, T) -> int, targets: seq<Target<T>>)
    requires TotalPreorder(cmp)
    ensures Swept(cmp, targets, StableSort(EventCmp(cmp), EventsOf(targets)))
  {
    hide TotalPreorder, StableSort, Sorted, Named, NoneMissing;
    var events, sorted := EventsOf(targets), StableSort(EventCmp(cmp), EventsOf(targets));
    EventCmpIsTotal(cmp);
    SortSorts(EventCmp(cmp), events);
    SortKeepsElements(EventCmp(cmp), events);
    EventsAreUnique(targets);
    RearrangedEvents(targets, events, sorted);
  }

  lemma RearrangedEvents<T>(targets: seq<Target<T>>, events: seq<Event<T>>, sorted: seq<Event<T>>)
    requires multiset(events) == multiset(sorted)
    requires Named(targets, events) && NoneRepeated(events) && NoneMissing(targets, events)
    ensures Named(targets, sorted) && NoneRepeated(sorted) && NoneMissing(targets, sorted)
  {
    forall e | 0 <= e < |sorted|
      ensures sorted[e].index < |targets| && sorted[e].key == KeyOf(targets, sorted[e].start, sorted[e].index)
    {
      assert sorted[e] in multiset(events);
      var f :| 0 <= f < |events| && events[f] == sorted[e];
    }
    forall i: nat, start: bool | i < |targets| ensures Event(KeyOf(targets, start, i), start, i) in sorted {
      assert Event(KeyOf(targets, start, i), start, i) in multiset(sorted);
    }
    StillNotRepeated(targets, events, sorted);
  }

  lemma StillNotRepeated<T>(targets: seq<Target<T>>, events: seq<Event<T>>, sorted: seq<Event<T>>)
    requires multiset(events) == multiset(sorted)
    requires NoneRepeated(events) && Named(targets, sorted)
    ensures NoneRepeated(sorted)
  {
    assert forall i, j :: 0 <= i < j < |events| ==> events[i] != events[j];
    DistinctArrangement(events, sorted);
  }

  // ----- the frontier of the sweep -----

  /** The targets whose start (or end) event is among the first `t` events. */
  ghost function Seen<T>(events: seq<Event<T>>, t: nat, start: bool): set<nat>
    requires t <= |events|
  {
    set e | 0 <= e < t && events[e].start == start :: events[e].index
  }

  /** Targets in `ended` lie before the sweep position, those not in `started` lie after it. */
  ghost predicate Frontier<T>(cmp: (T, T) -> int, targets: seq<Target<T>>, started: set<nat>, ended: set<nat>) {
    && ended <= started
    && (forall i :: i in started ==> i < |targets|)
    && (forall i, j: nat :: i in ended && j < |targets| && j !in started ==> cmp(targets[i].maxRow, targets[j].minRow) <= 0)
  }

  /** An event that comes no earlier in the sweep has no smaller key; an end is strictly before a later start. */
  lemma LaterKey<T(!new)>(cmp: (T, T) -> int, targets: seq<Target<T>>, events: seq<Event<T>>, t: nat, start: bool, i: nat)
    requires TotalPreorder(cmp) && Swept(cmp, targets, events) && t < |events| && i < |targets|
    requires i !in Seen(events, t, start)
    ensures cmp(events[t].key, KeyOf(targets, start, i)) <= 0
  {
    var f := EventOf(cmp, targets, events, start, i);
    NotBefore(events, t, f);
    hide TotalPreorder, Swept, Seen;
    InSweepOrder(cmp, targets, events, t, f);
  }

  /** An event that has not been seen is not among the first. */
  lemma NotBefore<T>(events: seq<Event<T>>, t: nat, f: nat)
    requires t <= |events| && f < |events| && events[f].index !in Seen(events, t, events[f].start)
    ensures t <= f
  {
  }

  /** Every target has its events. */
  lemma EventOf<T>(cmp: (T, T) -> int, targets: seq<Target<T>>, events: seq<Event<T>>, start: bool, i: nat) returns (f: nat)
    requires Swept(cmp, targets, events) && i < |targets|
    ensures f < |events| && events[f] == Event(KeyOf(targets, start, i), start, i)
  {
    assert Event(KeyOf(targets, start, i), start, i) in events;
    f :| 0 <= f < |events| && events[f] == Event(KeyOf(targets, start, i), start, i);
  }

  /** Later events have no smaller keys. */
  lemma InSweepOrder<T(!new)>(cmp: (T, T) -> int, targets: seq<Target<T>>, events: seq<Event<T>>, e: nat, f: nat)
    requires TotalPreorder(cmp) && Swept(cmp, targets, events) && e < |events| && f < |events|
    ensures e <= f ==> cmp(events[e].key, events[f].key) <= 0
  {
    if e < f {
      hide TotalPreorder, Named, NoneRepeated, NoneMissing;
      assert EventCmp(cmp)(events[e], events[f]) <= 0;
    } else {
      hide Swept;
      SameKey(cmp, events[e].key);
    }
  }

  lemma EarlierKey<T(!new)>(cmp: (T, T) -> int, targets: seq<Target<T>>, events: seq<Event<T>>, t: nat, start: bool, i: nat)
    requires TotalPreorder(cmp) && Swept(cmp, targets, events) && t < |events|
    requires i in Seen(events, t, start)
    ensures i < |targets| && cmp(KeyOf(targets, start, i), events[t].key) <= 0
  {
    hide TotalPreorder, NoneMissing, NoneRepeated, Sorted;
    var f :| 0 <= f < t && events[f].start == start && events[f].index == i;
    InSweepOrder(cmp, targets, events, f, t);
  }

  lemma SeenGrows<T>(events: seq<Event<T>>, t: nat, start: bool)
    requires t < |events|
    ensures Seen(events, t + 1, start)
         == Seen(events, t, start) + if events[t].start == start then {events[t].index} else {}
  {
  }

  /** Each target starts before it ends. */
  lemma StartsBeforeEnds<T(!new)>(cmp: (T, T) -> int, targets: seq<Target<T>>, events: seq<Event<T>>, t: nat)
    requires TotalPreorder(cmp) && Swept(cmp, targets, events) && t < |events| && !events[t].start
    requires forall i :: 0 <= i < |targets| ==> cmp(targets[i].minRow, targets[i].maxRow) <= 0
    ensures events[t].index in Seen(events, t, true)
  {
    var i := events[t].index;
    var f :| 0 <= f < |events| && events[f] == Event(KeyOf(targets, true, i), true, i);
    assert EventCmp(cmp)(events[f], events[t]) < 0;
    assert f < t;
  }

  /** The event itself has not been seen before. */
  lemma NotSeenYet<T>(cmp: (T, T) -> int, targets: seq<Target<T>>, events: seq<Event<T>>, t: nat)
    requires Swept(cmp, targets, events) && t < |events|
    ensures events[t].index !in Seen(events, t, events[t].start)
  {
  }

  lemma SweepFrontier<T(!new)>(cmp: (T, T) -> int, targets: seq<Target<T>>, events: seq<Event<T>>, t: nat)
    requires TotalPreorder(cmp) && Swept(cmp, targets, events) && t <= |events|
    requires forall i :: 0 <= i < |targets| ==> cmp(targets[i].minRow, targets[i].maxRow) <= 0
    ensures Frontier(cmp, targets, Seen(events, t, true), Seen(events, t, false))
  {
    var started, ended := Seen(events, t, true), Seen(events, t, false);
    forall i | i in ended ensures i in started {
      var e :| 0 <= e < t && !events[e].start && events[e].index == i;
      StartsBeforeEnds(cmp, targets, events, e);
    }
    forall i, j: nat | i in ended && j < |targets| && j !in started
      ensures cmp(targets[i].maxRow, targets[j].minRow) <= 0
    {
      var e :| 0 <= e < t && !events[e].start && events[e].index == i;
      assert j !in Seen(events, e, true);
      LaterKey(cmp, targets, events, e, true, j);
    }
  }

  // ----- slicing a lone stretch -----

  /**
   * The planner between two events: what has ended is in the plan or in the open region, what has not started is
   * untouched, and a pending lone stretch belongs to the only active target, above all that has ended.
   */
  ghost predicate Sweeping<T>(
    cmp: (T, T) -> int, targets: seq<Target<T>>, rows: seq<seq<T>>, started: set<nat>, ended: set<nat>,
    plan: seq<Entry>, region: seq<Part>, cursors: seq<nat>)
  {
    && |rows| == |targets|
    && PlanInv(cmp, rows, plan, region, cursors)
    && Frontier(cmp, targets, started, ended)
    && (forall j :: 0 <= j < |rows| && j in ended ==> cursors[j] == |rows[j]|)
    && (forall j :: 0 <= j < |rows| && j !in started ==> cursors[j] == 0)
    && (forall p :: p in region ==> p.index in ended)
  }

  /** `key` is at or above everything that has ended. */
  ghost predicate AboveEnded<T>(cmp: (T, T) -> int, targets: seq<Target<T>>, ended: set<nat>, key: T) {
    forall j :: j in ended && j < |targets| ==> cmp(targets[j].maxRow, key) <= 0
  }

  /** `key` is at or below everything that has not started. */
  ghost predicate BelowUnstarted<T>(cmp: (T, T) -> int, targets: seq<Target<T>>, started: set<nat>, key: T) {
    forall j: nat :: j < |targets| && j !in started ==> cmp(key, targets[j].minRow) <= 0
  }

  /** Rows [off, end) of the lone target `i` lie above all that has ended and below all that has not started. */
  ghost predicate LoneSlice<T>(
    cmp: (T, T) -> int, targets: seq<Target<T>>, rows: seq<seq<T>>, started: set<nat>, ended: set<nat>,
    i: nat, off: nat, end: nat)
  {
    && i < |rows| == |targets| && i in started && i !in ended
    && (forall j :: j in started && j !in ended ==> j == i)
    && off < end <= |rows[i]|
    && (forall x :: off <= x < |rows[i]| ==> AboveEnded(cmp, targets, ended, rows[i][x]))
    && (forall x :: 0 <= x < end ==> BelowUnstarted(cmp, targets, started, rows[i][x]))
  }

  lemma EndedPartBelow<T(!new)>(
      cmp: (T, T) -> int, targets: seq<Target<T>>, rows: seq<seq<T>>, started: set<nat>, ended: set<nat>,
      cursors: seq<nat>, i: nat, off: nat, end: nat, p: Part, j: nat)
    requires TotalPreorder(cmp) && Described(cmp, targets, rows) && Cursors(rows, cursors)
    requires Frontier(cmp, targets, started, ended) && LoneSlice(cmp, targets, rows, started, ended, i, off, end)
    requires forall j :: 0 <= j < |rows| && j in ended ==> cursors[j] == |rows[j]|
    requires forall j :: 0 <= j < |rows| && j !in started ==> cursors[j] == 0
    requires ValidPart(rows, p) && p.index in ended && j < |rows|
    requires cursors[i] >= off
    ensures PartBelowRest(cmp, rows, p, j, cursors[j])
  {
    var ps, rest := PartRows(rows, p), rows[j][cursors[j]..];
    forall x, y | 0 <= x < |ps| && 0 <= y < |rest| ensures cmp(ps[x], rest[y]) <= 0 {
      var top := targets[p.index].maxRow;
      assert Enclosed(cmp, targets[p.index], rows[p.index]);
      assert cmp(ps[x], top) <= 0;
      if j == i {
        assert rest[y] == rows[i][cursors[i] + y];
        assert AboveEnded(cmp, targets, ended, rows[i][cursors[i] + y]);
        assert Chained(cmp, ps[x], top, rest[y]);
      } else {
        assert j !in started;
        assert Enclosed(cmp, targets[j], rows[j]);
        assert Chained(cmp, top, targets[j].minRow, rest[y]);
        assert Chained(cmp, ps[x], top, rest[y]);
      }
    }
  }

  /** Parts of the lone target itself, up to its cursor, are below all that is left. */
  lemma LonePartBelow<T(!new)>(
      cmp: (T, T) -> int, targets: seq<Target<T>>, rows: seq<seq<T>>, started: set<nat>, ended: set<nat>,
      cursors: seq<nat>, i: nat, off: nat, end: nat, p: Part, j: nat)
    requires TotalPreorder(cmp) && Described(cmp, targets, rows) && Cursors(rows, cursors)
    requires LoneSlice(cmp, targets, rows, started, ended, i, off, end)
    requires forall j :: 0 <= j < |rows| && j in ended ==> cursors[j] == |rows[j]|
    requires forall j :: 0 <= j < |rows| && j !in started ==> cursors[j] == 0
    requires ValidPart(rows, p) && p.index == i && p.end <= cursors[i] && p.end <= end && j < |rows|
    ensures PartBelowRest(cmp, rows, p, j, cursors[j])
  {
    var ps, rest := PartRows(rows, p), rows[j][cursors[j]..];
    assert Enclosed(cmp, targets[i], rows[i]) && Enclosed(cmp, targets[j], rows[j]);
    forall x, y | 0 <= x < |ps| && 0 <= y < |rest| ensures cmp(ps[x], rest[y]) <= 0 {
      assert ps[x] == rows[i][p.off + x];
      if j != i {
        assert BelowUnstarted(cmp, targets, started, rows[i][p.off + x]);
        assert Chained(cmp, ps[x], targets[j].minRow, rest[y]);
      }
    }
  }

  /** The region that is closed below the slice. */
  function BelowSlice(region: seq<Part>, i: nat, from: nat, off: nat): seq<Part> {
    if off > from then region + [Part(i, from, off)] else region
  }

  lemma BelowSliceBelowRest<T(!new)>(
      cmp: (T, T) -> int, targets: seq<Target<T>>, rows: seq<seq<T>>, started: set<nat>, ended: set<nat>,
      region: seq<Part>, cursors: seq<nat>, i: nat, off: nat, end: nat)
    requires TotalPreorder(cmp) && Described(cmp, targets, rows) && Cursors(rows, cursors)
    requires Frontier(cmp, targets, started, ended) && LoneSlice(cmp, targets, rows, started, ended, i, off, end)
    requires forall j :: 0 <= j < |rows| && j in ended ==> cursors[j] == |rows[j]|
    requires forall j :: 0 <= j < |rows| && j !in started ==> cursors[j] == 0
    requires forall p :: p in region ==>
      ValidPart(rows, p) && (p.index in ended || (p.index == i && p.end <= off))
    requires cursors[i] == off
    ensures BelowRest(cmp, rows, region, cursors)
  {
    forall p, j | p in region && 0 <= j < |rows| ensures PartBelowRest(cmp, rows, p, j, cursors[j]) {
      hide TotalPreorder, Described, LoneSlice, PartBelowRest, Frontier;
      assert i !in ended by { LoneIsActive(cmp, targets, rows, started, ended, i, off, end); }
      if p.index == i {
        assert off <= end by { LoneIsActive(cmp, targets, rows, started, ended, i, off, end); }
        LonePartBelow(cmp, targets, rows, started, ended, cursors, i, off, end, p, j);
      } else {
        EndedPartBelow(cmp, targets, rows, started, ended, cursors, i, off, end, p, j);
      }
    }
  }

  lemma LoneIsActive<T>(
      cmp: (T, T) -> int, targets: seq<Target<T>>, rows: seq<seq<T>>, started: set<nat>, ended: set<nat>,
      i: nat, off: nat, end: nat)
    requires LoneSlice(cmp, targets, rows, started, ended, i, off, end)
    ensures i !in ended && i in started && i < |rows| && off < end <= |rows[i]|
  {
  }

  /** Closing the region below the slice. */
  lemma CloseBelowSlice<T(!new)>(
      cmp: (T, T) -> int, targets: seq<Target<T>>, rows: seq<seq<T>>, started: set<nat>, ended: set<nat>,
      plan: seq<Entry>, region: seq<Part>, cursors: seq<nat>, i: nat, off: nat, end: nat)
    requires TotalPreorder(cmp) && Described(cmp, targets, rows)
    requires Sweeping(cmp, targets, rows, started, ended, plan, region, cursors)
    requires LoneSlice(cmp, targets, rows, started, ended, i, off, end) && cursors[i] <= off
    ensures PlanInv(cmp, rows, Close(plan, BelowSlice(region, i, cursors[i], off)), [], cursors[i := off])
  {
    hide TotalPreorder, Described, LoneSlice, Frontier, PlanInv, BelowRest, Close;
    PlanCursors(cmp, rows, plan, region, cursors);
    LoneIsActive(cmp, targets, rows, started, ended, i, off, end);
    var region', atOff := BelowSlice(region, i, cursors[i], off), cursors[i := off];
    if off > cursors[i] {
      Extend(cmp, rows, plan, region, cursors, i, off);
    } else {
      assert atOff == cursors;
    }
    PlanCursors(cmp, rows, plan, region', atOff);
    BelowSliceBelowRest(cmp, targets, rows, started, ended, region', atOff, i, off, end);
    CloseKeeps(cmp, rows, plan, region', atOff);
  }

  lemma PlanCursors<T>(cmp: (T, T) -> int, rows: seq<seq<T>>, plan: seq<Entry>, region: seq<Part>, cursors: seq<nat>)
    requires PlanInv(cmp, rows, plan, region, cursors)
    ensures Cursors(rows, cursors) && ValidParts(rows, region)
  {
  }

  /** The slice becomes an entry of its own. */
  lemma AppendSlice<T(!new)>(
      cmp: (T, T) -> int, targets: seq<Target<T>>, rows: seq<seq<T>>, started: set<nat>, ended: set<nat>,
      closed: seq<Entry>, cursors: seq<nat>, i: nat, off: nat, end: nat)
    requires TotalPreorder(cmp) && Described(cmp, targets, rows)
    requires LoneSlice(cmp, targets, rows, started, ended, i, off, end)
    requires PlanInv(cmp, rows, closed, [], cursors) && i < |cursors| && cursors[i] == off
    requires forall j :: 0 <= j < |rows| && j in ended ==> j < |cursors| && cursors[j] == |rows[j]|
    requires forall j :: 0 <= j < |rows| && j !in started ==> j < |cursors| && cursors[j] == 0
    ensures PlanInv(cmp, rows, closed + [Single(Part(i, off, end))], [], cursors[i := end])
  {
    hide TotalPreorder, Described, LoneSlice, PlanInv, PartBelowRest;
    var slice, atEnd := Part(i, off, end), cursors[i := end];
    LoneIsActive(cmp, targets, rows, started, ended, i, off, end);
    PlanCursors(cmp, rows, closed, [], cursors);
    Extend(cmp, rows, closed, [], cursors, i, end);
    assert [] + [slice] == [slice];
    PlanCursors(cmp, rows, closed, [slice], atEnd);
    forall p, j | p in [slice] && 0 <= j < |rows| ensures PartBelowRest(cmp, rows, p, j, atEnd[j]) {
      LonePartBelow(cmp, targets, rows, started, ended, atEnd, i, off, end, p, j);
    }
    CloseKeeps(cmp, rows, closed, [slice], atEnd);
  }

  /** The region below the slice is closed, and the slice becomes an entry of its own. */
  lemma SliceKeeps<T(!new)>(
      cmp: (T, T) -> int, targets: seq<Target<T>>, rows: seq<seq<T>>, started: set<nat>, ended: set<nat>,
      plan: seq<Entry>, region: seq<Part>, cursors: seq<nat>, i: nat, off: nat, end: nat)
    requires TotalPreorder(cmp) && Described(cmp, targets, rows)
    requires Sweeping(cmp, targets, rows, started, ended, plan, region, cursors)
    requires LoneSlice(cmp, targets, rows, started, ended, i, off, end) && cursors[i] <= off
    ensures
      var plan' := Close(plan, BelowSlice(region, i, cursors[i], off)) + [Single(Part(i, off, end))];
      Sweeping(cmp, targets, rows, started, ended, plan', [], cursors[i := end])
  {
    hide TotalPreorder, Described, LoneSlice, PlanInv, Close, Frontier;
    PlanCursors(cmp, rows, plan, region, cursors);
    LoneIsActive(cmp, targets, rows, started, ended, i, off, end);
    CloseBelowSlice(cmp, targets, rows, started, ended, plan, region, cursors, i, off, end);
    var closed, atOff := Close(plan, BelowSlice(region, i, cursors[i], off)), cursors[i := off];
    AppendSlice(cmp, targets, rows, started, ended, closed, atOff, i, off, end);
    assert atOff[i := end] == cursors[i := end];
  }

  // ----- lone stretches -----

  /** The targets that cover the sweep position after `t` events. */
  ghost function Active<T>(events: seq<Event<T>>, t: nat): set<nat>
    requires t <= |events|
  {
    Seen(events, t, true) - Seen(events, t, false)
  }

  /** The exclusive lower bound of a lone stretch that begins after `t` events. */
  ghost function LeftKey<T>(events: seq<Event<T>>, t: nat): Option<T>
    requires 0 < t <= |events|
  {
    if events[t - 1].start then None else Some(events[t - 1].key)
  }

  /** The exclusive upper bound of a lone stretch that the event `ev` ends. */
  function RightKey<T>(ev: Event<T>): Option<T> {
    if ev.start then Some(ev.key) else None
  }

  function LoneOff<T>(t: Target<T>, leftK: Option<T>, cursor: nat): (off: nat)
    requires t.cutAbove.Some?
    ensures off >= cursor
  {
    var cut := if leftK.Some? then t.cutAbove.value(leftK.value) else 0;
    if cut < cursor then cursor else cut
  }

  function LoneEnd<T>(t: Target<T>, rightK: Option<T>): (end: int)
    requires t.cutBelow.Some?
    ensures end <= t.numRows
  {
    var cut := if rightK.Some? then t.cutBelow.value(rightK.value) else t.numRows;
    if cut < t.numRows then cut else t.numRows
  }

  /** A lone stretch is sliced when the row group supports cuts and enough whole pages fall inside it. */
  predicate Sliceable<T>(t: Target<T>, leftK: Option<T>, rightK: Option<T>, cursor: nat) {
    && t.cutAbove.Some? && t.cutBelow.Some?
    && LoneEnd(t, rightK) - LoneOff(t, leftK, cursor) >= MIN_STREAMED_REGION_ROWS
  }

  /** After `t` events a single target is active, and it is sliceable up to the next event. */
  ghost predicate LargeLoneStretch<T>(targets: seq<Target<T>>, events: seq<Event<T>>, t: nat) {
    && 0 < t < |events|
    && exists i: nat :: i < |targets| && Active(events, t) == {i}
        && Sliceable(targets[i], LeftKey(events, t), RightKey(events[t]), 0)
  }

  /** Some 1024 rows of the target, from row `x` on, lie between the cuts of the stretch, where it has any. */
  ghost predicate HasRowsBetween<T>(t: Target<T>, leftK: Option<T>, rightK: Option<T>, x: nat) {
    && t.cutAbove.Some? && t.cutBelow.Some? && x + 1024 <= t.numRows
    && (leftK.Some? ==> t.cutAbove.value(leftK.value) <= x)
    && (rightK.Some? ==> x + 1024 <= t.cutBelow.value(rightK.value))
  }

  /** The target that is alone after `t` events has such rows. */
  ghost predicate LoneHasRows<T>(targets: seq<Target<T>>, events: seq<Event<T>>, t: nat, i: nat, x: nat)
    requires 0 < t < |events|
  {
    && i < |targets| && Active(events, t) == {i}
    && HasRowsBetween(targets[i], LeftKey(events, t), RightKey(events[t]), x)
  }

  /** A lone stretch is large exactly when 1024 rows of its target lie between the cuts at the keys around it. */
  lemma LargeStretchHasRows<T>(targets: seq<Target<T>>, events: seq<Event<T>>, t: nat)
    ensures LargeLoneStretch(targets, events, t) <==>
      0 < t < |events| && exists i: nat, x: nat :: LoneHasRows(targets, events, t, i, x)
  {
    if 0 < t < |events| {
      hide Active;
      forall i: nat | i < |targets|
        ensures Sliceable(targets[i], LeftKey(events, t), RightKey(events[t]), 0)
          <==> exists x: nat :: HasRowsBetween(targets[i], LeftKey(events, t), RightKey(events[t]), x)
      {
        SliceableHasRows(targets[i], LeftKey(events, t), RightKey(events[t]));
      }
      hide Sliceable, HasRowsBetween, LeftKey;
      if LargeLoneStretch(targets, events, t) {
        var i: nat :|
          i < |targets| && Active(events, t) == {i} && Sliceable(targets[i], LeftKey(events, t), RightKey(events[t]), 0);
        var x: nat :| HasRowsBetween(targets[i], LeftKey(events, t), RightKey(events[t]), x);
        assert LoneHasRows(targets, events, t, i, x);
      }
    }
  }

  lemma SliceableHasRows<T>(t: Target<T>, leftK: Option<T>, rightK: Option<T>)
    ensures Sliceable(t, leftK, rightK, 0) <==> exists x: nat :: HasRowsBetween(t, leftK, rightK, x)
  {
    if Sliceable(t, leftK, rightK, 0) {
      assert HasRowsBetween(t, leftK, rightK, LoneOff(t, leftK, 0));
    }
  }

  /** A lone stretch lies above all that has ended. */
  lemma LeftKeyAboveEnded<T(!new)>(
      cmp: (T, T) -> int, targets: seq<Target<T>>, events: seq<Event<T>>, t: nat, i: nat)
    requires TotalPreorder(cmp) && Swept(cmp, targets, events) && 0 < t <= |events|
    requires forall i :: 0 <= i < |targets| ==> cmp(targets[i].minRow, targets[i].maxRow) <= 0
    requires Active(events, t) == {i} && i < |targets|
    ensures AboveEnded(cmp, targets, Seen(events, t, false),
      if LeftKey(events, t).Some? then LeftKey(events, t).value else targets[i].minRow)
  {
    hide TotalPreorder, Swept, Seen, AboveEnded, Active;
    if events[t - 1].start {
      LoneAboveEnded(cmp, targets, events, t, i);
    } else {
      EndAboveEnded(cmp, targets, events, t);
    }
  }

  lemma LoneAboveEnded<T(!new)>(
      cmp: (T, T) -> int, targets: seq<Target<T>>, events: seq<Event<T>>, t: nat, i: nat)
    requires TotalPreorder(cmp) && Swept(cmp, targets, events) && 0 < t <= |events|
    requires forall i :: 0 <= i < |targets| ==> cmp(targets[i].minRow, targets[i].maxRow) <= 0
    requires Active(events, t) == {i} && i < |targets| && events[t - 1].start
    ensures AboveEnded(cmp, targets, Seen(events, t, false), targets[i].minRow)
  {
    hide TotalPreorder, Swept, Seen, Active;
    StartedLast(cmp, targets, events, t, i);
    SeenGrows(events, t - 1, false);
    forall j | j in Seen(events, t, false) && j < |targets| ensures cmp(targets[j].maxRow, targets[i].minRow) <= 0 {
      EarlierKey(cmp, targets, events, t - 1, false, j);
    }
  }

  lemma EndAboveEnded<T(!new)>(cmp: (T, T) -> int, targets: seq<Target<T>>, events: seq<Event<T>>, t: nat)
    requires TotalPreorder(cmp) && Swept(cmp, targets, events) && 0 < t <= |events| && !events[t - 1].start
    ensures AboveEnded(cmp, targets, Seen(events, t, false), events[t - 1].key)
  {
    hide TotalPreorder, Swept, Seen;
    var ev := events[t - 1];
    EventKey(cmp, targets, events, t - 1);
    SeenGrows(events, t - 1, false);
    forall j | j in Seen(events, t, false) && j < |targets| ensures cmp(targets[j].maxRow, ev.key) <= 0 {
      if j == ev.index {
        SameKey(cmp, ev.key);
      } else {
        EarlierKey(cmp, targets, events, t - 1, false, j);
      }
    }
  }

  lemma SameKey<T(!new)>(cmp: (T, T) -> int, key: T)
    requires TotalPreorder(cmp)
    ensures cmp(key, key) <= 0
  {
  }

  /** A target that is alone right after a start event is the one that started. */
  lemma StartedLast<T(!new)>(cmp: (T, T) -> int, targets: seq<Target<T>>, events: seq<Event<T>>, t: nat, i: nat)
    requires TotalPreorder(cmp) && Swept(cmp, targets, events) && 0 < t <= |events|
    requires forall i :: 0 <= i < |targets| ==> cmp(targets[i].minRow, targets[i].maxRow) <= 0
    requires Active(events, t) == {i} && events[t - 1].start
    ensures i == events[t - 1].index && events[t - 1].key == targets[i].minRow
  {
    hide TotalPreorder, Swept, Seen;
    EventKey(cmp, targets, events, t - 1);
    EndedHaveStarted(cmp, targets, events, t - 1);
    SeenGrows(events, t - 1, true);
    SeenGrows(events, t - 1, false);
    NotSeenYet(cmp, targets, events, t - 1);
    LastStarted(Seen(events, t - 1, true), Seen(events, t - 1, false), events[t - 1].index, i);
  }

  lemma LastStarted(started: set<nat>, ended: set<nat>, x: nat, i: nat)
    requires x !in started && ended <= started && (started + {x}) - (ended + {}) == {i}
    ensures i == x
  {
    assert x in (started + {x}) - (ended + {});
  }

  lemma EventKey<T>(cmp: (T, T) -> int, targets: seq<Target<T>>, events: seq<Event<T>>, t: nat)
    requires Swept(cmp, targets, events) && t < |events|
    ensures events[t].index < |targets| && events[t].key == KeyOf(targets, events[t].start, events[t].index)
  {
  }

  lemma EndedHaveStarted<T(!new)>(cmp: (T, T) -> int, targets: seq<Target<T>>, events: seq<Event<T>>, t: nat)
    requires TotalPreorder(cmp) && Swept(cmp, targets, events) && t <= |events|
    requires forall i :: 0 <= i < |targets| ==> cmp(targets[i].minRow, targets[i].maxRow) <= 0
    ensures Seen(events, t, false) <= Seen(events, t, true)
  {
    hide TotalPreorder, Swept, Seen;
    SweepFrontier(cmp, targets, events, t);
  }

  /** A lone stretch lies below all that has not started. */
  lemma RightKeyBelowUnstarted<T(!new)>(
      cmp: (T, T) -> int, targets: seq<Target<T>>, events: seq<Event<T>>, t: nat, i: nat)
    requires TotalPreorder(cmp) && Swept(cmp, targets, events) && t < |events|
    requires forall i :: 0 <= i < |targets| ==> cmp(targets[i].minRow, targets[i].maxRow) <= 0
    requires Active(events, t) == {i} && i < |targets|
    ensures BelowUnstarted(cmp, targets, Seen(events, t, true),
      if RightKey(events[t]).Some? then RightKey(events[t]).value else targets[i].maxRow)
  {
    hide TotalPreorder;
    var ev := events[t];
    if !ev.start {
      StartsBeforeEnds(cmp, targets, events, t);
      NotSeenYet(cmp, targets, events, t);
      assert ev.index in Active(events, t);
    }
    forall j: nat | j < |targets| && j !in Seen(events, t, true)
      ensures cmp(ev.key, targets[j].minRow) <= 0
    {
      LaterKey(cmp, targets, events, t, true, j);
    }
  }

  lemma RowAboveEnded<T(!new)>(
      cmp: (T, T) -> int, targets: seq<Target<T>>, ended: set<nat>, key: T, row: T)
    requires TotalPreorder(cmp) && AboveEnded(cmp, targets, ended, key) && cmp(key, row) <= 0
    ensures AboveEnded(cmp, targets, ended, row)
  {
    forall j | j in ended && j < |targets| ensures cmp(targets[j].maxRow, row) <= 0 {
      assert Chained(cmp, targets[j].maxRow, key, row);
    }
  }

  lemma RowBelowUnstarted<T(!new)>(
      cmp: (T, T) -> int, targets: seq<Target<T>>, started: set<nat>, row: T, key: T)
    requires TotalPreorder(cmp) && BelowUnstarted(cmp, targets, started, key) && cmp(row, key) <= 0
    ensures BelowUnstarted(cmp, targets, started, row)
  {
    forall j: nat | j < |targets| && j !in started ensures cmp(row, targets[j].minRow) <= 0 {
      assert Chained(cmp, row, key, targets[j].minRow);
    }
  }

  /** The rows cut out of a lone stretch are above all that has ended and below all that has not started. */
  lemma CutsAreLone<T(!new)>(
      cmp: (T, T) -> int, targets: seq<Target<T>>, rows: seq<seq<T>>, events: seq<Event<T>>, t: nat, i: nat, cursor: nat)
    requires TotalPreorder(cmp) && Described(cmp, targets, rows) && Swept(cmp, targets, events) && 0 < t < |events|
    requires i < |targets| && Active(events, t) == {i}
    requires Sliceable(targets[i], LeftKey(events, t), RightKey(events[t]), cursor)
    ensures LoneEnd(targets[i], RightKey(events[t])) >= 0
    ensures LoneSlice(cmp, targets, rows, Seen(events, t, true), Seen(events, t, false), i,
      LoneOff(targets[i], LeftKey(events, t), cursor), LoneEnd(targets[i], RightKey(events[t])))
  {
    hide AboveEnded, BelowUnstarted, Active, Seen, NoneMissing, NoneRepeated, Sorted;
    var started, ended := Seen(events, t, true), Seen(events, t, false);
    var left, right := LeftKey(events, t), RightKey(events[t]);
    var low := if left.Some? then left.value else targets[i].minRow;
    var high := if right.Some? then right.value else targets[i].maxRow;
    var off, end := LoneOff(targets[i], left, cursor), LoneEnd(targets[i], right);
    assert Enclosed(cmp, targets[i], rows[i]) && SoundCuts(cmp, targets, targets[i], rows[i]);
    assert left.Some? ==> SoundCutsAt(cmp, targets[i], rows[i], low);
    assert right.Some? ==> SoundCutsAt(cmp, targets[i], rows[i], high);
    LeftKeyAboveEnded(cmp, targets, events, t, i);
    RightKeyBelowUnstarted(cmp, targets, events, t, i);
    forall x | off <= x < |rows[i]| ensures AboveEnded(cmp, targets, ended, rows[i][x]) {
      assert left.Some? ==> CutsAbove(cmp, rows[i], targets[i].cutAbove.value(low), low);
      assert cmp(low, rows[i][x]) <= 0;
      RowAboveEnded(cmp, targets, ended, low, rows[i][x]);
    }
    forall x | 0 <= x < end ensures BelowUnstarted(cmp, targets, started, rows[i][x]) {
      assert right.Some? ==> CutsBelow(cmp, rows[i], targets[i].cutBelow.value(high), high);
      assert cmp(rows[i][x], high) <= 0;
      RowBelowUnstarted(cmp, targets, started, rows[i][x], high);
    }
    OnlyActive(events, t, i);
  }

  lemma OnlyActive<T>(events: seq<Event<T>>, t: nat, i: nat)
    requires t <= |events| && Active(events, t) == {i}
    ensures var started, ended := Seen(events, t, true), Seen(events, t, false);
      i in started && i !in ended && forall j :: j in started && j !in ended ==> j == i
  {
    assert i in Active(events, t);
    var started, ended := Seen(events, t, true), Seen(events, t, false);
    forall j | j in started && j !in ended ensures j == i {
      assert j in Active(events, t);
    }
  }
}
