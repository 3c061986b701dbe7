/** The order in which the two-way reader returns tied rows: what it depends on, and when it is fixed. */
module TieOrder {
  import opened MergeTraces
  import opened Orders
  import opened RowReaders
  import opened TwoWayMerge

  // ----- calls of the reader -----

  /** A call that merges: how many rows it finds buffered of each input, and how many rows fit into its output. */
  datatype Call = Call(n0: nat, n1: nat, room: nat)

  /** Of the rows `a` and `b` still to come, some are buffered unless the input is exhausted. */
  ghost predicate CanCall<T>(a: seq<T>, b: seq<T>, c: Call) {
    c.n0 <= |a| && c.n1 <= |b| && (c.n0 == 0 <==> a == []) && (c.n1 == 0 <==> b == [])
  }

  /** The inputs a call takes rows from. */
  ghost function TraceOf<T>(cmp: (T, T) -> int, a: seq<T>, b: seq<T>, c: Call): (trace: seq<nat>)
    requires CanCall(a, b, c)
    ensures Taken(trace, 0) <= |a| && Taken(trace, 1) <= |b|
  {
    CallTakes(cmp, a[..c.n0], b[..c.n1], c.room);
    CallTrace(cmp, a[..c.n0], b[..c.n1], c.room)
  }

  ghost predicate CanCallAll<T>(cmp: (T, T) -> int, a: seq<T>, b: seq<T>, calls: seq<Call>)
    decreases |calls|
  {
    calls != [] ==>
      && CanCall(a, b, calls[0])
      && var t := TraceOf(cmp, a, b, calls[0]);
         CanCallAll(cmp, a[Taken(t, 0)..], b[Taken(t, 1)..], calls[1..])
  }

  /** The inputs that calls, one after the other, take rows from. */
  ghost function CallsTrace<T>(cmp: (T, T) -> int, a: seq<T>, b: seq<T>, calls: seq<Call>): (trace: seq<nat>)
    requires CanCallAll(cmp, a, b, calls)
    ensures Taken(trace, 0) <= |a| && Taken(trace, 1) <= |b|
    decreases |calls|
  {
    if calls == [] then []
    else
      var t := TraceOf(cmp, a, b, calls[0]);
      var later := CallsTrace(cmp, a[Taken(t, 0)..], b[Taken(t, 1)..], calls[1..]);
      TakenConcat(t, later, 0);
      TakenConcat(t, later, 1);
      t + later
  }

  /** The calls return all rows. */
  ghost predicate CallsComplete<T>(cmp: (T, T) -> int, a: seq<T>, b: seq<T>, calls: seq<Call>) {
    && CanCallAll(cmp, a, b, calls)
    && Taken(CallsTrace(cmp, a, b, calls), 0) == |a|
    && Taken(CallsTrace(cmp, a, b, calls), 1) == |b|
  }

  /** A call takes no more rows than are buffered, and nothing but these. */
  lemma {:induction false} PairTakes<T>(cmp: (T, T) -> int, w0: seq<T>, w1: seq<T>, room: nat)
    ensures var t := PairTrace(cmp, w0, w1, room);
      && Taken(t, 0) <= |w0| && Taken(t, 1) <= |w1| && Taken(t, 0) + Taken(t, 1) == |t|
      && (room > 0 && w0 != [] && w1 != [] ==> t != [])
    decreases room
  {
    hide PairTrace, Taken;
    if room == 0 || w0 == [] || w1 == [] {
      NothingTaken(cmp, w0, w1, w0, w1, room);
    } else {
      var first := FirstTaken(cmp, w0, w1, room);
      var w0', w1' := Without(w0, 0 in first), Without(w1, 1 in first);
      PairTraceFirst(cmp, w0, w1, room);
      PairTakes(cmp, w0', w1', room - |first|);
      TakenFirst(first, PairTrace(cmp, w0', w1', room - |first|));
    }
  }

  /** How many rows a trace takes from each input when it begins with one row, or with one of each. */
  lemma TakenFirst(first: seq<nat>, later: seq<nat>)
    requires first == [0] || first == [1] || first == [0, 1]
    ensures Taken(first + later, 0) == Taken(later, 0) + if first == [1] then 0 else 1
    ensures Taken(first + later, 1) == Taken(later, 1) + if first == [0] then 0 else 1
  {
    TakenConcat(first, later, 0);
    TakenConcat(first, later, 1);
    TakenSnoc([], first[0], 0);
    TakenSnoc([], first[0], 1);
    assert [] + [first[0]] == [first[0]];
    if |first| == 2 {
      TakenSnoc([0], 1, 0);
      TakenSnoc([0], 1, 1);
      assert [0] + [1] == first;
    }
  }

  lemma TakenOnly(m: nat, i: nat, j: nat)
    ensures Taken(Repeat(m, i), j) == if i == j then m else 0
  {
    TakenRepeat([], i, m, j);
    assert [] + Repeat(m, i) == Repeat(m, i);
  }

  lemma CallTakes<T>(cmp: (T, T) -> int, w0: seq<T>, w1: seq<T>, room: nat)
    ensures var t := CallTrace(cmp, w0, w1, room);
      && Taken(t, 0) <= |w0| && Taken(t, 1) <= |w1| && Taken(t, 0) + Taken(t, 1) == |t|
      && (room > 0 && (w0 != [] || w1 != []) ==> t != [])
  {
    PairTakes(cmp, w0, w1, room);
    TakenOnly(Min(|w1|, room), 1, 0);
    TakenOnly(Min(|w1|, room), 1, 1);
    TakenOnly(Min(|w0|, room), 0, 0);
    TakenOnly(Min(|w0|, room), 0, 1);
  }

  // ----- the two orders of ties -----

  /** The merge that takes tied heads in pairs, or takes the row of input 0 whenever heads tie. */
  ghost function InOrder<T>(cmp: (T, T) -> int, a: seq<T>, b: seq<T>, paired: bool): seq<nat>
    decreases |a| + |b|
  {
    if a == [] then Repeat(|b|, 1)
    else if b == [] then Repeat(|a|, 0)
    else if cmp(a[0], b[0]) < 0 then [0] + InOrder(cmp, a[1..], b, paired)
    else if cmp(a[0], b[0]) > 0 then [1] + InOrder(cmp, a, b[1..], paired)
    else if paired then [0, 1] + InOrder(cmp, a[1..], b[1..], paired)
    else [0] + InOrder(cmp, a[1..], b, paired)
  }

  /** No two rows of input 0 tie with each other and with a row of input 1. */
  ghost predicate Apart<T>(cmp: (T, T) -> int, a: seq<T>, b: seq<T>) {
    forall i, j, k :: 0 <= i < j < |a| && 0 <= k < |b| && cmp(a[i], b[k]) == 0 ==> cmp(a[j], b[k]) != 0
  }

  lemma ApartTails<T>(cmp: (T, T) -> int, a: seq<T>, b: seq<T>)
    requires Apart(cmp, a, b)
    ensures a != [] ==> Apart(cmp, a[1..], b)
    ensures b != [] ==> Apart(cmp, a, b[1..])
  {
    if a != [] {
      var a' := a[1..];
      forall i, j, k | 0 <= i < j < |a'| && 0 <= k < |b| && cmp(a'[i], b[k]) == 0 ensures cmp(a'[j], b[k]) != 0 {
        assert cmp(a[i + 1], b[k]) == 0;
        assert cmp(a[j + 1], b[k]) != 0;
      }
    }
  }

  lemma SortedTails<T>(cmp: (T, T) -> int, a: seq<T>)
    requires Sorted(cmp, a) && a != []
    ensures Sorted(cmp, a[1..])
    ensures |a| > 1 ==> cmp(a[0], a[1]) <= 0
  {
  }

  /** Where no further row of input 0 ties, the row of input 1 follows its tied row of input 0 either way. */
  lemma TieIsPair<T(!new)>(cmp: (T, T) -> int, a: seq<T>, b: seq<T>)
    requires TotalPreorder(cmp) && a != [] && b != [] && cmp(a[0], b[0]) == 0
    requires |a| > 1 ==> cmp(a[0], a[1]) <= 0 && cmp(a[1], b[0]) != 0
    ensures InOrder(cmp, a, b, false) == [0, 1] + InOrder(cmp, a[1..], b[1..], false)
  {
    if |a| > 1 {
      NextIsGreater(cmp, a[0], a[1], b[0]);
    }
    hide TotalPreorder, InOrder;
    FirstOfTie(cmp, a, b);
    SecondOfTie(cmp, a[1..], b);
    Pair(InOrder(cmp, a[1..], b[1..], false));
  }

  lemma FirstOfTie<T>(cmp: (T, T) -> int, a: seq<T>, b: seq<T>)
    requires a != [] && b != [] && cmp(a[0], b[0]) == 0
    ensures InOrder(cmp, a, b, false) == [0] + InOrder(cmp, a[1..], b, false)
  {
  }

  lemma SecondOfTie<T>(cmp: (T, T) -> int, a: seq<T>, b: seq<T>)
    requires b != [] && (a != [] ==> cmp(a[0], b[0]) > 0)
    ensures InOrder(cmp, a, b, false) == [1] + InOrder(cmp, a, b[1..], false)
  {
    if a == [] {
      RepeatUnfolds(|b|, 1);
    }
  }

  lemma Pair(s: seq<nat>)
    ensures [0] + ([1] + s) == [0, 1] + s
  {
  }

  lemma NextIsGreater<T(!new)>(cmp: (T, T) -> int, x: T, y: T, b: T)
    requires TotalPreorder(cmp) && cmp(x, b) == 0 && cmp(x, y) <= 0 && cmp(y, b) != 0
    ensures cmp(y, b) > 0
  {
    assert cmp(x, b) < 0 <==> cmp(b, x) > 0;
    assert Chained(cmp, b, x, y);
    assert cmp(y, b) < 0 <==> cmp(b, y) > 0;
  }

  /** Calls that split no pair keep to pairs; calls that take one row, or find no ties to split, prefer input 0. */
  ghost predicate Keeps<T>(cmp: (T, T) -> int, a: seq<T>, b: seq<T>, c: Call, paired: bool) {
    if paired then c.room >= c.n0 + c.n1 else c.room <= 1 || Apart(cmp, a, b)
  }

  /** The first rows a call takes while both inputs last: the smaller head, or tied heads as far as there is room. */
  ghost function FirstTaken<T>(cmp: (T, T) -> int, a: seq<T>, b: seq<T>, room: nat): (first: seq<nat>)
    requires a != [] && b != [] && room > 0
    ensures first == [0] || first == [1] || first == [0, 1]
    ensures |first| <= room
  {
    var d := cmp(a[0], b[0]);
    if d < 0 then [0] else if d > 0 then [1] else if room == 1 then [0] else [0, 1]
  }

  function Without<T>(s: seq<T>, taken: bool): seq<T>
    requires taken ==> s != []
  {
    if taken then s[1..] else s
  }

  lemma PairTraceFirst<T>(cmp: (T, T) -> int, w0: seq<T>, w1: seq<T>, room: nat)
    requires w0 != [] && w1 != [] && room > 0
    ensures var first := FirstTaken(cmp, w0, w1, room);
      PairTrace(cmp, w0, w1, room)
        == first + PairTrace(cmp, Without(w0, 0 in first), Without(w1, 1 in first), room - |first|)
  {
  }

  lemma InOrderFirst<T(!new)>(cmp: (T, T) -> int, a: seq<T>, b: seq<T>, c: Call, paired: bool)
    requires TotalPreorder(cmp) && Sorted(cmp, a) && a != [] && b != [] && c.room > 0 && c.n0 > 0 && c.n1 > 0
    requires Keeps(cmp, a, b, c, paired)
    ensures var first := FirstTaken(cmp, a, b, c.room);
      InOrder(cmp, a, b, paired) == first + InOrder(cmp, Without(a, 0 in first), Without(b, 1 in first), paired)
  {
    if cmp(a[0], b[0]) == 0 && !paired && c.room > 1 {
      SortedTails(cmp, a);
      hide TotalPreorder, Sorted;
      assert |a| > 1 ==> cmp(a[1], b[0]) != 0;
      TieIsPair(cmp, a, b);
    }
  }

  lemma KeepsOn<T>(cmp: (T, T) -> int, a: seq<T>, b: seq<T>, c: Call, paired: bool)
    requires a != [] && b != [] && c.room > 0 && c.n0 > 0 && c.n1 > 0 && Keeps(cmp, a, b, c, paired)
    ensures var first := FirstTaken(cmp, a, b, c.room);
      var n0, n1 := if 0 in first then c.n0 - 1 else c.n0, if 1 in first then c.n1 - 1 else c.n1;
      Keeps(cmp, Without(a, 0 in first), Without(b, 1 in first), Call(n0, n1, c.room - |first|), paired)
  {
    if !paired && c.room > 1 {
      hide Apart;
      ApartTails(cmp, a, b);
      ApartTails(cmp, a[1..], b);
    }
  }

  /** What follows the first rows, put together again. */
  lemma Regrouped<T>(a: seq<T>, b: seq<T>, first: seq<nat>, later: seq<nat>, end: seq<nat>)
    requires first == [0] || first == [1] || first == [0, 1]
    requires (0 in first ==> a != []) && (1 in first ==> b != [])
    requires Taken(later, 0) <= |Without(a, 0 in first)| && Taken(later, 1) <= |Without(b, 1 in first)|
    ensures var t := first + later;
      && Taken(t, 0) <= |a| && Taken(t, 1) <= |b|
      && a[Taken(t, 0)..] == Without(a, 0 in first)[Taken(later, 0)..]
      && b[Taken(t, 1)..] == Without(b, 1 in first)[Taken(later, 1)..]
      && first + (later + end) == t + end
  {
    hide Taken;
    TakenFirst(first, later);
    Dropped(a, 0 in first, Taken(later, 0));
    Dropped(b, 1 in first, Taken(later, 1));
  }

  lemma Dropped<T>(s: seq<T>, taken: bool, n: nat)
    requires (taken ==> s != []) && n <= |Without(s, taken)|
    ensures Without(s, taken)[n..] == s[if taken then n + 1 else n..]
  {
  }

  lemma {:induction false} PairFollows<T(!new)>(cmp: (T, T) -> int, a: seq<T>, b: seq<T>, c: Call, paired: bool)
    requires TotalPreorder(cmp) && Sorted(cmp, a)
    requires c.n0 <= |a| && c.n1 <= |b| && Keeps(cmp, a, b, c, paired)
    ensures var t := PairTrace(cmp, a[..c.n0], b[..c.n1], c.room);
      && Taken(t, 0) <= |a| && Taken(t, 1) <= |b|
      && InOrder(cmp, a, b, paired) == t + InOrder(cmp, a[Taken(t, 0)..], b[Taken(t, 1)..], paired)
    decreases c.room
  {
    hide TotalPreorder, Taken, Keeps, Sorted, InOrder, PairTrace;
    var w0, w1 := a[..c.n0], b[..c.n1];
    if c.room == 0 || w0 == [] || w1 == [] {
      NothingTaken(cmp, a, b, w0, w1, c.room);
    } else {
      var first := FirstTaken(cmp, a, b, c.room);
      PairTraceFirst(cmp, w0, w1, c.room);
      InOrderFirst(cmp, a, b, c, paired);
      KeepsOn(cmp, a, b, c, paired);
      SortedTails(cmp, a);
      var a', b' := Without(a, 0 in first), Without(b, 1 in first);
      var c' := Call(if 0 in first then c.n0 - 1 else c.n0, if 1 in first then c.n1 - 1 else c.n1, c.room - |first|);
      assert a'[..c'.n0] == Without(w0, 0 in first) && b'[..c'.n1] == Without(w1, 1 in first);
      PairFollows(cmp, a', b', c', paired);
      var later := PairTrace(cmp, a'[..c'.n0], b'[..c'.n1], c'.room);
      Regrouped(a, b, first, later, InOrder(cmp, a'[Taken(later, 0)..], b'[Taken(later, 1)..], paired));
    }
  }

  lemma NothingTaken<T>(cmp: (T, T) -> int, a: seq<T>, b: seq<T>, w0: seq<T>, w1: seq<T>, room: nat)
    requires room == 0 || w0 == [] || w1 == []
    ensures PairTrace(cmp, w0, w1, room) == [] && Taken([], 0) == 0 && Taken([], 1) == 0 && a[0..] == a && b[0..] == b
    ensures forall t: seq<nat> :: [] + t == t
  {
  }

  /** Where an input is exhausted, a call takes rows of the other one. */
  lemma OnlyFollows<T>(cmp: (T, T) -> int, a: seq<T>, b: seq<T>, c: Call, paired: bool)
    requires CanCall(a, b, c) && (a == [] || b == [])
    ensures var t := TraceOf(cmp, a, b, c);
      InOrder(cmp, a, b, paired) == t + InOrder(cmp, a[Taken(t, 0)..], b[Taken(t, 1)..], paired)
  {
    var i, m := if a == [] then 1 else 0, Min(if a == [] then c.n1 else c.n0, c.room);
    var n := if a == [] then |b| else |a|;
    TakenOnly(m, i, 0);
    TakenOnly(m, i, 1);
    assert Repeat(n, i) == Repeat(m, i) + Repeat(n - m, i);
  }

  lemma CallFollows<T(!new)>(cmp: (T, T) -> int, a: seq<T>, b: seq<T>, c: Call, paired: bool)
    requires TotalPreorder(cmp) && Sorted(cmp, a) && CanCall(a, b, c) && Keeps(cmp, a, b, c, paired)
    ensures var t := TraceOf(cmp, a, b, c);
      InOrder(cmp, a, b, paired) == t + InOrder(cmp, a[Taken(t, 0)..], b[Taken(t, 1)..], paired)
  {
    if a == [] || b == [] {
      OnlyFollows(cmp, a, b, c, paired);
    } else {
      PairFollows(cmp, a, b, c, paired);
    }
  }

  // ----- sequences of calls -----

  /** Every call keeps to the order, whatever chunks the inputs are buffered in. */
  ghost predicate AllKeep<T>(cmp: (T, T) -> int, a: seq<T>, b: seq<T>, calls: seq<Call>, paired: bool) {
    if paired then forall c :: c in calls ==> c.room >= c.n0 + c.n1
    else Apart(cmp, a, b) || forall c :: c in calls ==> c.room <= 1
  }

  lemma ApartLater<T>(cmp: (T, T) -> int, a: seq<T>, b: seq<T>, m: nat, n: nat)
    requires Apart(cmp, a, b) && m <= |a| && n <= |b|
    ensures Apart(cmp, a[m..], b[n..])
  {
    var a', b' := a[m..], b[n..];
    forall i, j, k | 0 <= i < j < |a'| && 0 <= k < |b'| && cmp(a'[i], b'[k]) == 0 ensures cmp(a'[j], b'[k]) != 0 {
      assert cmp(a[m + i], b[n + k]) == 0;
      assert cmp(a[m + j], b[n + k]) != 0;
    }
  }

  lemma SortedLater<T>(cmp: (T, T) -> int, a: seq<T>, m: nat)
    requires Sorted(cmp, a) && m <= |a|
    ensures Sorted(cmp, a[m..])
  {
  }

  /** Taking rows in two goes. */
  lemma Onward<T>(a: seq<T>, b: seq<T>, t: seq<nat>, later: seq<nat>, end: seq<nat>)
    requires Taken(t, 0) <= |a| && Taken(t, 1) <= |b|
    requires Taken(later, 0) <= |a[Taken(t, 0)..]| && Taken(later, 1) <= |b[Taken(t, 1)..]|
    ensures Taken(t + later, 0) <= |a| && a[Taken(t, 0)..][Taken(later, 0)..] == a[Taken(t + later, 0)..]
    ensures Taken(t + later, 1) <= |b| && b[Taken(t, 1)..][Taken(later, 1)..] == b[Taken(t + later, 1)..]
    ensures t + (later + end) == t + later + end
  {
    hide Taken;
    TakenConcat(t, later, 0);
    TakenConcat(t, later, 1);
  }

  /** Calls that all keep to an order return rows in it. */
  lemma {:induction false} CallsFollow<T(!new)>(
      cmp: (T, T) -> int, a: seq<T>, b: seq<T>, calls: seq<Call>, paired: bool)
    requires TotalPreorder(cmp) && Sorted(cmp, a) && CanCallAll(cmp, a, b, calls) && AllKeep(cmp, a, b, calls, paired)
    ensures var t := CallsTrace(cmp, a, b, calls);
      InOrder(cmp, a, b, paired) == t + InOrder(cmp, a[Taken(t, 0)..], b[Taken(t, 1)..], paired)
    decreases |calls|
  {
    hide TotalPreorder, Sorted, InOrder, Apart, TraceOf, Taken, CanCall;
    if calls == [] {
      NothingTaken(cmp, a, b, a, b, 0);
    } else {
      var t := TraceOf(cmp, a, b, calls[0]);
      CallFollows(cmp, a, b, calls[0], paired);
      var a', b' := a[Taken(t, 0)..], b[Taken(t, 1)..];
      SortedLater(cmp, a, Taken(t, 0));
      if !paired && Apart(cmp, a, b) {
        ApartLater(cmp, a, b, Taken(t, 0), Taken(t, 1));
      }
      assert forall c :: c in calls[1..] ==> c in calls;
      CallsFollow(cmp, a', b', calls[1..], paired);
      var later := CallsTrace(cmp, a', b', calls[1..]);
      Onward(a, b, t, later, InOrder(cmp, a'[Taken(later, 0)..], b'[Taken(later, 1)..], paired));
    }
  }

  lemma CompleteInOrder<T(!new)>(cmp: (T, T) -> int, a: seq<T>, b: seq<T>, calls: seq<Call>, paired: bool)
    requires TotalPreorder(cmp) && Sorted(cmp, a) && CallsComplete(cmp, a, b, calls) && AllKeep(cmp, a, b, calls, paired)
    ensures CallsTrace(cmp, a, b, calls) == InOrder(cmp, a, b, paired)
  {
    hide AllKeep, TotalPreorder, CanCallAll;
    CallsFollow(cmp, a, b, calls, paired);
    assert a[|a|..] == [] && b[|b|..] == [];
    assert InOrder(cmp, [], [], paired) == [];
  }

  /** The two orders are the same exactly when there are no ties to be split. */
  lemma {:induction false} OrdersAgree<T(!new)>(cmp: (T, T) -> int, a: seq<T>, b: seq<T>)
    requires TotalPreorder(cmp) && Sorted(cmp, a) && Sorted(cmp, b)
    ensures InOrder(cmp, a, b, true) == InOrder(cmp, a, b, false) <==> Apart(cmp, a, b)
    decreases |a| + |b|
  {
    if a != [] && b != [] {
      SortedTails(cmp, a);
      SortedTails(cmp, b);
      hide InOrder, Apart, TotalPreorder, Sorted;
      Unfolds(cmp, a, b);
      ApartAtHeads(cmp, a, b);
      if cmp(a[0], b[0]) < 0 {
        OrdersAgree(cmp, a[1..], b);
        SameTails([0], InOrder(cmp, a[1..], b, true), InOrder(cmp, a[1..], b, false));
      } else if cmp(a[0], b[0]) > 0 {
        OrdersAgree(cmp, a, b[1..]);
        SameTails([1], InOrder(cmp, a, b[1..], true), InOrder(cmp, a, b[1..], false));
      } else if |a| > 1 && cmp(a[1], b[0]) == 0 {
        SplitTie(cmp, a, b);
      } else {
        TieIsPair(cmp, a, b);
        OrdersAgree(cmp, a[1..], b[1..]);
        SameTails([0, 1], InOrder(cmp, a[1..], b[1..], true), InOrder(cmp, a[1..], b[1..], false));
      }
    }
  }

  lemma Unfolds<T>(cmp: (T, T) -> int, a: seq<T>, b: seq<T>)
    requires a != [] && b != []
    ensures forall p: bool :: cmp(a[0], b[0]) < 0 ==> InOrder(cmp, a, b, p) == [0] + InOrder(cmp, a[1..], b, p)
    ensures forall p: bool :: cmp(a[0], b[0]) > 0 ==> InOrder(cmp, a, b, p) == [1] + InOrder(cmp, a, b[1..], p)
    ensures cmp(a[0], b[0]) == 0 ==> InOrder(cmp, a, b, true) == [0, 1] + InOrder(cmp, a[1..], b[1..], true)
  {
  }

  lemma SameTails(first: seq<nat>, s: seq<nat>, t: seq<nat>)
    ensures first + s == first + t <==> s == t
  {
    if first + s == first + t {
      assert (first + s)[|first|..] == s && (first + t)[|first|..] == t;
    }
  }

  lemma SplitTie<T>(cmp: (T, T) -> int, a: seq<T>, b: seq<T>)
    requires |a| > 1 && b != [] && cmp(a[0], b[0]) == 0 && cmp(a[1], b[0]) == 0
    ensures InOrder(cmp, a, b, true) != InOrder(cmp, a, b, false)
    ensures !Apart(cmp, a, b)
  {
    var paired, single := InOrder(cmp, a[1..], b[1..], true), InOrder(cmp, a[1..], b, false);
    assert InOrder(cmp, a, b, true) == [0, 1] + paired && InOrder(cmp, a, b, false) == [0] + single;
    assert single == [0] + InOrder(cmp, a[1..][1..], b, false);
    assert ([0, 1] + paired)[1] == 1 && ([0] + single)[1] == 0;
  }

  /** Ties to be split lie behind the heads, unless they begin there. */
  lemma ApartAtHeads<T(!new)>(cmp: (T, T) -> int, a: seq<T>, b: seq<T>)
    requires TotalPreorder(cmp) && Sorted(cmp, a) && Sorted(cmp, b) && a != [] && b != []
    ensures cmp(a[0], b[0]) < 0 ==> (Apart(cmp, a, b) <==> Apart(cmp, a[1..], b))
    ensures cmp(a[0], b[0]) > 0 ==> (Apart(cmp, a, b) <==> Apart(cmp, a, b[1..]))
    ensures cmp(a[0], b[0]) == 0 && (|a| > 1 ==> cmp(a[1], b[0]) != 0) ==> (Apart(cmp, a, b) <==> Apart(cmp, a[1..], b[1..]))
  {
    if Apart(cmp, a, b) {
      ApartLater(cmp, a, b, 1, 0);
      ApartLater(cmp, a, b, 0, 1);
      ApartLater(cmp, a, b, 1, 1);
      assert b[0..] == b && a[0..] == a;
    } else {
      var i, j, k :| 0 <= i < j < |a| && 0 <= k < |b| && cmp(a[i], b[k]) == 0 && cmp(a[j], b[k]) == 0;
      TiedBehind(cmp, a, b, i, j, k);
      if i > 0 {
        assert cmp(a[1..][i - 1], b[k]) == 0 && cmp(a[1..][j - 1], b[k]) == 0;
        if k > 0 {
          assert cmp(a[1..][i - 1], b[1..][k - 1]) == 0 && cmp(a[1..][j - 1], b[1..][k - 1]) == 0;
        }
      }
      if k > 0 {
        assert cmp(a[i], b[1..][k - 1]) == 0 && cmp(a[j], b[1..][k - 1]) == 0;
      }
    }
  }

  lemma TiedBehind<T(!new)>(cmp: (T, T) -> int, a: seq<T>, b: seq<T>, i: nat, j: nat, k: nat)
    requires TotalPreorder(cmp) && Sorted(cmp, a) && Sorted(cmp, b)
    requires i < j < |a| && k < |b| && cmp(a[i], b[k]) == 0 && cmp(a[j], b[k]) == 0
    ensures cmp(a[0], b[0]) < 0 ==> i > 0
    ensures cmp(a[0], b[0]) > 0 ==> k > 0
    ensures cmp(a[0], b[0]) == 0 && |a| > 1 && cmp(a[1], b[0]) != 0 ==> i > 0 && k > 0
  {
    Tied(cmp, b[k], a[i]);
    Tied(cmp, b[k], a[j]);
    Tied(cmp, b[0], a[0]);
    Tied(cmp, b[0], a[1]);
    if i == 0 {
      // b[0] <= b[k] ~ a[0]
      assert k > 0 ==> cmp(b[0], b[k]) <= 0;
      assert Chained(cmp, b[0], b[k], a[0]);
      // a[0] <= a[1] <= a[j] ~ b[k]
      assert j > 1 ==> cmp(a[1], a[j]) <= 0;
      assert Chained(cmp, a[1], a[j], b[k]);
      assert Chained(cmp, a[1], b[k], a[0]);
      assert cmp(a[0], b[0]) == 0 ==> Chained(cmp, a[1], a[0], b[0]);
      assert Chained(cmp, b[0], a[0], a[1]);
    }
    if k == 0 && i > 0 {
      assert cmp(a[0], a[i]) <= 0;
      assert Chained(cmp, a[0], a[i], b[0]);
      assert i > 1 ==> cmp(a[1], a[i]) <= 0;
      assert Chained(cmp, a[1], a[i], b[0]);
      assert Chained(cmp, b[0], a[0], a[1]);
    }
  }

  lemma Tied<T(!new)>(cmp: (T, T) -> int, x: T, y: T)
    requires TotalPreorder(cmp)
    ensures cmp(x, y) < 0 <==> cmp(y, x) > 0
    ensures cmp(x, y) > 0 <==> cmp(y, x) < 0
  {
  }

  // ----- when the order of ties is fixed -----

  /** Calls with the given room that find one row of each input buffered return all rows. */
  lemma {:induction false} SingleRows<T>(cmp: (T, T) -> int, a: seq<T>, b: seq<T>, room: nat) returns (calls: seq<Call>)
    requires room > 0
    ensures CallsComplete(cmp, a, b, calls)
    ensures forall c :: c in calls ==> c.room == room && c.n0 <= 1 && c.n1 <= 1
    decreases |a| + |b|
  {
    hide Taken, CallTrace;
    if a == [] && b == [] {
      calls := [];
      NothingTaken(cmp, a, b, a, b, room);
    } else {
      var c := Call(Min(|a|, 1), Min(|b|, 1), room);
      var t := TraceOf(cmp, a, b, c);
      CallTakes(cmp, a[..c.n0], b[..c.n1], room);
      var a', b' := a[Taken(t, 0)..], b[Taken(t, 1)..];
      var rest := SingleRows(cmp, a', b', room);
      calls := [c] + rest;
      assert calls[1..] == rest;
      TakenConcat(t, CallsTrace(cmp, a', b', rest), 0);
      TakenConcat(t, CallsTrace(cmp, a', b', rest), 1);
    }
  }

  /**
   * The order in which rows are returned does not depend on how the calls are made exactly when no two rows of input 0
   * tie with each other and with a row of input 1. It is then that of the merge that prefers input 0.
   */
  lemma TieOrderIsFixedExactly<T(!new)>(cmp: (T, T) -> int, a: seq<T>, b: seq<T>)
    requires TotalPreorder(cmp) && Sorted(cmp, a) && Sorted(cmp, b)
    ensures
      (forall calls :: CallsComplete(cmp, a, b, calls) ==> CallsTrace(cmp, a, b, calls) == InOrder(cmp, a, b, false))
      <==> Apart(cmp, a, b)
  {
    hide TotalPreorder, Sorted, Apart, CanCallAll;
    OrdersAgree(cmp, a, b);
    if Apart(cmp, a, b) {
      forall calls | CallsComplete(cmp, a, b, calls) ensures CallsTrace(cmp, a, b, calls) == InOrder(cmp, a, b, false) {
        CompleteInOrder(cmp, a, b, calls, false);
      }
    } else {
      var calls := SingleRows(cmp, a, b, 2);
      CompleteInOrder(cmp, a, b, calls, true);
    }
  }

  /**
   * Whatever chunks the inputs are read in, calls with room for one row return the merge that prefers input 0, and
   * calls with room for all that is buffered the one that pairs ties. The two differ unless no ties can be split.
   */
  lemma RoomDecidesTies<T(!new)>(cmp: (T, T) -> int, a: seq<T>, b: seq<T>, small: seq<Call>, ample: seq<Call>)
    requires TotalPreorder(cmp) && Sorted(cmp, a) && Sorted(cmp, b)
    requires CallsComplete(cmp, a, b, small) && forall c :: c in small ==> c.room <= 1
    requires CallsComplete(cmp, a, b, ample) && forall c :: c in ample ==> c.room >= c.n0 + c.n1
    ensures CallsTrace(cmp, a, b, small) == InOrder(cmp, a, b, false)
    ensures CallsTrace(cmp, a, b, ample) == InOrder(cmp, a, b, true)
    ensures CallsTrace(cmp, a, b, small) == CallsTrace(cmp, a, b, ample) <==> Apart(cmp, a, b)
  {
    CompleteInOrder(cmp, a, b, small, false);
    CompleteInOrder(cmp, a, b, ample, true);
    OrdersAgree(cmp, a, b);
  }

  // ----- the reader makes such calls -----

  /** A trace of the reader that calls have led to. */
  ghost predicate CalledTo<T>(cmp: (T, T) -> int, ins: seq<seq<T>>, calls: seq<Call>, trace: seq<nat>) {
    |ins| == 2 && CanCallAll(cmp, ins[0], ins[1], calls) && trace == CallsTrace(cmp, ins[0], ins[1], calls)
  }

  lemma {:induction false} CallsSnoc<T>(cmp: (T, T) -> int, a: seq<T>, b: seq<T>, calls: seq<Call>, c: Call)
    requires CanCallAll(cmp, a, b, calls)
    requires var t := CallsTrace(cmp, a, b, calls); CanCall(a[Taken(t, 0)..], b[Taken(t, 1)..], c)
    ensures CanCallAll(cmp, a, b, calls + [c])
    ensures var t := CallsTrace(cmp, a, b, calls);
      CallsTrace(cmp, a, b, calls + [c]) == t + TraceOf(cmp, a[Taken(t, 0)..], b[Taken(t, 1)..], c)
    decreases |calls|
  {
    hide Taken, TraceOf, CanCall;
    if calls == [] {
      NothingTaken(cmp, a, b, a, b, 0);
      assert calls + [c] == [c] && [c][1..] == [];
    } else {
      var t := TraceOf(cmp, a, b, calls[0]);
      var a', b' := a[Taken(t, 0)..], b[Taken(t, 1)..];
      var later := CallsTrace(cmp, a', b', calls[1..]);
      Onward(a, b, t, later, []);
      assert (calls + [c])[1..] == calls[1..] + [c];
      CallsSnoc(cmp, a', b', calls[1..], c);
    }
  }

  /** What ReadRows promises of a call that merges makes it one of these calls. */
  lemma ReadRowsCalls<T>(
      cmp: (T, T) -> int, ins: seq<seq<T>>, calls: seq<Call>, trace: seq<nat>, v0: seq<T>, v1: seq<T>, room: nat)
    requires CalledTo(cmp, ins, calls, trace) && Fits(ins, trace)
    requires v0 <= Rest(ins, trace)[0] && v1 <= Rest(ins, trace)[1]
    requires (v0 == [] <==> Rest(ins, trace)[0] == []) && (v1 == [] <==> Rest(ins, trace)[1] == [])
    ensures CalledTo(cmp, ins, calls + [Call(|v0|, |v1|, room)], trace + CallTrace(cmp, v0, v1, room))
  {
    hide Fits, CallTrace, CanCallAll;
    var c := Call(|v0|, |v1|, room);
    assert Rest(ins, trace)[0][..c.n0] == v0 && Rest(ins, trace)[1][..c.n1] == v1;
    CallsSnoc(cmp, ins[0], ins[1], calls, c);
  }

  // ----- such calls merge -----

  lemma WindowsOf<T>(ins: seq<seq<T>>, trace: seq<nat>, c: Call)
    requires |ins| == 2 && Fits(ins, trace) && CanCall(Rest(ins, trace)[0], Rest(ins, trace)[1], c)
    ensures var a, b := Rest(ins, trace)[0], Rest(ins, trace)[1];
      Windows(ins, trace, a[..c.n0], b[..c.n1]) && (a[..c.n0] == [] <==> a == []) && (b[..c.n1] == [] <==> b == [])
  {
  }

  lemma {:induction false} CallsAreGreedy<T(!new)>(cmp: (T, T) -> int, ins: seq<seq<T>>, trace: seq<nat>, calls: seq<Call>)
    requires TotalPreorder(cmp) && AllSorted(cmp, ins) && |ins| == 2 && Fits(ins, trace) && Greedy(cmp, ins, trace)
    requires CanCallAll(cmp, Rest(ins, trace)[0], Rest(ins, trace)[1], calls)
    ensures Greedy(cmp, ins, trace + CallsTrace(cmp, Rest(ins, trace)[0], Rest(ins, trace)[1], calls))
    decreases |calls|
  {
    hide TotalPreorder, AllSorted, Greedy, Taken, CallTrace;
    var a, b := Rest(ins, trace)[0], Rest(ins, trace)[1];
    if calls == [] {
      TraceConcat(trace, 0, []);
    } else {
      var t := TraceOf(cmp, a, b, calls[0]);
      WindowsOf(ins, trace, calls[0]);
      CallTraceIsGreedy(cmp, ins, trace, a[..calls[0].n0], b[..calls[0].n1], calls[0].room);
      GreedyFits(cmp, ins, trace + t);
      TakenConcat(trace, t, 0);
      TakenConcat(trace, t, 1);
      assert Rest(ins, trace + t)[0] == a[Taken(t, 0)..] && Rest(ins, trace + t)[1] == b[Taken(t, 1)..];
      CallsAreGreedy(cmp, ins, trace + t, calls[1..]);
      assert trace + CallsTrace(cmp, a, b, calls) == trace + t + CallsTrace(cmp, a[Taken(t, 0)..], b[Taken(t, 1)..], calls[1..]);
    }
  }

  /** Calls that return all rows of two inputs merge them. */
  lemma CallsMerge<T(!new)>(cmp: (T, T) -> int, ins: seq<seq<T>>, calls: seq<Call>)
    requires TotalPreorder(cmp) && AllSorted(cmp, ins) && |ins| == 2 && CallsComplete(cmp, ins[0], ins[1], calls)
    ensures var trace := CallsTrace(cmp, ins[0], ins[1], calls);
      Fits(ins, trace) && Greedy(cmp, ins, trace) && Complete(ins, trace)
  {
    hide TotalPreorder, AllSorted, CanCallAll, CallsTrace, Greedy, Fits, Taken, Rest;
    NothingMerged(cmp, ins);
    CallsAreGreedy(cmp, ins, [], calls);
    var trace := CallsTrace(cmp, ins[0], ins[1], calls);
    assert [] + trace == trace;
    GreedyFits(cmp, ins, trace);
  }

  lemma NothingMerged<T>(cmp: (T, T) -> int, ins: seq<seq<T>>)
    requires |ins| == 2
    ensures Fits(ins, []) && Greedy(cmp, ins, []) && Rest(ins, [])[0] == ins[0] && Rest(ins, [])[1] == ins[1]
  {
  }
}
