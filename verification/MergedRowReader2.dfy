/** The merge of exactly two buffered row readers, which compares heads directly. */
module TwoWayMerge {
  import opened Gallop
  import opened MergeTraces
  import opened Orders
  import opened RowReaders

  /**
   * The inputs a call takes rows from while both windows last and there is room: the smaller head at a time,
   * equal heads in pairs. No run detection is involved.
   */
  ghost function PairTrace<T>(cmp: (T, T) -> int, w0: seq<T>, w1: seq<T>, room: nat): (trace: seq<nat>)
    ensures |trace| <= room
  {
    if room == 0 || w0 == [] || w1 == [] then []
    else if cmp(w0[0], w1[0]) < 0 then [0] + PairTrace(cmp, w0[1..], w1, room - 1)
    else if cmp(w0[0], w1[0]) > 0 then [1] + PairTrace(cmp, w0, w1[1..], room - 1)
    else if room == 1 then [0]
    else [0, 1] + PairTrace(cmp, w0[1..], w1[1..], room - 2)
  }

  /** The same for a whole call: the window of an exhausted input is empty, and the other one is then emitted as it is. */
  ghost function CallTrace<T>(cmp: (T, T) -> int, w0: seq<T>, w1: seq<T>, room: nat): (trace: seq<nat>)
    ensures |trace| <= room
  {
    if w0 == [] then Repeat(Min(|w1|, room), 1)
    else if w1 == [] then Repeat(Min(|w0|, room), 0)
    else PairTrace(cmp, w0, w1, room)
  }

  // ----- every step is greedy -----

  /** The windows are the first rows the two inputs still hold. */
  ghost predicate Windows<T>(ins: seq<seq<T>>, trace: seq<nat>, w0: seq<T>, w1: seq<T>) {
    && |ins| == 2 && Fits(ins, trace)
    && w0 <= ins[0][Taken(trace, 0)..] && w1 <= ins[1][Taken(trace, 1)..]
  }

  lemma TakeHead<T>(ins: seq<seq<T>>, trace: seq<nat>, w0: seq<T>, w1: seq<T>, i: nat)
    requires Windows(ins, trace, w0, w1) && (i == 0 || i == 1)
    requires if i == 0 then w0 != [] else w1 != []
    ensures Windows(ins, trace + [i], if i == 0 then w0[1..] else w0, if i == 1 then w1[1..] else w1)
  {
    TakenSnoc(trace, i, 0);
    TakenSnoc(trace, i, 1);
    FitsSnoc(ins, trace, i);
  }

  /** The smaller of two heads may be taken; after one of two equal heads, so may the other. */
  lemma HeadIsGreedy<T(!new)>(cmp: (T, T) -> int, ins: seq<seq<T>>, trace: seq<nat>, w0: seq<T>, w1: seq<T>)
    requires TotalPreorder(cmp) && AllSorted(cmp, ins)
    requires Windows(ins, trace, w0, w1) && w0 != [] && w1 != []
    ensures cmp(w0[0], w1[0]) <= 0 ==> GreedyAt(cmp, ins, trace, 0)
    ensures cmp(w0[0], w1[0]) >= 0 ==> GreedyAt(cmp, ins, trace, 1)
    ensures cmp(w0[0], w1[0]) == 0 ==> GreedyAt(cmp, ins, trace + [0], 1)
  {
    var t0, t1 := Taken(trace, 0), Taken(trace, 1);
    assert w0[0] == ins[0][t0] && w1[0] == ins[1][t1];
    TakenSnoc(trace, 0, 0);
    TakenSnoc(trace, 0, 1);
    if t0 + 1 < |ins[0]| {
      assert Sorted(cmp, ins[0]);
      assert Chained(cmp, ins[1][t1], ins[0][t0], ins[0][t0 + 1]);
    }
  }

  lemma {:induction false} PairTraceIsGreedy<T(!new)>(
      cmp: (T, T) -> int, ins: seq<seq<T>>, trace: seq<nat>, w0: seq<T>, w1: seq<T>, room: nat)
    requires TotalPreorder(cmp) && AllSorted(cmp, ins)
    requires Windows(ins, trace, w0, w1) && Greedy(cmp, ins, trace)
    ensures Greedy(cmp, ins, trace + PairTrace(cmp, w0, w1, room))
    decreases room
  {
    hide TotalPreorder, AllSorted, Greedy, GreedyAt, Windows, Fits;
    if room == 0 || w0 == [] || w1 == [] {
      TraceConcat(trace, 0, []);
    } else {
      HeadIsGreedy(cmp, ins, trace, w0, w1);
      var c := cmp(w0[0], w1[0]);
      var i := if c <= 0 then 0 else 1;
      GreedyExtends(cmp, ins, trace, i);
      TakeHead(ins, trace, w0, w1, i);
      var next := trace + [i];
      if c < 0 {
        PairTraceIsGreedy(cmp, ins, next, w0[1..], w1, room - 1);
        TraceConcat(trace, 0, PairTrace(cmp, w0[1..], w1, room - 1));
      } else if c > 0 {
        PairTraceIsGreedy(cmp, ins, next, w0, w1[1..], room - 1);
        TraceConcat(trace, 1, PairTrace(cmp, w0, w1[1..], room - 1));
      } else if room > 1 {
        GreedyExtends(cmp, ins, next, 1);
        TakeHead(ins, next, w0[1..], w1, 1);
        PairTraceIsGreedy(cmp, ins, next + [1], w0[1..], w1[1..], room - 2);
        var later := PairTrace(cmp, w0[1..], w1[1..], room - 2);
        TraceConcat(next, 1, later);
        TraceConcat(trace, 0, [1] + later);
        assert [0] + ([1] + later) == [0, 1] + later;
      }
    }
  }

  lemma OnlyInputIsGreedy<T>(cmp: (T, T) -> int, ins: seq<seq<T>>, trace: seq<nat>, i: nat)
    requires |ins| == 2 && i <= 1
    requires Taken(trace, 1 - i) == |ins[1 - i]| && Taken(trace, i) < |ins[i]|
    requires forall a :: cmp(a, a) == 0
    ensures GreedyAt(cmp, ins, trace, i)
  {
  }

  lemma {:induction false} RepeatIsGreedy<T>(cmp: (T, T) -> int, ins: seq<seq<T>>, trace: seq<nat>, i: nat, m: nat)
    requires |ins| == 2 && i <= 1 && Fits(ins, trace) && Greedy(cmp, ins, trace)
    requires Taken(trace, 1 - i) == |ins[1 - i]| && Taken(trace, i) + m <= |ins[i]|
    requires forall a :: cmp(a, a) == 0
    ensures Greedy(cmp, ins, trace + Repeat(m, i))
    decreases m
  {
    hide Greedy, GreedyAt, Fits;
    if m == 0 {
      TraceConcat(trace, i, []);
    } else {
      TakenSnoc(trace, i, 0);
      TakenSnoc(trace, i, 1);
      FitsSnoc(ins, trace, i);
      OnlyInputIsGreedy(cmp, ins, trace, i);
      GreedyExtends(cmp, ins, trace, i);
      RepeatIsGreedy(cmp, ins, trace + [i], i, m - 1);
      assert Repeat(m, i) == [i] + Repeat(m - 1, i);
      TraceConcat(trace, i, Repeat(m - 1, i));
    }
  }

  /** A whole call goes on with the merge, provided an empty window means an exhausted input. */
  lemma CallTraceIsGreedy<T(!new)>(
      cmp: (T, T) -> int, ins: seq<seq<T>>, trace: seq<nat>, w0: seq<T>, w1: seq<T>, room: nat)
    requires TotalPreorder(cmp) && AllSorted(cmp, ins)
    requires Windows(ins, trace, w0, w1) && Greedy(cmp, ins, trace)
    requires w0 == [] ==> Rest(ins, trace)[0] == []
    requires w1 == [] ==> Rest(ins, trace)[1] == []
    ensures Greedy(cmp, ins, trace + CallTrace(cmp, w0, w1, room))
  {
    if w0 == [] {
      RepeatIsGreedy(cmp, ins, trace, 1, Min(|w1|, room));
    } else if w1 == [] {
      RepeatIsGreedy(cmp, ins, trace, 0, Min(|w0|, room));
    } else {
      PairTraceIsGreedy(cmp, ins, trace, w0, w1, room);
    }
  }

  // ----- run mode -----

  lemma PairUnfolds<T>(cmp: (T, T) -> int, w0: seq<T>, w1: seq<T>, room: nat)
    requires room > 0 && w0 != [] && w1 != [] && cmp(w0[0], w1[0]) == 0
    ensures PairTrace(cmp, w0, w1, room)
         == if room == 1 then [0] else [0, 1] + PairTrace(cmp, w0[1..], w1[1..], room - 2)
    ensures forall v0: seq<T>, v1: seq<T> :: PairTrace(cmp, v0, v1, 0) == []
  {
  }

  /** A run of rows strictly before the other head, taken at once, is what taking them one at a time gives. */
  lemma {:induction false} LeftRun<T>(cmp: (T, T) -> int, w0: seq<T>, w1: seq<T>, room: nat, m: nat)
    requires w1 != [] && m <= room && m <= |w0|
    requires forall j :: 0 <= j < m ==> cmp(w0[j], w1[0]) < 0
    ensures PairTrace(cmp, w0, w1, room) == Repeat(m, 0) + PairTrace(cmp, w0[m..], w1, room - m)
    decreases m
  {
    if m > 0 {
      LeftRun(cmp, w0[1..], w1, room - 1, m - 1);
      assert w0[1..][m - 1..] == w0[m..];
      RepeatUnfolds(m, 0);
    } else {
      assert w0[0..] == w0;
    }
  }

  lemma {:induction false} RightRun<T>(cmp: (T, T) -> int, w0: seq<T>, w1: seq<T>, room: nat, m: nat)
    requires w0 != [] && m <= room && m <= |w1|
    requires forall j :: 0 <= j < m ==> cmp(w0[0], w1[j]) > 0
    ensures PairTrace(cmp, w0, w1, room) == Repeat(m, 1) + PairTrace(cmp, w0, w1[m..], room - m)
    decreases m
  {
    if m > 0 {
      RightRun(cmp, w0, w1[1..], room - 1, m - 1);
      assert w1[1..][m - 1..] == w1[m..];
      RepeatUnfolds(m, 1);
    } else {
      assert w1[0..] == w1;
    }
  }

  class MergedRowReader2<T(!new)> {
    const compare: (T, T) -> int
    const buffers: seq<BufferedRowReader<T>>
    var live: seq<bool>  // which of the two readers have not been dropped
    var prev: int
    var streak: int
    var initialized: bool

    ghost const inputs: seq<seq<T>>  // the rows of the two inputs
    ghost var trace: seq<nat>        // the inputs of the rows returned so far
    ghost var failed: bool           // an input failed before the merge began

    /** The buffers hold what the trace has left of the inputs. */
    ghost predicate Buffered()
      reads `trace, buffers, Sources()
      ensures Buffered() ==> |buffers| == |inputs| == 2 && Fits(inputs, trace)
      ensures Buffered() ==> buffers[0].Valid() && buffers[1].Valid()
      ensures Buffered() ==> buffers[0] != buffers[1] && buffers[0].rows != buffers[1].rows
    {
      && |buffers| == |inputs| == 2
      && buffers[0] != buffers[1] && buffers[0].rows != buffers[1].rows
      && Fits(inputs, trace)
      && buffers[0].Valid() && buffers[0].Pending() == Rest(inputs, trace)[0]
      && buffers[1].Valid() && buffers[1].Pending() == Rest(inputs, trace)[1]
    }

    ghost function Sources(): set<object> {
      set b | b in buffers :: b.rows
    }

    ghost predicate Valid()
      reads `trace, `live, `failed, `initialized, buffers, Sources()
      ensures Valid() ==> Buffered() && TotalPreorder(compare) && AllSorted(compare, inputs)
      ensures Valid() && initialized ==> Reading()
      ensures Valid() && !initialized ==> !failed
    {
      && Buffered()
      && TotalPreorder(compare) && AllSorted(compare, inputs)
      && (!initialized ==> !failed && trace == [] && buffers[0].Empty() && buffers[1].Empty() && live == [false, false])
      && (!failed ==> Greedy(compare, inputs, trace))
      && (initialized ==> Reading())
    }

    /** A reader that has been dropped is at its end, unless an input failed before the merge began. */
    ghost predicate Reading()
      requires Buffered()
      reads `trace, `live, `failed, buffers, Sources()
    {
      && |live| == 2
      && (!live[0] ==> Dropped(0))
      && (!live[1] ==> Dropped(1))
      && (failed ==> !live[1])
    }

    ghost predicate Dropped(i: nat)
      requires Buffered() && i < 2
      reads `trace, `failed, buffers, Sources()
    {
      buffers[i].Empty() && (!failed ==> Rest(inputs, trace)[i] == [])
    }

    constructor (buffers: seq<BufferedRowReader<T>>, compare: (T, T) -> int, ghost inputs: seq<seq<T>>)
      requires TotalPreorder(compare) && AllSorted(compare, inputs) && |inputs| == |buffers| == 2
      requires buffers[0] != buffers[1] && buffers[0].rows != buffers[1].rows
      requires forall i :: 0 <= i < 2 ==>
        buffers[i].Valid() && buffers[i].Empty() && buffers[i].Pending() == inputs[i]
      ensures Valid() && !initialized && trace == []
      ensures this.buffers == buffers && this.compare == compare && this.inputs == inputs
    {
      this.compare, this.buffers, this.inputs := compare, buffers, inputs;
      live, prev, streak, initialized := [false, false], 0, 0, false;
      trace, failed := [], false;
    }

    /** Consumes the first `m` buffered rows of input `i` and appends them to the output. */
    method Take(i: nat, m: nat) returns (hasNext: bool)
      requires Buffered() && i < 2 && m <= |buffers[i].Window()|
      modifies buffers[i], this`trace
      ensures Buffered() && hasNext == !buffers[i].Empty()
      ensures trace == old(trace) + Repeat(m, i)
      ensures Output(inputs, trace) == Output(inputs, old(trace)) + old(buffers[i].Window()[..m])
      ensures buffers[i].Window() == old(buffers[i].Window()[m..])
    {
      hide Fits, Output, Rest, Repeat;
      TakeEffect(inputs, trace, i, m);
      assert buffers[i].Pending()[..m] == buffers[i].Window()[..m];
      ghost var other := buffers[1 - i];
      hasNext := buffers[i].Advance(m);
      assert other.Valid() && other.Pending() == old(other.Pending());
      trace := trace + Repeat(m, i);
    }

    /** The rows returned since the trace was `t0` and the output was `rows0` have been written to its front. */
    ghost predicate Written(t0: seq<nat>, rows0: seq<T>, rows: seq<T>)
      reads `trace
    {
      && Fits(inputs, trace) && t0 <= trace && |trace| - |t0| <= |rows0|
      && rows == Splice(rows0, 0, Output(inputs, trace)[|t0|..])
    }

    /** Neither this reader nor the output is one of the objects below it. */
    lemma OutputApart(rows: array<T>)
      ensures rows as object !in Sources() && this as object !in Sources()
      ensures forall b | b in buffers :: b as object != rows && b as object != this
    {
      var o: object := rows;
      assert !(o is BufferedRowReader<T>) && !(o is RowSource<T>);
      o := this;
      assert !(o is BufferedRowReader<T>) && !(o is RowSource<T>);
    }

    lemma SelfApart()
      ensures this as object !in Sources() && forall b | b in buffers :: b as object != this
    {
      var o: object := this;
      assert !(o is BufferedRowReader<T>) && !(o is RowSource<T>);
    }

    /** Emits the first `m` buffered rows of input `i`. */
    method Emit(i: nat, m: nat, rows: array<T>, n: nat, ghost t0: seq<nat>, ghost rows0: seq<T>)
      returns (n': nat, hasNext: bool)
      requires Buffered() && i < 2 && m <= |buffers[i].Window()| && n + m <= rows.Length == |rows0|
      requires Written(t0, rows0, rows[..]) && n == |trace| - |t0|
      modifies buffers[i], this`trace, rows
      ensures Buffered() && n' == n + m && hasNext == !buffers[i].Empty()
      ensures trace == old(trace) + Repeat(m, i)
      ensures buffers[i].Window() == old(buffers[i].Window()[m..])
      ensures Written(t0, rows0, rows[..])
    {
      hide Fits, Rest, Buffered, Output;
      OutputApart(rows);
      var window := buffers[i].Window();
      CopyRows(window, m, rows, n);
      ghost var out, filled := Output(inputs, trace)[|t0|..], rows[..];
      SpliceConcat(rows0, 0, out, window[..m]);
      n' := n + m;
      hasNext := Take(i, m);
      assert rows[..] == filled;
      assert Output(inputs, trace)[|t0|..] == out + window[..m];
    }

    /** How many rows of the window of input `i` come strictly before `bound`; the first is known to. */
    method MeasureRun(i: nat, bound: T, room: nat) returns (run: nat)
      requires Buffered() && i < 2 && !buffers[i].Empty() && room > 0
      requires TotalPreorder(compare) && AllSorted(compare, inputs)
      requires compare(buffers[i].Head(), bound) < 0
      ensures Buffered() && 0 < run <= |buffers[i].Window()| && run <= room
      ensures forall j :: 0 <= j < run ==> compare(buffers[i].Window()[j], bound) < 0
    {
      hide Sorted;
      var window := buffers[i].Window();
      if |window| > room {
        window := window[..room];
      }
      run := 1;
      if |window| > 1 {
        WindowIsSorted(i, |window|);
        assert window == buffers[i].Window()[..|window|];
        ghost var comparisons;
        var more;
        more, comparisons := RunLength(window[1..], bound, compare, -1);
        assert forall j :: 0 < j <= more ==> window[j] == window[1..][j - 1];
        assert forall j :: 0 <= j < more ==> Within(compare, window[1..][j], bound, -1);
        run := run + more;
      }
    }

    lemma WindowIsSorted(i: nat, m: nat)
      requires Buffered() && i < 2 && AllSorted(compare, inputs) && 0 < m <= |buffers[i].Window()|
      ensures Sorted(compare, buffers[i].Window()[..m][1..])
    {
      var rest := Rest(inputs, trace)[i];
      assert Sorted(compare, inputs[i]) && Sorted(compare, rest);
      assert buffers[i].Window()[..m][1..] == rest[1..m];
    }

    /** Emits the run of input `i` that comes strictly before `bound`; its head is known to. */
    method EmitRun(i: nat, bound: T, rows: array<T>, n: nat, ghost t0: seq<nat>, ghost rows0: seq<T>)
      returns (n': nat, hasNext: bool)
      requires Buffered() && i < 2 && !buffers[i].Empty() && n < rows.Length == |rows0|
      requires TotalPreorder(compare) && AllSorted(compare, inputs)
      requires compare(buffers[i].Head(), bound) < 0
      requires Written(t0, rows0, rows[..]) && n == |trace| - |t0|
      modifies buffers[i], this`trace, rows
      ensures Buffered() && n < n' <= rows.Length && hasNext == !buffers[i].Empty()
      ensures n' - n <= |old(buffers[i].Window())|
      ensures forall j :: 0 <= j < n' - n ==> compare(old(buffers[i].Window())[j], bound) < 0
      ensures trace == old(trace) + Repeat(n' - n, i)
      ensures buffers[i].Window() == old(buffers[i].Window())[n' - n..]
      ensures Written(t0, rows0, rows[..])
    {
      hide Buffered, Written, TotalPreorder, AllSorted;
      var run := MeasureRun(i, bound, rows.Length - n);
      n', hasNext := Emit(i, run, rows, n, t0, rows0);
    }

    /** Input `i` holds the smaller head: emits it, or its run once it has been winning. */
    method EmitSmaller(i: nat, sign: int, rows: array<T>, n: nat, ghost t0: seq<nat>, ghost rows0: seq<T>)
      returns (n': nat, hasNext: bool)
      requires Buffered() && !buffers[0].Empty() && !buffers[1].Empty() && n < rows.Length == |rows0|
      requires TotalPreorder(compare) && AllSorted(compare, inputs)
      requires i < 2 && compare(buffers[i].Head(), buffers[1 - i].Head()) < 0
      requires Written(t0, rows0, rows[..]) && n == |trace| - |t0|
      modifies buffers[i], this`trace, this`prev, this`streak, rows
      ensures Buffered() && n < n' <= rows.Length && hasNext == !buffers[i].Empty()
      ensures n' - n <= |old(buffers[i].Window())|
      ensures forall j :: 0 <= j < n' - n ==> compare(old(buffers[i].Window())[j], old(buffers[1 - i].Head())) < 0
      ensures trace == old(trace) + Repeat(n' - n, i)
      ensures buffers[i].Window() == old(buffers[i].Window())[n' - n..]
      ensures Written(t0, rows0, rows[..])
    {
      hide Written, TotalPreorder, AllSorted, Buffered, Repeat;
      OutputApart(rows);
      streak := if prev == sign then streak + 1 else 0;
      prev := sign;
      if streak >= RUN_DETECTION_STREAK {
        n', hasNext := EmitRun(i, buffers[1 - i].Head(), rows, n, t0, rows0);
      } else {
        n', hasNext := Emit(i, 1, rows, n, t0, rows0);
      }
    }

    /** The heads are equal: emits both, or the first one if there is no room for the other. */
    method EmitPair(rows: array<T>, n: nat, ghost t0: seq<nat>, ghost rows0: seq<T>)
      returns (n': nat, hasNext0: bool, hasNext1: bool)
      requires Buffered() && !buffers[0].Empty() && !buffers[1].Empty() && n < rows.Length == |rows0|
      requires Written(t0, rows0, rows[..]) && n == |trace| - |t0|
      modifies buffers, this`trace, this`prev, this`streak, rows
      ensures Buffered() && Written(t0, rows0, rows[..])
      ensures n' == if n + 1 < rows.Length then n + 2 else n + 1
      ensures n' < rows.Length ==> hasNext0 == !buffers[0].Empty() && hasNext1 == !buffers[1].Empty()
      ensures trace == old(trace) + if n + 1 < rows.Length then [0, 1] else [0]
      ensures buffers[0].Window() == old(buffers[0].Window())[1..]
      ensures n + 1 < rows.Length ==> buffers[1].Window() == old(buffers[1].Window())[1..]
    {
      hide Written, Buffered;
      OutputApart(rows);
      n', hasNext0 := Emit(0, 1, rows, n, t0, rows0);
      hasNext1 := false;
      if n' < rows.Length {
        n', hasNext1 := Emit(1, 1, rows, n', t0, rows0);
      }
      prev := 0;
      streak := 0;
    }

    /** The inputs the next `room` rows come from while both windows last. */
    ghost function Ahead(room: nat): (ahead: seq<nat>)
      requires Buffered()
      reads `trace, buffers, Sources()
      ensures buffers[0].Empty() || buffers[1].Empty() || room == 0 ==> ahead == []
    {
      PairTrace(compare, buffers[0].Window(), buffers[1].Window(), room)
    }

    /** One turn of the loop while both readers have rows buffered. */
    method Turn(rows: array<T>, n: nat, ghost t0: seq<nat>, ghost rows0: seq<T>)
      returns (n': nat, hasNext0: bool, hasNext1: bool)
      requires Buffered() && !buffers[0].Empty() && !buffers[1].Empty() && n < rows.Length == |rows0|
      requires TotalPreorder(compare) && AllSorted(compare, inputs)
      requires Written(t0, rows0, rows[..]) && n == |trace| - |t0|
      modifies buffers, this`trace, this`prev, this`streak, rows
      ensures Buffered() && n < n' <= rows.Length && n' == |trace| - |t0|
      ensures Written(t0, rows0, rows[..])
      ensures n' < rows.Length ==> hasNext0 == !buffers[0].Empty() && hasNext1 == !buffers[1].Empty()
      ensures old(trace) + old(Ahead(rows.Length - n)) == trace + Ahead(rows.Length - n')
    {
      hide Written, TotalPreorder, AllSorted, Buffered, Ahead;
      OutputApart(rows);
      hasNext0, hasNext1 := true, true;
      var cmp := compare(buffers[0].Head(), buffers[1].Head());
      if cmp < 0 {
        n', hasNext0 := TurnSmaller(0, -1, rows, n, t0, rows0);
      } else if cmp > 0 {
        FlipSign(buffers[0].Head(), buffers[1].Head());
        n', hasNext1 := TurnSmaller(1, 1, rows, n, t0, rows0);
      } else {
        n', hasNext0, hasNext1 := TurnTie(rows, n, t0, rows0);
      }
    }

    lemma FlipSign(a: T, b: T)
      requires TotalPreorder(compare) && compare(a, b) > 0
      ensures compare(b, a) < 0
    {
    }

    /** A turn in which input `i` has the smaller head. */
    method TurnSmaller(i: nat, sign: int, rows: array<T>, n: nat, ghost t0: seq<nat>, ghost rows0: seq<T>)
      returns (n': nat, hasNext: bool)
      requires Buffered() && !buffers[0].Empty() && !buffers[1].Empty() && n < rows.Length == |rows0|
      requires TotalPreorder(compare) && AllSorted(compare, inputs)
      requires i < 2 && compare(buffers[i].Head(), buffers[1 - i].Head()) < 0
      requires Written(t0, rows0, rows[..]) && n == |trace| - |t0|
      modifies buffers[i], this`trace, this`prev, this`streak, rows
      ensures Buffered() && n < n' <= rows.Length && n' == |trace| - |t0|
      ensures Written(t0, rows0, rows[..])
      ensures hasNext == !buffers[i].Empty() && !buffers[1 - i].Empty()
      ensures old(trace) + old(Ahead(rows.Length - n)) == trace + Ahead(rows.Length - n')
    {
      hide Written, TotalPreorder, AllSorted, Buffered, PairTrace, Repeat;
      OutputApart(rows);
      ghost var w0, w1, before := buffers[0].Window(), buffers[1].Window(), trace;
      n', hasNext := EmitSmaller(i, sign, rows, n, t0, rows0);
      RunAhead(i, w0, w1, if i == 0 then w0 else w1, rows.Length - n, n' - n);
      Regroup(before, Repeat(n' - n, i), Ahead(rows.Length - n'));
    }

    /** A run of the input with the smaller head is what comes ahead. */
    lemma RunAhead(i: nat, w0: seq<T>, w1: seq<T>, run: seq<T>, room: nat, m: nat)
      requires TotalPreorder(compare) && i < 2 && w0 != [] && w1 != [] && m <= room && m <= |run|
      requires run == (if i == 0 then w0 else w1)
      requires forall j :: 0 <= j < m ==> compare(run[j], if i == 0 then w1[0] else w0[0]) < 0
      ensures PairTrace(compare, w0, w1, room)
        == Repeat(m, i) + PairTrace(compare, if i == 0 then w0[m..] else w0, if i == 1 then w1[m..] else w1, room - m)
    {
      hide PairTrace, Repeat;
      if i == 0 {
        LeftRun(compare, w0, w1, room, m);
      } else {
        FlipSigns(w0[0], w1);
        RightRun(compare, w0, w1, room, m);
      }
    }

    /** A turn in which the heads are equal. */
    method TurnTie(rows: array<T>, n: nat, ghost t0: seq<nat>, ghost rows0: seq<T>)
      returns (n': nat, hasNext0: bool, hasNext1: bool)
      requires Buffered() && !buffers[0].Empty() && !buffers[1].Empty() && n < rows.Length == |rows0|
      requires compare(buffers[0].Head(), buffers[1].Head()) == 0
      requires Written(t0, rows0, rows[..]) && n == |trace| - |t0|
      modifies buffers, this`trace, this`prev, this`streak, rows
      ensures Buffered() && n < n' <= rows.Length && n' == |trace| - |t0|
      ensures Written(t0, rows0, rows[..])
      ensures n' < rows.Length ==> hasNext0 == !buffers[0].Empty() && hasNext1 == !buffers[1].Empty()
      ensures old(trace) + old(Ahead(rows.Length - n)) == trace + Ahead(rows.Length - n')
    {
      hide Written, Buffered, PairTrace;
      OutputApart(rows);
      ghost var w0, w1, room, before := buffers[0].Window(), buffers[1].Window(), rows.Length - n, trace;
      n', hasNext0, hasNext1 := EmitPair(rows, n, t0, rows0);
      PairUnfolds(compare, w0, w1, room);
      Regroup(before, if room == 1 then [0] else [0, 1], Ahead(rows.Length - n'));
    }

    static lemma Regroup(a: seq<nat>, b: seq<nat>, c: seq<nat>)
      ensures a + (b + c) == a + b + c
    {
    }

    lemma FlipSigns(a: T, s: seq<T>)
      requires TotalPreorder(compare)
      ensures forall j :: 0 <= j < |s| ==> (compare(a, s[j]) > 0 <==> compare(s[j], a) < 0)
    {
    }

    /** The other input is exhausted: emits the buffered rows of input `i` one by one. */
    method EmitOnly(i: nat, rows: array<T>) returns (n: nat)
      requires Buffered() && i < 2 && !buffers[i].Empty()
      modifies buffers[i], this`trace, rows
      ensures Buffered() && n <= rows.Length && (n == 0 ==> rows.Length == 0)
      ensures trace == old(trace) + Repeat(Min(|old(buffers[i].Window())|, rows.Length), i)
      ensures n == |trace| - |old(trace)| && Written(old(trace), old(rows[..]), rows[..])
    {
      hide Buffered, Fits;
      n := 0;
      NothingWritten(rows[..]);
      hide Written;
      ghost var w := buffers[i].Window();
      TraceConcat(trace, i, []);
      var hasNext := true;
      while n < rows.Length && hasNext
        invariant Buffered() && n <= |w| && n <= rows.Length && hasNext == !buffers[i].Empty()
        invariant buffers[i].Window() == w[n..]
        invariant trace == old(trace) + Repeat(n, i)
        invariant Written(old(trace), old(rows[..]), rows[..])
        decreases rows.Length - n
      {
        RepeatExtends(old(trace), n, i);
        n, hasNext := Emit(i, 1, rows, n, old(trace), old(rows[..]));
      }
    }

    static lemma RepeatExtends(before: seq<nat>, n: nat, i: nat)
      ensures before + Repeat(n, i) + Repeat(1, i) == before + Repeat(n + 1, i)
    {
    }

    lemma NothingWritten(rows: seq<T>)
      requires Fits(inputs, trace)
      ensures Written(trace, rows, rows)
    {
      SpliceNothing(rows, 0);
      assert Output(inputs, trace)[|trace|..] == [];
    }

    /** Both readers have rows buffered: merges the two windows. */
    method EmitBoth(rows: array<T>) returns (n: nat)
      requires Buffered() && !buffers[0].Empty() && !buffers[1].Empty()
      requires TotalPreorder(compare) && AllSorted(compare, inputs)
      modifies buffers, this`trace, this`prev, this`streak, rows
      ensures Buffered() && n <= rows.Length && (n == 0 ==> rows.Length == 0)
      ensures trace == old(trace) + old(Ahead(rows.Length))
      ensures n == |trace| - |old(trace)| && Written(old(trace), old(rows[..]), rows[..])
    {
      hide Buffered, Fits, TotalPreorder, AllSorted, Ahead;
      OutputApart(rows);
      n := 0;
      NothingWritten(rows[..]);
      hide Written;
      var hasNext0, hasNext1 := true, true;
      while n < rows.Length && hasNext0 && hasNext1
        invariant Buffered() && n <= rows.Length && n == |trace| - |old(trace)|
        invariant n == 0 ==> hasNext0 && hasNext1
        invariant n < rows.Length ==> hasNext0 == !buffers[0].Empty() && hasNext1 == !buffers[1].Empty()
        invariant old(trace) + old(Ahead(rows.Length)) == trace + Ahead(rows.Length - n)
        invariant Written(old(trace), old(rows[..]), rows[..])
        decreases rows.Length - n
      {
        n, hasNext0, hasNext1 := Turn(rows, n, old(trace), old(rows[..]));
      }
      assert Ahead(rows.Length - n) == [];
    }

    /** An input has returned the error. */
    ghost predicate Reported(err: ReadError)
      reads buffers, Sources()
    {
      exists b :: b in buffers && err in b.rows.errors
    }

    /** Reads more rows of input `i`, whose buffer is empty; nothing is consumed. */
    method ReadBuffer(i: nat) returns (err: ReadError)
      requires Buffered() && i < 2 && buffers[i].Empty()
      modifies buffers[i], buffers[i].rows
      ensures Buffered()
      ensures err == NoError <==> !buffers[i].Empty()
      ensures err == EOF ==> Rest(inputs, trace)[i] == []
      ensures Rest(inputs, trace)[i] == [] ==> err != NoError
      ensures err != NoError ==> Reported(err)
    {
      hide Fits, Rest;
      err := buffers[i].Read();
      assert buffers[i] in buffers;
    }

    /** Makes the first reads. If one fails, the inputs not read successfully by then stay dropped. */
    method Initialize() returns (err: ReadError)
      requires Valid() && !initialized
      modifies `live, `failed, `initialized, buffers, Sources()
      ensures Valid() && initialized && err != EOF && (err == NoError <==> !failed)
      ensures err != NoError ==> Reported(err)
    {
      hide Fits, Rest, Greedy, TotalPreorder, AllSorted, Reported;
      SelfApart();
      initialized := true;
      var i := 0;
      while i < 2
        invariant Buffered() && 0 <= i <= 2 && |live| == 2 && initialized && !failed
        invariant i > 0 && !live[0] ==> Dropped(0)
        invariant i > 1 && !live[1] ==> Dropped(1)
        invariant i < 1 ==> !live[0] && buffers[0].Empty()
        invariant i < 2 ==> !live[1] && buffers[1].Empty()
      {
        err := ReadBuffer(i);
        if err == NoError {
          live := live[i := true];
        } else if err != EOF {
          failed := true;
          return err;
        }
        i := i + 1;
      }
      return NoError;
    }

    /** Every reader that has not been dropped has rows buffered. */
    ghost predicate AllFilled()
      requires Buffered()
      reads `trace, `live, buffers, Sources()
      ensures AllFilled() ==> |live| == 2
    {
      |live| == 2 && live[0] == !buffers[0].Empty() && live[1] == !buffers[1].Empty()
    }

    /** Refills the buffer of input `i` if it has been consumed, dropping the reader at its end. */
    method Refill(i: nat) returns (err: ReadError)
      requires Valid() && initialized && i < 2
      modifies `live, buffers[i], buffers[i].rows
      ensures Valid() && err != EOF && live[1 - i] == old(live[1 - i])
      ensures err == NoError ==> (live[i] <==> !buffers[i].Empty())
      ensures err != NoError ==> Reported(err)
    {
      hide Fits, Rest, Greedy, TotalPreorder, AllSorted, Reported;
      SelfApart();
      err := NoError;
      if live[i] && buffers[i].Empty() {
        err := ReadBuffer(i);
        if err == EOF {
          live := live[i := false];
          err := NoError;
        }
      }
    }

    /** The other reader has been dropped: emits what input `i` has buffered. */
    method MergeOnly(i: nat, rows: array<T>) returns (n: nat)
      requires Valid() && initialized && AllFilled() && i < 2 && live[i] && !live[1 - i]
      modifies buffers[i], this`trace, rows
      ensures Valid()
      ensures n <= rows.Length && n == |trace| - |old(trace)| && (n == 0 ==> rows.Length == 0)
      ensures Written(old(trace), old(rows[..]), rows[..])
      ensures trace == old(trace) + old(CallAhead(rows.Length))
    {
      OutputApart(rows);
      if !failed {
        GoesOnGreedily(rows.Length);
      }
      hide Fits, Rest, Greedy, TotalPreorder, AllSorted, Written, Repeat, PairTrace, Reading, Valid;
      n := EmitOnly(i, rows);
      StaysDropped(1 - i);
    }

    /** Merges what both inputs have buffered. */
    method MergeBoth(rows: array<T>) returns (n: nat)
      requires Valid() && initialized && AllFilled() && live[0] && live[1]
      modifies buffers, this`trace, this`prev, this`streak, rows
      ensures Valid()
      ensures n <= rows.Length && n == |trace| - |old(trace)| && (n == 0 ==> rows.Length == 0)
      ensures Written(old(trace), old(rows[..]), rows[..])
      ensures trace == old(trace) + old(CallAhead(rows.Length))
    {
      hide Fits, Rest, Greedy, TotalPreorder, AllSorted, Written, Repeat, PairTrace;
      if !failed {
        GoesOnGreedily(rows.Length);
      }
      assert Buffered() && TotalPreorder(compare) && AllSorted(compare, inputs);
      hide Reading, Valid, Buffered;
      n := EmitBoth(rows);
      NoneDropped();
    }

    /** Merges the rows buffered by the readers that have not been dropped. */
    method MergeWindows(rows: array<T>) returns (n: nat)
      requires Valid() && initialized && AllFilled() && (live[0] || live[1])
      modifies buffers, this`trace, this`prev, this`streak, rows
      ensures Valid()
      ensures n <= rows.Length && n == |trace| - |old(trace)| && (n == 0 ==> rows.Length == 0)
      ensures Written(old(trace), old(rows[..]), rows[..])
      ensures trace == old(trace) + old(CallAhead(rows.Length))
    {
      hide Valid, AllFilled, Buffered, CallAhead, Written;
      if !live[0] {
        n := MergeOnly(1, rows);
      } else if !live[1] {
        n := MergeOnly(0, rows);
      } else {
        n := MergeBoth(rows);
      }
    }

    /** The inputs of the rows a call with the given room takes from the buffers as they are. */
    ghost function CallAhead(room: nat): seq<nat>
      requires Buffered()
      reads `trace, buffers, Sources()
    {
      CallTrace(compare, buffers[0].Window(), buffers[1].Window(), room)
    }

    lemma GoesOnGreedily(room: nat)
      requires Valid() && initialized && !failed
      requires AllFilled()
      ensures Greedy(compare, inputs, trace + CallAhead(room))
    {
      assert Windows(inputs, trace, buffers[0].Window(), buffers[1].Window());
      CallTraceIsGreedy(compare, inputs, trace, buffers[0].Window(), buffers[1].Window(), room);
    }

    /** A call that takes rows from the other input only leaves a dropped reader at its end. */
    twostate lemma StaysDropped(i: nat)
      requires old(Valid()) && initialized && old(initialized) && i < 2 && |live| == 2 && !live[i]
      requires Buffered() && live == old(live) && failed == old(failed)
      requires unchanged(buffers[i]) && unchanged(buffers[i].rows)
      requires !failed ==> Greedy(compare, inputs, trace)
      requires live[1 - i]
      ensures Valid()
    {
    }

    twostate lemma NoneDropped()
      requires old(Valid()) && initialized && old(initialized)
      requires Buffered() && live == old(live) && failed == old(failed)
      requires !failed ==> Greedy(compare, inputs, trace)
      requires live[0] && live[1]
      ensures Valid()
    {
    }

    lemma AllDropped()
      requires Valid() && initialized && !live[0] && !live[1]
      ensures !failed ==> Complete(inputs, trace)
    {
      hide TotalPreorder, AllSorted, Greedy, Taken;
      assert !failed ==> Rest(inputs, trace)[0] == [] && Rest(inputs, trace)[1] == [];
    }

    /** Rows that are buffered have not been returned. */
    lemma SomeLeft()
      requires Buffered() && AllFilled() && (live[0] || live[1])
      ensures !Complete(inputs, trace)
    {
      var i := if live[0] then 0 else 1;
      assert buffers[i].Pending() != [] && buffers[i].Pending() == Rest(inputs, trace)[i];
      assert Taken(trace, i) < |inputs[i]|;
    }

    /** Makes sure that every reader that has not been dropped has rows buffered; EOF if there is none. */
    method Prepare() returns (err: ReadError)
      requires Valid()
      modifies `live, `failed, `initialized, buffers, Sources()
      ensures Valid() && initialized
      ensures err == NoError ==>
        && AllFilled()
        && (live[0] || live[1])
      ensures err == EOF && !failed ==> Complete(inputs, trace)
      ensures failed && !old(failed) ==> err.Failure?
      ensures old(failed) ==> failed
      ensures err.Failure? ==> Reported(err)
      ensures Complete(inputs, trace) ==> err != NoError
    {
      hide Fits, Greedy, TotalPreorder, AllSorted, Buffered, Valid, Reported, Complete;
      SelfApart();
      if !initialized {
        err := Initialize();
        if err != NoError {
          return;
        }
      }
      err := Refill(0);
      if err != NoError {
        return;
      }
      err := Refill(1);
      if err != NoError {
        return;
      }
      if !live[0] && !live[1] {
        AllDropped();
        err := EOF;
      } else {
        SomeLeft();
      }
    }

    /** While no input has failed, a window is empty only at the end of its input. */
    lemma WindowsEnd()
      requires Valid() && initialized && !failed && AllFilled()
      ensures buffers[0].Window() == [] <==> Rest(inputs, trace)[0] == []
      ensures buffers[1].Window() == [] <==> Rest(inputs, trace)[1] == []
    {
      hide Fits, Rest, Greedy, TotalPreorder, AllSorted;
      assert !live[0] ==> Dropped(0);
      assert !live[1] ==> Dropped(1);
    }

    /** What a call that emits nothing leaves to show. */
    lemma NothingMerged(rows: seq<T>, room: nat)
      requires Valid()
      ensures Written(trace, rows, rows) && CallTrace(compare, [], [], room) == []
      ensures [] <= Rest(inputs, trace)[0] && [] <= Rest(inputs, trace)[1]
    {
      NothingWritten(rows);
    }

    /** One call of the reader: what it appends to the trace has been written to the front of the output. */
    method ReadMerged(rows: array<T>) returns (n: nat, err: ReadError, ghost v0: seq<T>, ghost v1: seq<T>)
      requires Valid()
      modifies this, buffers, Sources(), rows
      ensures Valid() && initialized
      ensures n == |trace| - |old(trace)| && n <= rows.Length && Written(old(trace), old(rows[..]), rows[..])
      ensures v0 <= Rest(inputs, old(trace))[0] && v1 <= Rest(inputs, old(trace))[1]
      ensures err == NoError && !failed ==>
        (v0 == [] <==> Rest(inputs, old(trace))[0] == []) && (v1 == [] <==> Rest(inputs, old(trace))[1] == [])
      ensures trace == old(trace) + CallTrace(compare, v0, v1, rows.Length)
      ensures err == EOF && !failed ==> Complete(inputs, trace)
      ensures err == NoError && n == 0 ==> rows.Length == 0
      ensures failed && !old(failed) ==> n == 0 && err.Failure?
      ensures old(failed) ==> failed
      ensures err.Failure? ==> Reported(err)
      ensures Complete(inputs, old(trace)) ==> err == EOF || err.Failure?
    {
      hide Fits, Rest, Greedy, TotalPreorder, AllSorted, Written, PairTrace, Reading, CallTrace, Complete, Reported;
      NothingMerged(rows[..], rows.Length);
      OutputApart(rows);
      hide Valid;
      n, v0, v1 := 0, [], [];
      err := Prepare();
      if err == NoError {
        v0, v1 := buffers[0].Window(), buffers[1].Window();
        if !failed {
          WindowsEnd();
        }
        n := MergeWindows(rows);
      }
    }

    /**
     * Returns the next merged rows. Unless an input failed before the merge began, the rows of all calls together are
     * a greedy merge of the inputs, whatever the lengths of the outputs and the chunks the inputs are read in, and
     * the end is reported only when the merge is complete. Within a call, `v0` and `v1` are the rows buffered when
     * it merges; what it emits depends on them and on the room alone, not on the winning streak.
     */
    method ReadRows(rows: array<T>) returns (n: nat, err: ReadError, ghost v0: seq<T>, ghost v1: seq<T>)
      requires Valid()
      modifies this, buffers, Sources(), rows
      ensures Valid() && initialized
      ensures n == |trace| - |old(trace)| && n <= rows.Length && Fits(inputs, trace) && old(trace) <= trace
      ensures rows[..n] == Output(inputs, trace)[|old(trace)|..] && rows[n..] == old(rows[..])[n..]
      ensures v0 <= Rest(inputs, old(trace))[0] && v1 <= Rest(inputs, old(trace))[1]
      ensures err == NoError && !failed ==>
        (v0 == [] <==> Rest(inputs, old(trace))[0] == []) && (v1 == [] <==> Rest(inputs, old(trace))[1] == [])
      ensures trace == old(trace) + CallTrace(compare, v0, v1, rows.Length)
      ensures err == EOF && !failed ==> Complete(inputs, trace)
      ensures err == NoError && n == 0 ==> rows.Length == 0
      ensures failed && !old(failed) ==> n == 0 && err.Failure?
      ensures old(failed) ==> failed
      ensures err.Failure? ==> Reported(err)
      ensures Complete(inputs, old(trace)) ==> err == EOF || err.Failure?
    {
      hide Valid, Fits, Rest, CallTrace, Complete, Reported, Written, Output;
      n, err, v0, v1 := ReadMerged(rows);
      WrittenIs(old(trace), old(rows[..]), rows[..]);
    }

    /** What has been written to the front of the output. */
    lemma WrittenIs(t0: seq<nat>, rows0: seq<T>, rows: seq<T>)
      requires Written(t0, rows0, rows)
      ensures Fits(inputs, trace) && t0 <= trace && |trace| - |t0| <= |rows0| == |rows|
      ensures rows[..|trace| - |t0|] == Output(inputs, trace)[|t0|..]
      ensures rows[|trace| - |t0|..] == rows0[|trace| - |t0|..]
    {
      SplicedFront(rows0, Output(inputs, trace)[|t0|..]);
    }
  }
}
