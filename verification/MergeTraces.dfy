/**
 * What a merge of sorted inputs may do, independently of how the reader finds the next row.
 * A trace lists, row by row, the input each output row was taken from.
 */
module MergeTraces {
  import opened Orders

  /** How many rows the trace takes from input `i`. */
  ghost function Taken(trace: seq<nat>, i: nat): nat {
    if trace == [] then 0
    else Taken(trace[..|trace| - 1], i) + if trace[|trace| - 1] == i then 1 else 0
  }

  lemma TraceConcat(a: seq<nat>, w: nat, b: seq<nat>)
    ensures a + ([w] + b) == a + [w] + b
    ensures a + [] == a
  {
  }

  lemma TakenSnoc(trace: seq<nat>, w: nat, i: nat)
    ensures Taken(trace + [w], i) == Taken(trace, i) + if w == i then 1 else 0
  {
    assert (trace + [w])[..|trace|] == trace;
  }

  lemma {:induction false} TakenConcat(a: seq<nat>, b: seq<nat>, i: nat)
    ensures Taken(a + b, i) == Taken(a, i) + Taken(b, i)
  {
    if b == [] {
      assert a + b == a;
    } else {
      var n := |b| - 1;
      assert a + b == (a + b[..n]) + [b[n]];
      TakenSnoc(a + b[..n], b[n], i);
      TakenConcat(a, b[..n], i);
    }
  }

  lemma TakenPrefix(trace: seq<nat>, t: nat, i: nat)
    requires t <= |trace|
    ensures Taken(trace[..t], i) <= Taken(trace, i)
    ensures t < |trace| && trace[t] == i ==> Taken(trace[..t], i) < Taken(trace, i)
  {
    assert trace == trace[..t] + trace[t..];
    TakenConcat(trace[..t], trace[t..], i);
    if t < |trace| {
      assert trace[t..] == [trace[t]] + trace[t + 1..];
      TakenConcat([trace[t]], trace[t + 1..], i);
      TakenSnoc([], trace[t], i);
      assert [] + [trace[t]] == [trace[t]];
    }
  }

  /** After the trace `taken`, input `w` is not exhausted and its head is minimal. */
  ghost predicate GreedyAt<T>(cmp: (T, T) -> int, ins: seq<seq<T>>, taken: seq<nat>, w: nat) {
    && w < |ins|
    && Taken(taken, w) < |ins[w]|
    && forall j: nat :: j < |ins| && Taken(taken, j) < |ins[j]| ==>
        cmp(ins[w][Taken(taken, w)], ins[j][Taken(taken, j)]) <= 0
  }

  ghost predicate Greedy<T>(cmp: (T, T) -> int, ins: seq<seq<T>>, trace: seq<nat>) {
    forall t :: 0 <= t < |trace| ==> GreedyAt(cmp, ins, trace[..t], trace[t])
  }

  /** A trace takes from each input no more rows than it has. */
  ghost predicate Fits<T>(ins: seq<seq<T>>, trace: seq<nat>) {
    && (forall t :: 0 <= t < |trace| ==> trace[t] < |ins|)
    && (forall i: nat :: i < |ins| ==> Taken(trace, i) <= |ins[i]|)
  }

  /** Every row of every input has been taken. */
  ghost predicate Complete<T>(ins: seq<seq<T>>, trace: seq<nat>) {
    forall i: nat :: i < |ins| ==> Taken(trace, i) == |ins[i]|
  }

  /** The row a trace emits at step `t`: the next row of the input it names. */
  ghost function RowAt<T>(ins: seq<seq<T>>, trace: seq<nat>, t: nat): T
    requires Fits(ins, trace) && t < |trace|
  {
    TakenPrefix(trace, t, trace[t]);
    ins[trace[t]][Taken(trace[..t], trace[t])]
  }

  ghost function Output<T>(ins: seq<seq<T>>, trace: seq<nat>): (out: seq<T>)
    requires Fits(ins, trace)
    ensures |out| == |trace|
  {
    seq(|trace|, t requires 0 <= t < |trace| => RowAt(ins, trace, t))
  }

  /** The rows each input still holds after the trace. */
  ghost function Rest<T>(ins: seq<seq<T>>, trace: seq<nat>): (r: seq<seq<T>>)
    requires Fits(ins, trace)
    ensures |r| == |ins|
  {
    seq(|ins|, i requires 0 <= i < |ins| => ins[i][Taken(trace, i)..])
  }

  /** The subsequence of `out` that the trace attributes to input `i`. */
  ghost function TakenFrom<T>(out: seq<T>, trace: seq<nat>, i: nat): seq<T>
    requires |out| == |trace|
  {
    if out == [] then []
    else
      var n := |out| - 1;
      TakenFrom(out[..n], trace[..n], i) + if trace[n] == i then [out[n]] else []
  }

  ghost function RowsOf<T>(ins: seq<seq<T>>): multiset<T> {
    if ins == [] then multiset{} else multiset(ins[0]) + RowsOf(ins[1..])
  }

  lemma GreedyPrefix<T>(cmp: (T, T) -> int, ins: seq<seq<T>>, trace: seq<nat>, n: nat)
    requires Greedy(cmp, ins, trace) && n <= |trace|
    ensures Greedy(cmp, ins, trace[..n])
  {
    forall t | 0 <= t < n ensures GreedyAt(cmp, ins, trace[..n][..t], trace[..n][t]) {
      assert trace[..n][..t] == trace[..t];
    }
  }

  lemma FitsSnoc<T>(ins: seq<seq<T>>, trace: seq<nat>, w: nat)
    requires Fits(ins, trace) && w < |ins| && Taken(trace, w) < |ins[w]|
    ensures Fits(ins, trace + [w])
  {
    hide Taken;
    forall i: nat | i < |ins| ensures Taken(trace + [w], i) <= |ins[i]| {
      TakenSnoc(trace, w, i);
    }
  }

  lemma {:induction false} GreedyFits<T>(cmp: (T, T) -> int, ins: seq<seq<T>>, trace: seq<nat>)
    requires Greedy(cmp, ins, trace)
    ensures Fits(ins, trace)
  {
    hide Taken, Fits;
    if trace == [] {
      EmptyFits(ins);
    } else {
      var n := |trace| - 1;
      GreedyPrefix(cmp, ins, trace, n);
      GreedyFits(cmp, ins, trace[..n]);
      assert GreedyAt(cmp, ins, trace[..n], trace[n]);
      FitsSnoc(ins, trace[..n], trace[n]);
      assert trace == trace[..n] + [trace[n]];
    }
  }

  lemma EmptyFits<T>(ins: seq<seq<T>>)
    ensures Fits(ins, [])
  {
  }

  lemma GreedyExtends<T>(cmp: (T, T) -> int, ins: seq<seq<T>>, trace: seq<nat>, w: nat)
    requires Greedy(cmp, ins, trace) && GreedyAt(cmp, ins, trace, w)
    ensures Greedy(cmp, ins, trace + [w])
  {
    var next := trace + [w];
    forall t | 0 <= t < |next| ensures GreedyAt(cmp, ins, next[..t], next[t]) {
      if t < |trace| {
        assert next[..t] == trace[..t];
      } else {
        assert next[..t] == trace;
      }
    }
  }

  /** The output of a prefix of a trace is a prefix of its output. */
  lemma OutputPrefix<T>(ins: seq<seq<T>>, trace: seq<nat>, n: nat)
    requires Fits(ins, trace) && n <= |trace|
    ensures Fits(ins, trace[..n])
    ensures Output(ins, trace[..n]) == Output(ins, trace)[..n]
  {
    forall i: nat | i < |ins| ensures Taken(trace[..n], i) <= |ins[i]| {
      TakenPrefix(trace, n, i);
    }
    forall u | 0 <= u < n ensures Output(ins, trace[..n])[u] == Output(ins, trace)[u] {
      assert trace[..n][..u] == trace[..u];
    }
  }

  /** Appending one step appends one row and takes it off its input. */
  lemma OutputExtends<T>(ins: seq<seq<T>>, trace: seq<nat>, w: nat)
    requires Fits(ins, trace) && w < |ins| && Taken(trace, w) < |ins[w]|
    ensures Fits(ins, trace + [w])
    ensures Output(ins, trace + [w]) == Output(ins, trace) + [ins[w][Taken(trace, w)]]
    ensures Rest(ins, trace + [w]) == Rest(ins, trace)[w := Rest(ins, trace)[w][1..]]
  {
    var next := trace + [w];
    FitsSnoc(ins, trace, w);
    assert next[..|trace|] == trace;
    OutputPrefix(ins, next, |trace|);
    var rest := Rest(ins, trace)[w := Rest(ins, trace)[w][1..]];
    forall i | 0 <= i < |ins| ensures Rest(ins, next)[i] == rest[i] {
      TakenSnoc(trace, w, i);
    }
  }

  ghost function Repeat(m: nat, w: nat): (r: seq<nat>)
    ensures |r| == m
  {
    seq(m, _ => w)
  }

  lemma RepeatUnfolds(m: nat, w: nat)
    requires m > 0
    ensures Repeat(m, w) == [w] + Repeat(m - 1, w)
  {
  }

  lemma {:induction false} TakenRepeat(trace: seq<nat>, i: nat, m: nat, j: nat)
    ensures Taken(trace + Repeat(m, i), j) == Taken(trace, j) + if j == i then m else 0
    decreases m
  {
    if m == 0 {
      TraceConcat(trace, i, []);
    } else {
      TakenSnoc(trace, i, j);
      TakenRepeat(trace + [i], i, m - 1, j);
      RepeatUnfolds(m, i);
      TraceConcat(trace, i, Repeat(m - 1, i));
    }
  }

  /** The rows a repeated input contributes. */
  lemma {:induction false} RepeatOutput<T>(ins: seq<seq<T>>, trace: seq<nat>, i: nat, m: nat)
    requires Fits(ins, trace) && i < |ins| && Taken(trace, i) + m <= |ins[i]|
    ensures Fits(ins, trace + Repeat(m, i))
    ensures Output(ins, trace + Repeat(m, i)) == Output(ins, trace) + ins[i][Taken(trace, i)..Taken(trace, i) + m]
    decreases m
  {
    hide Fits, Output;
    var t := Taken(trace, i);
    if m == 0 {
      TraceConcat(trace, i, []);
      assert ins[i][t..t + 0] == [];
      assert Output(ins, trace) + [] == Output(ins, trace);
    } else {
      OutputExtends(ins, trace, i);
      TakenSnoc(trace, i, i);
      RepeatOutput(ins, trace + [i], i, m - 1);
      RepeatUnfolds(m, i);
      TraceConcat(trace, i, Repeat(m - 1, i));
      assert ins[i][t..t + m] == [ins[i][t]] + ins[i][t + 1..t + m];
    }
  }

  lemma TakeEffect<T>(ins: seq<seq<T>>, trace: seq<nat>, i: nat, m: nat)
    requires Fits(ins, trace) && i < |ins| && m <= |Rest(ins, trace)[i]|
    ensures Fits(ins, trace + Repeat(m, i))
    ensures Output(ins, trace + Repeat(m, i)) == Output(ins, trace) + Rest(ins, trace)[i][..m]
    ensures Rest(ins, trace + Repeat(m, i)) == Rest(ins, trace)[i := Rest(ins, trace)[i][m..]]
  {
    RepeatOutput(ins, trace, i, m);
    var after, expected := Rest(ins, trace + Repeat(m, i)), Rest(ins, trace)[i := Rest(ins, trace)[i][m..]];
    forall j | 0 <= j < |ins| ensures after[j] == expected[j] {
      TakenRepeat(trace, i, m, j);
    }
  }

  /** A greedy merge of sorted inputs emits a sorted sequence. */
  lemma GreedyIsSorted<T(!new)>(cmp: (T, T) -> int, ins: seq<seq<T>>, trace: seq<nat>)
    requires TotalPreorder(cmp) && AllSorted(cmp, ins) && Greedy(cmp, ins, trace)
    ensures Fits(ins, trace)
    ensures Sorted(cmp, Output(ins, trace))
  {
    GreedyFits(cmp, ins, trace);
    var out := Output(ins, trace);
    forall t | 0 <= t < |out| - 1 ensures cmp(out[t], out[t + 1]) <= 0 {
      NextIsNoSmaller(cmp, ins, trace, t);
    }
    NeighboursSuffice(cmp, out);
  }

  lemma NextIsNoSmaller<T>(cmp: (T, T) -> int, ins: seq<seq<T>>, trace: seq<nat>, t: nat)
    requires AllSorted(cmp, ins) && Greedy(cmp, ins, trace) && Fits(ins, trace) && t + 1 < |trace|
    ensures cmp(RowAt(ins, trace, t), RowAt(ins, trace, t + 1)) <= 0
  {
    hide Taken;
    var w, v := trace[t], trace[t + 1];
    assert trace[..t + 1] == trace[..t] + [w];
    TakenSnoc(trace[..t], w, v);
    assert GreedyAt(cmp, ins, trace[..t], w);
    assert GreedyAt(cmp, ins, trace[..t + 1], v);
    if w == v {
      assert Sorted(cmp, ins[w]);
    }
  }

  /** Whatever is emitted is at most everything that is still to come. */
  lemma GreedyBoundsRest<T(!new)>(cmp: (T, T) -> int, ins: seq<seq<T>>, trace: seq<nat>, i: nat)
    requires TotalPreorder(cmp) && AllSorted(cmp, ins) && Greedy(cmp, ins, trace) && i < |ins|
    ensures Fits(ins, trace)
    ensures AllAtMost(cmp, Output(ins, trace), Rest(ins, trace)[i])
  {
    GreedyFits(cmp, ins, trace);
    var out, rest := Output(ins, trace), Rest(ins, trace)[i];
    forall t: nat, j: nat | t < |out| && j < |rest| ensures cmp(out[t], rest[j]) <= 0 {
      EmittedAtMost(cmp, ins, trace, i, t, Taken(trace, i) + j);
    }
  }

  lemma EmittedAtMost<T(!new)>(cmp: (T, T) -> int, ins: seq<seq<T>>, trace: seq<nat>, i: nat, t: nat, j: nat)
    requires TotalPreorder(cmp) && AllSorted(cmp, ins) && Greedy(cmp, ins, trace) && Fits(ins, trace)
    requires i < |ins| && t < |trace| && Taken(trace, i) <= j < |ins[i]|
    ensures cmp(RowAt(ins, trace, t), ins[i][j]) <= 0
  {
    hide Taken, Fits, Greedy;
    TakenPrefix(trace, t, i);
    EmittedIsSmallest(cmp, ins, trace, i, t);
    var from := Taken(trace[..t], i);
    assert Sorted(cmp, ins[i]);
    assert from < j ==> cmp(ins[i][from], ins[i][j]) <= 0;
    assert Chained(cmp, RowAt(ins, trace, t), ins[i][from], ins[i][j]);
  }

  lemma EmittedIsSmallest<T>(cmp: (T, T) -> int, ins: seq<seq<T>>, trace: seq<nat>, i: nat, t: nat)
    requires Greedy(cmp, ins, trace) && Fits(ins, trace)
    requires i < |ins| && t < |trace| && Taken(trace[..t], i) < |ins[i]|
    ensures cmp(RowAt(ins, trace, t), ins[i][Taken(trace[..t], i)]) <= 0
  {
    hide Taken, Fits;
    assert GreedyAt(cmp, ins, trace[..t], trace[t]);
  }

  /** Each input's rows come out in their own order, none skipped and none repeated. */
  lemma {:induction false} OutputKeepsInputOrder<T>(ins: seq<seq<T>>, trace: seq<nat>, i: nat)
    requires Fits(ins, trace) && i < |ins|
    ensures TakenFrom(Output(ins, trace), trace, i) == ins[i][..Taken(trace, i)]
  {
    if trace != [] {
      var n := |trace| - 1;
      TakenPrefix(trace, n, trace[n]);
      OutputPrefix(ins, trace, n);
      OutputKeepsInputOrder(ins, trace[..n], i);
    }
  }

  lemma {:induction false} RowsOfUpdate<T>(a: seq<seq<T>>, i: nat, s: seq<T>)
    requires i < |a|
    ensures RowsOf(a[i := s]) + multiset(a[i]) == RowsOf(a) + multiset(s)
  {
    if i > 0 {
      assert a[i := s][1..] == a[1..][i - 1 := s];
      assert a[1..][i - 1] == a[i];
      RowsOfUpdate(a[1..], i - 1, s);
      var first, before, after := multiset(a[0]), RowsOf(a[1..]), RowsOf(a[1..][i - 1 := s]);
      assert first + after + multiset(a[i]) == first + (after + multiset(a[i]));
      assert first + before + multiset(s) == first + (before + multiset(s));
    } else {
      assert a[i := s][1..] == a[1..];
    }
  }

  /** Nothing is lost and nothing is added: emitted and remaining rows together are the inputs' rows. */
  lemma {:induction false} OutputConservesRows<T>(ins: seq<seq<T>>, trace: seq<nat>)
    requires Fits(ins, trace)
    ensures multiset(Output(ins, trace)) + RowsOf(Rest(ins, trace)) == RowsOf(ins)
  {
    if trace == [] {
      assert Rest(ins, trace) == ins;
    } else {
      var n := |trace| - 1;
      var before, w := trace[..n], trace[n];
      TakenPrefix(trace, n, w);
      OutputPrefix(ins, trace, n);
      OutputConservesRows(ins, before);
      assert trace == before + [w];
      OutputExtends(ins, before, w);
      MoveHead(Output(ins, before), Rest(ins, before), w, RowsOf(ins));
    }
  }

  lemma MultisetCancel<T>(a: multiset<T>, b: multiset<T>, c: multiset<T>)
    requires a + c == b + c
    ensures a == b
  {
    assert a == (a + c) - c;
  }

  lemma MoveHead<T>(out: seq<T>, rest: seq<seq<T>>, w: nat, all: multiset<T>)
    requires w < |rest| && rest[w] != []
    requires multiset(out) + RowsOf(rest) == all
    ensures multiset(out + [rest[w][0]]) + RowsOf(rest[w := rest[w][1..]]) == all
  {
    var head, tail := rest[w][0], rest[w][1..];
    var before, after := RowsOf(rest), RowsOf(rest[w := tail]);
    RowsOfUpdate(rest, w, tail);
    assert rest[w] == [head] + tail;
    assert after + multiset{head} + multiset(tail) == before + multiset(tail);
    MultisetCancel(after + multiset{head}, before, multiset(tail));
    assert multiset(out + [head]) + after == multiset(out) + (after + multiset{head});
  }

  lemma {:induction false} RowsOfEmpty<T>(ins: seq<seq<T>>)
    requires forall i :: 0 <= i < |ins| ==> ins[i] == []
    ensures RowsOf(ins) == multiset{}
  {
    if ins != [] {
      RowsOfEmpty(ins[1..]);
    }
  }

  lemma {:induction false} RowsOfSnoc<T>(ins: seq<seq<T>>, s: seq<T>)
    ensures RowsOf(ins + [s]) == RowsOf(ins) + multiset(s)
  {
    if ins == [] {
      assert RowsOf([s]) == multiset(s) + RowsOf([s][1..]);
    } else {
      assert (ins + [s])[1..] == ins[1..] + [s];
      RowsOfSnoc(ins[1..], s);
    }
  }

  /** A complete greedy merge is a sorted permutation of all the input rows. */
  lemma CompleteMergeIsSortedUnion<T(!new)>(cmp: (T, T) -> int, ins: seq<seq<T>>, trace: seq<nat>)
    requires TotalPreorder(cmp) && AllSorted(cmp, ins) && Greedy(cmp, ins, trace) && Complete(ins, trace)
    ensures Fits(ins, trace)
    ensures Sorted(cmp, Output(ins, trace))
    ensures multiset(Output(ins, trace)) == RowsOf(ins)
    ensures forall i: nat :: i < |ins| ==> TakenFrom(Output(ins, trace), trace, i) == ins[i]
  {
    GreedyIsSorted(cmp, ins, trace);
    OutputConservesRows(ins, trace);
    RowsOfEmpty(Rest(ins, trace));
    forall i: nat | i < |ins| ensures TakenFrom(Output(ins, trace), trace, i) == ins[i] {
      OutputKeepsInputOrder(ins, trace, i);
    }
  }
}
