/** Dropping consecutive duplicates of rows that arrive in batches. */
module Dedupe {
  import opened Orders
  import opened RowReaders

  /** A row that has values; an empty row never counts as the row before. */
  type Row<V> = seq<V>

  predicate Duplicates<V>(compare: (Row<V>, Row<V>) -> int, last: Row<V>, row: Row<V>) {
    |last| != 0 && compare(row, last) == 0
  }

  /** The last row kept once `row` has been seen. */
  function Next<V>(compare: (Row<V>, Row<V>) -> int, last: Row<V>, row: Row<V>): Row<V> {
    if Duplicates(compare, last, row) then last else row
  }

  function LastKept<V>(compare: (Row<V>, Row<V>) -> int, last: Row<V>, rows: seq<Row<V>>): Row<V>
    decreases |rows|
  {
    if rows == [] then last else LastKept(compare, Next(compare, last, rows[0]), rows[1..])
  }

  /** The rows that are kept when `last` is the row kept before. */
  function Kept<V>(compare: (Row<V>, Row<V>) -> int, last: Row<V>, rows: seq<Row<V>>): seq<Row<V>>
    decreases |rows|
  {
    if rows == [] then []
    else
      (if Duplicates(compare, last, rows[0]) then [] else [rows[0]])
        + Kept(compare, Next(compare, last, rows[0]), rows[1..])
  }

  function Dropped<V>(compare: (Row<V>, Row<V>) -> int, last: Row<V>, rows: seq<Row<V>>): seq<Row<V>>
    decreases |rows|
  {
    if rows == [] then []
    else
      (if Duplicates(compare, last, rows[0]) then [rows[0]] else [])
        + Dropped(compare, Next(compare, last, rows[0]), rows[1..])
  }

  /** Rows may be cut into batches anywhere: what is kept depends on the rows before through the last one kept alone. */
  lemma {:induction false} KeptConcat<V>(compare: (Row<V>, Row<V>) -> int, last: Row<V>, a: seq<Row<V>>, b: seq<Row<V>>)
    ensures Kept(compare, last, a + b) == Kept(compare, last, a) + Kept(compare, LastKept(compare, last, a), b)
    ensures Dropped(compare, last, a + b) == Dropped(compare, last, a) + Dropped(compare, LastKept(compare, last, a), b)
    ensures LastKept(compare, last, a + b) == LastKept(compare, LastKept(compare, last, a), b)
    decreases |a|
  {
    hide Duplicates, Next, Kept, Dropped, LastKept;
    if a == [] {
      assert a + b == b;
      NothingKept(compare, last);
      assert [] + Kept(compare, last, b) == Kept(compare, last, b) && [] + Dropped(compare, last, b) == Dropped(compare, last, b);
    } else {
      assert (a + b)[1..] == a[1..] + b && (a + b)[0] == a[0];
      FirstRow(compare, last, a);
      FirstRow(compare, last, a + b);
      KeptConcat(compare, Next(compare, last, a[0]), a[1..], b);
    }
  }

  lemma NothingKept<V>(compare: (Row<V>, Row<V>) -> int, last: Row<V>)
    ensures Kept(compare, last, []) == [] && Dropped(compare, last, []) == [] && LastKept(compare, last, []) == last
  {
  }

  lemma FirstRow<V>(compare: (Row<V>, Row<V>) -> int, last: Row<V>, rows: seq<Row<V>>)
    requires rows != []
    ensures
      var next, first := Next(compare, last, rows[0]), Duplicates(compare, last, rows[0]);
      && Kept(compare, last, rows) == (if first then [] else [rows[0]]) + Kept(compare, next, rows[1..])
      && Dropped(compare, last, rows) == (if first then [rows[0]] else []) + Dropped(compare, next, rows[1..])
      && LastKept(compare, last, rows) == LastKept(compare, next, rows[1..])
  {
  }

  lemma KeptOne<V>(compare: (Row<V>, Row<V>) -> int, last: Row<V>, row: Row<V>)
    ensures Kept(compare, last, [row]) == if Duplicates(compare, last, row) then [] else [row]
    ensures Dropped(compare, last, [row]) == if Duplicates(compare, last, row) then [row] else []
    ensures LastKept(compare, last, [row]) == Next(compare, last, row)
  {
    assert [row][1..] == [];
  }

  /** The rows kept differ from the one kept before them. */
  lemma {:induction false} KeptNeighboursDiffer<V>(compare: (Row<V>, Row<V>) -> int, last: Row<V>, rows: seq<Row<V>>)
    ensures var kept := Kept(compare, last, rows);
      && (forall i :: 0 <= i < |kept| - 1 && |kept[i]| != 0 ==> compare(kept[i + 1], kept[i]) != 0)
      && (kept != [] && |last| != 0 ==> compare(kept[0], last) != 0)
    decreases |rows|
  {
    if rows != [] {
      var kept := Kept(compare, Next(compare, last, rows[0]), rows[1..]);
      KeptNeighboursDiffer(compare, Next(compare, last, rows[0]), rows[1..]);
      hide Kept;
      KeptFirst(compare, last, rows);
      if !Duplicates(compare, last, rows[0]) {
        var all := [rows[0]] + kept;
        forall i | 0 <= i < |all| - 1 && |all[i]| != 0 ensures compare(all[i + 1], all[i]) != 0 {
          assert all[i + 1] == kept[i];
          assert i > 0 ==> all[i] == kept[i - 1] && kept[i] == kept[i - 1 + 1];
        }
      }
    }
  }

  lemma KeptFirst<V>(compare: (Row<V>, Row<V>) -> int, last: Row<V>, rows: seq<Row<V>>)
    requires rows != []
    ensures Kept(compare, last, rows) ==
      var kept := Kept(compare, Next(compare, last, rows[0]), rows[1..]);
      if Duplicates(compare, last, rows[0]) then kept else [rows[0]] + kept
  {
    var kept := Kept(compare, Next(compare, last, rows[0]), rows[1..]);
    assert [] + kept == kept;
  }

  /** No row is lost or made up. */
  lemma {:induction false} KeptOrDropped<V>(compare: (Row<V>, Row<V>) -> int, last: Row<V>, rows: seq<Row<V>>)
    ensures multiset(Kept(compare, last, rows) + Dropped(compare, last, rows)) == multiset(rows)
    ensures |Kept(compare, last, rows)| + |Dropped(compare, last, rows)| == |rows|
    decreases |rows|
  {
    hide Duplicates, Next;
    if rows != [] {
      var next := Next(compare, last, rows[0]);
      assert rows == [rows[0]] + rows[1..];
      KeptOrDropped(compare, next, rows[1..]);
      OneMore(rows[0], Kept(compare, next, rows[1..]), Dropped(compare, next, rows[1..]), rows[1..]);
    }
  }

  lemma OneMore<T>(x: T, kept: seq<T>, dropped: seq<T>, rest: seq<T>)
    requires multiset(kept + dropped) == multiset(rest)
    ensures multiset(([x] + kept) + ([] + dropped)) == multiset([x] + rest)
    ensures multiset(([] + kept) + ([x] + dropped)) == multiset([x] + rest)
  {
    assert ([x] + kept) + ([] + dropped) == [x] + (kept + dropped);
    assert ([] + kept) + ([x] + dropped) == kept + [x] + dropped;
  }

  lemma {:induction false} KeptAbove<V>(compare: (Row<V>, Row<V>) -> int, last: Row<V>, rows: seq<Row<V>>, x: Row<V>)
    requires forall i :: 0 <= i < |rows| ==> compare(x, rows[i]) <= 0
    ensures forall i :: 0 <= i < |Kept(compare, last, rows)| ==> compare(x, Kept(compare, last, rows)[i]) <= 0
    decreases |rows|
  {
    if rows != [] {
      KeptAbove(compare, Next(compare, last, rows[0]), rows[1..], x);
    }
  }

  lemma StrictlyBelow<T(!new)>(cmp: (T, T) -> int, a: T, b: T, c: T)
    requires TotalPreorder(cmp) && cmp(a, b) <= 0 && cmp(b, a) != 0 && (b == c || cmp(b, c) < 0)
    ensures cmp(a, c) < 0
  {
    assert cmp(a, b) < 0 <==> cmp(b, a) > 0;
    assert cmp(b, a) < 0 <==> cmp(a, b) > 0;
    assert cmp(a, c) < 0 <==> cmp(c, a) > 0;
    assert Chained(cmp, b, c, a);
  }

  /** On sorted rows that have values, what is kept is strictly increasing. */
  lemma {:induction false} KeptIncreases<V(!new)>(compare: (Row<V>, Row<V>) -> int, last: Row<V>, rows: seq<Row<V>>)
    requires TotalPreorder(compare) && Sorted(compare, rows)
    requires forall i :: 0 <= i < |rows| ==> |rows[i]| != 0
    ensures var kept := Kept(compare, last, rows);
      forall i, j :: 0 <= i < j < |kept| ==> compare(kept[i], kept[j]) < 0
    decreases |rows|
  {
    if rows != [] {
      var first, rest := rows[0], rows[1..];
      KeptIncreases(compare, Next(compare, last, first), rest);
      if Duplicates(compare, last, first) {
        assert [] + Kept(compare, last, rest) == Kept(compare, last, rest);
      } else {
        KeptAbove(compare, first, rest, first);
        KeptNeighboursDiffer(compare, first, rest);
        var kept := Kept(compare, first, rest);
        forall j | 0 <= j < |kept| ensures compare(first, kept[j]) < 0 {
          StrictlyBelow(compare, first, kept[0], kept[j]);
        }
      }
    }
  }

  // ----- which rows are kept -----

  ghost predicate Increasing(ks: seq<nat>, n: nat) {
    && (forall j :: 0 <= j < |ks| ==> ks[j] < n)
    && (forall i, j :: 0 <= i < j < |ks| ==> ks[i] < ks[j])
  }

  /** The rows at the given positions. */
  ghost function RowsAt<T>(rows: seq<T>, ks: seq<nat>): (s: seq<T>)
    requires Increasing(ks, |rows|)
    ensures |s| == |ks|
  {
    seq(|ks|, j requires 0 <= j < |ks| => rows[ks[j]])
  }

  /** `row` is the row kept last before position `i`: the one at the last kept position before it, if there is any. */
  ghost predicate KeptBefore<T>(last: T, rows: seq<T>, ks: seq<nat>, i: nat, row: T) {
    (row == last && NoneBefore(ks, i)) || exists k: nat :: LastBefore(ks, i, k) && k < |rows| && rows[k] == row
  }

  ghost predicate NoneBefore(ks: seq<nat>, i: nat) {
    forall k :: k in ks ==> k >= i
  }

  ghost predicate LastBefore(ks: seq<nat>, i: nat, k: nat) {
    k in ks && k < i && forall l :: l in ks && l < i ==> l <= k
  }

  /** One more row: the positions before it, and what was kept last before them, stay what they are. */
  lemma KeptBeforeStays<T>(last: T, init: seq<T>, row: T, ks0: seq<nat>, ks: seq<nat>, i: nat, before: T)
    requires Increasing(ks0, |init|) && i <= |init|
    requires ks == ks0 || ks == ks0 + [|init|]
    ensures KeptBefore(last, init + [row], ks, i, before) <==> KeptBefore(last, init, ks0, i, before)
  {
    assert forall k: nat :: k < i ==> (k in ks <==> k in ks0) && (init + [row])[k] == init[k];
    SameBefore(ks0, ks, i);
    hide NoneBefore, LastBefore;
    if k: nat :| LastBefore(ks0, i, k) && k < |init| && init[k] == before {
      assert LastBefore(ks, i, k) && (init + [row])[k] == before;
    }
    if k: nat :| LastBefore(ks, i, k) && k < |init| + 1 && (init + [row])[k] == before {
      assert LastBefore(ks0, i, k) && init[k] == before;
    }
  }

  lemma SameBefore(ks0: seq<nat>, ks: seq<nat>, i: nat)
    requires forall k: nat :: k < i ==> (k in ks <==> k in ks0)
    ensures NoneBefore(ks, i) <==> NoneBefore(ks0, i)
    ensures forall k: nat :: LastBefore(ks, i, k) <==> LastBefore(ks0, i, k)
    ensures forall k: nat :: LastBefore(ks, i, k) ==> k < i
  {
  }

  lemma RowsAtSnoc<T>(init: seq<T>, row: T, ks: seq<nat>)
    requires Increasing(ks, |init|)
    ensures Increasing(ks, |init| + 1) && RowsAt(init + [row], ks) == RowsAt(init, ks)
    ensures Increasing(ks + [|init|], |init| + 1) && RowsAt(init + [row], ks + [|init|]) == RowsAt(init, ks) + [row]
  {
  }

  /** The row kept last before a position, from that of the position before it. */
  lemma NextPosition<T>(last: T, rows: seq<T>, ks: seq<nat>, i: nat, before: T)
    requires 0 < i <= |rows|
    ensures i - 1 in ks ==> (KeptBefore(last, rows, ks, i, before) <==> before == rows[i - 1])
    ensures i - 1 !in ks ==> (KeptBefore(last, rows, ks, i, before) <==> KeptBefore(last, rows, ks, i - 1, before))
  {
    if i - 1 in ks {
      assert LastBefore(ks, i, i - 1);
    } else {
      StepBefore(ks, i);
      hide NoneBefore, LastBefore;
    }
  }

  lemma StepBefore(ks: seq<nat>, i: nat)
    requires i > 0 && i - 1 !in ks
    ensures NoneBefore(ks, i) <==> NoneBefore(ks, i - 1)
    ensures forall k: nat :: LastBefore(ks, i, k) <==> LastBefore(ks, i - 1, k)
  {
    forall k: nat ensures LastBefore(ks, i, k) <==> LastBefore(ks, i - 1, k) {
      assert forall l :: l in ks ==> (l < i <==> l < i - 1);
    }
  }

  /** Once the last row has been kept, it is the one kept last. */
  lemma LastIsKept<T>(last: T, init: seq<T>, row: T, ks: seq<nat>, before: T)
    requires Increasing(ks, |init|)
    ensures KeptBefore(last, init + [row], ks + [|init|], |init| + 1, before) <==> before == row
    ensures KeptBefore(last, init + [row], ks, |init| + 1, before) <==> KeptBefore(last, init + [row], ks, |init|, before)
  {
    hide KeptBefore;
    assert |init| in ks + [|init|] && |init| !in ks && (init + [row])[|init|] == row;
    NextPosition(last, init + [row], ks + [|init|], |init| + 1, before);
    NextPosition(last, init + [row], ks, |init| + 1, before);
  }

  /** Position `i` is kept unless its row compares equal to the row kept last before it. */
  ghost predicate KeptRightly<V>(
    compare: (Row<V>, Row<V>) -> int, last: Row<V>, rows: seq<Row<V>>, ks: seq<nat>, i: nat, before: Row<V>)
    requires i < |rows|
  {
    KeptBefore(last, rows, ks, i, before) ==> (i in ks <==> before == [] || compare(rows[i], before) != 0)
  }

  /**
   * The kept rows are the rows at certain positions, in order, and the dropped rows those at all others: a row is
   * dropped exactly when it compares equal to the row kept last before it.
   */
  lemma {:induction false} KeptAt<V>(compare: (Row<V>, Row<V>) -> int, last: Row<V>, rows: seq<Row<V>>)
    returns (ks: seq<nat>, ds: seq<nat>)
    ensures Increasing(ks, |rows|) && Increasing(ds, |rows|)
    ensures forall i: nat :: i < |rows| ==> (i in ks <==> i !in ds)
    ensures forall i: nat, before :: i < |rows| ==> KeptRightly(compare, last, rows, ks, i, before)
    ensures Kept(compare, last, rows) == RowsAt(rows, ks) && Dropped(compare, last, rows) == RowsAt(rows, ds)
    ensures forall before :: KeptBefore(last, rows, ks, |rows|, before) <==> before == LastKept(compare, last, rows)
    decreases |rows|
  {
    NothingKept(compare, last);
    if rows == [] {
      ks, ds := [], [];
    } else {
      hide Kept, Dropped, LastKept, Next, Duplicates, Increasing, RowsAt, KeptBefore, KeptRightly;
      var n := |rows| - 1;
      var init, row := rows[..n], rows[n];
      var ks0, ds0 := KeptAt(compare, last, init);
      var before := LastKept(compare, last, init);
      assert rows == init + [row];
      RowsAtSnoc(init, row, ks0);
      RowsAtSnoc(init, row, ds0);
      var duplicate := before != [] && compare(row, before) == 0;
      ks, ds := if duplicate then ks0 else ks0 + [n], if duplicate then ds0 + [n] else ds0;
      OneMoreKept(compare, last, init, row);
      Positions(ks0, ds0, ks, ds, n);
      OneMoreRight(compare, last, init, row, ks0, ks);
      forall b ensures KeptBefore(last, rows, ks, |rows|, b) <==> b == LastKept(compare, last, rows) {
        LastIsKept(last, init, row, ks0, b);
        KeptBeforeStays(last, init, row, ks0, ks0, n, b);
      }
    }
  }

  /** What one more row adds to the rows kept and dropped. */
  lemma OneMoreKept<V>(compare: (Row<V>, Row<V>) -> int, last: Row<V>, init: seq<Row<V>>, row: Row<V>)
    ensures
      var before, rows := LastKept(compare, last, init), init + [row];
      var duplicate := before != [] && compare(row, before) == 0;
      && Kept(compare, last, rows) == Kept(compare, last, init) + (if duplicate then [] else [row])
      && Dropped(compare, last, rows) == Dropped(compare, last, init) + (if duplicate then [row] else [])
      && LastKept(compare, last, rows) == (if duplicate then before else row)
      && Kept(compare, last, init) + [] == Kept(compare, last, init)
      && Dropped(compare, last, init) + [] == Dropped(compare, last, init)
  {
    hide Kept, Dropped, LastKept;
    KeptConcat(compare, last, init, [row]);
    KeptOne(compare, LastKept(compare, last, init), row);
  }

  lemma OneMoreRight<V>(
      compare: (Row<V>, Row<V>) -> int, last: Row<V>, init: seq<Row<V>>, row: Row<V>, ks0: seq<nat>, ks: seq<nat>)
    requires Increasing(ks0, |init|) && (ks == ks0 || ks == ks0 + [|init|])
    requires |init| in ks <==> !(LastKept(compare, last, init) != [] && compare(row, LastKept(compare, last, init)) == 0)
    requires forall i: nat :: i < |init| ==> (i in ks <==> i in ks0)
    requires forall i: nat, before :: i < |init| ==> KeptRightly(compare, last, init, ks0, i, before)
    requires forall before :: KeptBefore(last, init, ks0, |init|, before) <==> before == LastKept(compare, last, init)
    ensures forall i: nat, before :: i < |init| + 1 ==> KeptRightly(compare, last, init + [row], ks, i, before)
  {
    hide LastKept, KeptBefore, Increasing;
    forall i: nat, b: Row<V> | i < |init| + 1 ensures KeptRightly(compare, last, init + [row], ks, i, b) {
      KeptBeforeStays(last, init, row, ks0, ks, i, b);
      if i < |init| {
        assert KeptRightly(compare, last, init, ks0, i, b) && (init + [row])[i] == init[i];
      }
    }
  }

  lemma Positions(ks0: seq<nat>, ds0: seq<nat>, ks: seq<nat>, ds: seq<nat>, n: nat)
    requires Increasing(ks0, n) && Increasing(ds0, n)
    requires forall i: nat :: i < n ==> (i in ks0 <==> i !in ds0)
    requires (ks == ks0 && ds == ds0 + [n]) || (ks == ks0 + [n] && ds == ds0)
    ensures forall i: nat :: i < n ==> (i in ks <==> i in ks0) && (i in ds <==> i in ds0)
    ensures forall i: nat :: i <= n ==> (i in ks <==> i !in ds)
    ensures n in ks <==> ks != ks0
  {
    assert n !in ks0 && n !in ds0;
    assert |ks0 + [n]| != |ks0|;
  }

  lemma {:induction false} SomeKeptBefore<T>(last: T, rows: seq<T>, ks: seq<nat>, i: nat) returns (before: T)
    requires i <= |rows|
    ensures KeptBefore(last, rows, ks, i, before)
  {
    if i == 0 {
      before := last;
    } else if i - 1 in ks {
      before := rows[i - 1];
    } else {
      before := SomeKeptBefore(last, rows, ks, i - 1);
      NextPosition(last, rows, ks, i, before);
    }
  }

  lemma TiesShare<T(!new)>(cmp: (T, T) -> int, a: T, b: T, c: T)
    requires TotalPreorder(cmp) && cmp(b, c) == 0
    ensures cmp(a, b) == 0 <==> cmp(a, c) == 0
  {
    assert (cmp(a, b) < 0 <==> cmp(b, a) > 0) && (cmp(b, a) < 0 <==> cmp(a, b) > 0);
    assert (cmp(a, c) < 0 <==> cmp(c, a) > 0) && (cmp(c, a) < 0 <==> cmp(a, c) > 0);
    assert (cmp(b, c) < 0 <==> cmp(c, b) > 0) && (cmp(c, b) < 0 <==> cmp(b, c) > 0);
    assert Chained(cmp, a, b, c) && Chained(cmp, c, b, a) && Chained(cmp, a, c, b) && Chained(cmp, b, c, a);
  }

  /** Whether a row begins a run of rows that tie. */
  ghost predicate BeginsRun<V>(compare: (Row<V>, Row<V>) -> int, last: Row<V>, rows: seq<Row<V>>, i: nat)
    requires i < |rows|
  {
    if i == 0 then last == [] || compare(rows[0], last) != 0 else compare(rows[i], rows[i - 1]) != 0
  }

  /** Row `i` ties with a row that is kept, or with the row kept before all of them. */
  ghost predicate Represented<V>(compare: (Row<V>, Row<V>) -> int, last: Row<V>, rows: seq<Row<V>>, ks: seq<nat>, i: nat)
    requires i < |rows|
  {
    || (last != [] && compare(rows[i], last) == 0)
    || (exists k :: k in ks && k <= i && compare(rows[i], rows[k]) == 0)
  }

  /** Of rows that have values, the kept ones are the first of each run of ties, so every row ties with a kept one. */
  lemma KeptBeginRuns<V(!new)>(compare: (Row<V>, Row<V>) -> int, last: Row<V>, rows: seq<Row<V>>) returns (ks: seq<nat>)
    requires TotalPreorder(compare) && forall i :: 0 <= i < |rows| ==> rows[i] != []
    ensures Increasing(ks, |rows|) && Kept(compare, last, rows) == RowsAt(rows, ks)
    ensures forall i: nat :: i < |rows| ==> (i in ks <==> BeginsRun(compare, last, rows, i))
    ensures forall i: nat :: i < |rows| ==> Represented(compare, last, rows, ks, i)
  {
    hide Kept, Dropped, LastKept, RowsAt, TotalPreorder;
    var ds;
    ks, ds := KeptAt(compare, last, rows);
    forall i: nat | i < |rows|
      ensures i in ks <==> BeginsRun(compare, last, rows, i)
      ensures Represented(compare, last, rows, ks, i)
    {
      KeptBeginsRun(compare, last, rows, ks, i);
    }
  }

  lemma KeptBeginsRun<V(!new)>(compare: (Row<V>, Row<V>) -> int, last: Row<V>, rows: seq<Row<V>>, ks: seq<nat>, i: nat)
    requires TotalPreorder(compare) && (forall i :: 0 <= i < |rows| ==> rows[i] != []) && i < |rows|
    requires forall i: nat, before :: i < |rows| ==> KeptRightly(compare, last, rows, ks, i, before)
    ensures i in ks <==> BeginsRun(compare, last, rows, i)
    ensures Represented(compare, last, rows, ks, i)
  {
    hide TotalPreorder;
    var before := SomeKeptBefore(last, rows, ks, i);
    assert KeptRightly(compare, last, rows, ks, i, before);
    SelfTie(compare, rows[i]);
    if i > 0 {
      NextPosition(last, rows, ks, i, before);
      if i - 1 !in ks {
        assert KeptRightly(compare, last, rows, ks, i - 1, before);
        TiesShare(compare, rows[i], rows[i - 1], before);
      }
    }
  }

  lemma SelfTie<T(!new)>(cmp: (T, T) -> int, a: T)
    requires TotalPreorder(cmp)
    ensures cmp(a, a) == 0
  {
    assert cmp(a, a) < 0 <==> cmp(a, a) > 0;
  }

  class Deduper<V> {
    var lastRow: Row<V>

    constructor ()
      ensures lastRow == []
    {
      lastRow := [];
    }

    /** Moves the rows of the batch `rows[..count]` that are kept to its front, in order, and the duplicates behind them. */
    method Deduplicate(rows: array<Row<V>>, count: nat, compare: (Row<V>, Row<V>) -> int) returns (n: nat)
      requires count <= rows.Length
      modifies this, rows
      ensures n <= count && rows[..n] == Kept(compare, old(lastRow), old(rows[..count]))
      ensures rows[n..count] == Dropped(compare, old(lastRow), old(rows[..count]))
      ensures rows[count..] == old(rows[count..])
      ensures lastRow == LastKept(compare, old(lastRow), old(rows[..count]))
      ensures multiset(rows[..count]) == multiset(old(rows[..count]))
    {
      hide Kept, Dropped, LastKept;
      var last, uniq, dupe := lastRow, [], [];
      ghost var batch := rows[..count];
      NothingKept(compare, lastRow);
      for i := 0 to count
        invariant rows[..] == old(rows[..]) && lastRow == old(lastRow)
        invariant uniq == Kept(compare, lastRow, batch[..i]) && dupe == Dropped(compare, lastRow, batch[..i])
        invariant last == LastKept(compare, lastRow, batch[..i])
      {
        assert batch[..i + 1] == batch[..i] + [rows[i]];
        KeptConcat(compare, lastRow, batch[..i], [rows[i]]);
        KeptOne(compare, last, rows[i]);
        if |last| != 0 && compare(rows[i], last) == 0 {
          dupe := dupe + [rows[i]];
        } else {
          last := rows[i];
          uniq := uniq + [rows[i]];
        }
      }
      assert batch[..count] == batch;
      KeptOrDropped(compare, lastRow, batch);
      forall i | 0 <= i < count {
        rows[i] := (uniq + dupe)[i];
      }
      assert rows[..count] == uniq + dupe;
      lastRow := last;
      n := |uniq|;
    }
  }

  /** A reader that drops consecutive duplicates of another reader's rows. */
  class DedupeRowReader<V> {
    const reader: RowSource<Row<V>>
    const compare: (Row<V>, Row<V>) -> int
    const dedupe: Deduper<V>

    ghost predicate Valid()
      reads this, reader
    {
      reader.Valid()
    }

    /** The rows this reader has yet to hand out. */
    ghost function Pending(): seq<Row<V>>
      requires Valid()
      reads this, reader, dedupe
    {
      Kept(compare, dedupe.lastRow, reader.Remaining())
    }

    constructor (reader: RowSource<Row<V>>, compare: (Row<V>, Row<V>) -> int)
      requires reader.Valid()
      ensures Valid() && this.reader == reader && this.compare == compare && fresh(dedupe)
      ensures Pending() == Kept(compare, [], reader.Remaining())
    {
      this.reader, this.compare := reader, compare;
      this.dedupe := new Deduper<V>();
    }

    /** Fills `rows` with the next `n` rows that are kept, and reads on while a batch holds nothing but duplicates. */
    method ReadRows(rows: array<Row<V>>) returns (n: nat, err: ReadError)
      requires Valid() && rows.Length > 0
      modifies reader, dedupe, rows
      ensures Valid() && n <= rows.Length
      ensures old(Pending()) == rows[..n] + Pending()
      ensures n == 0 ==> err != NoError
      ensures err == EOF ==> Pending() == []
      ensures old(reader.errors) < reader.errors && err == reader.LastError()
    {
      hide Kept, Dropped, LastKept;
      n, err := 0, NoError;
      while n == 0 && err == NoError
        invariant Valid() && n <= rows.Length
        invariant old(Pending()) == rows[..n] + Pending()
        invariant err == EOF ==> reader.Remaining() == []
        invariant if n == 0 && err == NoError then old(reader.errors) <= reader.errors
          else old(reader.errors) < reader.errors && err == reader.LastError()
        decreases n == 0 && err == NoError, |reader.Remaining()|
      {
        ghost var last, ahead := dedupe.lastRow, reader.Remaining();
        var chunk;
        chunk, err := reader.ReadRows(rows.Length);
        forall i | 0 <= i < |chunk| {
          rows[i] := chunk[i];
        }
        assert rows[..|chunk|] == chunk;
        n := dedupe.Deduplicate(rows, |chunk|, compare);
        KeptConcat(compare, last, chunk, reader.Remaining());
      }
      NothingKept(compare, dedupe.lastRow);
    }
  }
}
