/** The column buffer of repeated columns: rows are ranges of level arrays over a dense base column. */
module RepeatedBuffer {
  import opened Sequences
  import opened Options

  /** A value to write; it is null unless its definition level is the largest of the column. */
  datatype Written<V> = Written(repetitionLevel: nat, definitionLevel: nat, bits: V)

  /** A value as it is read back. */
  datatype Value<V> = Value(repetitionLevel: nat, definitionLevel: nat, data: Option<V>)

  type Row<V> = seq<Value<V>>

  /** Where the levels of a row begin, and where its values begin in the base column. */
  datatype OffsetMapping = OffsetMapping(offset: nat, baseOffset: nat)

  datatype Store<V> = Store(reps: seq<nat>, defs: seq<nat>, base: seq<V>, rows: seq<OffsetMapping>)

  // ----- values under levels -----

  /** How many of the first `n` levels are those of values that are not null. */
  ghost function Count(defs: seq<nat>, max: nat, n: nat): (c: nat)
    requires n <= |defs|
    ensures c <= n
  {
    if n == 0 then 0 else Count(defs, max, n - 1) + if defs[n - 1] == max then 1 else 0
  }

  lemma {:induction false} CountGrows(defs: seq<nat>, max: nat, m: nat, n: nat)
    requires m <= n <= |defs|
    ensures Count(defs, max, m) <= Count(defs, max, n)
    ensures m < n && defs[m] == max ==> Count(defs, max, m) < Count(defs, max, n)
    decreases n
  {
    if m < n {
      CountGrows(defs, max, m, n - 1);
    }
  }

  lemma {:induction false} CountConcat(a: seq<nat>, b: seq<nat>, max: nat, n: nat)
    requires n <= |a + b|
    ensures Count(a + b, max, n) == if n <= |a| then Count(a, max, n) else Count(a, max, |a|) + Count(b, max, n - |a|)
  {
    if n > 0 {
      CountConcat(a, b, max, n - 1);
    }
  }

  ghost function ValueAt<V>(reps: seq<nat>, defs: seq<nat>, base: seq<V>, max: nat, p: nat): Value<V>
    requires p < |defs| == |reps| && Count(defs, max, |defs|) <= |base|
  {
    CountGrows(defs, max, p, |defs|);
    Value(reps[p], defs[p], if defs[p] == max then Some(base[Count(defs, max, p)]) else None)
  }

  /** The values that levels and a dense column stand for: each level that is not null takes the next base value. */
  ghost function Cells<V>(reps: seq<nat>, defs: seq<nat>, base: seq<V>, max: nat): (cells: seq<Value<V>>)
    requires |defs| == |reps| && Count(defs, max, |defs|) <= |base|
    ensures |cells| == |reps|
  {
    seq(|reps|, p requires 0 <= p < |reps| => ValueAt(reps, defs, base, max, p))
  }

  lemma CellsConcat<V>(
      reps: seq<nat>, defs: seq<nat>, base: seq<V>, reps': seq<nat>, defs': seq<nat>, base': seq<V>, max: nat)
    requires |defs| == |reps| && Count(defs, max, |defs|) == |base|
    requires |defs'| == |reps'| && Count(defs', max, |defs'|) == |base'|
    ensures Count(defs + defs', max, |defs + defs'|) == |base + base'|
    ensures Cells(reps + reps', defs + defs', base + base', max) == Cells(reps, defs, base, max) + Cells(reps', defs', base', max)
  {
    CountConcat(defs, defs', max, |defs + defs'|);
    var all, cells := Cells(reps + reps', defs + defs', base + base', max), Cells(reps, defs, base, max) + Cells(reps', defs', base', max);
    forall p | 0 <= p < |all| ensures all[p] == cells[p] {
      CountConcat(defs, defs', max, p);
      if p < |defs| {
        CountGrows(defs, max, p, |defs|);
      } else {
        CountGrows(defs', max, p - |defs|, |defs'|);
      }
    }
  }

  // ----- rows -----

  /** Where the row that begins before `p` ends: at the next level that begins a row. */
  ghost function RowEnd(reps: seq<nat>, p: nat): (e: nat)
    requires p <= |reps|
    ensures p <= e <= |reps|
    ensures forall q :: p <= q < e ==> reps[q] != 0
    ensures e < |reps| ==> reps[e] == 0
    decreases |reps| - p
  {
    if p == |reps| || reps[p] == 0 then p else RowEnd(reps, p + 1)
  }

  lemma RowEndIs(reps: seq<nat>, p: nat, e: nat)
    requires p <= e <= |reps| && (forall q :: p <= q < e ==> reps[q] != 0) && (e < |reps| ==> reps[e] == 0)
    ensures RowEnd(reps, p) == e
  {
    var e' := RowEnd(reps, p);
  }

  /** Every row starts where a level is 0 and the base values before it are those of the levels before it. */
  ghost predicate Stored<V>(st: Store<V>, max: nat) {
    && |st.defs| == |st.reps| && Count(st.defs, max, |st.defs|) == |st.base|
    && (forall k :: 0 <= k < |st.rows| ==> StartsRow(st, max, st.rows[k]))
    && (forall k, l :: 0 <= k < l < |st.rows| ==> st.rows[k].offset != st.rows[l].offset)
    && (forall p :: 0 <= p < |st.reps| && st.reps[p] == 0 ==> HasRow(st.rows, p))
  }

  ghost predicate StartsRow<V>(st: Store<V>, max: nat, row: OffsetMapping)
    requires |st.defs| == |st.reps|
  {
    row.offset < |st.reps| && st.reps[row.offset] == 0 && row.baseOffset == Count(st.defs, max, row.offset)
  }

  ghost predicate HasRow(rows: seq<OffsetMapping>, p: nat) {
    exists k :: 0 <= k < |rows| && rows[k].offset == p
  }

  /** All values, in the order they are stored. */
  ghost function AllCells<V>(st: Store<V>, max: nat): (cells: seq<Value<V>>)
    requires Stored(st, max)
    ensures |cells| == |st.reps|
  {
    Cells(st.reps, st.defs, st.base, max)
  }

  ghost function RowAt<V>(st: Store<V>, max: nat, k: nat): Row<V>
    requires Stored(st, max) && k < |st.rows|
  {
    assert StartsRow(st, max, st.rows[k]);
    AllCells(st, max)[st.rows[k].offset..RowEnd(st.reps, st.rows[k].offset + 1)]
  }

  /** The rows, in the order of the buffer. */
  ghost function Rows<V>(st: Store<V>, max: nat): (rows: seq<Row<V>>)
    requires Stored(st, max)
    ensures |rows| == |st.rows|
  {
    seq(|st.rows|, k requires 0 <= k < |st.rows| => RowAt(st, max, k))
  }

  // ----- appending to the store -----

  /** The levels and base values of a row, or of the rest of one. */
  ghost predicate Piece<V>(reps: seq<nat>, defs: seq<nat>, base: seq<V>, max: nat) {
    && |defs| == |reps| > 0 && Count(defs, max, |defs|) == |base|
    && forall p :: 0 < p < |reps| ==> reps[p] != 0
  }

  ghost function Appended<V>(st: Store<V>, reps: seq<nat>, defs: seq<nat>, base: seq<V>): Store<V>
    requires |reps| > 0
  {
    Store(st.reps + reps, st.defs + defs, st.base + base,
      if reps[0] == 0 then st.rows + [OffsetMapping(|st.reps|, |st.base|)] else st.rows)
  }

  lemma AppendStores<V>(st: Store<V>, max: nat, reps: seq<nat>, defs: seq<nat>, base: seq<V>)
    requires Stored(st, max) && Piece(reps, defs, base, max)
    ensures Stored(Appended(st, reps, defs, base), max)
    ensures AllCells(Appended(st, reps, defs, base), max) == AllCells(st, max) + Cells(reps, defs, base, max)
  {
    var st' := Appended(st, reps, defs, base);
    CellsConcat(st.reps, st.defs, st.base, reps, defs, base, max);
    forall k | 0 <= k < |st'.rows| ensures StartsRow(st', max, st'.rows[k]) {
      if k < |st.rows| {
        assert StartsRow(st, max, st.rows[k]);
        CountConcat(st.defs, defs, max, st.rows[k].offset);
      } else {
        CountConcat(st.defs, defs, max, |st.defs|);
      }
    }
    forall p | 0 <= p < |st'.reps| && st'.reps[p] == 0 ensures HasRow(st'.rows, p) {
      if p < |st.reps| {
        assert HasRow(st.rows, p);
        var k :| 0 <= k < |st.rows| && st.rows[k].offset == p;
        assert st'.rows[k].offset == p;
      } else {
        assert st'.rows[|st.rows|].offset == p;
      }
    }
  }

  /** Whether row `k` is the one whose levels are stored last. */
  ghost predicate LastStored<V>(st: Store<V>, max: nat, k: nat)
    requires Stored(st, max) && k < |st.rows|
  {
    assert StartsRow(st, max, st.rows[k]);
    RowEnd(st.reps, st.rows[k].offset + 1) == |st.reps|
  }

  /** The rows, with `more` at the end of the one that is stored last. */
  ghost function Continued<V>(st: Store<V>, max: nat, more: Row<V>): (rows: seq<Row<V>>)
    requires Stored(st, max)
    ensures |rows| == |st.rows|
  {
    seq(|st.rows|, k requires 0 <= k < |st.rows| => RowAt(st, max, k) + if LastStored(st, max, k) then more else [])
  }

  /** A piece that begins a row becomes the last row; any other continues the row stored last, wherever that is. */
  lemma AppendRows<V>(st: Store<V>, max: nat, reps: seq<nat>, defs: seq<nat>, base: seq<V>)
    requires Stored(st, max) && Piece(reps, defs, base, max)
    ensures var st' := Appended(st, reps, defs, base);
      Stored(st', max) && Rows(st', max) ==
        if reps[0] == 0 then Rows(st, max) + [Cells(reps, defs, base, max)]
        else Continued(st, max, Cells(reps, defs, base, max))
  {
    var st' := Appended(st, reps, defs, base);
    AppendStores(st, max, reps, defs, base);
    var cells := Cells(reps, defs, base, max);
    var expected := if reps[0] == 0 then Rows(st, max) + [cells] else Continued(st, max, cells);
    forall k | 0 <= k < |st'.rows| ensures RowAt(st', max, k) == expected[k] {
      AppendedRow(st, max, reps, defs, base, k);
    }
  }

  lemma AppendedRow<V>(st: Store<V>, max: nat, reps: seq<nat>, defs: seq<nat>, base: seq<V>, k: nat)
    requires Stored(st, max) && Piece(reps, defs, base, max) && k < |Appended(st, reps, defs, base).rows|
    ensures var st', cells := Appended(st, reps, defs, base), Cells(reps, defs, base, max);
      Stored(st', max) && RowAt(st', max, k) ==
        if k == |st.rows| then cells
        else RowAt(st, max, k) + if reps[0] != 0 && LastStored(st, max, k) then cells else []
  {
    var st' := Appended(st, reps, defs, base);
    AppendStores(st, max, reps, defs, base);
    hide Cells, RowEnd, Stored;
    RowStarts(st', max, k);
    var all, cells := AllCells(st, max), Cells(reps, defs, base, max);
    var whole := AllCells(st', max);
    assert whole == all + cells;
    if k == |st.rows| {
      RowEndIs(st'.reps, |st.reps| + 1, |st'.reps|);
      assert whole[|all|..|whole|] == cells;
    } else {
      RowStarts(st, max, k);
      AppendedEnd(st.reps, reps, st.rows[k].offset + 1);
      SliceOfConcat(all, cells, st.rows[k].offset, RowEnd(st.reps, st.rows[k].offset + 1));
    }
  }

  lemma RowStarts<V>(st: Store<V>, max: nat, k: nat)
    requires Stored(st, max) && k < |st.rows|
    ensures st.rows[k].offset < |st.reps| && st.reps[st.rows[k].offset] == 0
    ensures |AllCells(st, max)| == |st.reps|
  {
    assert StartsRow(st, max, st.rows[k]);
  }

  lemma AppendedEnd(reps: seq<nat>, more: seq<nat>, p: nat)
    requires p <= |reps| && |more| > 0 && forall q :: 0 < q < |more| ==> more[q] != 0
    ensures RowEnd(reps + more, p) ==
      if RowEnd(reps, p) < |reps| || more[0] == 0 then RowEnd(reps, p) else |reps + more|
    ensures RowEnd(reps, p) <= |reps|
  {
    var e := RowEnd(reps, p);
    RowEndIs(reps + more, p, if e < |reps| || more[0] == 0 then e else |reps + more|);
  }

  lemma SliceOfConcat<T>(a: seq<T>, b: seq<T>, from: nat, to: nat)
    requires from <= to <= |a|
    ensures (a + b)[from..to] == a[from..to]
    ensures to == |a| ==> (a + b)[from..|a + b|] == a[from..to] + b
  {
  }

  // ----- rows as ranges -----

  /** Swapping the offset mappings of two rows swaps the rows. */
  lemma SwapRows<V>(st: Store<V>, max: nat, i: nat, j: nat)
    requires Stored(st, max) && i < |st.rows| && j < |st.rows|
    ensures var st' := st.(rows := SwapAt(st.rows, i, j));
      && Stored(st', max) && AllCells(st', max) == AllCells(st, max)
      && Rows(st', max) == SwapAt(Rows(st, max), i, j)
  {
    var st' := st.(rows := SwapAt(st.rows, i, j));
    SwapStores(st, max, i, j);
    hide Stored, AllCells;
    assert AllCells(st', max) == AllCells(st, max) by { SameCells(st, st', max); }
    var rows', swapped := Rows(st', max), SwapAt(Rows(st, max), i, j);
    forall k: nat | k < |st.rows| ensures rows'[k] == swapped[k] {
      var l := if k == i then j else if k == j then i else k;
      SameRow(st, st', max, l, k);
    }
  }

  lemma SameCells<V>(st: Store<V>, st': Store<V>, max: nat)
    requires Stored(st, max) && Stored(st', max)
    requires st'.reps == st.reps && st'.defs == st.defs && st'.base == st.base
    ensures AllCells(st', max) == AllCells(st, max)
  {
  }

  lemma SameRow<V>(st: Store<V>, st': Store<V>, max: nat, k: nat, l: nat)
    requires Stored(st, max) && Stored(st', max) && k < |st.rows| && l < |st'.rows|
    requires st'.reps == st.reps && AllCells(st', max) == AllCells(st, max) && st'.rows[l] == st.rows[k]
    ensures RowAt(st', max, l) == RowAt(st, max, k)
  {
  }

  lemma SwapStores<V>(st: Store<V>, max: nat, i: nat, j: nat)
    requires Stored(st, max) && i < |st.rows| && j < |st.rows|
    ensures Stored(st.(rows := SwapAt(st.rows, i, j)), max)
  {
    hide Count, HasRow;
    var st' := st.(rows := SwapAt(st.rows, i, j));
    forall k | 0 <= k < |st'.rows| ensures StartsRow(st', max, st'.rows[k]) {
      assert StartsRow(st, max, st.rows[if k == i then j else if k == j then i else k]);
    }
    forall p | 0 <= p < |st.reps| && st.reps[p] == 0 ensures HasRow(st'.rows, p) {
      SwapHasRow(st.rows, i, j, p);
    }
  }

  lemma SwapHasRow(rows: seq<OffsetMapping>, i: nat, j: nat, p: nat)
    requires i < |rows| && j < |rows| && HasRow(rows, p)
    ensures HasRow(SwapAt(rows, i, j), p)
  {
    var k :| 0 <= k < |rows| && rows[k].offset == p;
    assert SwapAt(rows, i, j)[if k == i then j else if k == j then i else k].offset == p;
  }

  lemma {:induction false} RowEndSlice(reps: seq<nat>, o: nat, p: nat)
    requires o <= p <= |reps|
    ensures RowEnd(reps[o..], p - o) == RowEnd(reps, p) - o
  {
    RowEndIs(reps[o..], p - o, RowEnd(reps, p) - o);
  }

  /** A range of levels, with the base values that belong to them, stands for the values of that range. */
  lemma CellsSlice<V>(reps: seq<nat>, defs: seq<nat>, base: seq<V>, max: nat, from: nat, to: nat)
    requires |defs| == |reps| && Count(defs, max, |defs|) == |base| && from <= to <= |reps|
    ensures Count(defs, max, from) <= Count(defs, max, to) <= |base|
    ensures Count(defs[from..to], max, to - from) == Count(defs, max, to) - Count(defs, max, from)
    ensures Cells(reps[from..to], defs[from..to], base[Count(defs, max, from)..Count(defs, max, to)], max)
      == Cells(reps, defs, base, max)[from..to]
  {
    hide Count;
    var part := defs[from..to];
    CountGrows(defs, max, from, to);
    CountGrows(defs, max, to, |defs|);
    CountSlice(defs, max, from, to, to - from);
    var cells, all := Cells(reps[from..to], part, base[Count(defs, max, from)..Count(defs, max, to)], max), Cells(reps, defs, base, max);
    forall p: nat | p < |cells| ensures cells[p] == all[from + p] {
      CountSlice(defs, max, from, to, p);
      CountGrows(defs, max, from + p, to);
    }
  }

  lemma {:induction false} CountSlice(defs: seq<nat>, max: nat, from: nat, to: nat, p: nat)
    requires from <= to <= |defs| && p <= to - from
    ensures Count(defs[from..to], max, p) == Count(defs, max, from + p) - Count(defs, max, from)
  {
    if p > 0 {
      CountSlice(defs, max, from, to, p - 1);
    }
  }

  /** The levels and base values of row `k` are a piece that stands for the row. */
  lemma RowIsPiece<V>(st: Store<V>, max: nat, k: nat)
    requires Stored(st, max) && k < |st.rows|
    ensures st.rows[k].offset < |st.reps| == |st.defs|
    ensures
      var o, b := st.rows[k].offset, st.rows[k].baseOffset;
      var e := RowEnd(st.reps, o + 1);
      var n := Count(st.defs[o..e], max, e - o);
      && b + n <= |st.base| && st.reps[o] == 0
      && Piece(st.reps[o..e], st.defs[o..e], st.base[b..b + n], max)
      && Cells(st.reps[o..e], st.defs[o..e], st.base[b..b + n], max) == RowAt(st, max, k)
  {
    assert StartsRow(st, max, st.rows[k]);
    hide Count, Cells;
    var o := st.rows[k].offset;
    CellsSlice(st.reps, st.defs, st.base, max, o, RowEnd(st.reps, o + 1));
  }

  /** Rows are in the order they are stored in. */
  ghost predicate InOrder(rows: seq<OffsetMapping>) {
    forall k, l :: 0 <= k < l < |rows| ==> rows[k].offset < rows[l].offset
  }

  /** Values stored before the first row belong to no row: they continue a row of an earlier page. */
  ghost function Orphans<V>(st: Store<V>, max: nat): (cells: seq<Value<V>>)
    requires Stored(st, max)
  {
    AllCells(st, max)[..RowEnd(st.reps, 0)]
  }

  /** While rows are in order, the rows one after the other are what is stored, after the values of no row. */
  lemma InOrderRows<V>(st: Store<V>, max: nat)
    requires Stored(st, max) && InOrder(st.rows)
    ensures Orphans(st, max) + Concat(Rows(st, max)) == AllCells(st, max)
  {
    var n := |st.rows|;
    var rows, all := Rows(st, max), AllCells(st, max);
    assert rows[..n] == rows;
    RowsUpTo(st, max, n);
    assert all[..|all|] == all;
  }

  ghost function NextStart<V>(st: Store<V>, max: nat, n: nat): nat
    requires Stored(st, max) && n <= |st.rows|
  {
    if n == 0 then RowEnd(st.reps, 0)
    else
      assert StartsRow(st, max, st.rows[n - 1]);
      RowEnd(st.reps, st.rows[n - 1].offset + 1)
  }

  lemma {:induction false} RowsUpTo<V>(st: Store<V>, max: nat, n: nat)
    requires Stored(st, max) && InOrder(st.rows) && n <= |st.rows|
    ensures NextStart(st, max, n) == if n < |st.rows| then st.rows[n].offset else |st.reps|
    ensures Orphans(st, max) + Concat(Rows(st, max)[..n]) == AllCells(st, max)[..NextStart(st, max, n)]
  {
    hide Stored, AllCells, RowEnd, InOrder;
    StartsAreRows(st, max, n);
    var rows, all := Rows(st, max), AllCells(st, max);
    if n == 0 {
      assert rows[..0] == [];
    } else {
      RowsUpTo(st, max, n - 1);
      RowStarts(st, max, n - 1);
      OneMore(all, Orphans(st, max), rows, n, st.rows[n - 1].offset, NextStart(st, max, n));
    }
  }

  lemma OneMore<T>(all: seq<T>, first: seq<T>, rows: seq<seq<T>>, n: nat, from: nat, to: nat)
    requires 0 < n <= |rows| && from <= to <= |all|
    requires first + Concat(rows[..n - 1]) == all[..from] && rows[n - 1] == all[from..to]
    ensures first + Concat(rows[..n]) == all[..to]
  {
    assert rows[..n][..n - 1] == rows[..n - 1];
    assert first + Concat(rows[..n]) == first + Concat(rows[..n - 1]) + rows[n - 1];
  }

  /** Between one row and the next, in stored order, no row starts. */
  lemma StartsAreRows<V>(st: Store<V>, max: nat, n: nat)
    requires Stored(st, max) && InOrder(st.rows) && n <= |st.rows|
    ensures NextStart(st, max, n) == if n < |st.rows| then st.rows[n].offset else |st.reps|
  {
    var from := if n == 0 then 0 else st.rows[n - 1].offset + 1;
    var to := if n < |st.rows| then st.rows[n].offset else |st.reps|;
    assert n > 0 ==> StartsRow(st, max, st.rows[n - 1]);
    assert n < |st.rows| ==> StartsRow(st, max, st.rows[n]);
    forall q: nat | from <= q < to ensures st.reps[q] != 0 {
      assert st.reps[q] == 0 ==> HasRow(st.rows, q);
    }
    RowEndIs(st.reps, from, to);
  }

  // ----- values to write -----

  ghost function CellOf<V>(max: nat, v: Written<V>): Value<V> {
    Value(v.repetitionLevel, v.definitionLevel, if v.definitionLevel == max then Some(v.bits) else None)
  }

  ghost function CellsOf<V>(max: nat, vs: seq<Written<V>>): (cells: seq<Value<V>>)
    ensures |cells| == |vs|
  {
    seq(|vs|, i requires 0 <= i < |vs| => CellOf(max, vs[i]))
  }

  function RepsOf<V>(vs: seq<Written<V>>): (reps: seq<nat>)
    ensures |reps| == |vs|
  {
    seq(|vs|, i requires 0 <= i < |vs| => vs[i].repetitionLevel)
  }

  function DefsOf<V>(vs: seq<Written<V>>): (defs: seq<nat>)
    ensures |defs| == |vs|
  {
    seq(|vs|, i requires 0 <= i < |vs| => vs[i].definitionLevel)
  }

  ghost function BitsOf<V>(max: nat, vs: seq<Written<V>>): seq<V> {
    if vs == [] then []
    else BitsOf(max, vs[..|vs| - 1]) + if vs[|vs| - 1].definitionLevel == max then [vs[|vs| - 1].bits] else []
  }

  /** The levels of values, and the bits of those that are not null, stand for the values. */
  lemma {:induction false} WrittenCells<V>(max: nat, vs: seq<Written<V>>)
    ensures Count(DefsOf(vs), max, |vs|) == |BitsOf(max, vs)|
    ensures Cells(RepsOf(vs), DefsOf(vs), BitsOf(max, vs), max) == CellsOf(max, vs)
  {
    if vs != [] {
      var n := |vs| - 1;
      var init, v := vs[..n], vs[n];
      WrittenCells(max, init);
      var bits := if v.definitionLevel == max then [v.bits] else [];
      assert RepsOf(vs) == RepsOf(init) + [v.repetitionLevel] && DefsOf(vs) == DefsOf(init) + [v.definitionLevel];
      OneCell(v.repetitionLevel, v.definitionLevel, bits, max);
      CellsConcat(RepsOf(init), DefsOf(init), BitsOf(max, init), [v.repetitionLevel], [v.definitionLevel], bits, max);
      assert CellsOf(max, vs) == CellsOf(max, init) + [CellOf(max, v)];
    }
  }

  lemma OneCell<V>(rep: nat, def: nat, bits: seq<V>, max: nat)
    requires |bits| == if def == max then 1 else 0
    ensures Count([def], max, 1) == |bits|
    ensures Cells([rep], [def], bits, max) == [Value(rep, def, if def == max then Some(bits[0]) else None)]
  {
    assert Count([def], max, 0) == 0;
  }

  /** The rows that values from `p` on make up, where `p` is a start of a row or the end. */
  ghost function RowsFrom<T>(cells: seq<T>, reps: seq<nat>, p: nat): seq<seq<T>>
    requires |cells| == |reps| && p <= |reps|
    decreases |reps| - p
  {
    if p == |reps| then [] else [cells[p..RowEnd(reps, p + 1)]] + RowsFrom(cells, reps, RowEnd(reps, p + 1))
  }

  // ----- the buffer -----

  datatype RepeatedPage<V> = RepeatedPage(base: seq<V>, repetitionLevels: seq<nat>, definitionLevels: seq<nat>)

  class RepeatedColumnBuffer<V> {
    const maxDefinitionLevel: nat
    var base: seq<V>
    var reordered: bool
    var rows: seq<OffsetMapping>
    var repetitionLevels: seq<nat>
    var definitionLevels: seq<nat>
    var reordering: RepeatedColumnBuffer?<V>

    ghost function St(): Store<V>
      reads this
    {
      Store(repetitionLevels, definitionLevels, base, rows)
    }

    /** Rows are where the store says, and in stored order until they are swapped. */
    ghost predicate Valid()
      reads this
    {
      && Stored(St(), maxDefinitionLevel)
      && (!reordered ==> InOrder(rows))
    }

    /** The spare buffer is another one with the same levels. */
    ghost predicate Spare()
      reads this
    {
      reordering != null ==> reordering != this && reordering.maxDefinitionLevel == maxDefinitionLevel
    }

    constructor (maxDefinitionLevel: nat)
      ensures this.maxDefinitionLevel == maxDefinitionLevel
      ensures Valid() && Spare() && reordering == null && Rows(St(), maxDefinitionLevel) == []
    {
      this.maxDefinitionLevel := maxDefinitionLevel;
      base, reordered, rows, repetitionLevels, definitionLevels, reordering := [], false, [], [], [], null;
    }

    method Swap(i: nat, j: nat)
      requires Valid() && i < |rows| && j < |rows|
      modifies this`rows, this`reordered
      ensures Valid() && reordered
      ensures Rows(St(), maxDefinitionLevel) == SwapAt(old(Rows(St(), maxDefinitionLevel)), i, j)
      ensures AllCells(St(), maxDefinitionLevel) == old(AllCells(St(), maxDefinitionLevel))
    {
      hide Stored, InOrder;
      SwapRows(St(), maxDefinitionLevel, i, j);
      reordered := true;
      rows := rows[i := rows[j]][j := rows[i]];
      assert St() == old(St()).(rows := SwapAt(old(rows), i, j));
    }

    /** Appends the values of a row, or of the rest of the row written last. */
    method WriteRow(row: seq<Written<V>>)
      requires Valid() && row != [] && forall p :: 0 < p < |row| ==> row[p].repetitionLevel != 0
      modifies this`base, this`rows, this`repetitionLevels, this`definitionLevels
      ensures Valid()
      ensures St() == Appended(old(St()), RepsOf(row), DefsOf(row), BitsOf(maxDefinitionLevel, row))
      ensures Rows(St(), maxDefinitionLevel) ==
        if row[0].repetitionLevel == 0 then old(Rows(St(), maxDefinitionLevel)) + [CellsOf(maxDefinitionLevel, row)]
        else Continued(old(St()), maxDefinitionLevel, CellsOf(maxDefinitionLevel, row))
      ensures AllCells(St(), maxDefinitionLevel) == old(AllCells(St(), maxDefinitionLevel)) + CellsOf(maxDefinitionLevel, row)
    {
      hide Stored, InOrder;
      var buffer := [];
      for i := 0 to |row|
        invariant buffer == BitsOf(maxDefinitionLevel, row[..i])
      {
        assert row[..i + 1][..i] == row[..i];
        if row[i].definitionLevel == maxDefinitionLevel {
          buffer := buffer + [row[i].bits];
        }
      }
      assert row[..|row|] == row;
      WrittenCells(maxDefinitionLevel, row);
      AppendRows(St(), maxDefinitionLevel, RepsOf(row), DefsOf(row), buffer);
      AppendStores(St(), maxDefinitionLevel, RepsOf(row), DefsOf(row), buffer);
      AppendKeepsOrder(St(), maxDefinitionLevel, RepsOf(row), DefsOf(row), buffer);
      var baseOffset := |base|;
      if |buffer| > 0 {
        base := base + buffer;
      } else {
        assert base + buffer == base;
      }
      if row[0].repetitionLevel == 0 {
        rows := rows + [OffsetMapping(|repetitionLevels|, baseOffset)];
      }
      repetitionLevels := repetitionLevels + RepsOf(row);
      definitionLevels := definitionLevels + DefsOf(row);
    }

    /**
     * Appends values row by row. Values that do not begin with a row continue the row written last, wherever it has
     * been swapped to; all others make up new rows.
     */
    method WriteValues(values: seq<Written<V>>)
      requires Valid()
      modifies this`base, this`rows, this`repetitionLevels, this`definitionLevels
      ensures Valid()
      ensures
        var cells, reps := CellsOf(maxDefinitionLevel, values), RepsOf(values);
        var lead := RowEnd(reps, 0);
        && AllCells(St(), maxDefinitionLevel) == old(AllCells(St(), maxDefinitionLevel)) + cells
        && Rows(St(), maxDefinitionLevel) == RowsBefore(old(St()), maxDefinitionLevel, cells[..lead]) + RowsFrom(cells, reps, lead)
    {
      hide Stored, InOrder, WrittenUpTo, AllCells, Rows, RowEnd;
      ghost var cells, reps := CellsOf(maxDefinitionLevel, values), RepsOf(values);
      NothingWritten(St(), maxDefinitionLevel, cells, reps);
      var i := 0;
      while i < |values|
        invariant 0 <= i <= |values| && Valid() && WrittenUpTo(old(St()), St(), maxDefinitionLevel, cells, reps, i)
      {
        var j := ScanRow(values, i);
        ghost var before := St();
        CellsOfSlice(maxDefinitionLevel, values, i, j);
        RowStart(before, maxDefinitionLevel, cells, reps, i, old(St()));
        WriteRow(values[i..j]);
        RowWritten(old(St()), before, St(), maxDefinitionLevel, cells, reps, i, j);
        i := j;
      }
      AllWritten(old(St()), St(), maxDefinitionLevel, cells, reps);
    }

    /** The end of the row, or of the rest of one, that begins at `i`. */
    static method ScanRow(values: seq<Written<V>>, i: nat) returns (j: nat)
      requires i < |values|
      ensures i < j <= |values| && (j < |values| ==> RepsOf(values)[j] == 0)
      ensures forall q :: i < q < j ==> RepsOf(values)[q] != 0
      ensures forall p :: 0 < p < j - i ==> values[i..j][p].repetitionLevel != 0
    {
      j := i;
      if values[j].repetitionLevel == 0 {
        j := j + 1;
      }
      while j < |values| && values[j].repetitionLevel != 0
        invariant i <= j <= |values| && (values[i].repetitionLevel == 0 ==> i < j)
        invariant forall q :: i < q < j ==> values[q].repetitionLevel != 0
      {
        j := j + 1;
      }
    }

    /** A buffer of its own with the same contents. */
    constructor Clone(col: RepeatedColumnBuffer<V>)
      ensures maxDefinitionLevel == col.maxDefinitionLevel && reordering == null
      ensures St() == col.St() && reordered == col.reordered
    {
      maxDefinitionLevel, base, reordered := col.maxDefinitionLevel, col.base, col.reordered;
      rows, repetitionLevels, definitionLevels := col.rows, col.repetitionLevels, col.definitionLevels;
      reordering := null;
    }

    method Reset()
      modifies this`base, this`rows, this`repetitionLevels, this`definitionLevels
      ensures St() == Store([], [], [], [])
    {
      base, rows, repetitionLevels, definitionLevels := [], [], [], [];
    }

    method SwapReorderingBuffer(buf: RepeatedColumnBuffer<V>)
      requires buf != this
      modifies this`base, this`rows, this`repetitionLevels, this`definitionLevels, buf
      ensures St() == old(buf.St()) && buf.St() == old(St())
      ensures buf.reordering == old(buf.reordering)
    {
      base, buf.base := buf.base, base;
      rows, buf.rows := buf.rows, rows;
      repetitionLevels, buf.repetitionLevels := buf.repetitionLevels, repetitionLevels;
      definitionLevels, buf.definitionLevels := buf.definitionLevels, definitionLevels;
    }

    /** Writes the rows to another buffer, in their order. */
    method Reorder(column: RepeatedColumnBuffer<V>)
      requires Valid() && column != this && column.St() == Store([], [], [], [])
      modifies column`base, column`rows, column`repetitionLevels, column`definitionLevels
      ensures Stored(column.St(), maxDefinitionLevel) && InOrder(column.rows)
      ensures Rows(column.St(), maxDefinitionLevel) == Rows(St(), maxDefinitionLevel)
      ensures Orphans(column.St(), maxDefinitionLevel) == []
    {
      hide Stored, InOrder, Rows, Copied, Orphans;
      var baseOffset: nat := 0;
      NothingCopied(St(), maxDefinitionLevel);
      for k := 0 to |rows|
        invariant Copied(St(), column.St(), maxDefinitionLevel, k) && baseOffset == |column.base|
      {
        baseOffset := CopyRow(column, k, baseOffset);
      }
      AllCopied(St(), column.St(), maxDefinitionLevel);
    }

    /** Appends the levels and values of row `k` to another buffer. */
    method CopyRow(column: RepeatedColumnBuffer<V>, k: nat, baseOffset: nat) returns (nextOffset: nat)
      requires column != this && k < |rows| && baseOffset == |column.base|
      requires Copied(St(), column.St(), maxDefinitionLevel, k)
      modifies column`base, column`rows, column`repetitionLevels, column`definitionLevels
      ensures Copied(St(), column.St(), maxDefinitionLevel, k + 1) && nextOffset == |column.base|
    {
      hide Stored, InOrder, Rows, Copied, RowEnd, Count;
      RowCopied(St(), column.St(), maxDefinitionLevel, k);
      ghost var copied := Copy(St(), column.St(), maxDefinitionLevel, k);
      var rowOffset := rows[k].offset;
      RowEndSlice(repetitionLevels, rowOffset, rowOffset + 1);
      var rowLength := RepeatedRowLength(repetitionLevels[rowOffset..]);
      var numNulls := CountLevelsNotEqual(definitionLevels[rowOffset..rowOffset + rowLength], maxDefinitionLevel);
      var numValues := rowLength - numNulls;
      if numValues > 0 {
        column.base := column.base + base[rows[k].baseOffset..rows[k].baseOffset + numValues];
      }
      column.rows := column.rows + [OffsetMapping(|column.repetitionLevels|, baseOffset)];
      column.repetitionLevels := column.repetitionLevels + repetitionLevels[rowOffset..rowOffset + rowLength];
      column.definitionLevels := column.definitionLevels + definitionLevels[rowOffset..rowOffset + rowLength];
      nextOffset := baseOffset + numValues;
      assert column.St() == copied;
    }

    /**
     * The rows as a page. After swaps the store is rebuilt in row order first. The buffer denotes the same rows as
     * before and is in order again; a page that was rebuilt holds the rows and nothing else.
     */
    method Page() returns (page: RepeatedPage<V>)
      requires Valid() && Spare()
      modifies this, reordering
      ensures Valid() && Spare() && !reordered && (reordering == old(reordering) || fresh(reordering))
      ensures Rows(St(), maxDefinitionLevel) == old(Rows(St(), maxDefinitionLevel))
      ensures page == RepeatedPage(base, repetitionLevels, definitionLevels)
      ensures AllCells(St(), maxDefinitionLevel) ==
        (if old(reordered) then [] else old(Orphans(St(), maxDefinitionLevel))) + Concat(Rows(St(), maxDefinitionLevel))
    {
      hide Stored, InOrder, Rows, Orphans, Concat;
      if reordered {
        if reordering == null {
          reordering := new RepeatedColumnBuffer<V>.Clone(this);
        }
        var column := reordering;
        column.Reset();
        Reorder(column);
        SwapReorderingBuffer(column);
        reordered := false;
      }
      InOrderRows(St(), maxDefinitionLevel);
      page := RepeatedPage(base, repetitionLevels, definitionLevels);
    }
  }

  /** The length of the row that begins where the levels do. */
  method RepeatedRowLength(repetitionLevels: seq<nat>) returns (length: nat)
    ensures repetitionLevels == [] ==> length == 0
    ensures repetitionLevels != [] ==> length == RowEnd(repetitionLevels, 1)
  {
    if |repetitionLevels| > 0 {
      length := 1;
      while length < |repetitionLevels| && repetitionLevels[length] != 0
        invariant 1 <= length <= |repetitionLevels|
        invariant forall q :: 1 <= q < length ==> repetitionLevels[q] != 0
      {
        length := length + 1;
      }
      RowEndIs(repetitionLevels, 1, length);
    } else {
      length := 0;
    }
  }

  method CountLevelsNotEqual(levels: seq<nat>, max: nat) returns (n: nat)
    ensures n == |levels| - Count(levels, max, |levels|)
  {
    n := 0;
    for i := 0 to |levels|
      invariant n == i - Count(levels, max, i)
    {
      if levels[i] != max {
        n := n + 1;
      }
    }
  }

  // ----- progress of a reordering -----

  /** `column` holds the first `k` rows of `st`, in their order. */
  ghost predicate Copied<V>(st: Store<V>, column: Store<V>, max: nat, k: nat) {
    && Stored(st, max) && Stored(column, max) && k <= |st.rows|
    && Rows(column, max) == Rows(st, max)[..k]
    && InOrder(column.rows) && (column.reps == [] || column.reps[0] == 0)
  }

  lemma NothingCopied<V>(st: Store<V>, max: nat)
    requires Stored(st, max)
    ensures Copied(st, Store([], [], [], []), max, 0)
  {
  }

  /** `column` with row `k` of `st` appended. */
  ghost function Copy<V>(st: Store<V>, column: Store<V>, max: nat, k: nat): Store<V>
    requires Stored(st, max) && k < |st.rows|
  {
    RowIsPiece(st, max, k);
    var o, b := st.rows[k].offset, st.rows[k].baseOffset;
    var e := RowEnd(st.reps, o + 1);
    var n := Count(st.defs[o..e], max, e - o);
    Store(column.reps + st.reps[o..e], column.defs + st.defs[o..e], column.base + st.base[b..b + n],
      column.rows + [OffsetMapping(|column.reps|, |column.base|)])
  }

  lemma RowCopied<V>(st: Store<V>, column: Store<V>, max: nat, k: nat)
    requires Copied(st, column, max, k) && k < |st.rows|
    ensures Stored(st, max) && st.rows[k].offset < |st.reps| == |st.defs|
    ensures
      var o, b := st.rows[k].offset, st.rows[k].baseOffset;
      var e := RowEnd(st.reps, o + 1);
      e <= |st.reps| && b + Count(st.defs[o..e], max, e - o) <= |st.base|
    ensures Copied(st, Copy(st, column, max, k), max, k + 1)
  {
    hide Stored, InOrder, Rows, Count, RowEnd, Cells, RowAt;
    RowIsPiece(st, max, k);
    var o, b := st.rows[k].offset, st.rows[k].baseOffset;
    var e := RowEnd(st.reps, o + 1);
    var reps, defs := st.reps[o..e], st.defs[o..e];
    var bits := st.base[b..b + Count(defs, max, e - o)];
    AppendRows(column, max, reps, defs, bits);
    AppendKeepsOrder(column, max, reps, defs, bits);
    RowInRows(st, max, k);
    assert Rows(st, max)[..k + 1] == Rows(st, max)[..k] + [Rows(st, max)[k]];
  }

  lemma RowInRows<V>(st: Store<V>, max: nat, k: nat)
    requires Stored(st, max) && k < |st.rows|
    ensures |Rows(st, max)| == |st.rows| && Rows(st, max)[k] == RowAt(st, max, k)
  {
  }

  lemma AllCopied<V>(st: Store<V>, column: Store<V>, max: nat)
    requires Copied(st, column, max, |st.rows|)
    ensures Stored(st, max) && Stored(column, max) && InOrder(column.rows) && Rows(column, max) == Rows(st, max)
    ensures Orphans(column, max) == []
  {
    RowEndIs(column.reps, 0, 0);
  }

  // ----- progress of writing values -----

  /** The first `i` of the values to write have been added to `st0`: none, or whole rows after the leading values. */
  ghost predicate WrittenUpTo<V>(
    st0: Store<V>, st: Store<V>, max: nat, cells: seq<Value<V>>, reps: seq<nat>, i: nat)
  {
    && Stored(st0, max) && Stored(st, max) && i <= |reps| == |cells|
    && AllCells(st, max) == AllCells(st0, max) + cells[..i]
    && var lead := RowEnd(reps, 0);
       if i == 0 && lead > 0 then st == st0
       else
         && i >= lead && (i < |reps| ==> reps[i] == 0)
         && Rows(st, max) + RowsFrom(cells, reps, i) == RowsBefore(st0, max, cells[..lead]) + RowsFrom(cells, reps, lead)
  }

  lemma NothingWritten<V>(st: Store<V>, max: nat, cells: seq<Value<V>>, reps: seq<nat>)
    requires Stored(st, max) && |cells| == |reps|
    ensures WrittenUpTo(st, st, max, cells, reps, 0)
  {
    assert cells[..0] == [];
    assert AllCells(st, max) + [] == AllCells(st, max);
  }

  lemma RowStart<V>(st: Store<V>, max: nat, cells: seq<Value<V>>, reps: seq<nat>, i: nat, st0: Store<V>)
    requires WrittenUpTo(st0, st, max, cells, reps, i) && i < |reps|
    ensures reps[i] != 0 ==> i == 0 && st == st0
  {
  }

  lemma RowWritten<V>(
      st0: Store<V>, before: Store<V>, st: Store<V>, max: nat, cells: seq<Value<V>>, reps: seq<nat>, i: nat, j: nat)
    requires WrittenUpTo(st0, before, max, cells, reps, i) && Stored(st, max)
    requires i < j <= |reps| && (j < |reps| ==> reps[j] == 0) && forall q :: i < q < j ==> reps[q] != 0
    requires AllCells(st, max) == AllCells(before, max) + cells[i..j]
    requires Rows(st, max) == if reps[i] == 0 then Rows(before, max) + [cells[i..j]] else Continued(before, max, cells[i..j])
    ensures WrittenUpTo(st0, st, max, cells, reps, j)
  {
    hide Stored, AllCells, Rows, Continued, RowsFrom;
    assert cells[..i] + cells[i..j] == cells[..j];
    assert AllCells(st0, max) + cells[..i] + cells[i..j] == AllCells(st0, max) + (cells[..i] + cells[i..j]);
    var lead := RowEnd(reps, 0);
    if reps[i] == 0 {
      RowEndIs(reps, i + 1, j);
      NextRow(cells, reps, i);
      var rows, rest := Rows(before, max), RowsFrom(cells, reps, j);
      assert rows + [cells[i..j]] + rest == rows + ([cells[i..j]] + rest);
    } else {
      RowEndIs(reps, 0, j);
      assert cells[0..j] == cells[..j];
    }
  }

  lemma NextRow<T>(cells: seq<T>, reps: seq<nat>, i: nat)
    requires |cells| == |reps| && i < |reps|
    ensures RowsFrom(cells, reps, i) == [cells[i..RowEnd(reps, i + 1)]] + RowsFrom(cells, reps, RowEnd(reps, i + 1))
  {
  }

  lemma AllWritten<V>(st0: Store<V>, st: Store<V>, max: nat, cells: seq<Value<V>>, reps: seq<nat>)
    requires WrittenUpTo(st0, st, max, cells, reps, |reps|)
    ensures RowEnd(reps, 0) <= |cells| == |reps| && Stored(st0, max) && Stored(st, max)
    ensures AllCells(st, max) == AllCells(st0, max) + cells
    ensures Rows(st, max) == RowsBefore(st0, max, cells[..RowEnd(reps, 0)]) + RowsFrom(cells, reps, RowEnd(reps, 0))
  {
    assert cells[..|reps|] == cells;
    assert Rows(st, max) + [] == Rows(st, max);
  }

  /** The rows before the new ones: those there were, the one written last continued by `lead`. */
  ghost function RowsBefore<V>(st: Store<V>, max: nat, lead: Row<V>): seq<Row<V>>
    requires Stored(st, max)
  {
    if lead == [] then Rows(st, max) else Continued(st, max, lead)
  }

  lemma CellsOfSlice<V>(max: nat, values: seq<Written<V>>, i: nat, j: nat)
    requires i <= j <= |values|
    ensures CellsOf(max, values[i..j]) == CellsOf(max, values)[i..j]
  {
  }

  lemma AppendKeepsOrder<V>(st: Store<V>, max: nat, reps: seq<nat>, defs: seq<nat>, base: seq<V>)
    requires Stored(st, max) && |reps| > 0
    ensures InOrder(st.rows) ==> InOrder(Appended(st, reps, defs, base).rows)
  {
    forall k | 0 <= k < |st.rows| ensures st.rows[k].offset < |st.reps| {
      assert StartsRow(st, max, st.rows[k]);
    }
  }
}
