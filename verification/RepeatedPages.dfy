/** Slices of repeated and optional pages by row, and reading a page in chunks of any size. */
module RepeatedPages {
  import opened Sequences
  import opened Options
  import opened RepeatedBuffer

  datatype Page<V> = Page(base: seq<V>, repetitionLevels: seq<nat>, definitionLevels: seq<nat>, maxDefinitionLevel: nat)

  /** The base column holds exactly the values that are not null. */
  ghost predicate Sound<V>(page: Page<V>) {
    && |page.definitionLevels| == |page.repetitionLevels|
    && Count(page.definitionLevels, page.maxDefinitionLevel, |page.definitionLevels|) == |page.base|
  }

  ghost function CellsOfPage<V>(page: Page<V>): (cells: seq<Value<V>>)
    requires Sound(page)
    ensures |cells| == |page.repetitionLevels|
  {
    Cells(page.repetitionLevels, page.definitionLevels, page.base, page.maxDefinitionLevel)
  }

  // ----- rows of a page -----

  /** How many rows start in a page; values before the first start belong to a row of an earlier page. */
  ghost function NumRows(reps: seq<nat>): nat {
    Count(reps, 0, |reps|)
  }

  /** `p` is where row `r` starts, or the end of the page after its last row. */
  ghost predicate IsStart(reps: seq<nat>, r: nat, p: nat) {
    p <= |reps| && Count(reps, 0, p) == r && (p == |reps| || reps[p] == 0)
  }

  ghost function Start(reps: seq<nat>, r: nat): (p: nat)
    requires r <= NumRows(reps)
    ensures IsStart(reps, r, p)
  {
    FindStart(reps, r, 0)
  }

  ghost function FindStart(reps: seq<nat>, r: nat, from: nat): (p: nat)
    requires from <= |reps| && Count(reps, 0, from) <= r <= NumRows(reps)
    ensures IsStart(reps, r, p)
    decreases |reps| - from
  {
    if from == |reps| || (reps[from] == 0 && Count(reps, 0, from) == r) then from else FindStart(reps, r, from + 1)
  }

  lemma StartIsUnique(reps: seq<nat>, r: nat, p: nat)
    requires r <= NumRows(reps) && IsStart(reps, r, p)
    ensures Start(reps, r) == p
  {
    var q := Start(reps, r);
    if p < q {
      CountGrows(reps, 0, p, q);
    } else if q < p {
      CountGrows(reps, 0, q, p);
    }
  }

  lemma StartsInOrder(reps: seq<nat>, i: nat, j: nat)
    requires i <= j <= NumRows(reps)
    ensures Start(reps, i) <= Start(reps, j) <= |reps|
  {
    var p, q := Start(reps, i), Start(reps, j);
    if q < p {
      CountGrows(reps, 0, q, p);
    }
  }

  /** The rows that start in a page. */
  ghost function RowsOfPage<V>(page: Page<V>): (rows: seq<Row<V>>)
    requires Sound(page)
    ensures |rows| == NumRows(page.repetitionLevels)
  {
    seq(NumRows(page.repetitionLevels), k requires 0 <= k < NumRows(page.repetitionLevels) => RowOfPage(page, k))
  }

  ghost function RowOfPage<V>(page: Page<V>, k: nat): Row<V>
    requires Sound(page) && k < NumRows(page.repetitionLevels)
  {
    StartsInOrder(page.repetitionLevels, k, k + 1);
    CellsOfPage(page)[Start(page.repetitionLevels, k)..Start(page.repetitionLevels, k + 1)]
  }

  // ----- slices -----

  /** The page of levels [from, to) and the base values that belong to them. */
  ghost function Cut<V>(page: Page<V>, from: nat, to: nat): Page<V>
    requires Sound(page) && from <= to <= |page.repetitionLevels|
  {
    var defs, max := page.definitionLevels, page.maxDefinitionLevel;
    CountGrows(defs, max, from, to);
    CountGrows(defs, max, to, |defs|);
    Page(page.base[Count(defs, max, from)..Count(defs, max, to)], page.repetitionLevels[from..to], defs[from..to], max)
  }

  lemma CutCells<V>(page: Page<V>, from: nat, to: nat)
    requires Sound(page) && from <= to <= |page.repetitionLevels|
    ensures Sound(Cut(page, from, to)) && CellsOfPage(Cut(page, from, to)) == CellsOfPage(page)[from..to]
  {
    CellsSlice(page.repetitionLevels, page.definitionLevels, page.base, page.maxDefinitionLevel, from, to);
  }

  lemma CutCut<V>(page: Page<V>, from: nat, to: nat, from': nat, to': nat)
    requires Sound(page) && from <= to <= |page.repetitionLevels| && from' <= to' <= to - from
    ensures Sound(Cut(page, from, to)) && Cut(Cut(page, from, to), from', to') == Cut(page, from + from', from + to')
  {
    hide Count, Cells;
    CutCells(page, from, to);
    var defs, max := page.definitionLevels, page.maxDefinitionLevel;
    CountSlice(defs, max, from, to, from');
    CountSlice(defs, max, from, to, to');
    CountsGrow(page, from, from + from');
    CountsGrow(page, from + from', from + to');
    CountsGrow(page, from + to', to);
    SliceOfSlice(defs, from, to, from', to');
    SliceOfSlice(page.repetitionLevels, from, to, from', to');
    var c := Count(defs, max, from);
    SliceOfSlice(page.base, c, Count(defs, max, to), Count(defs, max, from + from') - c, Count(defs, max, from + to') - c);
  }

  lemma CountsGrow<V>(page: Page<V>, from: nat, to: nat)
    requires Sound(page) && from <= to <= |page.definitionLevels|
    ensures Count(page.definitionLevels, page.maxDefinitionLevel, from)
      <= Count(page.definitionLevels, page.maxDefinitionLevel, to) <= |page.base|
  {
    CountGrows(page.definitionLevels, page.maxDefinitionLevel, from, to);
    CountGrows(page.definitionLevels, page.maxDefinitionLevel, to, |page.definitionLevels|);
  }

  ghost function SliceOf<V>(page: Page<V>, i: nat, j: nat): Page<V>
    requires Sound(page) && i <= j <= NumRows(page.repetitionLevels)
  {
    StartsInOrder(page.repetitionLevels, i, j);
    Cut(page, Start(page.repetitionLevels, i), Start(page.repetitionLevels, j))
  }

  /** Rows of a slice start where the same rows of the page do. */
  lemma StartOfSlice(reps: seq<nat>, i: nat, j: nat, k: nat)
    requires i <= j <= NumRows(reps) && k <= j - i
    ensures Start(reps, i) <= Start(reps, i + k) <= Start(reps, j) <= |reps|
    ensures var part := reps[Start(reps, i)..Start(reps, j)];
      NumRows(part) == j - i && Start(part, k) == Start(reps, i + k) - Start(reps, i)
  {
    hide Start, Count;
    StartsInOrder(reps, i, i + k);
    StartsInOrder(reps, i + k, j);
    var from, to, p := Start(reps, i), Start(reps, j), Start(reps, i + k);
    CountSlice(reps, 0, from, to, to - from);
    CountSlice(reps, 0, from, to, p - from);
    StartIsUnique(reps[from..to], k, p - from);
  }

  /** A slice by row is exactly those rows of the page, also when the page starts in the middle of a row. */
  lemma SliceIsRows<V>(page: Page<V>, i: nat, j: nat)
    requires Sound(page) && i <= j <= NumRows(page.repetitionLevels)
    ensures Sound(SliceOf(page, i, j))
    ensures RowsOfPage(SliceOf(page, i, j)) == RowsOfPage(page)[i..j]
  {
    hide Count, Start, Cells, NumRows, RowOfPage, CellsOfPage;
    StartsInOrder(page.repetitionLevels, i, j);
    StartOfSlice(page.repetitionLevels, i, j, 0);
    CutCells(page, Start(page.repetitionLevels, i), Start(page.repetitionLevels, j));
    var rows, sliced := RowsOfPage(page), RowsOfPage(SliceOf(page, i, j));
    forall k: nat | k < j - i ensures sliced[k] == rows[i + k] {
      SliceRow(page, i, j, k);
    }
  }

  lemma SliceRow<V>(page: Page<V>, i: nat, j: nat, k: nat)
    requires Sound(page) && i <= j <= NumRows(page.repetitionLevels) && k < j - i
    ensures Sound(SliceOf(page, i, j)) && NumRows(SliceOf(page, i, j).repetitionLevels) == j - i
    ensures RowOfPage(SliceOf(page, i, j), k) == RowOfPage(page, i + k)
  {
    hide Count, Start, Cells, NumRows, CellsOfPage;
    var reps := page.repetitionLevels;
    StartsInOrder(reps, i, j);
    StartOfSlice(reps, i, j, k);
    StartOfSlice(reps, i, j, k + 1);
    StartsInOrder(reps, i + k, i + k + 1);
    var from, to := Start(reps, i), Start(reps, j);
    CutCells(page, from, to);
    SliceOfSlice(CellsOfPage(page), from, to, Start(reps, i + k) - from, Start(reps, i + k + 1) - from);
  }

  /** A slice of a slice is a slice of the page. */
  lemma SlicesCompose<V>(page: Page<V>, a: nat, b: nat, c: nat, d: nat)
    requires Sound(page) && a <= b <= NumRows(page.repetitionLevels) && c <= d <= b - a
    ensures Sound(SliceOf(page, a, b)) && NumRows(SliceOf(page, a, b).repetitionLevels) == b - a
    ensures SliceOf(SliceOf(page, a, b), c, d) == SliceOf(page, a + c, a + d)
  {
    hide Count, Start, Cells, NumRows;
    var reps := page.repetitionLevels;
    StartsInOrder(reps, a, b);
    StartOfSlice(reps, a, b, c);
    StartOfSlice(reps, a, b, d);
    StartsInOrder(reps, a + c, a + d);
    CutCells(page, Start(reps, a), Start(reps, b));
    CutCut(page, Start(reps, a), Start(reps, b), Start(reps, a + c) - Start(reps, a), Start(reps, a + d) - Start(reps, a));
  }

  /** Rows i to j - 1 of a page, found by scanning the repetition levels. */
  method Slice<V>(page: Page<V>, i: nat, j: nat) returns (slice: Page<V>)
    requires Sound(page) && i <= j <= NumRows(page.repetitionLevels)
    ensures slice == SliceOf(page, i, j)
    ensures Sound(slice) && NumRows(slice.repetitionLevels) == j - i
    ensures RowsOfPage(slice) == RowsOfPage(page)[i..j]
  {
    SliceIsRows(page, i, j);
    StartsInOrder(page.repetitionLevels, i, j);
    hide RowsOfPage, Cells, Start;
    var rowIndex0, rowIndex1 := FindRow(page.repetitionLevels, i, 0, 0);
    var _, rowIndex2 := FindRow(page.repetitionLevels, j, rowIndex1, rowIndex0);
    slice := CutLevels(page, rowIndex1, rowIndex2);
  }

  /** Levels [from, to) with their base values, which are found by counting nulls. */
  method CutLevels<V>(page: Page<V>, from: nat, to: nat) returns (slice: Page<V>)
    requires Sound(page) && from <= to <= |page.repetitionLevels|
    ensures slice == Cut(page, from, to)
  {
    hide Count;
    var defs, max := page.definitionLevels, page.maxDefinitionLevel;
    CountSlice(defs, max, 0, from, from);
    NoneCounted(defs, max);
    CountSlice(defs, max, from, to, to - from);
    CountsGrow(page, from, to);
    var numNulls1 := CountLevelsNotEqual(defs[0..from], max);
    var numNulls2 := CountLevelsNotEqual(defs[from..to], max);
    var i, j := from - numNulls1, to - (numNulls1 + numNulls2);
    return Page(page.base[i..j], page.repetitionLevels[from..to], defs[from..to], max);
  }

  lemma NoneCounted(defs: seq<nat>, max: nat)
    ensures Count(defs, max, 0) == 0
  {
  }

  /** Scans for the start of row `r`, from a position before which `seen` rows start. */
  method FindRow(reps: seq<nat>, r: nat, from: nat, seen: nat) returns (rowIndex: nat, p: nat)
    requires from <= |reps| && seen == Count(reps, 0, from) <= r <= NumRows(reps)
    ensures p == Start(reps, r) && rowIndex == r
  {
    rowIndex, p := seen, from;
    while p < |reps|
      invariant from <= p <= |reps| && rowIndex == Count(reps, 0, p) <= r
    {
      if reps[p] == 0 {
        if rowIndex == r {
          break;
        }
        rowIndex := rowIndex + 1;
      }
      p := p + 1;
    }
    StartIsUnique(reps, r, p);
  }

  // ----- reading values -----

  /** The reader of a base page; it may return fewer values than asked for. */
  class BaseValues<V> {
    const values: seq<V>
    var position: nat

    constructor (values: seq<V>)
      ensures this.values == values && position == 0
    {
      this.values, position := values, 0;
    }

    /** Reads some of the values asked for, at least one if any are left; the levels are not its concern. */
    method ReadValues(buffer: array<Value<V>>, from: nat, to: nat) returns (n: nat, eof: bool)
      requires position <= |values| && from < to <= buffer.Length
      modifies this, buffer
      ensures n <= to - from && position == old(position) + n <= |values|
      ensures old(position) < |values| ==> n > 0
      ensures forall k :: from <= k < from + n ==> buffer[k].data == Some(values[old(position) + (k - from)])
      ensures forall k :: 0 <= k < buffer.Length && !(from <= k < from + n) ==> buffer[k] == old(buffer[k])
      ensures eof ==> position == |values|
    {
      n := 0;
      while from + n < to && position < |values|
        invariant n <= to - from && position == old(position) + n <= |values|
        invariant forall k :: from <= k < from + n ==> buffer[k].data == Some(values[old(position) + (k - from)])
        invariant forall k :: 0 <= k < buffer.Length && !(from <= k < from + n) ==> buffer[k] == old(buffer[k])
      {
        buffer[from + n] := Value(0, 0, Some(values[position]));
        position := position + 1;
        n := n + 1;
      }
      eof := position == |values|;
    }
  }

  class PageValues<V> {
    const page: Page<V>
    const values: BaseValues<V>
    var offset: nat

    constructor (page: Page<V>)
      requires Sound(page)
      ensures this.page == page && offset == 0 && InStep() && fresh(values)
    {
      this.page, offset := page, 0;
      values := new BaseValues(page.base);
    }

    /** The base reader has read the values of the levels before the offset. */
    ghost predicate InStep()
      reads this, values
    {
      && Sound(page) && offset <= |page.definitionLevels|
      && values.values == page.base
      && values.position == Count(page.definitionLevels, page.maxDefinitionLevel, offset)
    }

    /** The first `n` elements of the buffer are the page's values from `start` to the offset. */
    ghost predicate Filled(buffer: seq<Value<V>>, n: nat, start: nat)
      requires Sound(page)
      reads this
    {
      && n <= |buffer| && offset == start + n <= |page.definitionLevels|
      && forall k :: 0 <= k < n ==> buffer[k] == CellsOfPage(page)[start + k]
    }

    /**
     * Fills the buffer with the next values of the page, as many as there are. However the reader is called, what it
     * returns is the page's values in order, none skipped or repeated.
     */
    method ReadValues(buffer: array<Value<V>>) returns (n: nat, eof: bool)
      requires InStep()
      modifies this, values, buffer
      ensures InStep() && offset == old(offset) + n
      ensures n == buffer.Length || offset == |page.definitionLevels|
      ensures n <= buffer.Length && buffer[..n] == CellsOfPage(page)[old(offset)..offset]
      ensures forall k :: 0 <= k < n ==>
        && buffer[k].repetitionLevel == page.repetitionLevels[old(offset) + k]
        && buffer[k].definitionLevel == page.definitionLevels[old(offset) + k]
        && (buffer[k].data.Some? <==> page.definitionLevels[old(offset) + k] == page.maxDefinitionLevel)
      ensures eof <==> offset == |page.definitionLevels|
    {
      n := 0;
      ghost var start := offset;
      var defs, max := page.definitionLevels, page.maxDefinitionLevel;
      while n < buffer.Length && offset < |defs|
        invariant InStep() && Filled(buffer[..], n, start)
        decreases |defs| - offset
      {
        n := ReadNulls(buffer, n, start);
        var i, j := n, offset;
        while i < buffer.Length && j < |defs| && defs[j] == max
          invariant n <= i <= buffer.Length && i - n == j - offset && j <= |defs|
          invariant forall p :: offset <= p < j ==> defs[p] == max
        {
          i, j := i + 1, j + 1;
        }
        if n < i {
          n := ReadRun(buffer, n, i, start);
        }
      }
      eof := offset == |defs|;
    }

    /** A run of nulls. */
    method ReadNulls(buffer: array<Value<V>>, from: nat, ghost start: nat) returns (n: nat)
      requires InStep() && Filled(buffer[..], from, start)
      modifies this`offset, buffer
      ensures InStep() && Filled(buffer[..], n, start) && from <= n
      ensures n == buffer.Length || offset == |page.definitionLevels| || page.definitionLevels[offset] == page.maxDefinitionLevel
    {
      n := from;
      var defs, max := page.definitionLevels, page.maxDefinitionLevel;
      while n < buffer.Length && offset < |defs| && defs[offset] != max
        invariant InStep() && Filled(buffer[..], n, start) && from <= n
      {
        assert CellsOfPage(page)[offset] == Value(page.repetitionLevels[offset], defs[offset], None);
        buffer[n] := Value(page.repetitionLevels[offset], defs[offset], None);
        offset := offset + 1;
        n := n + 1;
      }
    }

    /** A part of a run of values, copied from the base page. */
    method ReadRun(buffer: array<Value<V>>, from: nat, to: nat, ghost start: nat) returns (n: nat)
      requires InStep() && Filled(buffer[..], from, start) && from < to <= buffer.Length
      requires offset + (to - from) <= |page.definitionLevels|
      requires forall p :: offset <= p < offset + (to - from) ==> page.definitionLevels[p] == page.maxDefinitionLevel
      modifies this`offset, values, buffer
      ensures InStep() && Filled(buffer[..], n, start) && from < n <= to
    {
      hide Count, Cells;
      RunCounts(page, offset, to - from);
      var m, eof := values.ReadValues(buffer, from, to);
      n := from;
      ghost var read, first, count, position := buffer[..], offset, m, values.position;
      RunCounts(page, first, count);
      while m > 0
        invariant 0 <= m && m + (n - from) == count && from <= n
        invariant offset == first + (n - from) && values.position == position
        invariant Filled(buffer[..], n, start)
        invariant forall k :: n <= k < buffer.Length ==> buffer[k] == read[k]
      {
        RunValue(page, first, n - from);
        buffer[n] := Value(page.repetitionLevels[offset], page.maxDefinitionLevel, buffer[n].data);
        offset := offset + 1;
        n := n + 1;
        m := m - 1;
      }
    }
  }

  /** The values of a run are consecutive base values. */
  lemma RunValue<V>(page: Page<V>, offset: nat, m: nat)
    requires Sound(page) && offset + m < |page.definitionLevels|
    requires forall p :: offset <= p <= offset + m ==> page.definitionLevels[p] == page.maxDefinitionLevel
    ensures Count(page.definitionLevels, page.maxDefinitionLevel, offset) + m < |page.base|
    ensures CellsOfPage(page)[offset + m] == Value(page.repetitionLevels[offset + m], page.maxDefinitionLevel,
      Some(page.base[Count(page.definitionLevels, page.maxDefinitionLevel, offset) + m]))
  {
    RunCounts(page, offset, m);
    RunCounts(page, offset, m + 1);
  }

  /** In a run of values the base position moves with the offset. */
  lemma {:induction false} RunCounts<V>(page: Page<V>, offset: nat, m: nat)
    requires Sound(page) && offset + m <= |page.definitionLevels|
    requires forall p :: offset <= p < offset + m ==> page.definitionLevels[p] == page.maxDefinitionLevel
    ensures Count(page.definitionLevels, page.maxDefinitionLevel, offset + m)
      == Count(page.definitionLevels, page.maxDefinitionLevel, offset) + m <= |page.base|
  {
    CountsGrow(page, offset, offset + m);
    if m > 0 {
      RunCounts(page, offset, m - 1);
    }
  }

  // ----- reading a slice -----

  /** Rows i to j - 1, one after the other, are the values from the start of row i to that of row j. */
  lemma {:induction false} RowsAreCells<V>(page: Page<V>, i: nat, j: nat)
    requires Sound(page) && i <= j <= NumRows(page.repetitionLevels)
    ensures Start(page.repetitionLevels, i) <= Start(page.repetitionLevels, j) <= |page.repetitionLevels|
    ensures Concat(RowsOfPage(page)[i..j])
      == CellsOfPage(page)[Start(page.repetitionLevels, i)..Start(page.repetitionLevels, j)]
    decreases j - i
  {
    hide Start, Cells, Count, NumRows, CellsOfPage, RowsOfPage, RowOfPage, Concat;
    StartsInOrder(page.repetitionLevels, i, j);
    if i == j {
      NoRows(RowsOfPage(page), i, CellsOfPage(page), Start(page.repetitionLevels, i));
    } else {
      RowsAreCells(page, i, j - 1);
      StartsInOrder(page.repetitionLevels, j - 1, j);
      LastRow(page, i, j);
      ConcatSnoc(RowsOfPage(page)[i..j - 1], RowOfPage(page, j - 1));
      var reps := page.repetitionLevels;
      SlicesJoin(CellsOfPage(page), Start(reps, i), Start(reps, j - 1), Start(reps, j));
    }
  }

  lemma NoRows<T>(rows: seq<seq<T>>, i: nat, cells: seq<T>, p: nat)
    requires i <= |rows| && p <= |cells|
    ensures Concat(rows[i..i]) == [] && cells[p..p] == []
  {
  }

  lemma SlicesJoin<T>(s: seq<T>, a: nat, b: nat, c: nat)
    requires a <= b <= c <= |s|
    ensures s[a..b] + s[b..c] == s[a..c]
  {
  }

  lemma LastRow<V>(page: Page<V>, i: nat, j: nat)
    requires Sound(page) && i < j <= NumRows(page.repetitionLevels)
    ensures Start(page.repetitionLevels, j - 1) <= Start(page.repetitionLevels, j) <= |page.repetitionLevels|
    ensures RowsOfPage(page)[i..j] == RowsOfPage(page)[i..j - 1] + [RowOfPage(page, j - 1)]
    ensures RowOfPage(page, j - 1)
      == CellsOfPage(page)[Start(page.repetitionLevels, j - 1)..Start(page.repetitionLevels, j)]
  {
    hide Start, Cells, Count, NumRows, CellsOfPage;
    StartsInOrder(page.repetitionLevels, j - 1, j);
  }

  /** Offsets that a reader passes through, call by call. */
  ghost predicate Stops(stops: seq<nat>, end: nat) {
    |stops| > 0 && forall k, l :: 0 <= k <= l < |stops| ==> stops[k] <= stops[l] <= end
  }

  /** What a reader returns whose offset goes from each of the stops to the next. */
  ghost function Chunks<T>(cells: seq<T>, stops: seq<nat>): (chunks: seq<seq<T>>)
    requires Stops(stops, |cells|)
  {
    seq(|stops| - 1, k requires 0 <= k < |stops| - 1 => Chunk(cells, stops, k))
  }

  ghost function Chunk<T>(cells: seq<T>, stops: seq<nat>, k: nat): seq<T>
    requires Stops(stops, |cells|) && k + 1 < |stops|
  {
    cells[stops[k]..stops[k + 1]]
  }

  lemma {:induction false} ChunksJoin<T>(cells: seq<T>, stops: seq<nat>)
    requires Stops(stops, |cells|)
    ensures stops[0] <= stops[|stops| - 1] <= |cells|
    ensures Concat(Chunks(cells, stops)) == cells[stops[0]..stops[|stops| - 1]]
    decreases |stops|
  {
    var n := |stops| - 1;
    if n > 0 {
      ChunksJoin(cells, stops[..n]);
      assert Chunks(cells, stops) == Chunks(cells, stops[..n]) + [Chunk(cells, stops, n - 1)];
      ConcatSnoc(Chunks(cells, stops[..n]), Chunk(cells, stops, n - 1));
    }
  }

  /** Reading a slice in chunks of any sizes returns exactly rows i to j - 1 of the page, one after the other. */
  lemma SliceReadsRows<V>(page: Page<V>, i: nat, j: nat, stops: seq<nat>)
    requires Sound(page) && i <= j <= NumRows(page.repetitionLevels) && Sound(SliceOf(page, i, j))
    requires var end := |SliceOf(page, i, j).repetitionLevels|;
      Stops(stops, end) && stops[0] == 0 && stops[|stops| - 1] == end
    ensures Concat(Chunks(CellsOfPage(SliceOf(page, i, j)), stops)) == Concat(RowsOfPage(page)[i..j])
  {
    hide Start, Cells, Count, NumRows, RowsOfPage, Concat, Stops;
    var cells := CellsOfPage(SliceOf(page, i, j));
    ChunksJoin(cells, stops);
    assert cells[0..|cells|] == cells;
    StartsInOrder(page.repetitionLevels, i, j);
    CutCells(page, Start(page.repetitionLevels, i), Start(page.repetitionLevels, j));
    RowsAreCells(page, i, j);
  }

  // ----- optional pages -----

  /** An optional page has one value per row: it is read as a page whose levels all start a row. */
  ghost predicate IsOptional<V>(page: Page<V>) {
    forall p :: 0 <= p < |page.repetitionLevels| ==> page.repetitionLevels[p] == 0
  }

  /** Rows i to j - 1 of an optional page, cut at the levels themselves. */
  method SliceOptional<V>(page: Page<V>, i: nat, j: nat) returns (slice: Page<V>)
    requires Sound(page) && IsOptional(page) && i <= j <= |page.definitionLevels|
    ensures NumRows(page.repetitionLevels) == |page.definitionLevels|
    ensures slice == SliceOf(page, i, j) && IsOptional(slice)
  {
    hide Cells, Start;
    EveryLevelStarts(page.repetitionLevels, |page.definitionLevels|);
    EveryLevelStarts(page.repetitionLevels, i);
    EveryLevelStarts(page.repetitionLevels, j);
    StartIsUnique(page.repetitionLevels, i, i);
    StartIsUnique(page.repetitionLevels, j, j);
    slice := CutLevels(page, i, j);
  }

  lemma {:induction false} EveryLevelStarts(reps: seq<nat>, n: nat)
    requires n <= |reps| && forall p :: 0 <= p < |reps| ==> reps[p] == 0
    ensures Count(reps, 0, n) == n
  {
    if n > 0 {
      EveryLevelStarts(reps, n - 1);
    }
  }
}
