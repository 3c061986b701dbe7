/** What the page index of the sorting columns says about the rows of a row group. */
module PageBounds {
  import opened Options
  import opened Orders
  import opened RowComparators
  import opened RowGroupSegments

  /** What the column index records of one page. */
  datatype PageStats<V> = PageStats(nullPage: bool, minValue: Value<V>, maxValue: Value<V>)

  /** The column index and the first row of each page, where the column chunk has them. */
  datatype ColumnChunk<V> = ColumnChunk(columnIndex: Option<seq<PageStats<V>>>, offsetIndex: Option<seq<nat>>)

  /** Two values in the direction of the sort. */
  function CompareKeys<V>(cmp: (V, V) -> int, descending: bool, a: Value<V>, b: Value<V>): int {
    if descending then -cmp(a.bits, b.bits) else cmp(a.bits, b.bits)
  }

  /** The bound of a page that comes first in sort order, and the one that comes last. */
  function Earliest<V>(page: PageStats<V>, descending: bool): Value<V> {
    if descending then page.maxValue else page.minValue
  }

  function Latest<V>(page: PageStats<V>, descending: bool): Value<V> {
    if descending then page.minValue else page.maxValue
  }

  // ----- what a page index promises -----

  function PageEnd(firstRows: seq<nat>, numRows: nat, p: nat): nat
    requires p < |firstRows|
  {
    if p + 1 < |firstRows| then firstRows[p + 1] else numRows
  }

  /** The pages are consecutive non-empty stretches of the rows. */
  ghost predicate Paged(firstRows: seq<nat>, numRows: nat) {
    && |firstRows| > 0 && firstRows[0] == 0
    && forall p: nat :: p < |firstRows| ==> firstRows[p] < PageEnd(firstRows, numRows, p)
  }

  /** The row holds exactly one value in column `c`, which is not null. */
  ghost predicate HasKey<V>(row: Row<V>, c: nat) {
    |ValuesOf(row, c)| == 1 && !ValuesOf(row, c)[0].isNull
  }

  ghost function SortKey<V>(row: Row<V>, c: nat): Value<V>
    requires HasKey(row, c)
  {
    ValuesOf(row, c)[0]
  }

  /** The bounds of page `p` enclose the values of column `c` in its rows. */
  ghost predicate PageEncloses<V>(
    cmp: (V, V) -> int, c: nat, stats: PageStats<V>, rows: seq<Row<V>>, from: nat, to: nat)
  {
    && !stats.nullPage && !stats.minValue.isNull && !stats.maxValue.isNull
    && forall j: nat :: from <= j < to && j < |rows| ==> RowEnclosed(cmp, c, stats, rows[j])
  }

  ghost predicate RowEnclosed<V>(cmp: (V, V) -> int, c: nat, stats: PageStats<V>, row: Row<V>) {
    HasKey(row, c) && cmp(stats.minValue.bits, SortKey(row, c).bits) <= 0 && cmp(SortKey(row, c).bits, stats.maxValue.bits) <= 0
  }

  /** The page index of column `c` describes the rows; the bounds of different pages need not be in any order. */
  ghost predicate Indexes<V>(
    cmp: (V, V) -> int, c: nat, stats: seq<PageStats<V>>, firstRows: seq<nat>, rows: seq<Row<V>>)
  {
    && |stats| == |firstRows| && Paged(firstRows, |rows|)
    && (forall p: nat :: p < |stats| ==>
        PageEncloses(cmp, c, stats[p], rows, firstRows[p], PageEnd(firstRows, |rows|, p)))
    && forall j :: 0 <= j < |rows| ==> HasKey(rows[j], c)
  }

  // ----- rows in the order of the first sorting column -----

  /** Column `c` decides the order of rows first. */
  ghost predicate Leads<V(!new)>(order: RowOrder<V>, c: nat, cmp: (V, V) -> int, descending: bool) {
    && order.Valid() && |order.columns| > 0 && order.columns[0] == c
    && forall a: Value<V>, b: Value<V> :: !a.isNull && !b.isNull ==> order.compares[0](a, b) == CompareKeys(cmp, descending, a, b)
  }

  /** A strict difference in the first sorting column is a strict difference of the rows. */
  lemma LeadDecides<V(!new)>(order: RowOrder<V>, c: nat, cmp: (V, V) -> int, descending: bool, a: Row<V>, b: Row<V>)
    requires Leads(order, c, cmp, descending) && HasKey(a, c) && HasKey(b, c)
    ensures CompareKeys(cmp, descending, SortKey(a, c), SortKey(b, c)) < 0 ==> CompareRows(order)(a, b) < 0
    ensures CompareKeys(cmp, descending, SortKey(a, c), SortKey(b, c)) > 0 ==> CompareRows(order)(a, b) > 0
  {
    SingleValues(order.compares[0], SortKey(a, c), SortKey(b, c));
    assert ValuesOf(a, c) == [SortKey(a, c)] && ValuesOf(b, c) == [SortKey(b, c)];
  }

  // ----- cut lookups -----

  /** Binary search for a position where `found` turns true; `found` need not be monotone. */
  function Search(found: int -> bool, lo: nat, hi: nat): (p: nat)
    requires lo <= hi
    ensures lo <= p <= hi
    ensures p > lo ==> !found(p - 1)
    ensures p < hi ==> found(p)
    decreases hi - lo
  {
    if lo == hi then lo
    else
      var mid := (lo + hi) / 2;
      if found(mid) then Search(found, lo, mid) else Search(found, mid + 1, hi)
  }

  function CutAbove<V>(
      cmp: (V, V) -> int, descending: bool, c: nat, stats: seq<PageStats<V>>, firstRows: seq<nat>, numRows: nat, key: Row<V>)
    : nat
    requires |stats| == |firstRows| && c < |key|
  {
    if key[c].isNull then numRows
    else
      var after := (p: int) => 0 <= p < |stats| && CompareKeys(cmp, descending, Earliest(stats[p], descending), key[c]) > 0;
      var p := Search(after, 0, |stats|);
      if p == 0 then 0 else PageEnd(firstRows, numRows, p - 1)
  }

  function CutBelow<V>(
      cmp: (V, V) -> int, descending: bool, c: nat, stats: seq<PageStats<V>>, firstRows: seq<nat>, numRows: nat, key: Row<V>)
    : nat
    requires |stats| == |firstRows| && c < |key|
  {
    if key[c].isNull then 0
    else
      var from := (p: int) => 0 <= p < |stats| && CompareKeys(cmp, descending, Latest(stats[p], descending), key[c]) >= 0;
      var p := Search(from, 0, |stats|);
      if p == |stats| then numRows else firstRows[p]
  }

  /** The cut lookups of a column chunk, unless its page index does not support them. Keys hold one value per column. */
  function NewCutLookups<V>(cmp: (V, V) -> int, descending: bool, c: nat, chunk: ColumnChunk<V>, numRows: nat)
    : (Option<Row<V> -> int>, Option<Row<V> -> int>)
  {
    if chunk.columnIndex.None? || chunk.offsetIndex.None? then (None, None)
    else
      var stats, firstRows := chunk.columnIndex.value, chunk.offsetIndex.value;
      if |stats| == 0 || |firstRows| != |stats| || exists p :: 0 <= p < |stats| && stats[p].nullPage then (None, None)
      else
        (Some((key: Row<V>) => if c < |key| then CutAbove(cmp, descending, c, stats, firstRows, numRows, key) else 0),
         Some((key: Row<V>) => if c < |key| then CutBelow(cmp, descending, c, stats, firstRows, numRows, key) else 0))
  }

  ghost predicate SupportsCuts<V>(chunk: ColumnChunk<V>) {
    && chunk.columnIndex.Some? && chunk.offsetIndex.Some?
    && chunk.columnIndex.value != [] && |chunk.columnIndex.value| == |chunk.offsetIndex.value|
    && forall page :: page in chunk.columnIndex.value ==> !page.nullPage
  }

  /** There are lookups exactly when the chunk has both indexes, of as many pages, and no page of nulls; they are the cuts. */
  lemma LookupsExist<V>(cmp: (V, V) -> int, descending: bool, c: nat, chunk: ColumnChunk<V>, numRows: nat, key: Row<V>)
    ensures var (above, below) := NewCutLookups(cmp, descending, c, chunk, numRows);
      && (above.Some? <==> below.Some?) && (above.Some? <==> SupportsCuts(chunk))
      && (above.Some? && c < |key| ==>
            && above.value(key) == CutAbove(cmp, descending, c, chunk.columnIndex.value, chunk.offsetIndex.value, numRows, key)
            && below.value(key) == CutBelow(cmp, descending, c, chunk.columnIndex.value, chunk.offsetIndex.value, numRows, key))
  {
    hide CutAbove, CutBelow;
  }

  /** A row that holds one value in each column, such as the bounds of a row group. */
  ghost predicate Flat<V>(key: Row<V>, n: nat) {
    |key| == n && forall i :: 0 <= i < n ==> key[i].column == i
  }

  lemma FlatKey<V>(key: Row<V>, n: nat, c: nat)
    requires Flat(key, n) && c < n
    ensures ValuesOf(key, c) == [key[c]]
  {
    SpanIsValues(key, c, c, c + 1);
  }

  /** Rows sorted by an order are sorted by the column that decides first. */
  lemma LeadSorted<V(!new)>(
      order: RowOrder<V>, c: nat, cmp: (V, V) -> int, descending: bool, rows: seq<Row<V>>, i: nat, j: nat)
    requires Leads(order, c, cmp, descending) && TotalPreorder(cmp) && Sorted(CompareRows(order), rows)
    requires i <= j < |rows| && HasKey(rows[i], c) && HasKey(rows[j], c)
    ensures CompareKeys(cmp, descending, SortKey(rows[i], c), SortKey(rows[j], c)) <= 0
  {
    if i < j {
      LeadDecides(order, c, cmp, descending, rows[i], rows[j]);
      assert CompareRows(order)(rows[i], rows[j]) <= 0;
    }
  }

  lemma DirectedChain<V(!new)>(cmp: (V, V) -> int, descending: bool, a: Value<V>, b: Value<V>, c: Value<V>)
    requires TotalPreorder(cmp)
    requires CompareKeys(cmp, descending, a, b) <= 0 && CompareKeys(cmp, descending, b, c) <= 0
    ensures CompareKeys(cmp, descending, a, c) <= 0
    ensures CompareKeys(cmp, descending, a, b) < 0 || CompareKeys(cmp, descending, b, c) < 0 ==>
      CompareKeys(cmp, descending, a, c) < 0
  {
    var x, y, z := a.bits, b.bits, c.bits;
    assert Chained(cmp, x, y, z) && Chained(cmp, z, y, x);
    assert Chained(cmp, y, z, x) && Chained(cmp, z, x, y) && Chained(cmp, x, z, y) && Chained(cmp, y, x, z);
  }

  lemma Reversed<V(!new)>(cmp: (V, V) -> int, descending: bool, a: Value<V>, b: Value<V>)
    requires TotalPreorder(cmp)
    ensures CompareKeys(cmp, descending, a, b) < 0 <==> CompareKeys(cmp, descending, b, a) > 0
  {
    assert cmp(a.bits, b.bits) < 0 <==> cmp(b.bits, a.bits) > 0;
    assert cmp(b.bits, a.bits) < 0 <==> cmp(a.bits, b.bits) > 0;
  }

  /** The bounds of a page enclose its rows in the direction of the sort, whichever it is. */
  lemma PageOrder<V(!new)>(
      cmp: (V, V) -> int, descending: bool, c: nat, stats: seq<PageStats<V>>, firstRows: seq<nat>, rows: seq<Row<V>>,
      p: nat, j: nat)
    requires TotalPreorder(cmp) && Indexes(cmp, c, stats, firstRows, rows) && p < |stats|
    requires firstRows[p] <= j < PageEnd(firstRows, |rows|, p) && j < |rows|
    ensures HasKey(rows[j], c)
    ensures CompareKeys(cmp, descending, Earliest(stats[p], descending), SortKey(rows[j], c)) <= 0
    ensures CompareKeys(cmp, descending, SortKey(rows[j], c), Latest(stats[p], descending)) <= 0
  {
    assert PageEncloses(cmp, c, stats[p], rows, firstRows[p], PageEnd(firstRows, |rows|, p));
    assert RowEnclosed(cmp, c, stats[p], rows[j]);
    Reversed(cmp, false, stats[p].minValue, SortKey(rows[j], c));
    Reversed(cmp, false, SortKey(rows[j], c), stats[p].maxValue);
    Reversed(cmp, false, SortKey(rows[j], c), stats[p].minValue);
    Reversed(cmp, false, stats[p].maxValue, SortKey(rows[j], c));
  }

  /** Every indexed row has a key, and the index has its pages. */
  lemma IndexedRow<V>(cmp: (V, V) -> int, c: nat, stats: seq<PageStats<V>>, firstRows: seq<nat>, rows: seq<Row<V>>, j: nat)
    requires Indexes(cmp, c, stats, firstRows, rows) && j < |rows|
    ensures |stats| == |firstRows| && Paged(firstRows, |rows|) && HasKey(rows[j], c)
  {
  }

  lemma {:induction false} PagesAreOrdered(firstRows: seq<nat>, numRows: nat, p: nat)
    requires Paged(firstRows, numRows) && p < |firstRows|
    ensures firstRows[p] < PageEnd(firstRows, numRows, p) <= numRows
    decreases |firstRows| - p
  {
    assert firstRows[p] < PageEnd(firstRows, numRows, p);
    if p + 1 < |firstRows| {
      PagesAreOrdered(firstRows, numRows, p + 1);
    }
  }

  /** The page that a row from the cut on is not before: it begins above the key. */
  lemma PageAboveCut<V>(
      cmp: (V, V) -> int, descending: bool, c: nat, stats: seq<PageStats<V>>, firstRows: seq<nat>, numRows: nat,
      key: Row<V>, j: nat)
    returns (p: nat)
    requires |stats| == |firstRows| && c < |key| && Paged(firstRows, numRows)
    requires CutAbove(cmp, descending, c, stats, firstRows, numRows, key) <= j < numRows
    ensures p < |stats| && firstRows[p] <= j && CompareKeys(cmp, descending, Earliest(stats[p], descending), key[c]) > 0
  {
    hide CompareKeys, Earliest;
    var after := (p: int) => 0 <= p < |stats| && CompareKeys(cmp, descending, Earliest(stats[p], descending), key[c]) > 0;
    p := Search(after, 0, |stats|);
    assert p > 0 && p < |stats| ==> PageEnd(firstRows, numRows, p - 1) == firstRows[p];
  }

  /** The page that a row before the cut is not after: it ends below the key. */
  lemma PageBelowCut<V>(
      cmp: (V, V) -> int, descending: bool, c: nat, stats: seq<PageStats<V>>, firstRows: seq<nat>, numRows: nat,
      key: Row<V>, j: nat)
    returns (p: nat)
    requires |stats| == |firstRows| && c < |key| && Paged(firstRows, numRows)
    requires j < numRows && j < CutBelow(cmp, descending, c, stats, firstRows, numRows, key)
    ensures p < |stats| && j < PageEnd(firstRows, numRows, p)
    ensures CompareKeys(cmp, descending, Latest(stats[p], descending), key[c]) < 0
  {
    hide CompareKeys, Latest;
    var from := (p: int) => 0 <= p < |stats| && CompareKeys(cmp, descending, Latest(stats[p], descending), key[c]) >= 0;
    var end := Search(from, 0, |stats|);
    assert end > 0 && !from(end - 1);
    p := end - 1;
    assert end < |stats| ==> PageEnd(firstRows, numRows, p) == firstRows[end];
  }

  /** Every row from the cut on is strictly greater than the key, even if page bounds are not monotone. */
  lemma CutAboveIsSound<V(!new)>(
      order: RowOrder<V>, c: nat, cmp: (V, V) -> int, descending: bool,
      stats: seq<PageStats<V>>, firstRows: seq<nat>, rows: seq<Row<V>>, key: Row<V>, j: nat)
    requires TotalPreorder(cmp) && Leads(order, c, cmp, descending) && Sorted(CompareRows(order), rows)
    requires Indexes(cmp, c, stats, firstRows, rows) && c < |key| && Flat(key, |key|)
    requires CutAbove(cmp, descending, c, stats, firstRows, |rows|, key) <= j < |rows|
    ensures CompareRows(order)(rows[j], key) > 0
  {
    IndexedRow(cmp, c, stats, firstRows, rows, j);
    hide TotalPreorder, Indexes, Leads, Sorted, CompareRows, CompareKeys, ValuesOf, CutAbove, Paged;
    FlatKey(key, |key|, c);
    var p := PageAboveCut(cmp, descending, c, stats, firstRows, |rows|, key, j);
    var first := firstRows[p];
    PagesAreOrdered(firstRows, |rows|, p);
    PageOrder(cmp, descending, c, stats, firstRows, rows, p, first);
    LeadSorted(order, c, cmp, descending, rows, first, j);
    Reversed(cmp, descending, key[c], Earliest(stats[p], descending));
    DirectedChain(cmp, descending, key[c], Earliest(stats[p], descending), SortKey(rows[first], c));
    DirectedChain(cmp, descending, key[c], SortKey(rows[first], c), SortKey(rows[j], c));
    Reversed(cmp, descending, key[c], SortKey(rows[j], c));
    LeadDecides(order, c, cmp, descending, rows[j], key);
  }

  /** Every row before the cut is strictly less than the key, even if page bounds are not monotone. */
  lemma CutBelowIsSound<V(!new)>(
      order: RowOrder<V>, c: nat, cmp: (V, V) -> int, descending: bool,
      stats: seq<PageStats<V>>, firstRows: seq<nat>, rows: seq<Row<V>>, key: Row<V>, j: nat)
    requires TotalPreorder(cmp) && Leads(order, c, cmp, descending) && Sorted(CompareRows(order), rows)
    requires Indexes(cmp, c, stats, firstRows, rows) && c < |key| && Flat(key, |key|)
    requires j < |rows| && j < CutBelow(cmp, descending, c, stats, firstRows, |rows|, key)
    ensures CompareRows(order)(rows[j], key) < 0
  {
    IndexedRow(cmp, c, stats, firstRows, rows, j);
    hide TotalPreorder, Indexes, Leads, Sorted, CompareRows, CompareKeys, ValuesOf, CutBelow, Paged;
    FlatKey(key, |key|, c);
    var p := PageBelowCut(cmp, descending, c, stats, firstRows, |rows|, key, j);
    PagesAreOrdered(firstRows, |rows|, p);
    var last := PageEnd(firstRows, |rows|, p) - 1;
    PageOrder(cmp, descending, c, stats, firstRows, rows, p, last);
    LeadSorted(order, c, cmp, descending, rows, j, last);
    DirectedChain(cmp, descending, SortKey(rows[last], c), Latest(stats[p], descending), key[c]);
    DirectedChain(cmp, descending, SortKey(rows[j], c), SortKey(rows[last], c), key[c]);
    LeadDecides(order, c, cmp, descending, rows[j], key);
  }

  lemma {:induction false} FirstRowsRise(firstRows: seq<nat>, numRows: nat, p: nat, q: nat)
    requires Paged(firstRows, numRows) && p < q < |firstRows|
    ensures PageEnd(firstRows, numRows, p) <= firstRows[q]
    decreases q - p
  {
    assert firstRows[p] < PageEnd(firstRows, numRows, p);
    if p + 1 < q {
      assert firstRows[p + 1] < PageEnd(firstRows, numRows, p + 1);
      FirstRowsRise(firstRows, numRows, p + 1, q);
    }
  }

  /** The bounds do not show page `p` to lie above the key (or below it, for a cut below). */
  ghost predicate Undecided<V>(cmp: (V, V) -> int, descending: bool, page: PageStats<V>, key: Value<V>, above: bool) {
    if above then CompareKeys(cmp, descending, Earliest(page, descending), key) <= 0
    else CompareKeys(cmp, descending, Latest(page, descending), key) >= 0
  }

  /**
   * No page boundary beyond a cut could be cut at on the strength of the page bounds: between it and the cut lies a
   * page that its bound does not show to be on the far side of the key.
   */
  lemma CutsAreTight<V>(
      cmp: (V, V) -> int, descending: bool, c: nat, stats: seq<PageStats<V>>, firstRows: seq<nat>, numRows: nat,
      key: Row<V>, p: nat)
    requires |stats| == |firstRows| && Paged(firstRows, numRows) && c < |key| && !key[c].isNull && p < |stats|
    ensures
      var cut := CutAbove(cmp, descending, c, stats, firstRows, numRows, key);
      firstRows[p] < cut ==>
        exists q: nat :: p <= q < |stats| && PageEnd(firstRows, numRows, q) <= cut && Undecided(cmp, descending, stats[q], key[c], true)
    ensures
      var cut := CutBelow(cmp, descending, c, stats, firstRows, numRows, key);
      PageEnd(firstRows, numRows, p) > cut ==>
        exists q: nat :: q <= p && cut <= firstRows[q] && Undecided(cmp, descending, stats[q], key[c], false)
  {
    CutAboveIsTight(cmp, descending, c, stats, firstRows, numRows, key, p);
    CutBelowIsTight(cmp, descending, c, stats, firstRows, numRows, key, p);
  }

  lemma CutAboveIsTight<V>(
      cmp: (V, V) -> int, descending: bool, c: nat, stats: seq<PageStats<V>>, firstRows: seq<nat>, numRows: nat,
      key: Row<V>, p: nat)
    requires |stats| == |firstRows| && Paged(firstRows, numRows) && c < |key| && !key[c].isNull && p < |stats|
    ensures
      var cut := CutAbove(cmp, descending, c, stats, firstRows, numRows, key);
      firstRows[p] < cut ==>
        exists q: nat :: p <= q < |stats| && PageEnd(firstRows, numRows, q) <= cut && Undecided(cmp, descending, stats[q], key[c], true)
  {
    hide CompareKeys, Earliest, Paged;
    var after := (i: int) => 0 <= i < |stats| && CompareKeys(cmp, descending, Earliest(stats[i], descending), key[c]) > 0;
    var s := Search(after, 0, |stats|);
    if s > 0 {
      var q := s - 1;
      assert Undecided(cmp, descending, stats[q], key[c], true) by {
        assert !after(q);
      }
      hide Undecided;
      if q < p {
        FirstRowsRise(firstRows, numRows, q, p);
      }
    }
  }

  lemma CutBelowIsTight<V>(
      cmp: (V, V) -> int, descending: bool, c: nat, stats: seq<PageStats<V>>, firstRows: seq<nat>, numRows: nat,
      key: Row<V>, p: nat)
    requires |stats| == |firstRows| && Paged(firstRows, numRows) && c < |key| && !key[c].isNull && p < |stats|
    ensures
      var cut := CutBelow(cmp, descending, c, stats, firstRows, numRows, key);
      PageEnd(firstRows, numRows, p) > cut ==>
        exists q: nat :: q <= p && cut <= firstRows[q] && Undecided(cmp, descending, stats[q], key[c], false)
  {
    hide CompareKeys, Latest;
    var from := (i: int) => 0 <= i < |stats| && CompareKeys(cmp, descending, Latest(stats[i], descending), key[c]) >= 0;
    var q := Search(from, 0, |stats|);
    PagesAreOrdered(firstRows, numRows, p);
    if q < |stats| {
      assert Undecided(cmp, descending, stats[q], key[c], false);
      if p < q {
        FirstRowsRise(firstRows, numRows, p, q);
      }
    }
  }

  // ----- the bounds of a row group -----

  /** The first bound, in sort order, of the first page that has one. */
  ghost function FirstBound<V>(stats: seq<PageStats<V>>, descending: bool): Option<Value<V>> {
    if stats == [] then None
    else if !stats[0].nullPage && !Earliest(stats[0], descending).isNull then Some(Earliest(stats[0], descending))
    else FirstBound(stats[1..], descending)
  }

  /** The last bound, in sort order, of the last page that has one. */
  ghost function LastBound<V>(stats: seq<PageStats<V>>, descending: bool): Option<Value<V>> {
    if stats == [] then None
    else
      var n := |stats| - 1;
      if !stats[n].nullPage && !Latest(stats[n], descending).isNull then Some(Latest(stats[n], descending))
      else LastBound(stats[..n], descending)
  }

  method ColumnRange<V>(stats: seq<PageStats<V>>, descending: bool) returns (first: Option<Value<V>>, last: Option<Value<V>>)
    ensures first == FirstBound(stats, descending)
    ensures first.Some? ==> last == LastBound(stats, descending)
  {
    first, last := None, None;
    var p := 0;
    while p < |stats|
      invariant 0 <= p <= |stats| && FirstBound(stats, descending) == FirstBound(stats[p..], descending)
    {
      assert stats[p..][1..] == stats[p + 1..];
      if !stats[p].nullPage {
        var value := if descending then stats[p].maxValue else stats[p].minValue;
        if !value.isNull {
          first := Some(value);
          break;
        }
      }
      p := p + 1;
    }
    if first.None? {
      return;
    }
    p := |stats|;
    assert stats[..p] == stats;
    while p > 0
      invariant 0 <= p <= |stats| && LastBound(stats, descending) == LastBound(stats[..p], descending)
    {
      p := p - 1;
      assert stats[..p + 1][..p] == stats[..p];
      if !stats[p].nullPage {
        var value := if descending then stats[p].minValue else stats[p].maxValue;
        if !value.isNull {
          last := Some(value);
          break;
        }
      }
    }
  }

  ghost predicate Distinct(leaves: seq<nat>) {
    forall s, t :: 0 <= s < t < |leaves| ==> leaves[s] != leaves[t]
  }

  ghost predicate HasBounds<V>(chunk: ColumnChunk<V>, descending: bool) {
    chunk.columnIndex.Some? && FirstBound(chunk.columnIndex.value, descending).Some?
  }

  /** The value a bounds row holds for a sorting column; it is null where no page has the bound. */
  ghost predicate Holds<V>(v: Value<V>, column: nat, bound: Option<Value<V>>) {
    if bound.Some? then v == Value(column, false, bound.value.bits) else v.column == column && v.isNull
  }

  /** Rows that hold the bounds of each sorting column, and nulls elsewhere. */
  ghost predicate BoundsOf<V>(
    leaves: seq<nat>, sorting: seq<SortingColumn>, chunks: seq<ColumnChunk<V>>, done: nat, minRow: Row<V>, maxRow: Row<V>)
    requires done <= |leaves| == |sorting| && forall s :: 0 <= s < |leaves| ==> leaves[s] < |chunks|
  {
    && Flat(minRow, |chunks|) && Flat(maxRow, |chunks|)
    && (forall s :: 0 <= s < done ==>
        && HasBounds(chunks[leaves[s]], sorting[s].descending)
        && var stats := chunks[leaves[s]].columnIndex.value;
           && Holds(minRow[leaves[s]], leaves[s], FirstBound(stats, sorting[s].descending))
           && Holds(maxRow[leaves[s]], leaves[s], LastBound(stats, sorting[s].descending)))
    && forall i :: 0 <= i < |chunks| && i !in leaves[..done] ==> minRow[i].isNull && maxRow[i].isNull
  }

  /** The bounds of the sorting columns of a row group, when the column index of each has them. */
  method RowGroupRange<V>(leaves: seq<nat>, sorting: seq<SortingColumn>, chunks: seq<ColumnChunk<V>>, zero: V)
    returns (bounds: Option<Bounds<Row<V>>>)
    requires |leaves| == |sorting| && Distinct(leaves) && forall s :: 0 <= s < |leaves| ==> leaves[s] < |chunks|
    ensures bounds.Some? <==> forall s :: 0 <= s < |leaves| ==> HasBounds(chunks[leaves[s]], sorting[s].descending)
    ensures bounds.Some? ==> BoundsOf(leaves, sorting, chunks, |leaves|, bounds.value.minRow, bounds.value.maxRow)
  {
    var minValues := seq(|chunks|, i requires 0 <= i < |chunks| => Value(i, true, zero));
    var maxValues := minValues;
    for s := 0 to |leaves|
      invariant BoundsOf(leaves, sorting, chunks, s, minValues, maxValues)
    {
      var c := leaves[s];
      if chunks[c].columnIndex.None? || |chunks[c].columnIndex.value| == 0 {
        return None;
      }
      var first, last := ColumnRange(chunks[c].columnIndex.value, sorting[s].descending);
      if first.None? {
        return None;
      }
      minValues := minValues[c := Value(c, false, first.value.bits)];
      maxValues := maxValues[c := if last.Some? then Value(c, false, last.value.bits) else Value(c, true, zero)];
      assert leaves[..s + 1] == leaves[..s] + [c];
    }
    return Some(Bounds(minValues, maxValues));
  }

  // ----- the bounds enclose the rows -----

  /** The column index of each sorting column describes the rows; `pages[s]` are the first rows of its pages. */
  ghost predicate AllIndexed<V>(
    schema: seq<LeafColumn<V>>, leaves: seq<nat>, chunks: seq<ColumnChunk<V>>, pages: seq<seq<nat>>, rows: seq<Row<V>>)
  {
    && |pages| == |leaves| && |chunks| == |schema|
    && forall s :: 0 <= s < |leaves| ==>
        && leaves[s] < |schema| && chunks[leaves[s]].columnIndex.Some?
        && Indexes(schema[leaves[s]].compare, leaves[s], chunks[leaves[s]].columnIndex.value, pages[s], rows)
  }

  ghost predicate TieOrBelow<V>(order: RowOrder<V>, s: nat, a: Row<V>, b: Row<V>)
    requires order.Valid() && s < |order.columns|
  {
    var x, y := ValuesOf(a, order.columns[s]), ValuesOf(b, order.columns[s]);
    |x| == 1 && |y| == 1 && order.compares[s](x[0], y[0]) <= 0
  }

  /** A row that is at most another in every sorting column is at most that row. */
  lemma {:induction false} ColumnsDecide<V>(order: RowOrder<V>, from: nat, a: Row<V>, b: Row<V>)
    requires order.Valid() && from <= |order.columns|
    requires forall s :: from <= s < |order.columns| ==> TieOrBelow(order, s, a, b)
    ensures CompareFrom(order, from, a, b) <= 0
    decreases |order.columns| - from
  {
    if from < |order.columns| {
      ColumnsDecide(order, from + 1, a, b);
      assert TieOrBelow(order, from, a, b);
      var x, y := ValuesOf(a, order.columns[from]), ValuesOf(b, order.columns[from]);
      assert x == [x[0]] && y == [y[0]];
      SingleValues(order.compares[from], x[0], y[0]);
    }
  }

  /** The bounds the column index gives for a sorting column are those of its first and its last page. */
  lemma IndexedBounds<V>(
      cmp: (V, V) -> int, c: nat, stats: seq<PageStats<V>>, firstRows: seq<nat>, rows: seq<Row<V>>, descending: bool)
    requires Indexes(cmp, c, stats, firstRows, rows)
    ensures FirstBound(stats, descending) == Some(Earliest(stats[0], descending))
    ensures LastBound(stats, descending) == Some(Latest(stats[|stats| - 1], descending))
  {
    assert PageEncloses(cmp, c, stats[0], rows, firstRows[0], PageEnd(firstRows, |rows|, 0));
    var n := |stats| - 1;
    assert PageEncloses(cmp, c, stats[n], rows, firstRows[n], PageEnd(firstRows, |rows|, n));
  }

  lemma BoundsInColumn<V(!new)>(
      schema: seq<LeafColumn<V>>, leaves: seq<nat>, sorting: seq<SortingColumn>, chunks: seq<ColumnChunk<V>>,
      pages: seq<seq<nat>>, rows: seq<Row<V>>, minRow: Row<V>, maxRow: Row<V>, s: nat)
    requires Sortable(schema, leaves, sorting) && s < |leaves| && TotalPreorder(schema[leaves[s]].compare)
    requires AllIndexed(schema, leaves, chunks, pages, rows)
    requires BoundsOf(leaves, sorting, chunks, |leaves|, minRow, maxRow)
    ensures |rows| > 0
    ensures TieOrBelow(OrderOf(schema, leaves, sorting), s, minRow, rows[0])
    ensures TieOrBelow(OrderOf(schema, leaves, sorting), s, rows[|rows| - 1], maxRow)
  {
    hide TotalPreorder, Indexes;
    var c, descending, last := leaves[s], sorting[s].descending, |pages[s]| - 1;
    var stats, cmp := chunks[c].columnIndex.value, schema[c].compare;
    IndexedBounds(cmp, c, stats, pages[s], rows, descending);
    FirstAndLast(cmp, c, stats, pages[s], rows);
    FlatKey(minRow, |chunks|, c);
    FlatKey(maxRow, |chunks|, c);
    PageOrder(cmp, descending, c, stats, pages[s], rows, 0, 0);
    PageOrder(cmp, descending, c, stats, pages[s], rows, last, |rows| - 1);
    assert ValuesOf(rows[0], c) == [SortKey(rows[0], c)] && ValuesOf(rows[|rows| - 1], c) == [SortKey(rows[|rows| - 1], c)];
  }

  lemma FirstAndLast<V>(
      cmp: (V, V) -> int, c: nat, stats: seq<PageStats<V>>, firstRows: seq<nat>, rows: seq<Row<V>>)
    requires Indexes(cmp, c, stats, firstRows, rows)
    ensures |firstRows| == |stats| > 0 && firstRows[0] == 0 < PageEnd(firstRows, |rows|, 0)
    ensures firstRows[|firstRows| - 1] < |rows| == PageEnd(firstRows, |rows|, |firstRows| - 1)
    ensures HasKey(rows[0], c) && HasKey(rows[|rows| - 1], c)
  {
    assert firstRows[|firstRows| - 1] < PageEnd(firstRows, |rows|, |firstRows| - 1);
  }

  /** When no sorting column holds nulls or several values, the bounds enclose all rows of a sorted row group. */
  lemma BoundsEnclose<V(!new)>(
      schema: seq<LeafColumn<V>>, leaves: seq<nat>, sorting: seq<SortingColumn>, chunks: seq<ColumnChunk<V>>,
      pages: seq<seq<nat>>, rows: seq<Row<V>>, minRow: Row<V>, maxRow: Row<V>, j: nat)
    requires Sortable(schema, leaves, sorting) && |leaves| > 0
    requires forall l :: 0 <= l < |schema| ==> TotalPreorder(schema[l].compare)
    requires AllIndexed(schema, leaves, chunks, pages, rows)
    requires BoundsOf(leaves, sorting, chunks, |leaves|, minRow, maxRow)
    requires Sorted(CompareRows(OrderOf(schema, leaves, sorting)), rows) && j < |rows|
    ensures CompareRows(OrderOf(schema, leaves, sorting))(minRow, rows[j]) <= 0
    ensures CompareRows(OrderOf(schema, leaves, sorting))(rows[j], maxRow) <= 0
  {
    hide AllIndexed, BoundsOf, TieOrBelow, OrderOf;
    var order, last := OrderOf(schema, leaves, sorting), |rows| - 1;
    var cmp := CompareRows(order);
    OrderOfIsTotal(schema, leaves, sorting);
    forall s: nat | s < |leaves| ensures TieOrBelow(order, s, minRow, rows[0]) && TieOrBelow(order, s, rows[last], maxRow) {
      BoundsInColumn(schema, leaves, sorting, chunks, pages, rows, minRow, maxRow, s);
    }
    ColumnsDecide(order, 0, minRow, rows[0]);
    ColumnsDecide(order, 0, rows[last], maxRow);
    assert 0 < j ==> cmp(rows[0], rows[j]) <= 0;
    assert j < last ==> cmp(rows[j], rows[last]) <= 0;
    assert Chained(cmp, minRow, rows[0], rows[j]) && Chained(cmp, rows[j], rows[last], maxRow);
  }
}
