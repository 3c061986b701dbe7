/** Which rows lie within the bounds of their row group: what nulls and repeated values in a sorting column do to them. */
module ExactBounds {
  import opened Options
  import opened Orders
  import opened PageBounds
  import opened RowComparators

  /** The page index of column `c` describes rows that hold any values there, nulls among them. */
  ghost predicate Describes<V>(
    cmp: (V, V) -> int, c: nat, stats: seq<PageStats<V>>, firstRows: seq<nat>, rows: seq<Row<V>>)
  {
    && |stats| == |firstRows| && Paged(firstRows, |rows|)
    && (forall j :: 0 <= j < |rows| ==> ValuesOf(rows[j], c) != [])
    && forall p: nat :: p < |stats| ==> DescribesPage(cmp, c, stats[p], rows, firstRows[p], PageEnd(firstRows, |rows|, p))
  }

  /** A page has bounds exactly when some value in it is not null, and they enclose all its values that are not. */
  ghost predicate DescribesPage<V>(
    cmp: (V, V) -> int, c: nat, page: PageStats<V>, rows: seq<Row<V>>, from: nat, to: nat)
  {
    && (!page.nullPage ==> !page.minValue.isNull && !page.maxValue.isNull)
    && forall j: nat, v | from <= j < to && j < |rows| && v in ValuesOf(rows[j], c) && !v.isNull ::
        !page.nullPage && cmp(page.minValue.bits, v.bits) <= 0 && cmp(v.bits, page.maxValue.bits) <= 0
  }

  /** Only columns that may hold nulls do. */
  ghost predicate NullsAreDefined<V>(leaf: LeafColumn<V>, c: nat, row: Row<V>) {
    leaf.maxDefinitionLevel == 0 ==> forall v :: v in ValuesOf(row, c) ==> !v.isNull
  }

  ghost predicate Within<T>(cmp: (T, T) -> int, minRow: T, maxRow: T, row: T) {
    cmp(minRow, row) <= 0 && cmp(row, maxRow) <= 0
  }

  /** The first value of the row is not null, and if others follow, it does not tie with the last bound. */
  ghost predicate Bounded<V>(cmp: (V, V) -> int, descending: bool, values: seq<Value<V>>, last: Value<V>) {
    && values != [] && !values[0].isNull
    && (|values| > 1 ==> CompareKeys(cmp, descending, values[0], last) != 0)
  }

  /** The sorting columns of the schema and the bounds of a row group. */
  ghost predicate HasBoundRows<V>(
    schema: seq<LeafColumn<V>>, leaves: seq<nat>, sorting: seq<SortingColumn>, chunks: seq<ColumnChunk<V>>,
    minRow: Row<V>, maxRow: Row<V>)
  {
    && Sortable(schema, leaves, sorting) && |leaves| > 0 && |chunks| == |schema|
    && BoundsOf(leaves, sorting, chunks, |leaves|, minRow, maxRow)
    && LastBound(chunks[leaves[0]].columnIndex.value, sorting[0].descending).Some?
  }

  // ----- the leading sorting column -----

  /** The bounds rows hold one value in the leading column, which is not null. */
  lemma LeadingBounds<V>(
      schema: seq<LeafColumn<V>>, leaves: seq<nat>, sorting: seq<SortingColumn>, chunks: seq<ColumnChunk<V>>,
      minRow: Row<V>, maxRow: Row<V>)
    requires HasBoundRows(schema, leaves, sorting, chunks, minRow, maxRow)
    ensures leaves[0] < |minRow| == |maxRow|
    ensures ValuesOf(minRow, leaves[0]) == [minRow[leaves[0]]] && !minRow[leaves[0]].isNull
    ensures ValuesOf(maxRow, leaves[0]) == [maxRow[leaves[0]]] && !maxRow[leaves[0]].isNull
  {
    FlatKey(minRow, |chunks|, leaves[0]);
    FlatKey(maxRow, |chunks|, leaves[0]);
  }

  /** Where the leading column tells two rows apart, it decides. */
  lemma LeadingDecides<V>(order: RowOrder<V>, a: Row<V>, b: Row<V>)
    requires order.Valid() && |order.columns| > 0
    ensures
      var lead := CompareLists(order.compares[0], ValuesOf(a, order.columns[0]), ValuesOf(b, order.columns[0]));
      && (lead != 0 ==> CompareRows(order)(a, b) == lead)
      && (|order.columns| == 1 ==> CompareRows(order)(a, b) == lead)
  {
    assert |order.columns| == 1 ==> CompareFrom(order, 1, a, b) == 0;
  }

  /** A list against a single value: the first value decides, and of two that tie the longer list is greater. */
  lemma ListAgainstOne<T>(cmp: (T, T) -> int, s: seq<T>, x: T)
    requires s != []
    ensures CompareLists(cmp, s, [x]) == if cmp(s[0], x) != 0 then cmp(s[0], x) else if |s| > 1 then 1 else 0
    ensures CompareLists(cmp, [x], s) == if cmp(x, s[0]) != 0 then cmp(x, s[0]) else if |s| > 1 then -1 else 0
  {
    assert [x][1..] == [];
  }

  /** How two values that are not null compare in a sorting column. */
  lemma ComparesKeys<V>(leaf: LeafColumn<V>, sorting: SortingColumn, a: Value<V>, b: Value<V>)
    requires !a.isNull && !b.isNull
    ensures CompareColumn(leaf, sorting)(a, b) == CompareKeys(leaf.compare, sorting.descending, a, b)
  {
  }

  /** A row that begins with a null lies outside the bounds, on the side where nulls are sorted. */
  lemma NullsEscapeBounds<V>(
      schema: seq<LeafColumn<V>>, leaves: seq<nat>, sorting: seq<SortingColumn>, chunks: seq<ColumnChunk<V>>,
      minRow: Row<V>, maxRow: Row<V>, row: Row<V>)
    requires HasBoundRows(schema, leaves, sorting, chunks, minRow, maxRow)
    requires schema[leaves[0]].maxDefinitionLevel > 0
    requires ValuesOf(row, leaves[0]) != [] && ValuesOf(row, leaves[0])[0].isNull
    ensures var cmp := CompareRows(OrderOf(schema, leaves, sorting));
      if sorting[0].nullsFirst then cmp(row, minRow) < 0 && cmp(minRow, row) > 0
      else cmp(row, maxRow) > 0 && cmp(maxRow, row) < 0
  {
    hide BoundsOf, ValuesOf, CompareLists;
    LeadingBounds(schema, leaves, sorting, chunks, minRow, maxRow);
    var order, c := OrderOf(schema, leaves, sorting), leaves[0];
    var bound := if sorting[0].nullsFirst then minRow else maxRow;
    LeadingDecides(order, row, bound);
    LeadingDecides(order, bound, row);
    ListAgainstOne(order.compares[0], ValuesOf(row, c), bound[c]);
  }

  /**
   * A row that begins with a value up to the last bound exceeds the bounds if that value ties with the bound and more
   * follow; where it is the only sorting column, not otherwise.
   */
  lemma RepeatedValuesEscapeBounds<V>(
      schema: seq<LeafColumn<V>>, leaves: seq<nat>, sorting: seq<SortingColumn>, chunks: seq<ColumnChunk<V>>,
      minRow: Row<V>, maxRow: Row<V>, row: Row<V>)
    requires HasBoundRows(schema, leaves, sorting, chunks, minRow, maxRow)
    requires ValuesOf(row, leaves[0]) != [] && !ValuesOf(row, leaves[0])[0].isNull
    requires CompareKeys(schema[leaves[0]].compare, sorting[0].descending, ValuesOf(row, leaves[0])[0], maxRow[leaves[0]]) <= 0
    ensures
      var cmp, values := CompareRows(OrderOf(schema, leaves, sorting)), ValuesOf(row, leaves[0]);
      var escapes := |values| > 1
        && CompareKeys(schema[leaves[0]].compare, sorting[0].descending, values[0], maxRow[leaves[0]]) == 0;
      && (escapes ==> cmp(row, maxRow) > 0)
      && (|leaves| == 1 ==> (cmp(row, maxRow) > 0 <==> escapes))
  {
    hide BoundsOf, ValuesOf, CompareLists;
    LeadingBounds(schema, leaves, sorting, chunks, minRow, maxRow);
    var order, c := OrderOf(schema, leaves, sorting), leaves[0];
    var values := ValuesOf(row, c);
    LeadingDecides(order, row, maxRow);
    ListAgainstOne(order.compares[0], values, maxRow[c]);
    ComparesKeys(schema[c], sorting[0], values[0], maxRow[c]);
  }

  // ----- one sorting column -----

  /** A row that begins with a value between the bounds lies within them exactly when it is bounded. */
  lemma RowWithin<V(!new)>(
      schema: seq<LeafColumn<V>>, c: nat, sorting: SortingColumn, chunks: seq<ColumnChunk<V>>,
      minRow: Row<V>, maxRow: Row<V>, row: Row<V>)
    requires HasBoundRows(schema, [c], [sorting], chunks, minRow, maxRow)
    requires ValuesOf(row, c) != [] && !ValuesOf(row, c)[0].isNull
    requires CompareKeys(schema[c].compare, sorting.descending, minRow[c], ValuesOf(row, c)[0]) <= 0
    requires CompareKeys(schema[c].compare, sorting.descending, ValuesOf(row, c)[0], maxRow[c]) <= 0
    ensures Within(CompareRows(OrderOf(schema, [c], [sorting])), minRow, maxRow, row)
      <==> Bounded(schema[c].compare, sorting.descending, ValuesOf(row, c), maxRow[c])
  {
    hide BoundsOf, ValuesOf, CompareLists;
    var order, values := OrderOf(schema, [c], [sorting]), ValuesOf(row, c);
    LeadingBounds(schema, [c], [sorting], chunks, minRow, maxRow);
    RepeatedValuesEscapeBounds(schema, [c], [sorting], chunks, minRow, maxRow, row);
    LeadingDecides(order, minRow, row);
    ListAgainstOne(order.compares[0], values, minRow[c]);
    ComparesKeys(schema[c], sorting, minRow[c], values[0]);
  }

  /** Sorted rows that do not begin with nulls are sorted by their first values. */
  lemma FirstValuesSorted<V(!new)>(
      schema: seq<LeafColumn<V>>, c: nat, sorting: SortingColumn, rows: seq<Row<V>>, i: nat, j: nat)
    requires c < |schema| && Sortable(schema, [c], [sorting]) && TotalPreorder(schema[c].compare)
    requires Sorted(CompareRows(OrderOf(schema, [c], [sorting])), rows) && i <= j < |rows|
    requires forall k :: 0 <= k < |rows| ==> ValuesOf(rows[k], c) != [] && !ValuesOf(rows[k], c)[0].isNull
    ensures CompareKeys(schema[c].compare, sorting.descending, ValuesOf(rows[i], c)[0], ValuesOf(rows[j], c)[0]) <= 0
  {
    var order, a, b := OrderOf(schema, [c], [sorting]), ValuesOf(rows[i], c), ValuesOf(rows[j], c);
    Reversed(schema[c].compare, sorting.descending, a[0], a[0]);
    if i < j {
      assert CompareRows(order)(rows[i], rows[j]) <= 0;
      LeadingDecides(order, rows[i], rows[j]);
      ComparesKeys(schema[c], sorting, a[0], b[0]);
    }
  }

  /** The bounds of a described column are those of its first and last page, if neither is a page of nulls. */
  lemma DescribedBounds<V>(
      cmp: (V, V) -> int, c: nat, stats: seq<PageStats<V>>, firstRows: seq<nat>, rows: seq<Row<V>>, descending: bool)
    requires Describes(cmp, c, stats, firstRows, rows)
    requires |rows| > 0 && !ValuesOf(rows[0], c)[0].isNull && !ValuesOf(rows[|rows| - 1], c)[0].isNull
    ensures FirstBound(stats, descending) == Some(Earliest(stats[0], descending))
    ensures LastBound(stats, descending) == Some(Latest(stats[|stats| - 1], descending))
  {
    hide ValuesOf;
    var n := |stats| - 1;
    PagesAreOrdered(firstRows, |rows|, 0);
    PagesAreOrdered(firstRows, |rows|, n);
    assert DescribesPage(cmp, c, stats[0], rows, firstRows[0], PageEnd(firstRows, |rows|, 0));
    assert DescribesPage(cmp, c, stats[n], rows, firstRows[n], PageEnd(firstRows, |rows|, n));
    assert ValuesOf(rows[0], c)[0] in ValuesOf(rows[0], c);
    assert ValuesOf(rows[|rows| - 1], c)[0] in ValuesOf(rows[|rows| - 1], c);
  }

  /** A column that has a first bound has a last one. */
  lemma {:induction false} BothBounds<V>(stats: seq<PageStats<V>>, descending: bool)
    requires forall p :: 0 <= p < |stats| && !stats[p].nullPage ==> !stats[p].minValue.isNull && !stats[p].maxValue.isNull
    requires LastBound(stats, descending).None?
    ensures forall p :: 0 <= p < |stats| ==> stats[p].nullPage
    ensures FirstBound(stats, descending).None?
  {
    if stats != [] {
      BothBounds(stats[..|stats| - 1], descending);
      NoFirstBound(stats, descending);
    }
  }

  lemma {:induction false} NoFirstBound<V>(stats: seq<PageStats<V>>, descending: bool)
    requires forall p :: 0 <= p < |stats| ==> stats[p].nullPage
    ensures FirstBound(stats, descending).None?
  {
    if stats != [] {
      NoFirstBound(stats[1..], descending);
    }
  }

  /** The first values of sorted rows that do not begin with nulls lie between the bounds. */
  lemma FirstValuesEnclosed<V(!new)>(
      schema: seq<LeafColumn<V>>, c: nat, sorting: SortingColumn, chunks: seq<ColumnChunk<V>>, firstRows: seq<nat>,
      rows: seq<Row<V>>, minRow: Row<V>, maxRow: Row<V>, j: nat)
    requires HasBoundRows(schema, [c], [sorting], chunks, minRow, maxRow) && TotalPreorder(schema[c].compare)
    requires Describes(schema[c].compare, c, chunks[c].columnIndex.value, firstRows, rows)
    requires Sorted(CompareRows(OrderOf(schema, [c], [sorting])), rows) && j < |rows|
    requires forall k :: 0 <= k < |rows| ==> ValuesOf(rows[k], c) != [] && !ValuesOf(rows[k], c)[0].isNull
    ensures CompareKeys(schema[c].compare, sorting.descending, minRow[c], ValuesOf(rows[j], c)[0]) <= 0
    ensures CompareKeys(schema[c].compare, sorting.descending, ValuesOf(rows[j], c)[0], maxRow[c]) <= 0
  {
    hide ValuesOf, CompareRows, Sorted, TotalPreorder, Describes;
    var stats, cmp, descending := chunks[c].columnIndex.value, schema[c].compare, sorting.descending;
    var n, last := |stats| - 1, |rows| - 1;
    DescribedBounds(cmp, c, stats, firstRows, rows, descending);
    assert [c][0] == c && [sorting][0] == sorting;
    FirstValuesSorted(schema, c, sorting, rows, 0, j);
    FirstValuesSorted(schema, c, sorting, rows, j, last);
    EndsEnclosed(cmp, c, stats, firstRows, rows, descending);
    DirectedChain(cmp, descending, minRow[c], ValuesOf(rows[0], c)[0], ValuesOf(rows[j], c)[0]);
    DirectedChain(cmp, descending, ValuesOf(rows[j], c)[0], ValuesOf(rows[last], c)[0], maxRow[c]);
  }

  /** The bounds of the first and last page enclose the first values of the first and last row. */
  lemma EndsEnclosed<V(!new)>(
      cmp: (V, V) -> int, c: nat, stats: seq<PageStats<V>>, firstRows: seq<nat>, rows: seq<Row<V>>, descending: bool)
    requires TotalPreorder(cmp) && Describes(cmp, c, stats, firstRows, rows)
    requires forall k :: 0 <= k < |rows| ==> ValuesOf(rows[k], c) != [] && !ValuesOf(rows[k], c)[0].isNull
    ensures |rows| > 0 && |stats| > 0
    ensures CompareKeys(cmp, descending, Earliest(stats[0], descending), ValuesOf(rows[0], c)[0]) <= 0
    ensures CompareKeys(cmp, descending, ValuesOf(rows[|rows| - 1], c)[0], Latest(stats[|stats| - 1], descending)) <= 0
  {
    hide ValuesOf;
    var n, last := |stats| - 1, |rows| - 1;
    PagesAreOrdered(firstRows, |rows|, 0);
    PagesAreOrdered(firstRows, |rows|, n);
    assert DescribesPage(cmp, c, stats[0], rows, firstRows[0], PageEnd(firstRows, |rows|, 0));
    assert DescribesPage(cmp, c, stats[n], rows, firstRows[n], PageEnd(firstRows, |rows|, n));
    var x, y := ValuesOf(rows[0], c)[0], ValuesOf(rows[last], c)[0];
    assert x in ValuesOf(rows[0], c) && y in ValuesOf(rows[last], c);
    Reversed(cmp, false, x, stats[0].maxValue);
    Reversed(cmp, false, stats[0].maxValue, x);
    Reversed(cmp, false, stats[n].minValue, y);
    Reversed(cmp, false, y, stats[n].minValue);
  }

  /**
   * With one sorting column, the bounds enclose all rows of a sorted row group exactly when no row begins with a null,
   * and none that holds several values begins with one that ties with the last bound.
   */
  lemma BoundsEncloseExactly<V(!new)>(
      schema: seq<LeafColumn<V>>, c: nat, sorting: SortingColumn, chunks: seq<ColumnChunk<V>>, firstRows: seq<nat>,
      rows: seq<Row<V>>, minRow: Row<V>, maxRow: Row<V>)
    requires c < |schema| && Sortable(schema, [c], [sorting]) && TotalPreorder(schema[c].compare) && |chunks| == |schema|
    requires chunks[c].columnIndex.Some? && BoundsOf([c], [sorting], chunks, 1, minRow, maxRow)
    requires Describes(schema[c].compare, c, chunks[c].columnIndex.value, firstRows, rows)
    requires Sorted(CompareRows(OrderOf(schema, [c], [sorting])), rows)
    requires forall j :: 0 <= j < |rows| ==> NullsAreDefined(schema[c], c, rows[j])
    ensures c < |maxRow|
    ensures
      (forall j :: 0 <= j < |rows| ==> Within(CompareRows(OrderOf(schema, [c], [sorting])), minRow, maxRow, rows[j]))
      <==>
      (forall j :: 0 <= j < |rows| ==> Bounded(schema[c].compare, sorting.descending, ValuesOf(rows[j], c), maxRow[c]))
  {
    hide ValuesOf, CompareRows, Sorted, TotalPreorder, CompareKeys, Describes, NullsAreDefined, Within, Bounded;
    assert [c][0] == c && [sorting][0] == sorting;
    HasLastBound(schema, c, sorting, chunks, firstRows, rows, minRow, maxRow);
    LeadingBounds(schema, [c], [sorting], chunks, minRow, maxRow);
    forall j: nat | j < |rows| ensures ValuesOf(rows[j], c) != [] {
      HasValue(schema[c].compare, c, chunks[c].columnIndex.value, firstRows, rows, j);
    }
    if j: nat :| j < |rows| && ValuesOf(rows[j], c)[0].isNull {
      NullIsOutside(schema, c, sorting, chunks, minRow, maxRow, rows[j]);
    } else {
      forall j: nat | j < |rows|
        ensures Within(CompareRows(OrderOf(schema, [c], [sorting])), minRow, maxRow, rows[j])
          <==> Bounded(schema[c].compare, sorting.descending, ValuesOf(rows[j], c), maxRow[c])
      {
        FirstValuesEnclosed(schema, c, sorting, chunks, firstRows, rows, minRow, maxRow, j);
        RowWithin(schema, c, sorting, chunks, minRow, maxRow, rows[j]);
      }
    }
  }

  lemma HasValue<V>(
      cmp: (V, V) -> int, c: nat, stats: seq<PageStats<V>>, firstRows: seq<nat>, rows: seq<Row<V>>, j: nat)
    requires Describes(cmp, c, stats, firstRows, rows) && j < |rows|
    ensures ValuesOf(rows[j], c) != []
  {
  }

  lemma NullIsOutside<V(!new)>(
      schema: seq<LeafColumn<V>>, c: nat, sorting: SortingColumn, chunks: seq<ColumnChunk<V>>,
      minRow: Row<V>, maxRow: Row<V>, row: Row<V>)
    requires HasBoundRows(schema, [c], [sorting], chunks, minRow, maxRow) && c < |maxRow|
    requires ValuesOf(row, c) != [] && ValuesOf(row, c)[0].isNull && NullsAreDefined(schema[c], c, row)
    ensures !Within(CompareRows(OrderOf(schema, [c], [sorting])), minRow, maxRow, row)
    ensures !Bounded(schema[c].compare, sorting.descending, ValuesOf(row, c), maxRow[c])
  {
    hide ValuesOf, CompareRows, BoundsOf;
    assert ValuesOf(row, c)[0] in ValuesOf(row, c);
    NullsEscapeBounds(schema, [c], [sorting], chunks, minRow, maxRow, row);
  }

  lemma HasLastBound<V(!new)>(
      schema: seq<LeafColumn<V>>, c: nat, sorting: SortingColumn, chunks: seq<ColumnChunk<V>>, firstRows: seq<nat>,
      rows: seq<Row<V>>, minRow: Row<V>, maxRow: Row<V>)
    requires c < |schema| && Sortable(schema, [c], [sorting]) && |chunks| == |schema|
    requires chunks[c].columnIndex.Some? && BoundsOf([c], [sorting], chunks, 1, minRow, maxRow)
    requires Describes(schema[c].compare, c, chunks[c].columnIndex.value, firstRows, rows)
    ensures HasBoundRows(schema, [c], [sorting], chunks, minRow, maxRow)
  {
    var stats := chunks[c].columnIndex.value;
    assert HasBounds(chunks[[c][0]], [sorting][0].descending);
    if LastBound(stats, sorting.descending).None? {
      AllPagesDescribed(schema[c].compare, c, stats, firstRows, rows);
      BothBounds(stats, sorting.descending);
      assert false;
    }
  }

  lemma AllPagesDescribed<V>(
      cmp: (V, V) -> int, c: nat, stats: seq<PageStats<V>>, firstRows: seq<nat>, rows: seq<Row<V>>)
    requires Describes(cmp, c, stats, firstRows, rows)
    ensures forall p :: 0 <= p < |stats| && !stats[p].nullPage ==> !stats[p].minValue.isNull && !stats[p].maxValue.isNull
  {
    forall p: nat | p < |stats| && !stats[p].nullPage ensures !stats[p].minValue.isNull && !stats[p].maxValue.isNull {
      assert DescribesPage(cmp, c, stats[p], rows, firstRows[p], PageEnd(firstRows, |rows|, p));
    }
  }
}
