/** The planner's inputs for a segment of sorted row groups, built from their page indexes. */
module SegmentTargets {
  import opened Options
  import opened Orders
  import opened PageBounds
  import opened RefineSegment
  import opened RowComparators
  import opened RowGroupSegments

  /** A row group as the planner sees it: its bounds, and its column chunks. */
  datatype Source<V> = Source(group: Group<Row<V>>, chunks: seq<ColumnChunk<V>>)

  /** The targets of a segment, unless it has no sorting column or some row group has no bounds. */
  function NewRefineTargets<V>(
      schema: seq<LeafColumn<V>>, leaves: seq<nat>, sorting: seq<SortingColumn>, segment: seq<Source<V>>)
    : (targets: Option<seq<Target<Row<V>>>>)
    requires Sortable(schema, leaves, sorting)
    requires forall i :: 0 <= i < |segment| ==> |segment[i].chunks| == |schema|
    ensures targets.Some? <==> |sorting| > 0 && forall i :: 0 <= i < |segment| ==> segment[i].group.bounds.Some?
    ensures targets.Some? ==> |targets.value| == |segment|
  {
    if |sorting| == 0 || exists i :: 0 <= i < |segment| && segment[i].group.bounds.None? then None
    else Some(seq(|segment|, i requires 0 <= i < |segment| => NewTarget(schema, leaves[0], sorting[0], segment[i])))
  }

  function NewTarget<V>(schema: seq<LeafColumn<V>>, c: nat, sorting: SortingColumn, source: Source<V>): Target<Row<V>>
    requires c < |schema| == |source.chunks| && source.group.bounds.Some?
  {
    var g := source.group;
    var cuts := NewCutLookups(schema[c].compare, sorting.descending, c, source.chunks[c], g.numRows);
    Target(g.bounds.value.minRow, g.bounds.value.maxRow, g.numRows, cuts.0, cuts.1)
  }

  /** What a row group promises: its page indexes describe its rows, which are sorted, and its bounds come from them. */
  ghost predicate Honest<V(!new)>(
    schema: seq<LeafColumn<V>>, leaves: seq<nat>, sorting: seq<SortingColumn>, source: Source<V>, pages: seq<seq<nat>>,
    rows: seq<Row<V>>)
    requires Sortable(schema, leaves, sorting)
  {
    var g := source.group;
    && |leaves| > 0 && g.numRows == |rows|
    && AllIndexed(schema, leaves, source.chunks, pages, rows)
    && Sorted(CompareRows(OrderOf(schema, leaves, sorting)), rows)
    && (source.chunks[leaves[0]].offsetIndex.Some? ==> source.chunks[leaves[0]].offsetIndex.value == pages[0])
    && g.bounds.Some?
    && BoundsOf(leaves, sorting, source.chunks, |leaves|, g.bounds.value.minRow, g.bounds.value.maxRow)
  }

  lemma SortingColumnLeads<V(!new)>(schema: seq<LeafColumn<V>>, leaves: seq<nat>, sorting: seq<SortingColumn>)
    requires Sortable(schema, leaves, sorting) && |leaves| > 0
    ensures Leads(OrderOf(schema, leaves, sorting), leaves[0], schema[leaves[0]].compare, sorting[0].descending)
  {
  }

  /** The lookups of a target are sound for every key that holds one value per column. */
  lemma LookupsAreSound<V(!new)>(
      schema: seq<LeafColumn<V>>, leaves: seq<nat>, sorting: seq<SortingColumn>, source: Source<V>, pages: seq<seq<nat>>,
      rows: seq<Row<V>>, key: Row<V>)
    requires Sortable(schema, leaves, sorting) && Honest(schema, leaves, sorting, source, pages, rows)
    requires TotalPreorder(schema[leaves[0]].compare) && Flat(key, |schema|)
    ensures SoundCutsAt(CompareRows(OrderOf(schema, leaves, sorting)), NewTarget(schema, leaves[0], sorting[0], source), rows, key)
  {
    hide TotalPreorder, CompareRows, OrderOf, BoundsOf, Leads, Indexes, CutAbove, CutBelow;
    var order, c := OrderOf(schema, leaves, sorting), leaves[0];
    var cmp, descending, chunk := schema[c].compare, sorting[0].descending, source.chunks[c];
    SortingColumnLeads(schema, leaves, sorting);
    if NewCutLookups(cmp, descending, c, chunk, |rows|).0.Some? {
      var stats := chunk.columnIndex.value;
      forall j: nat | j < |rows| && j >= CutAbove(cmp, descending, c, stats, pages[0], |rows|, key)
        ensures CompareRows(order)(rows[j], key) > 0
      {
        CutAboveIsSound(order, c, cmp, descending, stats, pages[0], rows, key, j);
      }
      forall j: nat | j < |rows| && j < CutBelow(cmp, descending, c, stats, pages[0], |rows|, key)
        ensures CompareRows(order)(rows[j], key) < 0
      {
        CutBelowIsSound(order, c, cmp, descending, stats, pages[0], rows, key, j);
      }
    }
  }

  /** Targets built from honest row groups describe their rows, which is all the planner relies on. */
  lemma TargetsAreDescribed<V(!new)>(
      schema: seq<LeafColumn<V>>, leaves: seq<nat>, sorting: seq<SortingColumn>, segment: seq<Source<V>>,
      pages: seq<seq<seq<nat>>>, rows: seq<seq<Row<V>>>)
    requires Sortable(schema, leaves, sorting) && |leaves| > 0
    requires forall l :: 0 <= l < |schema| ==> TotalPreorder(schema[l].compare)
    requires |segment| == |pages| == |rows|
    requires forall i :: 0 <= i < |segment| ==> |segment[i].chunks| == |schema|
    requires forall i :: 0 <= i < |segment| ==> Honest(schema, leaves, sorting, segment[i], pages[i], rows[i])
    ensures
      var targets := NewRefineTargets(schema, leaves, sorting, segment);
      targets.Some? && Described(CompareRows(OrderOf(schema, leaves, sorting)), targets.value, rows)
  {
    hide TotalPreorder, CompareRows, OrderOf, AllIndexed, NewCutLookups, SoundCutsAt;
    var targets := NewRefineTargets(schema, leaves, sorting, segment).value;
    var cmp := CompareRows(OrderOf(schema, leaves, sorting));
    forall i | 0 <= i < |rows| ensures Enclosed(cmp, targets[i], rows[i]) && SoundCuts(cmp, targets, targets[i], rows[i]) {
      assert Honest(schema, leaves, sorting, segment[i], pages[i], rows[i]);
      TargetIsEnclosed(schema, leaves, sorting, segment[i], pages[i], rows[i]);
      forall k: nat, start: bool | k < |targets| ensures SoundCutsAt(cmp, targets[i], rows[i], KeyOf(targets, start, k)) {
        assert Honest(schema, leaves, sorting, segment[k], pages[k], rows[k]);
        LookupsAreSound(schema, leaves, sorting, segment[i], pages[i], rows[i], KeyOf(targets, start, k));
      }
    }
  }

  lemma TargetIsEnclosed<V(!new)>(
      schema: seq<LeafColumn<V>>, leaves: seq<nat>, sorting: seq<SortingColumn>, source: Source<V>, pages: seq<seq<nat>>,
      rows: seq<Row<V>>)
    requires Sortable(schema, leaves, sorting) && Honest(schema, leaves, sorting, source, pages, rows)
    requires forall l :: 0 <= l < |schema| ==> TotalPreorder(schema[l].compare)
    ensures Enclosed(CompareRows(OrderOf(schema, leaves, sorting)), NewTarget(schema, leaves[0], sorting[0], source), rows)
  {
    hide TotalPreorder, CompareRows, OrderOf, AllIndexed, BoundsOf, NewCutLookups;
    var cmp, bounds := CompareRows(OrderOf(schema, leaves, sorting)), source.group.bounds.value;
    OrderOfIsTotal(schema, leaves, sorting);
    forall j | 0 <= j < |rows| ensures cmp(bounds.minRow, rows[j]) <= 0 && cmp(rows[j], bounds.maxRow) <= 0 {
      BoundsEnclose(schema, leaves, sorting, source.chunks, pages, rows, bounds.minRow, bounds.maxRow, j);
    }
    NotEmptyRows(schema, leaves, source.chunks, pages, rows);
    Between(cmp, bounds.minRow, rows[0], bounds.maxRow);
  }

  lemma NotEmptyRows<V>(
      schema: seq<LeafColumn<V>>, leaves: seq<nat>, chunks: seq<ColumnChunk<V>>, pages: seq<seq<nat>>, rows: seq<Row<V>>)
    requires AllIndexed(schema, leaves, chunks, pages, rows) && |leaves| > 0
    ensures |rows| > 0
  {
    FirstAndLast(schema[leaves[0]].compare, leaves[0], chunks[leaves[0]].columnIndex.value, pages[0], rows);
  }

  lemma Between<T(!new)>(cmp: (T, T) -> int, a: T, b: T, c: T)
    requires TotalPreorder(cmp) && cmp(a, b) <= 0 && cmp(b, c) <= 0
    ensures cmp(a, c) <= 0
  {
    assert Chained(cmp, a, b, c);
  }
}
