/** Comparison functions of values and rows, built from the comparison function of each column's type. */
module RowComparators {
  import opened Orders
  import opened Sorting

  /** A leaf value of a row. A null carries whatever bits a zero value has. */
  datatype Value<V> = Value(column: nat, isNull: bool, bits: V)

  type Row<V> = seq<Value<V>>

  datatype LeafColumn<!V> = LeafColumn(column: nat, maxRepetitionLevel: nat, maxDefinitionLevel: nat, compare: (V, V) -> int)

  datatype SortingColumn = SortingColumn(descending: bool, nullsFirst: bool)

  // ----- comparison of single values -----

  function CompareDescending<T>(cmp: (T, T) -> int): (T, T) -> int {
    (a, b) => -cmp(a, b)
  }

  function CompareNullsFirst<V>(cmp: (Value<V>, Value<V>) -> int): (Value<V>, Value<V>) -> int {
    (a: Value<V>, b: Value<V>) => if a.isNull then (if b.isNull then 0 else -1) else if b.isNull then 1 else cmp(a, b)
  }

  function CompareNullsLast<V>(cmp: (Value<V>, Value<V>) -> int): (Value<V>, Value<V>) -> int {
    (a: Value<V>, b: Value<V>) => if a.isNull then (if b.isNull then 0 else 1) else if b.isNull then -1 else cmp(a, b)
  }

  function CompareBits<V>(cmp: (V, V) -> int): (Value<V>, Value<V>) -> int {
    (a: Value<V>, b: Value<V>) => cmp(a.bits, b.bits)
  }

  /** The order of one sorting column in its direction, whether or not values are null. */
  function CompareDirected<V>(leaf: LeafColumn<V>, sorting: SortingColumn): (Value<V>, Value<V>) -> int {
    if sorting.descending then CompareDescending(CompareBits(leaf.compare)) else CompareBits(leaf.compare)
  }

  /** The order of one sorting column; only columns that may hold nulls look at them. */
  function CompareColumn<V>(leaf: LeafColumn<V>, sorting: SortingColumn): (Value<V>, Value<V>) -> int {
    var directed := CompareDirected(leaf, sorting);
    if leaf.maxDefinitionLevel == 0 then directed
    else if sorting.nullsFirst then CompareNullsFirst(directed)
    else CompareNullsLast(directed)
  }

  lemma DescendingIsTotal<T(!new)>(cmp: (T, T) -> int)
    requires TotalPreorder(cmp)
    ensures TotalPreorder(CompareDescending(cmp))
  {
    forall a, b, c ensures Chained(CompareDescending(cmp), a, b, c) {
      assert cmp(a, b) < 0 <==> cmp(b, a) > 0;
      assert cmp(b, c) < 0 <==> cmp(c, b) > 0;
      assert cmp(a, c) < 0 <==> cmp(c, a) > 0;
      assert Chained(cmp, c, b, a);
    }
  }

  /** Nulls may sort before or after all other values. */
  lemma NullsAreTotal<V(!new)>(cmp: (Value<V>, Value<V>) -> int)
    requires TotalPreorder(cmp)
    ensures TotalPreorder(CompareNullsFirst(cmp)) && TotalPreorder(CompareNullsLast(cmp))
  {
    forall a: Value<V>, b: Value<V>, c: Value<V>
      ensures Chained(CompareNullsFirst(cmp), a, b, c) && Chained(CompareNullsLast(cmp), a, b, c)
    {
      assert Chained(cmp, a, b, c);
    }
  }

  lemma ColumnIsTotal<V(!new)>(leaf: LeafColumn<V>, sorting: SortingColumn)
    requires TotalPreorder(leaf.compare)
    ensures TotalPreorder(CompareColumn(leaf, sorting))
  {
    var bits := CompareBits(leaf.compare);
    forall a, b ensures bits(a, b) < 0 <==> bits(b, a) > 0 {
      assert leaf.compare(a.bits, b.bits) < 0 <==> leaf.compare(b.bits, a.bits) > 0;
    }
    forall a, b, c ensures Chained(bits, a, b, c) {
      assert Chained(leaf.compare, a.bits, b.bits, c.bits);
    }
    DescendingIsTotal(bits);
    NullsAreTotal(bits);
    NullsAreTotal(CompareDescending(bits));
  }

  // ----- comparison of the values that rows hold in one column -----

  /** Values are compared pairwise; when all pairs tie, the row with fewer values comes first. */
  function CompareLists<T>(cmp: (T, T) -> int, s: seq<T>, t: seq<T>): int {
    if s == [] && t == [] then 0
    else if t == [] then 1
    else if s == [] then -1
    else if cmp(s[0], t[0]) != 0 then cmp(s[0], t[0])
    else CompareLists(cmp, s[1..], t[1..])
  }

  lemma {:induction false} ListsAreAntisymmetric<T(!new)>(cmp: (T, T) -> int, s: seq<T>, t: seq<T>)
    requires TotalPreorder(cmp)
    ensures CompareLists(cmp, s, t) < 0 <==> CompareLists(cmp, t, s) > 0
  {
    if s != [] && t != [] {
      assert cmp(s[0], t[0]) < 0 <==> cmp(t[0], s[0]) > 0;
      assert cmp(t[0], s[0]) < 0 <==> cmp(s[0], t[0]) > 0;
      ListsAreAntisymmetric(cmp, s[1..], t[1..]);
    }
  }

  lemma {:induction false} ListsAreTransitive<T(!new)>(cmp: (T, T) -> int, s: seq<T>, t: seq<T>, u: seq<T>)
    requires TotalPreorder(cmp) && CompareLists(cmp, s, t) <= 0 && CompareLists(cmp, t, u) <= 0
    ensures CompareLists(cmp, s, u) <= 0
  {
    if s != [] && t != [] && u != [] {
      assert Chained(cmp, s[0], t[0], u[0]);
      assert Chained(cmp, u[0], s[0], t[0]);
      assert Chained(cmp, t[0], u[0], s[0]);
      if cmp(s[0], u[0]) == 0 {
        ListsAreTransitive(cmp, s[1..], t[1..], u[1..]);
      }
    }
  }

  // ----- comparison of rows -----

  ghost function InColumn<V>(c: nat): Value<V> -> bool {
    (v: Value<V>) => v.column == c
  }

  /** The values a row holds in column `c`, in order. */
  ghost function ValuesOf<V>(row: Row<V>, c: nat): seq<Value<V>> {
    Filter(InColumn(c), row)
  }

  /** What a row comparison is given: the sorting columns and how each is ordered. */
  datatype RowOrder<!V> = RowOrder(columns: seq<nat>, compares: seq<(Value<V>, Value<V>) -> int>) {
    ghost predicate Valid() {
      |columns| == |compares|
    }
  }

  /** The order of rows: the first sorting column, from `from` on, whose values do not tie decides. */
  ghost function CompareFrom<V>(order: RowOrder<V>, from: nat, a: Row<V>, b: Row<V>): int
    requires order.Valid() && from <= |order.columns|
    decreases |order.columns| - from
  {
    if from == |order.columns| then 0
    else
      var c := CompareLists(order.compares[from], ValuesOf(a, order.columns[from]), ValuesOf(b, order.columns[from]));
      if c != 0 then c else CompareFrom(order, from + 1, a, b)
  }

  ghost function CompareRows<V>(order: RowOrder<V>): (Row<V>, Row<V>) -> int
    requires order.Valid()
  {
    (a, b) => CompareFrom(order, 0, a, b)
  }

  ghost predicate TotalColumns<V(!new)>(order: RowOrder<V>) {
    order.Valid() && forall s :: 0 <= s < |order.compares| ==> TotalPreorder(order.compares[s])
  }

  lemma {:induction false} RowsAreAntisymmetric<V(!new)>(order: RowOrder<V>, from: nat, a: Row<V>, b: Row<V>)
    requires TotalColumns(order) && from <= |order.columns|
    ensures CompareFrom(order, from, a, b) < 0 <==> CompareFrom(order, from, b, a) > 0
    decreases |order.columns| - from
  {
    if from < |order.columns| {
      var s, t := ValuesOf(a, order.columns[from]), ValuesOf(b, order.columns[from]);
      ListsAreAntisymmetric(order.compares[from], s, t);
      ListsAreAntisymmetric(order.compares[from], t, s);
      RowsAreAntisymmetric(order, from + 1, a, b);
    }
  }

  lemma {:induction false} RowsAreTransitive<V(!new)>(order: RowOrder<V>, from: nat, a: Row<V>, b: Row<V>, c: Row<V>)
    requires TotalColumns(order) && from <= |order.columns|
    requires CompareFrom(order, from, a, b) <= 0 && CompareFrom(order, from, b, c) <= 0
    ensures CompareFrom(order, from, a, c) <= 0
    decreases |order.columns| - from
  {
    if from < |order.columns| {
      var cmp := order.compares[from];
      var s, t, u := ValuesOf(a, order.columns[from]), ValuesOf(b, order.columns[from]), ValuesOf(c, order.columns[from]);
      ListsAreTransitive(cmp, s, t, u);
      if CompareLists(cmp, s, u) == 0 {
        ListsAreAntisymmetric(cmp, s, u);
        ListsAreAntisymmetric(cmp, u, s);
        TiesBetween(cmp, s, t, u);
        RowsAreTransitive(order, from + 1, a, b, c);
      }
    }
  }

  /** A list between two tied lists ties with both. */
  lemma TiesBetween<T(!new)>(cmp: (T, T) -> int, s: seq<T>, t: seq<T>, u: seq<T>)
    requires TotalPreorder(cmp) && CompareLists(cmp, s, t) <= 0 && CompareLists(cmp, t, u) <= 0
    requires CompareLists(cmp, s, u) == 0
    ensures CompareLists(cmp, s, t) == 0 && CompareLists(cmp, t, u) == 0
  {
    ListsAreAntisymmetric(cmp, u, s);
    ListsAreAntisymmetric(cmp, s, u);
    ListsAreTransitive(cmp, u, s, t);
    ListsAreTransitive(cmp, t, u, s);
    ListsAreAntisymmetric(cmp, t, u);
    ListsAreAntisymmetric(cmp, u, t);
    ListsAreAntisymmetric(cmp, s, t);
    ListsAreAntisymmetric(cmp, t, s);
  }

  /** Rows are totally preordered whenever the values of each sorting column are. */
  lemma RowOrderIsTotal<V(!new)>(order: RowOrder<V>)
    requires TotalColumns(order)
    ensures TotalPreorder(CompareRows(order))
  {
    var cmp := CompareRows(order);
    forall a, b ensures cmp(a, b) < 0 <==> cmp(b, a) > 0 {
      RowsAreAntisymmetric(order, 0, a, b);
    }
    forall a, b, c ensures Chained(cmp, a, b, c) {
      if cmp(a, b) <= 0 && cmp(b, c) <= 0 {
        RowsAreTransitive(order, 0, a, b, c);
      }
    }
  }

  // ----- what the order of rows is -----

  /** The values that two rows hold in a sorting column tie. */
  ghost predicate TieIn<V>(order: RowOrder<V>, s: nat, a: Row<V>, b: Row<V>)
    requires order.Valid() && s < |order.columns|
  {
    CompareLists(order.compares[s], ValuesOf(a, order.columns[s]), ValuesOf(b, order.columns[s])) == 0
  }

  lemma {:induction false} FirstDifference<V>(order: RowOrder<V>, from: nat, s: nat, a: Row<V>, b: Row<V>)
    requires order.Valid() && from <= s < |order.columns|
    requires forall r :: from <= r < s ==> TieIn(order, r, a, b)
    ensures !TieIn(order, s, a, b) ==>
      CompareFrom(order, from, a, b)
        == CompareLists(order.compares[s], ValuesOf(a, order.columns[s]), ValuesOf(b, order.columns[s]))
    decreases s - from
  {
    if from < s {
      assert TieIn(order, from, a, b);
      FirstDifference(order, from + 1, s, a, b);
    }
  }

  lemma {:induction false} AllTie<V>(order: RowOrder<V>, from: nat, a: Row<V>, b: Row<V>)
    requires order.Valid() && from <= |order.columns|
    ensures CompareFrom(order, from, a, b) == 0 <==> forall s :: from <= s < |order.columns| ==> TieIn(order, s, a, b)
    decreases |order.columns| - from
  {
    if from < |order.columns| {
      AllTie(order, from + 1, a, b);
      TieHere(order, from, a, b);
      hide TieIn, CompareFrom;
    }
  }

  lemma TieHere<V>(order: RowOrder<V>, from: nat, a: Row<V>, b: Row<V>)
    requires order.Valid() && from < |order.columns|
    ensures CompareFrom(order, from, a, b) == 0 <==> TieIn(order, from, a, b) && CompareFrom(order, from + 1, a, b) == 0
  {
  }

  /**
   * Rows are ordered by the first sorting column in which their values do not tie, whatever the columns after it hold,
   * and tie exactly when their values tie in every sorting column.
   */
  lemma FirstDifferenceDecides<V>(order: RowOrder<V>, s: nat, a: Row<V>, b: Row<V>)
    requires order.Valid()
    ensures s < |order.columns| && !TieIn(order, s, a, b) && (forall r :: 0 <= r < s ==> TieIn(order, r, a, b)) ==>
      CompareRows(order)(a, b) == CompareLists(order.compares[s], ValuesOf(a, order.columns[s]), ValuesOf(b, order.columns[s]))
    ensures CompareRows(order)(a, b) == 0 <==> forall r :: 0 <= r < |order.columns| ==> TieIn(order, r, a, b)
  {
    if s < |order.columns| && forall r :: 0 <= r < s ==> TieIn(order, r, a, b) {
      FirstDifference(order, 0, s, a, b);
    }
    AllTie(order, 0, a, b);
  }

  /**
   * The values of one column are ordered by the first pair that does not tie; if none does, the list that goes on is
   * greater, and lists of the same length tie.
   */
  lemma {:induction false} FirstPairDecides<T>(cmp: (T, T) -> int, s: seq<T>, t: seq<T>, k: nat)
    requires k <= |s| && k <= |t| && forall i :: 0 <= i < k ==> cmp(s[i], t[i]) == 0
    ensures k < |s| && k < |t| && cmp(s[k], t[k]) != 0 ==> CompareLists(cmp, s, t) == cmp(s[k], t[k])
    ensures k == |s| < |t| ==> CompareLists(cmp, s, t) < 0
    ensures k == |t| < |s| ==> CompareLists(cmp, s, t) > 0
    ensures k == |s| == |t| ==> CompareLists(cmp, s, t) == 0
    decreases k
  {
    if k > 0 {
      assert forall i :: 0 <= i < k - 1 ==> s[1..][i] == s[i + 1] && t[1..][i] == t[i + 1];
      FirstPairDecides(cmp, s[1..], t[1..], k - 1);
    }
  }

  /** Values that are not null are ordered as their type says, or the other way round; nulls come at one end. */
  lemma ValuesAreOrdered<V>(leaf: LeafColumn<V>, sorting: SortingColumn, a: Value<V>, b: Value<V>)
    ensures leaf.maxDefinitionLevel == 0 || (!a.isNull && !b.isNull) ==>
      CompareColumn(leaf, sorting)(a, b) == if sorting.descending then -leaf.compare(a.bits, b.bits) else leaf.compare(a.bits, b.bits)
    ensures leaf.maxDefinitionLevel > 0 && a.isNull && !b.isNull ==>
      (CompareColumn(leaf, sorting)(a, b) < 0 <==> sorting.nullsFirst) && (CompareColumn(leaf, sorting)(a, b) > 0 <==> !sorting.nullsFirst)
    ensures leaf.maxDefinitionLevel > 0 && !a.isNull && b.isNull ==>
      (CompareColumn(leaf, sorting)(a, b) > 0 <==> sorting.nullsFirst) && (CompareColumn(leaf, sorting)(a, b) < 0 <==> !sorting.nullsFirst)
    ensures leaf.maxDefinitionLevel > 0 && a.isNull && b.isNull ==> CompareColumn(leaf, sorting)(a, b) == 0
  {
  }

  // ----- the comparison functions as they run -----

  /** What the reader and the writers guarantee of a row: its values by column, at least one in each. */
  ghost predicate WellFormed<V>(schema: seq<LeafColumn<V>>, row: Row<V>) {
    && (forall i :: 0 <= i < |row| ==> row[i].column < |schema|)
    && (forall i, j :: 0 <= i < j < |row| ==> row[i].column <= row[j].column)
    && (forall i, j :: 0 <= i < j < |row| && row[i].column == row[j].column ==>
        schema[row[i].column].maxRepetitionLevel > 0)
    && (forall c: nat :: c < |schema| ==> HasColumn(row, c))
  }

  ghost predicate HasColumn<V>(row: Row<V>, c: nat) {
    exists i :: 0 <= i < |row| && row[i].column == c
  }

  /** Rows [lo, hi) are exactly the values of column `c`. */
  ghost predicate Spans<V>(row: Row<V>, c: nat, lo: nat, hi: nat) {
    && lo < hi <= |row|
    && forall i :: 0 <= i < |row| ==> (lo <= i < hi <==> row[i].column == c)
  }

  lemma {:induction false} SpanIsValues<V>(row: Row<V>, c: nat, lo: nat, hi: nat)
    requires lo <= hi <= |row|
    requires forall i :: 0 <= i < |row| ==> (lo <= i < hi <==> row[i].column == c)
    ensures ValuesOf(row, c) == row[lo..hi]
  {
    if row != [] {
      var n := |row| - 1;
      var lo', hi' := if lo <= n then lo else n, if hi <= n then hi else n;
      SpanIsValues(row[..n], c, lo', hi');
      if hi == n + 1 && lo <= n {
        assert row[lo..hi] == row[..n][lo'..hi'] + [row[n]];
      } else {
        assert row[lo..hi] == row[..n][lo'..hi'];
      }
    }
  }

  /** The end of the span of column `c` that starts at `from`. */
  method ScanColumn<V>(row: Row<V>, c: nat, from: nat, ghost schema: seq<LeafColumn<V>>) returns (to: nat)
    requires WellFormed(schema, row) && c < |schema|
    requires from <= |row| && forall i :: 0 <= i < |row| ==> (i < from <==> row[i].column < c)
    ensures Spans(row, c, from, to)
    ensures forall i :: 0 <= i < |row| ==> (i < to <==> row[i].column < c + 1)
  {
    assert HasColumn(row, c);
    to := from + 1;
    while to < |row| && row[to].column == c
      invariant from < to <= |row|
      invariant forall i :: from <= i < to ==> row[i].column == c
    {
      to := to + 1;
    }
  }

  /** Finds the spans of columns 0 to `highest`, scanning the row once. */
  method ColumnSpans<V>(row: Row<V>, highest: nat, ghost schema: seq<LeafColumn<V>>) returns (spans: seq<(nat, nat)>)
    requires WellFormed(schema, row) && highest < |schema|
    ensures |spans| == highest + 1
    ensures forall c: nat :: c <= highest ==> Spans(row, c, spans[c].0, spans[c].1)
  {
    spans := [];
    var i := 0;
    for c := 0 to highest + 1
      invariant i <= |row| && forall k :: 0 <= k < |row| ==> (k < i <==> row[k].column < c)
      invariant |spans| == c
      invariant forall d: nat :: d < c ==> Spans(row, d, spans[d].0, spans[d].1)
    {
      var j := ScanColumn(row, c, i, schema);
      spans := spans + [(i, j)];
      i := j;
    }
  }

  /** Compares the values two rows hold in one column. */
  method CompareValues<V>(cmp: (Value<V>, Value<V>) -> int, values1: seq<Value<V>>, values2: seq<Value<V>>) returns (c: int)
    ensures c == CompareLists(cmp, values1, values2)
  {
    var i := 0;
    while i < |values1| && i < |values2|
      invariant i <= |values1| && i <= |values2|
      invariant CompareLists(cmp, values1, values2) == CompareLists(cmp, values1[i..], values2[i..])
    {
      assert values1[i..][1..] == values1[i + 1..] && values2[i..][1..] == values2[i + 1..];
      var c := cmp(values1[i], values2[i]);
      if c != 0 {
        return c;
      }
      i := i + 1;
    }
    if i < |values1| {
      return 1;
    }
    if i < |values2| {
      return -1;
    }
    return 0;
  }

  /** The comparison that looks for the values of each sorting column. */
  method CompareScanning<V>(order: RowOrder<V>, highest: nat, row1: Row<V>, row2: Row<V>, ghost schema: seq<LeafColumn<V>>)
    returns (c: int)
    requires WellFormed(schema, row1) && WellFormed(schema, row2)
    requires order.Valid() && highest < |schema| && forall s :: 0 <= s < |order.columns| ==> order.columns[s] <= highest
    ensures c == CompareRows(order)(row1, row2)
  {
    hide WellFormed;
    var columns1 := ColumnSpans(row1, highest, schema);
    var columns2 := ColumnSpans(row2, highest, schema);
    for s := 0 to |order.compares|
      invariant CompareRows(order)(row1, row2) == CompareFrom(order, s, row1, row2)
    {
      var offsets1, offsets2 := columns1[order.columns[s]], columns2[order.columns[s]];
      assert Spans(row1, order.columns[s], offsets1.0, offsets1.1) && Spans(row2, order.columns[s], offsets2.0, offsets2.1);
      SpanIsValues(row1, order.columns[s], offsets1.0, offsets1.1);
      SpanIsValues(row2, order.columns[s], offsets2.0, offsets2.1);
      c := CompareValues(order.compares[s], row1[offsets1.0..offsets1.1], row2[offsets2.0..offsets2.1]);
      if c != 0 {
        return c;
      }
    }
    return 0;
  }

  /** Without repeated columns, value `i` of a row belongs to column `i`. */
  lemma {:induction false} FlatRow<V>(schema: seq<LeafColumn<V>>, row: Row<V>, i: nat)
    requires WellFormed(schema, row)
    requires forall l :: 0 <= l < |schema| ==> schema[l].maxRepetitionLevel == 0
    ensures i < |schema| ==> i < |row|
    ensures i < |row| ==> row[i].column == i
  {
    if i > 0 {
      FlatRow(schema, row, i - 1);
    }
    if i < |schema| {
      assert HasColumn(row, i);
      var k :| 0 <= k < |row| && row[k].column == i;
      forall j: nat | j < i && j < |row| ensures row[j].column == j {
        FlatRow(schema, row, j);
      }
    }
  }

  lemma FlatColumn<V>(schema: seq<LeafColumn<V>>, row: Row<V>, c: nat)
    requires WellFormed(schema, row) && c < |schema|
    requires forall l :: 0 <= l < |schema| ==> schema[l].maxRepetitionLevel == 0
    ensures c < |row| && ValuesOf(row, c) == [row[c]]
  {
    FlatRow(schema, row, c);
    forall i: nat | i < |row| ensures row[i].column == i {
      FlatRow(schema, row, i);
    }
    SpanIsValues(row, c, c, c + 1);
  }

  // ----- choosing the comparison for a schema -----

  /** The leaf columns are numbered in schema order, and each sorting column names one of them. */
  ghost predicate Sortable<V>(schema: seq<LeafColumn<V>>, leaves: seq<nat>, sorting: seq<SortingColumn>) {
    && (forall l :: 0 <= l < |schema| ==> schema[l].column == l)
    && |leaves| == |sorting| && forall s :: 0 <= s < |leaves| ==> leaves[s] < |schema|
  }

  /** The order of rows that sorting columns ask for. */
  function OrderOf<V>(schema: seq<LeafColumn<V>>, leaves: seq<nat>, sorting: seq<SortingColumn>): (order: RowOrder<V>)
    requires Sortable(schema, leaves, sorting)
    ensures order.Valid() && order.columns == leaves
  {
    RowOrder(leaves, seq(|sorting|, s requires 0 <= s < |sorting| => CompareColumn(schema[leaves[s]], sorting[s])))
  }

  lemma OrderOfIsTotal<V(!new)>(schema: seq<LeafColumn<V>>, leaves: seq<nat>, sorting: seq<SortingColumn>)
    requires Sortable(schema, leaves, sorting)
    requires forall l :: 0 <= l < |schema| ==> TotalPreorder(schema[l].compare)
    ensures TotalPreorder(CompareRows(OrderOf(schema, leaves, sorting)))
  {
    hide TotalPreorder;
    forall s | 0 <= s < |sorting| ensures TotalPreorder(OrderOf(schema, leaves, sorting).compares[s]) {
      ColumnIsTotal(schema[leaves[s]], sorting[s]);
    }
    RowOrderIsTotal(OrderOf(schema, leaves, sorting));
  }

  /** The row holds one value in column `c`, which is not null: `bits`. */
  ghost predicate HoldsOne<V>(row: Row<V>, c: nat, bits: V) {
    |ValuesOf(row, c)| == 1 && !ValuesOf(row, c)[0].isNull && ValuesOf(row, c)[0].bits == bits
  }

  /**
   * Where rows hold one value in each sorting column, the first one whose values differ decides: by its type's order, or
   * the other way round if it is sorted in descending order.
   */
  lemma FirstKeyDecides<V>(
      schema: seq<LeafColumn<V>>, leaves: seq<nat>, sorting: seq<SortingColumn>, a: Row<V>, b: Row<V>, x: seq<V>, y: seq<V>, s: nat)
    requires Sortable(schema, leaves, sorting) && s < |leaves| && |x| == |y| == |leaves|
    requires forall r :: 0 <= r < |leaves| ==> HoldsOne(a, leaves[r], x[r]) && HoldsOne(b, leaves[r], y[r])
    requires forall r :: 0 <= r < s ==> schema[leaves[r]].compare(x[r], y[r]) == 0
    ensures schema[leaves[s]].compare(x[s], y[s]) != 0 ==>
      CompareRows(OrderOf(schema, leaves, sorting))(a, b)
        == (if sorting[s].descending then -1 else 1) * schema[leaves[s]].compare(x[s], y[s])
    ensures s == |leaves| - 1 && schema[leaves[s]].compare(x[s], y[s]) == 0 ==>
      CompareRows(OrderOf(schema, leaves, sorting))(a, b) == 0
  {
    hide CompareRows, ValuesOf, CompareLists;
    var order := OrderOf(schema, leaves, sorting);
    forall r | 0 <= r < |leaves|
      ensures CompareLists(order.compares[r], ValuesOf(a, leaves[r]), ValuesOf(b, leaves[r]))
        == (if sorting[r].descending then -1 else 1) * schema[leaves[r]].compare(x[r], y[r])
    {
      assert HoldsOne(a, leaves[r], x[r]) && HoldsOne(b, leaves[r], y[r]);
      var v, w := ValuesOf(a, leaves[r])[0], ValuesOf(b, leaves[r])[0];
      assert ValuesOf(a, leaves[r]) == [v] && ValuesOf(b, leaves[r]) == [w];
      SingleValues(order.compares[r], v, w);
      ValuesAreOrdered(schema[leaves[r]], sorting[r], v, w);
    }
    FirstDifferenceDecides(order, s, a, b);
  }

  lemma SingleValues<V>(cmp: (Value<V>, Value<V>) -> int, a: Value<V>, b: Value<V>)
    ensures CompareLists(cmp, [a], [b]) == cmp(a, b)
  {
    assert [a][1..] == [] && [b][1..] == [];
  }

  /** The comparison that takes the value of each sorting column at its index and never looks for nulls. */
  method CompareIndexed<V>(
      schema: seq<LeafColumn<V>>, leaves: seq<nat>, sorting: seq<SortingColumn>, row1: Row<V>, row2: Row<V>)
    returns (c: int)
    requires Sortable(schema, leaves, sorting)
    requires WellFormed(schema, row1) && WellFormed(schema, row2)
    requires forall l :: 0 <= l < |schema| ==> schema[l].maxRepetitionLevel == 0
    requires forall s :: 0 <= s < |leaves| ==> schema[leaves[s]].maxDefinitionLevel == 0
    ensures c == CompareRows(OrderOf(schema, leaves, sorting))(row1, row2)
  {
    hide WellFormed, ValuesOf, CompareLists;
    ghost var order := OrderOf(schema, leaves, sorting);
    for s := 0 to |sorting|
      invariant CompareRows(order)(row1, row2) == CompareFrom(order, s, row1, row2)
    {
      var column := leaves[s];
      FlatColumn(schema, row1, column);
      FlatColumn(schema, row2, column);
      SingleValues(order.compares[s], row1[column], row2[column]);
      c := CompareDirected(schema[column], sorting[s])(row1[column], row2[column]);
      if c != 0 {
        return c;
      }
    }
    return 0;
  }

  /** Whether rows can be compared without looking for the values of the sorting columns. */
  method CanCompareIndexed<V>(schema: seq<LeafColumn<V>>, leaves: seq<nat>, ghost sorting: seq<SortingColumn>)
    returns (can: bool)
    requires Sortable(schema, leaves, sorting)
    ensures can <==>
      && (forall l :: 0 <= l < |schema| ==> schema[l].maxRepetitionLevel == 0)
      && (forall s :: 0 <= s < |leaves| ==> schema[leaves[s]].maxDefinitionLevel == 0)
  {
    can := true;
    for l := 0 to |schema|
      invariant can <==>
        && (forall k :: 0 <= k < l ==> schema[k].maxRepetitionLevel == 0)
        && (forall s :: 0 <= s < |leaves| && leaves[s] < l ==> schema[leaves[s]].maxDefinitionLevel == 0)
    {
      if schema[l].maxRepetitionLevel > 0 {
        can := false;
      }
      if l in leaves && schema[l].maxDefinitionLevel > 0 {
        can := false;
      }
    }
  }

  /** Both comparisons of rows are the one order, whichever the schema allows. */
  method CompareRowsFunc<V>(
      schema: seq<LeafColumn<V>>, leaves: seq<nat>, sorting: seq<SortingColumn>, row1: Row<V>, row2: Row<V>)
    returns (c: int)
    requires Sortable(schema, leaves, sorting) && |schema| > 0
    requires WellFormed(schema, row1) && WellFormed(schema, row2)
    ensures c == CompareRows(OrderOf(schema, leaves, sorting))(row1, row2)
  {
    hide WellFormed, CompareRows;
    var indexed := CanCompareIndexed(schema, leaves, sorting);
    if indexed {
      c := CompareIndexed(schema, leaves, sorting, row1, row2);
    } else {
      var highest: nat := 0;
      for s := 0 to |leaves|
        invariant highest < |schema| && forall r :: 0 <= r < s ==> leaves[r] <= highest
      {
        if leaves[s] > highest {
          highest := leaves[s];
        }
      }
      c := CompareScanning(OrderOf(schema, leaves, sorting), highest, row1, row2, schema);
    }
  }
}
