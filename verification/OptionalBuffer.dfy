/** The column buffer of optional columns: rows with nulls over a dense base column that is sorted only for pages. */
module OptionalBuffer {
  import opened Sequences

  /** A value to write; it is null unless its definition level is the largest of the column. */
  datatype Value<V> = Value(definitionLevel: nat, bits: V)

  /** What a row holds. */
  datatype Cell<V> = Null(level: nat) | Full(value: V)

  function CellOf<V>(max: nat, v: Value<V>): Cell<V> {
    if v.definitionLevel == max then Full(v.bits) else Null(v.definitionLevel)
  }

  function CellsOf<V>(max: nat, vs: seq<Value<V>>): (cells: seq<Cell<V>>)
    ensures |cells| == |vs|
  {
    seq(|vs|, i requires 0 <= i < |vs| => CellOf(max, vs[i]))
  }

  // ----- rows over a base column -----

  /** Row indexes are those of the base column for values, and negative for nulls; each base value has one row. */
  ghost predicate Maps<V>(rows: seq<int>, levels: seq<nat>, base: seq<V>, max: nat) {
    && |levels| == |rows|
    && (forall k :: 0 <= k < |rows| ==> (rows[k] >= 0 <==> levels[k] == max))
    && (forall k :: 0 <= k < |rows| ==> rows[k] < |base|)
    && (forall k, l :: 0 <= k < l < |rows| && rows[k] >= 0 ==> rows[k] != rows[l])
    && (forall a :: 0 <= a < |base| ==> HasRow(rows, a))
    && Rank(rows, |rows|) == |base|
  }

  ghost predicate HasRow(rows: seq<int>, a: int) {
    exists k :: 0 <= k < |rows| && rows[k] == a
  }

  /** How many of the first `k` rows are not null. */
  ghost function Rank(rows: seq<int>, k: nat): (r: nat)
    requires k <= |rows|
    ensures r <= k
  {
    if k == 0 then 0 else Rank(rows, k - 1) + if rows[k - 1] >= 0 then 1 else 0
  }

  lemma {:induction false} RankGrows(rows: seq<int>, k: nat, l: nat)
    requires k <= l <= |rows|
    ensures Rank(rows, k) <= Rank(rows, l)
    ensures k < l && rows[k] >= 0 ==> Rank(rows, k) < Rank(rows, l)
    decreases l
  {
    if k < l {
      RankGrows(rows, k, l - 1);
    }
  }

  lemma {:induction false} RankPrefix(rows: seq<int>, more: seq<int>, k: nat)
    requires k <= |rows|
    ensures Rank(rows + more, k) == Rank(rows, k)
  {
    if k > 0 {
      RankPrefix(rows, more, k - 1);
    }
  }

  /** What the rows hold. */
  ghost function Cells<V>(rows: seq<int>, levels: seq<nat>, base: seq<V>): (cells: seq<Cell<V>>)
    requires |levels| == |rows|
    ensures |cells| == |rows|
  {
    seq(|rows|, k requires 0 <= k < |rows| => if 0 <= rows[k] < |base| then Full(base[rows[k]]) else Null(levels[k]))
  }

  /** The values of the cells that are not null, in order. */
  ghost function Dense<V>(cells: seq<Cell<V>>): (values: seq<V>) {
    if cells == [] then []
    else
      var n := |cells| - 1;
      Dense(cells[..n]) + if cells[n].Full? then [cells[n].value] else []
  }

  function Level<V>(max: nat, cell: Cell<V>): nat {
    if cell.Full? then max else cell.level
  }

  lemma {:induction false} DenseConcat<V>(a: seq<Cell<V>>, b: seq<Cell<V>>)
    ensures Dense(a + b) == Dense(a) + Dense(b)
  {
    if b == [] {
      assert a + b == a;
    } else {
      var n := |b| - 1;
      assert (a + b)[..|a| + n] == a + b[..n];
      DenseConcat(a, b[..n]);
    }
  }

  /** The dense values by rank: row `k`, if not null, holds the one at its rank. */
  lemma {:induction false} DenseAt<V>(rows: seq<int>, cells: seq<Cell<V>>, n: nat, k: nat)
    requires |cells| == |rows| && k < n <= |rows| && rows[k] >= 0
    requires forall j :: 0 <= j < |rows| ==> (rows[j] >= 0 <==> cells[j].Full?)
    ensures |Dense(cells[..n])| == Rank(rows, n) && Rank(rows, k) < Rank(rows, n)
    ensures Dense(cells[..n])[Rank(rows, k)] == cells[k].value
  {
    DenseSize(rows, cells, n);
    assert cells[..n][..n - 1] == cells[..n - 1];
    if k < n - 1 {
      DenseAt(rows, cells, n - 1, k);
    } else {
      DenseSize(rows, cells, n - 1);
    }
  }

  lemma {:induction false} DenseSize<V>(rows: seq<int>, cells: seq<Cell<V>>, n: nat)
    requires |cells| == |rows| && n <= |rows|
    requires forall j :: 0 <= j < |rows| ==> (rows[j] >= 0 <==> cells[j].Full?)
    ensures |Dense(cells[..n])| == Rank(rows, n)
  {
    if n > 0 {
      assert cells[..n][..n - 1] == cells[..n - 1];
      DenseSize(rows, cells, n - 1);
    }
  }

  // ----- cycle sort -----

  ghost predicate Permutation(s: seq<nat>) {
    && (forall a :: 0 <= a < |s| ==> s[a] < |s|)
    && (forall a, b :: 0 <= a < b < |s| ==> s[a] != s[b])
  }

  ghost function Unfixed(s: seq<nat>): set<nat> {
    set a | 0 <= a < |s| && s[a] != a
  }

  /** How many swaps a cycle sort may still need. */
  ghost function SwapsLeft(s: seq<nat>): nat {
    if |Unfixed(s)| <= 1 then 0 else |Unfixed(s)| - 1
  }

  /** A swap puts one more entry in its place. */
  lemma SwapFixes(s: seq<nat>, i: nat)
    requires Permutation(s) && i < |s| && s[i] != i
    ensures var r := SwapAt(s, i, s[i]);
      Permutation(r) && Unfixed(r) < Unfixed(s) && SwapsLeft(r) < SwapsLeft(s)
    ensures forall a :: 0 <= a < |s| && s[a] == a ==> SwapAt(s, i, s[i])[a] == a
  {
    var j := s[i];
    var r := SwapAt(s, i, j);
    assert s[j] != j;
    assert {i, j} <= Unfixed(s);
    SubsetSize({i, j}, Unfixed(s));
    assert j !in Unfixed(r);
    assert Unfixed(r) <= Unfixed(s) - {j};
    SubsetSize(Unfixed(r), Unfixed(s) - {j});
  }

  lemma {:induction false} SubsetSize<T>(a: set<T>, b: set<T>)
    requires a <= b
    ensures |a| <= |b|
  {
    if a != {} {
      var x :| x in a;
      SubsetSize(a - {x}, b - {x});
    }
  }

  lemma {:induction false} UnfixedSize(s: seq<nat>)
    ensures |Unfixed(s)| <= |s|
  {
    if s != [] {
      var n := |s| - 1;
      UnfixedSize(s[..n]);
      assert Unfixed(s) <= Unfixed(s[..n]) + {n};
      SubsetSize(Unfixed(s), Unfixed(s[..n]) + {n});
    }
  }

  /** A base column of fixed-width values. */
  class BaseColumn<V> {
    var values: seq<V>

    constructor ()
      ensures values == []
    {
      values := [];
    }

    method WriteValues(vs: seq<V>) returns (count: nat)
      modifies this
      ensures values == old(values) + vs && count == |vs|
    {
      values := values + vs;
      return |vs|;
    }

    method Swap(i: nat, j: nat)
      requires i < |values| && j < |values|
      modifies this
      ensures values == SwapAt(old(values), i, j)
    {
      values := values[i := values[j]][j := values[i]];
    }
  }

  /** Each value is the one that belongs where its entry of `order` points, and the first `i` values are in place. */
  ghost predicate Placed<V>(values: seq<V>, order: seq<nat>, sorted: seq<V>, i: nat) {
    && |values| == |order| == |sorted| && i <= |order| && Permutation(order)
    && (forall a :: 0 <= a < |order| ==> values[a] == sorted[order[a]])
    && (forall a :: 0 <= a < i ==> order[a] == a)
  }

  lemma SwapKeepsPlaced<V>(values: seq<V>, order: seq<nat>, sorted: seq<V>, i: nat)
    requires Placed(values, order, sorted, i) && i < |order|
    ensures order[i] < |values| == |order|
    ensures order[i] == i ==> Placed(values, order, sorted, i + 1)
    ensures order[i] != i ==>
      var r := SwapAt(order, i, order[i]);
      Placed(SwapAt(values, i, order[i]), r, sorted, i) && SwapsLeft(r) < SwapsLeft(order)
  {
    if order[i] != i {
      SwapFixes(order, i);
    }
  }

  lemma AllPlaced<V>(values: seq<V>, order: seq<nat>, sorted: seq<V>)
    requires Placed(values, order, sorted, |order|)
    ensures values == sorted
  {
  }

  /** Moves every base value to the position its entry of `sortIndex` names, in fewer swaps than there are values. */
  method CycleSort<V>(base: BaseColumn<V>, sortIndex: array<nat>, ghost sorted: seq<V>) returns (ghost swaps: nat)
    requires Placed(base.values, sortIndex[..], sorted, 0)
    modifies base, sortIndex
    ensures base.values == sorted
    ensures swaps == 0 || swaps < |sorted|
  {
    swaps := 0;
    ghost var order := sortIndex[..];
    UnfixedSize(order);
    hide Placed, SwapsLeft;
    for i := 0 to sortIndex.Length
      invariant Placed(base.values, sortIndex[..], sorted, i)
      invariant swaps + SwapsLeft(sortIndex[..]) <= SwapsLeft(order)
    {
      var j := sortIndex[i];
      while i != j
        invariant j == sortIndex[i] && Placed(base.values, sortIndex[..], sorted, i)
        invariant swaps + SwapsLeft(sortIndex[..]) <= SwapsLeft(order)
        decreases SwapsLeft(sortIndex[..])
      {
        ghost var before := sortIndex[..];
        SwapKeepsPlaced(base.values, before, sorted, i);
        base.Swap(i, j);
        sortIndex[i], sortIndex[j] := sortIndex[j], sortIndex[i];
        assert sortIndex[..] == SwapAt(before, i, j);
        swaps := swaps + 1;
        j := sortIndex[i];
      }
      SwapKeepsPlaced(base.values, sortIndex[..], sorted, i);
    }
    AllPlaced(base.values, sortIndex[..], sorted);
    FewerSwaps(order);
    Sizes(base.values, sortIndex[..], sorted);
  }

  lemma FewerSwaps(s: seq<nat>)
    ensures SwapsLeft(s) == 0 || SwapsLeft(s) < |s|
  {
    UnfixedSize(s);
  }

  lemma Sizes<V>(values: seq<V>, order: seq<nat>, sorted: seq<V>)
    requires Placed(values, order, sorted, |order|)
    ensures |values| == |order| == |sorted|
  {
  }

  // ----- the order a page needs -----

  /** Records, for every base value, the rank of its row. */
  method FillSortIndex(rows: seq<int>, n: nat) returns (sortIndex: array<nat>)
    requires forall k :: 0 <= k < |rows| ==> rows[k] < n
    requires forall k, l :: 0 <= k < l < |rows| && rows[k] >= 0 ==> rows[k] != rows[l]
    ensures fresh(sortIndex) && sortIndex.Length == n
    ensures forall k :: 0 <= k < |rows| && rows[k] >= 0 ==> sortIndex[rows[k]] == Rank(rows, k)
  {
    sortIndex := new nat[n](_ => 0);
    var i := 0;
    for k := 0 to |rows|
      invariant i == Rank(rows, k)
      invariant forall l :: 0 <= l < k && rows[l] >= 0 ==> sortIndex[rows[l]] == Rank(rows, l)
    {
      if rows[k] >= 0 {
        sortIndex[rows[k]] := i;
        i := i + 1;
      }
    }
  }

  /** Ranks of rows tell where base values belong. */
  lemma RanksPlace<V>(rows: seq<int>, levels: seq<nat>, base: seq<V>, max: nat, order: seq<nat>)
    requires Maps(rows, levels, base, max) && |order| == |base|
    requires forall k :: 0 <= k < |rows| && rows[k] >= 0 ==> order[rows[k]] == Rank(rows, k)
    ensures Placed(base, order, Dense(Cells(rows, levels, base)), 0)
  {
    hide Rank, Cells, Dense;
    DenseCells(rows, levels, base, max);
    var dense := Dense(Cells(rows, levels, base));
    forall a | 0 <= a < |base| ensures order[a] < |base| && base[a] == dense[order[a]] {
      var k := RowOf(rows, a);
    }
    forall a, b | 0 <= a < b < |base| ensures order[a] != order[b] {
      var k := RowOf(rows, a);
      var l := RowOf(rows, b);
      if k < l {
        RankGrows(rows, k, l);
      } else {
        RankGrows(rows, l, k);
      }
    }
  }

  lemma RowOf(rows: seq<int>, a: nat) returns (k: nat)
    requires HasRow(rows, a)
    ensures k < |rows| && rows[k] == a
  {
    k :| k < |rows| && rows[k] == a;
  }

  // ----- renumbering rows after a sort -----

  /** What the rows become: the first entries are numbered from 0, wherever the values are. */
  ghost function Renumbered(rows: seq<int>): (r: seq<int>)
    ensures |r| == |rows|
  {
    seq(|rows|, i requires 0 <= i < |rows| => if i < Rank(rows, |rows|) then i else rows[i])
  }

  method Renumber(rows: seq<int>) returns (r: seq<int>)
    ensures r == Renumbered(rows)
  {
    r := rows;
    var i: nat := 0;
    for k := 0 to |rows|
      invariant |r| == |rows| && i == Rank(rows, k)
      invariant forall l :: 0 <= l < |rows| ==> r[l] == if l < i then l else rows[l]
    {
      if r[k] >= 0 {
        r := r[i := i];
        i := i + 1;
      }
    }
  }

  ghost predicate NullsLast(levels: seq<nat>, max: nat) {
    forall k, l :: 0 <= k < l < |levels| && levels[l] == max ==> levels[k] == max
  }

  lemma {:induction false} NullBefore(rows: seq<int>, n: nat) returns (k: nat)
    requires n <= |rows| && Rank(rows, n) < n
    ensures k < n && rows[k] < 0
  {
    if rows[n - 1] < 0 {
      k := n - 1;
    } else {
      k := NullBefore(rows, n - 1);
    }
  }

  lemma {:induction false} RankOfAll(rows: seq<int>, n: nat)
    requires n <= |rows| && forall k :: 0 <= k < n ==> rows[k] >= 0
    ensures Rank(rows, n) == n
  {
    if n > 0 {
      RankOfAll(rows, n - 1);
    }
  }

  lemma {:induction false} RankOfNone(rows: seq<int>, m: nat, n: nat)
    requires m <= n <= |rows| && forall k :: m <= k < n ==> rows[k] < 0
    ensures Rank(rows, n) == Rank(rows, m)
    decreases n
  {
    if m < n {
      RankOfNone(rows, m, n - 1);
    }
  }

  lemma RenumberedWell<V>(rows: seq<int>, levels: seq<nat>, base: seq<V>, max: nat)
    requires Maps(rows, levels, base, max) && NullsLast(levels, max)
    ensures var cells := Cells(rows, levels, base);
      && Maps(Renumbered(rows), levels, Dense(cells), max)
      && Cells(Renumbered(rows), levels, Dense(cells)) == cells
  {
    hide Rank, Cells, Dense;
    var cells, m, r := Cells(rows, levels, base), Rank(rows, |rows|), Renumbered(rows);
    DenseCells(rows, levels, base, max);
    ValuesFirst(rows, levels, max);
    RankOfAll(r, m);
    RankOfNone(r, m, |r|);
    forall a | 0 <= a < m ensures HasRow(r, a) {
      assert r[a] == a;
    }
    var dense := Dense(cells);
    forall k | 0 <= k < m ensures dense[k] == base[rows[k]] {
      RankOfAll(rows, k);
    }
    SameCells(rows, r, levels, base, dense, m);
  }

  lemma SameCells<V>(rows: seq<int>, r: seq<int>, levels: seq<nat>, base: seq<V>, dense: seq<V>, m: nat)
    requires |rows| == |r| == |levels| && m == |dense| <= |rows|
    requires forall k :: 0 <= k < |rows| ==> rows[k] < |base| && (rows[k] >= 0 <==> k < m) && r[k] == if k < m then k else rows[k]
    requires forall k :: 0 <= k < m ==> dense[k] == base[rows[k]]
    ensures Cells(r, levels, dense) == Cells(rows, levels, base)
  {
  }

  /** Row `k`, if not null, holds the dense value at its rank. */
  lemma DenseCells<V>(rows: seq<int>, levels: seq<nat>, base: seq<V>, max: nat)
    requires Maps(rows, levels, base, max)
    ensures var dense := Dense(Cells(rows, levels, base));
      && |dense| == |base| == Rank(rows, |rows|)
      && forall k :: 0 <= k < |rows| && rows[k] >= 0 ==> Rank(rows, k) < |base| && dense[Rank(rows, k)] == base[rows[k]]
  {
    var cells := Cells(rows, levels, base);
    assert cells[..|rows|] == cells;
    DenseSize(rows, cells, |rows|);
    forall k | 0 <= k < |rows| && rows[k] >= 0
      ensures Rank(rows, k) < |base| && Dense(cells)[Rank(rows, k)] == base[rows[k]]
    {
      DenseAt(rows, cells, |rows|, k);
    }
  }

  lemma RenumberedBadly(rows: seq<int>, levels: seq<nat>, max: nat)
    requires |rows| == |levels| && forall k :: 0 <= k < |rows| ==> (rows[k] >= 0 <==> levels[k] == max)
    requires !NullsLast(levels, max)
    ensures exists j :: 0 <= j < |rows| && Renumbered(rows)[j] >= 0 && levels[j] != max
  {
    var m := Rank(rows, |rows|);
    var k, l :| 0 <= k < l < |levels| && levels[l] == max && levels[k] != max;
    var j := k;
    if k >= m {
      RankGrows(rows, m, l);
      RankGrows(rows, l, |rows|);
      j := NullBefore(rows, m);
    }
    assert Renumbered(rows)[j] == j;
  }

  /** The renumbered rows index the sorted base column exactly when no null comes before a value. */
  lemma RenumberedMaps<V>(rows: seq<int>, levels: seq<nat>, base: seq<V>, max: nat)
    requires Maps(rows, levels, base, max)
    ensures var cells := Cells(rows, levels, base);
      && (Maps(Renumbered(rows), levels, Dense(cells), max) <==> NullsLast(levels, max))
      && (NullsLast(levels, max) ==> Cells(Renumbered(rows), levels, Dense(cells)) == cells)
  {
    hide Renumbered, Rank, Dense, NullsLast;
    if NullsLast(levels, max) {
      RenumberedWell(rows, levels, base, max);
    } else {
      RenumberedBadly(rows, levels, max);
    }
  }

  lemma ValuesFirst(rows: seq<int>, levels: seq<nat>, max: nat)
    requires |rows| == |levels| && NullsLast(levels, max)
    requires forall k :: 0 <= k < |rows| ==> (rows[k] >= 0 <==> levels[k] == max)
    ensures forall k :: 0 <= k < |rows| ==> (rows[k] >= 0 <==> k < Rank(rows, |rows|))
  {
    var m := Rank(rows, |rows|);
    forall k | 0 <= k < |rows| ensures rows[k] >= 0 <==> k < m {
      if rows[k] >= 0 {
        RankOfAll(rows, k + 1);
        RankGrows(rows, k + 1, |rows|);
      } else {
        RankOfNone(rows, k, |rows|);
      }
    }
  }

  // ----- pages -----

  /** A page of an optional column: one definition level per row, and the values that are not null. */
  datatype OptionalPage<V> = OptionalPage(base: seq<V>, definitionLevels: seq<nat>, maxDefinitionLevel: nat)

  /** The cells that a page's reader assembles: each row of the largest level takes the next value. */
  ghost function Assembled<V>(page: OptionalPage<V>): (cells: seq<Cell<V>>)
    ensures |cells| == |page.definitionLevels|
    decreases |page.definitionLevels|
  {
    var levels, max := page.definitionLevels, page.maxDefinitionLevel;
    if levels == [] then []
    else if levels[0] != max || page.base == [] then
      [Null(levels[0])] + Assembled(OptionalPage(page.base, levels[1..], max))
    else [Full(page.base[0])] + Assembled(OptionalPage(page.base[1..], levels[1..], max))
  }

  ghost predicate Leveled<V>(cells: seq<Cell<V>>, max: nat) {
    forall k :: 0 <= k < |cells| ==> cells[k].Null? ==> cells[k].level != max
  }

  ghost function LevelsOf<V>(cells: seq<Cell<V>>, max: nat): (levels: seq<nat>)
    ensures |levels| == |cells|
  {
    seq(|cells|, k requires 0 <= k < |cells| => Level(max, cells[k]))
  }

  /** Dense values and levels, read side by side, are the cells again. */
  lemma {:induction false} DenseRoundTrip<V>(cells: seq<Cell<V>>, max: nat)
    requires Leveled(cells, max)
    ensures Assembled(OptionalPage(Dense(cells), LevelsOf(cells, max), max)) == cells
  {
    if cells != [] {
      var first, rest := cells[0], cells[1..];
      DenseRoundTrip(rest, max);
      assert cells == [first] + rest;
      DenseConcat([first], rest);
      DenseOne(first);
      var levels, dense := LevelsOf(cells, max), Dense(cells);
      assert levels[1..] == LevelsOf(rest, max);
      if first.Full? {
        assert dense == [first.value] + Dense(rest);
        assert dense[1..] == Dense(rest);
      } else {
        assert dense == [] + Dense(rest) == Dense(rest);
      }
    }
  }

  lemma DenseOne<V>(cell: Cell<V>)
    ensures Dense([cell]) == if cell.Full? then [cell.value] else []
  {
    assert [cell][..0] == [];
  }

  // ----- the buffer -----

  class OptionalColumnBuffer<V> {
    const base: BaseColumn<V>
    const maxDefinitionLevel: nat
    var reordered: bool
    var rows: seq<int>
    var definitionLevels: seq<nat>

    constructor (base: BaseColumn<V>, maxDefinitionLevel: nat)
      requires base.values == []
      ensures this.base == base && this.maxDefinitionLevel == maxDefinitionLevel
      ensures Valid() && Contents() == []
    {
      this.base, this.maxDefinitionLevel := base, maxDefinitionLevel;
      reordered, rows, definitionLevels := false, [], [];
    }

    /** The rows index the base column, which is in row order until rows are swapped. */
    ghost predicate Valid()
      reads this, base
    {
      && |rows| == |definitionLevels|
      && Maps(rows, definitionLevels, base.values, maxDefinitionLevel)
      && (!reordered ==> Dense(Contents()) == base.values)
    }

    ghost function Contents(): (cells: seq<Cell<V>>)
      requires |rows| == |definitionLevels|
      reads this, base
    {
      Cells(rows, definitionLevels, base.values)
    }

    /** Appends values; a null takes a row but no base value. */
    method WriteValues(values: seq<Value<V>>)
      requires Valid()
      modifies this, base
      ensures Valid() && Contents() == old(Contents()) + CellsOf(maxDefinitionLevel, values)
      ensures reordered == old(reordered)
    {
      hide Maps, Cells, Dense, CellsOf;
      NoCells<V>(maxDefinitionLevel);
      assert Contents() + [] == Contents();
      var rowIndex: nat := |base.values|;
      var n := 0;
      while n < |values|
        invariant 0 <= n <= |values| && rowIndex == |base.values| && Valid() && reordered == old(reordered)
        invariant Contents() == old(Contents()) + CellsOf(maxDefinitionLevel, values[..n])
      {
        var i := n;
        while n < |values| && values[n].definitionLevel != maxDefinitionLevel
          invariant i <= n <= |values|
          invariant forall k :: i <= k < n ==> values[k].definitionLevel != maxDefinitionLevel
        {
          n := n + 1;
        }
        WriteNulls(values[i..n]);
        CellsOfSlices(maxDefinitionLevel, values, i, n);
        i := n;
        while n < |values| && values[n].definitionLevel == maxDefinitionLevel
          invariant i <= n <= |values|
          invariant forall k :: i <= k < n ==> values[k].definitionLevel == maxDefinitionLevel
        {
          n := n + 1;
        }
        if i < n {
          rowIndex := WriteFull(values[i..n], rowIndex);
          CellsOfSlices(maxDefinitionLevel, values, i, n);
        }
      }
      assert values[..n] == values;
    }

    /** A run of nulls. */
    method WriteNulls(values: seq<Value<V>>)
      requires Valid() && forall k :: 0 <= k < |values| ==> values[k].definitionLevel != maxDefinitionLevel
      modifies this
      ensures Valid() && Contents() == old(Contents()) + CellsOf(maxDefinitionLevel, values)
      ensures reordered == old(reordered) && base.values == old(base.values)
    {
      hide Maps, Cells, Dense, CellsOf;
      NoCells<V>(maxDefinitionLevel);
      assert Contents() + [] == Contents();
      for k := 0 to |values|
        invariant Valid() && reordered == old(reordered) && base.values == old(base.values)
        invariant Contents() == old(Contents()) + CellsOf(maxDefinitionLevel, values[..k])
      {
        CellOfNull(maxDefinitionLevel, values, k);
        NullAppends(rows, definitionLevels, base.values, maxDefinitionLevel, values[k].definitionLevel);
        rows := rows + [-1];
        definitionLevels := definitionLevels + [values[k].definitionLevel];
      }
      assert values[..|values|] == values;
    }

    /** A run of values that are not null, numbered from the end of the base column. */
    method WriteFull(values: seq<Value<V>>, rowIndex: nat) returns (next: nat)
      requires Valid() && rowIndex == |base.values|
      requires forall k :: 0 <= k < |values| ==> values[k].definitionLevel == maxDefinitionLevel
      modifies this, base
      ensures Valid() && Contents() == old(Contents()) + CellsOf(maxDefinitionLevel, values)
      ensures reordered == old(reordered) && next == |base.values|
    {
      hide Maps, Cells, Dense, CellsOf;
      RunAppends(rows, definitionLevels, base.values, maxDefinitionLevel, values);
      var count := base.WriteValues(Bits(values));
      definitionLevels := definitionLevels + Levels(count, maxDefinitionLevel);
      next := rowIndex;
      ghost var before := rows;
      while count > 0
        invariant 0 <= count <= |values| && next == rowIndex + |values| - count
        invariant rows == before + Numbers(rowIndex, |values| - count)
        invariant definitionLevels == old(definitionLevels) + Levels(|values|, maxDefinitionLevel)
        invariant base.values == old(base.values) + Bits(values) && reordered == old(reordered)
      {
        rows := rows + [next];
        next := next + 1;
        count := count - 1;
      }
    }

    /**
     * The rows as a page. After swaps the base column is sorted into row order first, and the rows are renumbered; the
     * page is right in any case, but the buffer is left well formed exactly when no null comes before a value.
     */
    method Page() returns (page: OptionalPage<V>)
      requires Valid()
      modifies this`rows, this`reordered, base
      ensures Assembled(page) == old(Contents())
      ensures page == OptionalPage(Dense(old(Contents())), definitionLevels, maxDefinitionLevel)
      ensures base.values == page.base && !reordered
      ensures Valid() <==> !old(reordered) || NullsLast(definitionLevels, maxDefinitionLevel)
      ensures Valid() ==> Contents() == old(Contents())
    {
      hide Maps, Cells, Dense, NullsLast, Placed, Renumbered, Assembled;
      PageOfCells(rows, definitionLevels, base.values, maxDefinitionLevel);
      if reordered {
        MapsFacts(rows, definitionLevels, base.values, maxDefinitionLevel);
        ghost var sorted := Dense(Contents());
        var sortIndex := FillSortIndex(rows, |base.values|);
        RanksPlace(rows, definitionLevels, base.values, maxDefinitionLevel, sortIndex[..]);
        ghost var swaps := CycleSort(base, sortIndex, sorted);
        RenumberedMaps(rows, definitionLevels, old(base.values), maxDefinitionLevel);
        rows := Renumber(rows);
        reordered := false;
      }
      page := OptionalPage(base.values, definitionLevels, maxDefinitionLevel);
    }

    /** Swaps two rows; base values stay where they are. */
    method Swap(i: nat, j: nat)
      requires Valid() && i < |rows| && j < |rows|
      modifies this
      ensures Valid() && Contents() == SwapAt(old(Contents()), i, j)
      ensures base.values == old(base.values) && reordered
    {
      SwapMaps(rows, definitionLevels, base.values, maxDefinitionLevel, i, j);
      reordered := true;
      rows := rows[i := rows[j]][j := rows[i]];
      definitionLevels := definitionLevels[i := definitionLevels[j]][j := definitionLevels[i]];
    }
  }

  lemma NoCells<V>(max: nat)
    ensures CellsOf<V>(max, []) == []
  {
  }

  /** The page of dense values and levels assembles to the rows. */
  lemma PageOfCells<V>(rows: seq<int>, levels: seq<nat>, base: seq<V>, max: nat)
    requires Maps(rows, levels, base, max)
    ensures |rows| == |levels|
    ensures Assembled(OptionalPage(Dense(Cells(rows, levels, base)), levels, max)) == Cells(rows, levels, base)
  {
    var cells := Cells(rows, levels, base);
    DenseRoundTrip(cells, max);
    assert LevelsOf(cells, max) == levels;
  }

  lemma MapsFacts<V>(rows: seq<int>, levels: seq<nat>, base: seq<V>, max: nat)
    requires Maps(rows, levels, base, max)
    ensures forall k :: 0 <= k < |rows| ==> rows[k] < |base|
    ensures forall k, l :: 0 <= k < l < |rows| && rows[k] >= 0 ==> rows[k] != rows[l]
  {
  }

  lemma CellOfNull<V>(max: nat, values: seq<Value<V>>, k: nat)
    requires k < |values| && values[k].definitionLevel != max
    ensures CellsOf(max, values[..k + 1]) == CellsOf(max, values[..k]) + [Null(values[k].definitionLevel)]
  {
  }

  lemma CellsOfSlices<V>(max: nat, values: seq<Value<V>>, i: nat, n: nat)
    requires i <= n <= |values|
    ensures CellsOf(max, values[..n]) == CellsOf(max, values[..i]) + CellsOf(max, values[i..n])
  {
  }

  /** A row of a null. */
  lemma NullAppends<V>(rows: seq<int>, levels: seq<nat>, base: seq<V>, max: nat, level: nat)
    requires Maps(rows, levels, base, max) && level != max
    ensures Maps(rows + [-1], levels + [level], base, max)
    ensures Cells(rows + [-1], levels + [level], base) == Cells(rows, levels, base) + [Null(level)]
    ensures Dense(Cells(rows, levels, base) + [Null(level)]) == Dense(Cells(rows, levels, base))
  {
    RankPrefix(rows, [-1], |rows|);
    forall a | 0 <= a < |base| ensures HasRow(rows + [-1], a) {
      var k := RowOf(rows, a);
      assert (rows + [-1])[k] == a;
    }
    var cells := Cells(rows, levels, base);
    assert (cells + [Null(level)])[..|cells|] == cells;
  }

  /** A row of a value at the end of the base column. */
  lemma FullAppends<V>(rows: seq<int>, levels: seq<nat>, base: seq<V>, max: nat, v: V)
    requires Maps(rows, levels, base, max)
    ensures Maps(rows + [|base|], levels + [max], base + [v], max)
    ensures Cells(rows + [|base|], levels + [max], base + [v]) == Cells(rows, levels, base) + [Full(v)]
    ensures Dense(Cells(rows, levels, base) + [Full(v)]) == Dense(Cells(rows, levels, base)) + [v]
  {
    var rows', n := rows + [|base|], |rows|;
    RankPrefix(rows, [|base|], n);
    forall a | 0 <= a < |base| + 1 ensures HasRow(rows', a) {
      if a < |base| {
        var k := RowOf(rows, a);
        assert rows'[k] == a;
      } else {
        assert rows'[n] == a;
      }
    }
    var cells := Cells(rows, levels, base);
    assert (cells + [Full(v)])[..|cells|] == cells;
  }

  function Numbers(from: nat, n: nat): (r: seq<int>)
    ensures |r| == n
  {
    seq(n, k => from + k)
  }

  function Bits<V>(values: seq<Value<V>>): (r: seq<V>)
    ensures |r| == |values|
  {
    seq(|values|, k requires 0 <= k < |values| => values[k].bits)
  }

  function Levels(n: nat, max: nat): (r: seq<nat>)
    ensures |r| == n
  {
    seq(n, _ => max)
  }

  /** A run of values, numbered from the end of the base column. */
  lemma {:induction false} RunAppends<V>(rows: seq<int>, levels: seq<nat>, base: seq<V>, max: nat, values: seq<Value<V>>)
    requires Maps(rows, levels, base, max)
    requires forall k :: 0 <= k < |values| ==> values[k].definitionLevel == max
    ensures
      var n := |values|;
      var rows', levels', base' := rows + Numbers(|base|, n), levels + Levels(n, max), base + Bits(values);
      && Maps(rows', levels', base', max)
      && Cells(rows', levels', base') == Cells(rows, levels, base) + CellsOf(max, values)
      && Dense(Cells(rows, levels, base) + CellsOf(max, values)) == Dense(Cells(rows, levels, base)) + Bits(values)
  {
    hide Maps, Cells, Dense;
    MapsSize(rows, levels, base, max);
    if values == [] {
      assert rows + Numbers(|base|, 0) == rows && levels + Levels(0, max) == levels && base + Bits(values) == base;
      assert Cells(rows, levels, base) + CellsOf(max, values) == Cells(rows, levels, base);
      assert Dense(Cells(rows, levels, base)) + Bits(values) == Dense(Cells(rows, levels, base));
    } else {
      var n := |values| - 1;
      var init, v := values[..n], values[n].bits;
      RunAppends(rows, levels, base, max, init);
      var rows', levels', base' := rows + Numbers(|base|, n), levels + Levels(n, max), base + Bits(init);
      MapsSize(rows', levels', base', max);
      FullAppends(rows', levels', base', max, v);
      RunSnoc(rows, levels, base, max, values);
      var cells := Cells(rows, levels, base);
      assert cells + CellsOf(max, values) == cells + CellsOf(max, init) + [Full(v)];
      assert Dense(cells) + Bits(values) == Dense(cells) + Bits(init) + [v];
    }
  }

  lemma MapsSize<V>(rows: seq<int>, levels: seq<nat>, base: seq<V>, max: nat)
    requires Maps(rows, levels, base, max)
    ensures |rows| == |levels|
  {
  }

  lemma RunSnoc<V>(rows: seq<int>, levels: seq<nat>, base: seq<V>, max: nat, values: seq<Value<V>>)
    requires values != [] && values[|values| - 1].definitionLevel == max
    ensures var n := |values| - 1;
      && rows + Numbers(|base|, n + 1) == rows + Numbers(|base|, n) + [|base| + n]
      && levels + Levels(n + 1, max) == levels + Levels(n, max) + [max]
      && base + Bits(values) == base + Bits(values[..n]) + [values[n].bits]
      && CellsOf(max, values) == CellsOf(max, values[..n]) + [Full(values[n].bits)]
  {
  }

  lemma SwapMaps<V>(rows: seq<int>, levels: seq<nat>, base: seq<V>, max: nat, i: nat, j: nat)
    requires Maps(rows, levels, base, max) && i < |rows| && j < |rows|
    ensures Maps(SwapAt(rows, i, j), SwapAt(levels, i, j), base, max)
    ensures Cells(SwapAt(rows, i, j), SwapAt(levels, i, j), base) == SwapAt(Cells(rows, levels, base), i, j)
  {
    hide Rank, Cells;
    var r := SwapAt(rows, i, j);
    forall a | 0 <= a < |base| ensures HasRow(r, a) {
      var k := RowOf(rows, a);
      assert r[if k == i then j else if k == j then i else k] == a;
    }
    SwapRank(rows, i, j);
    SwapCells(rows, levels, base, i, j);
  }

  lemma SwapCells<V>(rows: seq<int>, levels: seq<nat>, base: seq<V>, i: nat, j: nat)
    requires |rows| == |levels| && i < |rows| && j < |rows|
    ensures Cells(SwapAt(rows, i, j), SwapAt(levels, i, j), base) == SwapAt(Cells(rows, levels, base), i, j)
  {
  }

  lemma SwapRank(rows: seq<int>, i: nat, j: nat)
    requires i < |rows| && j < |rows|
    ensures Rank(SwapAt(rows, i, j), |rows|) == Rank(rows, |rows|)
  {
    if i < j {
      RankSwap(rows, i, j, |rows|);
    } else if j < i {
      RankSwap(rows, j, i, |rows|);
      assert SwapAt(rows, i, j) == SwapAt(rows, j, i);
    } else {
      assert SwapAt(rows, i, j) == rows;
    }
  }

  function One(row: int): int {
    if row >= 0 then 1 else 0
  }

  lemma {:induction false} RankSwap(rows: seq<int>, i: nat, j: nat, k: nat)
    requires i < j < |rows| && k <= |rows|
    ensures Rank(SwapAt(rows, i, j), k) == Rank(rows, k) + if i < k <= j then One(rows[j]) - One(rows[i]) else 0
  {
    if k > 0 {
      RankSwap(rows, i, j, k - 1);
    }
  }
}
