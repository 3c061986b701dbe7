/** Re-encoding the levels of a column when its path is made more permissive. */
module ConvertLevels {
  import opened FieldRepetition
  import opened Options

  type Path = seq<Repetition>

  // ----- nested values and their encoding -----

  /** What one row holds under a column path. A required node adds nothing to what it contains. */
  datatype Nested<V> = Leaf(value: V) | Absent | Present(inner: Nested<V>) | List(items: seq<Nested<V>>)

  ghost predicate Conforms<V>(path: Path, n: Nested<V>)
    decreases |path|
  {
    if path == [] then n.Leaf?
    else match path[0]
      case Required => Conforms(path[1..], n)
      case Optional => n.Absent? || (n.Present? && Conforms(path[1..], n.inner))
      case Repeated => n.List? && forall i :: 0 <= i < |n.items| ==> Conforms(path[1..], n.items[i])
  }

  /** A value of a column with its levels. */
  datatype Value<V> = Value(repetitionLevel: nat, definitionLevel: nat, data: Option<V>)

  /**
   * The values that encode `n` below a node with definition level `d` and repetition level `depth`; the first of them
   * has repetition level `r`.
   */
  ghost function Shred<V>(path: Path, n: Nested<V>, r: nat, d: nat, depth: nat): (vs: seq<Value<V>>)
    requires Conforms(path, n)
    ensures |vs| > 0
    decreases |path|, 1, 0
  {
    if path == [] then [Value(r, d, Some(n.value))]
    else match path[0]
      case Required => Shred(path[1..], n, r, d, depth)
      case Optional => if n.Absent? then [Value(r, d, None)] else Shred(path[1..], n.inner, r, d + 1, depth)
      case Repeated =>
        if n.items == [] then [Value(r, d, None)]
        else ShredItems(path[1..], n.items, r, d + 1, depth + 1)
  }

  /** The items of a list; all but the first repeat at the level of the list. */
  ghost function ShredItems<V>(path: Path, items: seq<Nested<V>>, r: nat, d: nat, depth: nat): (vs: seq<Value<V>>)
    requires items != [] && forall i :: 0 <= i < |items| ==> Conforms(path, items[i])
    ensures |vs| > 0
    decreases |path|, 2, |items|
  {
    var first := Shred(path, items[0], r, d, depth);
    if |items| == 1 then first else first + ShredItems(path, items[1..], depth, d, depth)
  }

  // ----- the level tables -----

  datatype Kind = RepetitionLevels | DefinitionLevels

  function Inc(kind: Kind, t: Repetition): nat {
    match t
    case Required => 0
    case Optional => if kind.DefinitionLevels? then 1 else 0
    case Repeated => 1
  }

  function MaxLevel(kind: Kind, path: Path): nat {
    if path == [] then 0 else Inc(kind, path[0]) + MaxLevel(kind, path[1..])
  }

  /** The target level of each source level, where the target is at level `level` above the paths. */
  function Table(kind: Kind, from: Path, to: Path, level: nat): (t: seq<nat>)
    requires |from| == |to|
    ensures |t| == MaxLevel(kind, from) + 1
  {
    if from == [] then [level]
    else
      var below := Table(kind, from[1..], to[1..], level + Inc(kind, to[0]));
      if Inc(kind, from[0]) == 0 then below else [level] + below
  }

  /** The table with the target level of the deepest source level replaced, or of a new one added. */
  function Grown(table: seq<nat>, inc: nat, level: nat): seq<nat>
    requires |table| > 0
  {
    if inc == 0 then table[|table| - 1 := level] else table + [level]
  }

  /** One more node at the end of the paths. */
  lemma {:induction false} TableSnoc(kind: Kind, from: Path, to: Path, level: nat, f: Repetition, t: Repetition)
    requires |from| == |to|
    ensures
      Table(kind, from + [f], to + [t], level)
        == Grown(Table(kind, from, to, level), Inc(kind, f), level + MaxLevel(kind, to) + Inc(kind, t))
  {
    hide Inc, Table, MaxLevel;
    TableOf(kind, from, to, level);
    TableOf(kind, from + [f], to + [t], level);
    if from == [] {
      assert [f][1..] == [] && [t][1..] == [] && from + [f] == [f] && to + [t] == [t];
      TableOf(kind, [], [], level + Inc(kind, t));
    } else {
      assert (from + [f])[1..] == from[1..] + [f] && (to + [t])[1..] == to[1..] + [t];
      TableSnoc(kind, from[1..], to[1..], level + Inc(kind, to[0]), f, t);
      GrownTail(level, Table(kind, from[1..], to[1..], level + Inc(kind, to[0])), Inc(kind, f),
        level + MaxLevel(kind, to) + Inc(kind, t));
    }
  }

  lemma TableOf(kind: Kind, from: Path, to: Path, level: nat)
    requires |from| == |to|
    ensures from == [] ==> Table(kind, from, to, level) == [level] && MaxLevel(kind, to) == 0
    ensures from != [] ==>
      && MaxLevel(kind, to) == Inc(kind, to[0]) + MaxLevel(kind, to[1..])
      && var below := Table(kind, from[1..], to[1..], level + Inc(kind, to[0]));
         Table(kind, from, to, level) == if Inc(kind, from[0]) == 0 then below else [level] + below
  {
  }

  lemma GrownTail(level: nat, below: seq<nat>, inc: nat, x: nat)
    requires |below| > 0
    ensures [level] + Grown(below, inc, x) == Grown([level] + below, inc, x)
  {
  }

  lemma {:induction false} MaxLevelSnoc(kind: Kind, path: Path, t: Repetition)
    ensures MaxLevel(kind, path + [t]) == MaxLevel(kind, path) + Inc(kind, t)
  {
    if path == [] {
      assert path + [t] == [t] && [t][1..] == [];
    } else {
      assert (path + [t])[1..] == path[1..] + [t];
      MaxLevelSnoc(kind, path[1..], t);
    }
  }

  /** The level of the first `j` nodes of a path, and the table they give so far. */
  ghost predicate TableAt(kind: Kind, from: Path, to: Path, j: nat, levels: seq<nat>, source: nat, target: nat) {
    && j <= |from| == |to| && |levels| == |to| + 1
    && source == MaxLevel(kind, from[..j]) <= j && target == MaxLevel(kind, to[..j])
    && levels[..source + 1] == Table(kind, from[..j], to[..j], 0)
  }

  lemma TableStarts(kind: Kind, from: Path, to: Path, levels: seq<nat>)
    requires |from| == |to| && levels == seq(|to| + 1, _ => 0)
    ensures TableAt(kind, from, to, 0, levels, 0, 0)
  {
  }

  lemma LevelsAt(kind: Kind, from: Path, to: Path, j: nat, levels: seq<nat>, source: nat, target: nat)
    requires TableAt(kind, from, to, j, levels, source, target)
    ensures source == MaxLevel(kind, from[..j]) && target == MaxLevel(kind, to[..j])
    ensures source < |levels|
    ensures j == |to| ==> levels[..source + 1] == Table(kind, from, to, 0)
  {
    if j == |to| {
      assert from[..j] == from && to[..j] == to;
    }
  }

  lemma TableGrows(kind: Kind, from: Path, to: Path, j: nat, levels: seq<nat>, source: nat, target: nat)
    requires TableAt(kind, from, to, j, levels, source, target) && j < |to|
    ensures var source', target' := source + Inc(kind, from[j]), target + Inc(kind, to[j]);
      source' < |levels| && TableAt(kind, from, to, j + 1, levels[source' := target'], source', target')
  {
    hide MaxLevel, Table;
    assert from[..j + 1] == from[..j] + [from[j]] && to[..j + 1] == to[..j] + [to[j]];
    TableSnoc(kind, from[..j], to[..j], 0, from[j], to[j]);
    MaxLevelSnoc(kind, from[..j], from[j]);
    MaxLevelSnoc(kind, to[..j], to[j]);
    var source', target' := source + Inc(kind, from[j]), target + Inc(kind, to[j]);
    assert levels[source' := target'][..source' + 1] == Grown(levels[..source + 1], Inc(kind, from[j]), target');
  }

  /** No level of a prefix of the path overflows a byte. */
  lemma FitsByte(path: Path, j: nat, repetitionLevel: nat, definitionLevel: nat)
    requires j < |path| && MaxLevel(DefinitionLevels, path) <= MAX_LEVEL
    requires repetitionLevel == MaxLevel(RepetitionLevels, path[..j])
    requires definitionLevel == MaxLevel(DefinitionLevels, path[..j])
    ensures ApplyFieldRepetitionType(path[j], repetitionLevel, definitionLevel)
      == (repetitionLevel + Inc(RepetitionLevels, path[j]), definitionLevel + Inc(DefinitionLevels, path[j]))
  {
    assert path[..j + 1] == path[..j] + [path[j]];
    MaxLevelSnoc(RepetitionLevels, path[..j], path[j]);
    MaxLevelSnoc(DefinitionLevels, path[..j], path[j]);
    PrefixLevel(RepetitionLevels, path, j + 1);
    PrefixLevel(DefinitionLevels, path, j + 1);
    FewerRepetitions(path);
  }

  lemma {:induction false} FewerRepetitions(path: Path)
    ensures MaxLevel(RepetitionLevels, path) <= MaxLevel(DefinitionLevels, path)
  {
    if path != [] {
      FewerRepetitions(path[1..]);
    }
  }

  /** Fills the level tables of a column, walking both paths from the root. */
  method LevelTables(to: Path, from: Path) returns (repetitionLevels: seq<nat>, definitionLevels: seq<nat>)
    requires |to| == |from|
    requires MaxLevel(DefinitionLevels, to) <= MAX_LEVEL && MaxLevel(DefinitionLevels, from) <= MAX_LEVEL
    ensures repetitionLevels == Table(RepetitionLevels, from, to, 0)
    ensures definitionLevels == Table(DefinitionLevels, from, to, 0)
  {
    hide MaxLevel, Table, TableAt, Inc, ByteAdd, ApplyFieldRepetitionType;
    repetitionLevels, definitionLevels := seq(|to| + 1, _ => 0), seq(|to| + 1, _ => 0);
    TableStarts(RepetitionLevels, from, to, repetitionLevels);
    TableStarts(DefinitionLevels, from, to, definitionLevels);
    var target: (nat, nat), source: (nat, nat) := (0, 0), (0, 0);
    for j := 0 to |to|
      invariant TableAt(RepetitionLevels, from, to, j, repetitionLevels, source.0, target.0)
      invariant TableAt(DefinitionLevels, from, to, j, definitionLevels, source.1, target.1)
    {
      LevelsAt(RepetitionLevels, from, to, j, repetitionLevels, source.0, target.0);
      LevelsAt(DefinitionLevels, from, to, j, definitionLevels, source.1, target.1);
      FitsByte(to, j, target.0, target.1);
      FitsByte(from, j, source.0, source.1);
      TableGrows(RepetitionLevels, from, to, j, repetitionLevels, source.0, target.0);
      TableGrows(DefinitionLevels, from, to, j, definitionLevels, source.1, target.1);
      target := ApplyFieldRepetitionType(to[j], target.0, target.1);
      source := ApplyFieldRepetitionType(from[j], source.0, source.1);
      repetitionLevels := repetitionLevels[source.0 := target.0];
      definitionLevels := definitionLevels[source.1 := target.1];
    }
    LevelsAt(RepetitionLevels, from, to, |to|, repetitionLevels, source.0, target.0);
    LevelsAt(DefinitionLevels, from, to, |to|, definitionLevels, source.1, target.1);
    return repetitionLevels[..source.0 + 1], definitionLevels[..source.1 + 1];
  }

  lemma {:induction false} PrefixLevel(kind: Kind, path: Path, n: nat)
    requires n <= |path|
    ensures MaxLevel(kind, path[..n]) <= MaxLevel(kind, path)
  {
    if n > 0 {
      assert path[..n][1..] == path[1..][..n - 1];
      PrefixLevel(kind, path[1..], n - 1);
    }
  }

  // ----- paths that are at least as permissive -----

  /** Each node of `to` admits what the node of `from` does, and they repeat at the same nodes. */
  ghost predicate Permits(from: Path, to: Path) {
    && |from| == |to|
    && forall j :: 0 <= j < |from| ==> (from[j] == to[j] || (from[j].Required? && to[j].Optional?))
  }

  /** Both paths repeat at the same nodes. */
  ghost predicate SameRepeats(from: Path, to: Path) {
    |from| == |to| && forall j :: 0 <= j < |from| ==> (from[j].Repeated? <==> to[j].Repeated?)
  }

  /** The same nested value under the more permissive path: what was required is present. */
  ghost function Widen<V>(from: Path, to: Path, n: Nested<V>): (w: Nested<V>)
    requires Permits(from, to) && Conforms(from, n)
    ensures Conforms(to, w)
    decreases |from|
  {
    if from == [] then n
    else match from[0]
      case Required =>
        var below := Widen(from[1..], to[1..], n);
        if to[0].Optional? then Present(below) else below
      case Optional => if n.Absent? then n else Present(Widen(from[1..], to[1..], n.inner))
      case Repeated => List(seq(|n.items|, i requires 0 <= i < |n.items| => Widen(from[1..], to[1..], n.items[i])))
  }

  /** Table entries rise by one or more from each source level to the next, up to the largest target level. */
  lemma {:induction false} TableRises(kind: Kind, from: Path, to: Path, level: nat)
    requires Permits(from, to)
    ensures var t := Table(kind, from, to, level);
      && t[|t| - 1] == level + MaxLevel(kind, to)
      && t[0] >= level
      && forall k :: 0 <= k < |t| - 1 ==> t[k] < t[k + 1]
  {
    if from != [] {
      Below(from, to);
      TableRises(kind, from[1..], to[1..], level + Inc(kind, to[0]));
    }
  }

  lemma Below(from: Path, to: Path)
    requires Permits(from, to) && from != []
    ensures Permits(from[1..], to[1..])
  {
    forall j | 0 <= j < |from| - 1 ensures from[1..][j] == to[1..][j] || (from[1..][j].Required? && to[1..][j].Optional?) {
      assert from[j + 1] == to[j + 1] || (from[j + 1].Required? && to[j + 1].Optional?);
    }
  }

  lemma {:induction false} RisesBy(t: seq<nat>, j: nat, k: nat)
    requires j <= k < |t| && forall i :: 0 <= i < |t| - 1 ==> t[i] < t[i + 1]
    ensures t[j] + (k - j) <= t[k]
    decreases k - j
  {
    if j < k {
      RisesBy(t, j, k - 1);
      assert t[k - 1] < t[k - 1 + 1];
    }
  }

  /** The definition levels keep their order, the largest goes to the largest, and repetition levels do not change. */
  lemma TableIsMonotone(from: Path, to: Path, j: nat, k: nat)
    requires Permits(from, to) && j < k <= MaxLevel(DefinitionLevels, from)
    ensures var t := Table(DefinitionLevels, from, to, 0);
      t[j] < t[k] && k <= t[k] && t[MaxLevel(DefinitionLevels, from)] == MaxLevel(DefinitionLevels, to)
  {
    TableRises(DefinitionLevels, from, to, 0);
    RisesBy(Table(DefinitionLevels, from, to, 0), j, k);
    RisesBy(Table(DefinitionLevels, from, to, 0), 0, k);
  }

  /** Each level is mapped to itself, counting from `level`. */
  ghost predicate Direct(t: seq<nat>, level: nat) {
    forall k :: 0 <= k < |t| ==> t[k] == level + k
  }

  lemma DirectTail(t: seq<nat>, level: nat, x: nat)
    ensures Direct([x] + t, level) <==> x == level && Direct(t, level + 1)
  {
    var xt := [x] + t;
    if Direct(xt, level) {
      assert xt[0] == level;
      forall k | 0 <= k < |t| ensures t[k] == level + 1 + k {
        assert xt[k + 1] == t[k];
      }
    }
  }

  lemma {:induction false} RepetitionsStay(from: Path, to: Path, level: nat)
    requires SameRepeats(from, to)
    ensures Direct(Table(RepetitionLevels, from, to, level), level)
  {
    if from != [] {
      assert from[0].Repeated? <==> to[0].Repeated?;
      var below := level + Inc(RepetitionLevels, to[0]);
      RepetitionsStay(from[1..], to[1..], below);
      DirectTail(Table(RepetitionLevels, from[1..], to[1..], below), level, level);
    }
  }

  /** A table leaves all levels as they are exactly when the paths are the same. */
  lemma {:induction false} IdentityTable(from: Path, to: Path, level: nat)
    requires Permits(from, to)
    ensures Direct(Table(DefinitionLevels, from, to, level), level) <==> from == to
  {
    if from != [] {
      hide Table, Direct, MaxLevel, Permits;
      Below(from, to);
      var below := level + Inc(DefinitionLevels, to[0]);
      var t := Table(DefinitionLevels, from[1..], to[1..], below);
      TableOf(DefinitionLevels, from, to, level);
      IdentityTable(from[1..], to[1..], below);
      TableRises(DefinitionLevels, from[1..], to[1..], below);
      DirectTail(t, level, level);
      FirstNodes(from, to);
      if from[0] != to[0] {
        assert t[0] > level;
        if Direct(t, level) {
          StartsAt(t, level);
        }
      }
    }
  }

  lemma StartsAt(t: seq<nat>, level: nat)
    requires |t| > 0 && Direct(t, level)
    ensures t[0] == level
  {
  }

  lemma FirstNodes(from: Path, to: Path)
    requires Permits(from, to) && from != []
    ensures from == to <==> from[0] == to[0] && from[1..] == to[1..]
    ensures from[0] == to[0] || (from[0].Required? && to[0].Optional?)
  {
    assert from == [from[0]] + from[1..] && to == [to[0]] + to[1..];
  }

  // ----- the tables re-encode the nested value -----

  /** A value with its levels looked up; values whose levels have no entry become the zero value. */
  function MapValue<V>(reps: seq<nat>, defs: seq<nat>, v: Value<V>): Value<V> {
    if v.repetitionLevel >= |reps| || v.definitionLevel >= |defs| then Value(0, 0, None)
    else Value(reps[v.repetitionLevel], defs[v.definitionLevel], v.data)
  }

  ghost function MapValues<V>(reps: seq<nat>, defs: seq<nat>, vs: seq<Value<V>>): (r: seq<Value<V>>)
    ensures |r| == |vs|
  {
    seq(|vs|, i requires 0 <= i < |vs| => MapValue(reps, defs, vs[i]))
  }

  lemma MapConcat<V>(reps: seq<nat>, defs: seq<nat>, a: seq<Value<V>>, b: seq<Value<V>>)
    ensures MapValues(reps, defs, a + b) == MapValues(reps, defs, a) + MapValues(reps, defs, b)
  {
  }

  /** The whole tables, seen from a node with source level `d` and target level `level`. */
  ghost predicate TablesFrom(reps: seq<nat>, defs: seq<nat>, from: Path, to: Path, d: nat, level: nat, depth: nat)
    requires |from| == |to|
  {
    && d + MaxLevel(DefinitionLevels, from) + 1 == |defs| && defs[d..] == Table(DefinitionLevels, from, to, level)
    && depth + MaxLevel(RepetitionLevels, from) + 1 == |reps|
    && forall k :: 0 <= k < |reps| ==> reps[k] == k
  }

  /** Mapping the levels of an encoded value through the tables encodes the same value under the target path. */
  lemma {:induction false} MapsShredded<V>(
      reps: seq<nat>, defs: seq<nat>, from: Path, to: Path, n: Nested<V>, r: nat, d: nat, level: nat, depth: nat)
    requires Permits(from, to) && Conforms(from, n) && r <= depth
    requires TablesFrom(reps, defs, from, to, d, level, depth)
    ensures MapValues(reps, defs, Shred(from, n, r, d, depth)) == Shred(to, Widen(from, to, n), r, level, depth)
    decreases |from|, 1, 0
  {
    if from == [] {
      assert defs[d..][0] == level;
    } else {
      Below(from, to);
      var below := Table(DefinitionLevels, from[1..], to[1..], level + Inc(DefinitionLevels, to[0]));
      if from[0].Required? {
        MapsShredded(reps, defs, from[1..], to[1..], n, r, d, level + Inc(DefinitionLevels, to[0]), depth);
      } else {
        assert defs[d..] == [level] + below;
        assert defs[d..][0] == level && defs[d + 1..] == defs[d..][1..] == below;
        if from[0].Optional? && n.Present? {
          MapsShredded(reps, defs, from[1..], to[1..], n.inner, r, d + 1, level + 1, depth);
        } else if from[0].Repeated? && n.items != [] {
          MapsItems(reps, defs, from[1..], to[1..], n.items, Widen(from, to, n).items, r, d + 1, level + 1, depth + 1);
        }
      }
    }
  }

  lemma {:induction false} MapsItems<V>(
      reps: seq<nat>, defs: seq<nat>, from: Path, to: Path, items: seq<Nested<V>>, wide: seq<Nested<V>>, r: nat, d: nat,
      level: nat, depth: nat)
    requires Permits(from, to) && items != [] && |wide| == |items| && r <= depth
    requires forall i :: 0 <= i < |items| ==>
      Conforms(from, items[i]) && Conforms(to, wide[i]) && wide[i] == Widen(from, to, items[i])
    requires TablesFrom(reps, defs, from, to, d, level, depth)
    ensures MapValues(reps, defs, ShredItems(from, items, r, d, depth)) == ShredItems(to, wide, r, level, depth)
    decreases |from|, 2, |items|
  {
    MapsShredded(reps, defs, from, to, items[0], r, d, level, depth);
    if |items| > 1 {
      MapsItems(reps, defs, from, to, items[1..], wide[1..], depth, d, level, depth);
      MapConcat(reps, defs, Shred(from, items[0], r, d, depth), ShredItems(from, items[1..], depth, d, depth));
    }
  }

  // ----- reading encoded values back -----

  /** Where the next item of a list at level `depth` begins. */
  ghost function NextItem<V>(vs: seq<Value<V>>, depth: nat, from: nat): (k: nat)
    requires from <= |vs|
    ensures from <= k <= |vs|
    ensures forall i :: from <= i < k ==> vs[i].repetitionLevel > depth
    ensures k < |vs| ==> vs[k].repetitionLevel <= depth
    decreases |vs| - from
  {
    if from == |vs| || vs[from].repetitionLevel <= depth then from else NextItem(vs, depth, from + 1)
  }

  /** The nested value that a row's values encode. */
  ghost function Assemble<V>(path: Path, vs: seq<Value<V>>, d: nat, depth: nat): Nested<V>
    requires |vs| > 0
    decreases |path|, 1, 0
  {
    if path == [] then if vs[0].data.Some? then Leaf(vs[0].data.value) else Absent
    else match path[0]
      case Required => Assemble(path[1..], vs, d, depth)
      case Optional => if vs[0].definitionLevel <= d then Absent else Present(Assemble(path[1..], vs, d + 1, depth))
      case Repeated =>
        if vs[0].definitionLevel <= d then List([]) else List(AssembleItems(path[1..], vs, d + 1, depth + 1))
  }

  ghost function AssembleItems<V>(path: Path, vs: seq<Value<V>>, d: nat, depth: nat): (items: seq<Nested<V>>)
    requires |vs| > 0
    ensures |items| > 0
    decreases |path|, 2, |vs|
  {
    var k := NextItem(vs, depth, 1);
    [Assemble(path, vs[..k], d, depth)] + if k == |vs| then [] else AssembleItems(path, vs[k..], d, depth)
  }

  /** Below a node, only the first value may repeat at its level or above, and definition levels are no smaller. */
  lemma {:induction false} ShredLevels<V>(path: Path, n: Nested<V>, r: nat, d: nat, depth: nat)
    requires Conforms(path, n)
    ensures var vs := Shred(path, n, r, d, depth);
      && vs[0].repetitionLevel == r
      && (forall i :: 0 < i < |vs| ==> vs[i].repetitionLevel > depth)
      && (forall i :: 0 <= i < |vs| ==> vs[i].definitionLevel >= d)
    decreases |path|, 1, 0
  {
    if path != [] {
      match path[0]
      case Required => ShredLevels(path[1..], n, r, d, depth);
      case Optional =>
        if n.Present? {
          ShredLevels(path[1..], n.inner, r, d + 1, depth);
        }
      case Repeated =>
        if n.items != [] {
          ItemLevels(path[1..], n.items, r, d + 1, depth + 1);
        }
    }
  }

  lemma {:induction false} ItemLevels<V>(path: Path, items: seq<Nested<V>>, r: nat, d: nat, depth: nat)
    requires items != [] && forall i :: 0 <= i < |items| ==> Conforms(path, items[i])
    ensures var vs := ShredItems(path, items, r, d, depth);
      && vs[0].repetitionLevel == r
      && (forall i :: 0 < i < |vs| ==> vs[i].repetitionLevel >= depth)
      && (forall i :: 0 <= i < |vs| ==> vs[i].definitionLevel >= d)
    decreases |path|, 2, |items|
  {
    ShredLevels(path, items[0], r, d, depth);
    if |items| > 1 {
      ItemLevels(path, items[1..], depth, d, depth);
    }
  }

  /** Assembling what a nested value was encoded to gives the nested value back. */
  lemma {:induction false} ShredRoundTrip<V>(path: Path, n: Nested<V>, r: nat, d: nat, depth: nat)
    requires Conforms(path, n)
    ensures Assemble(path, Shred(path, n, r, d, depth), d, depth) == n
    decreases |path|, 1, 0
  {
    if path != [] {
      match path[0]
      case Required => ShredRoundTrip(path[1..], n, r, d, depth);
      case Optional =>
        if n.Present? {
          ShredLevels(path[1..], n.inner, r, d + 1, depth);
          ShredRoundTrip(path[1..], n.inner, r, d + 1, depth);
        }
      case Repeated =>
        if n.items != [] {
          ItemLevels(path[1..], n.items, r, d + 1, depth + 1);
          ItemsRoundTrip(path[1..], n.items, r, d + 1, depth + 1);
        }
    }
  }

  lemma {:induction false} ItemsRoundTrip<V>(path: Path, items: seq<Nested<V>>, r: nat, d: nat, depth: nat)
    requires items != [] && forall i :: 0 <= i < |items| ==> Conforms(path, items[i])
    ensures AssembleItems(path, ShredItems(path, items, r, d, depth), d, depth) == items
    decreases |path|, 2, |items|
  {
    hide Shred, Assemble, AssembleItems, Conforms;
    var first := Shred(path, items[0], r, d, depth);
    ShredLevels(path, items[0], r, d, depth);
    ShredRoundTrip(path, items[0], r, d, depth);
    if |items| == 1 {
      FirstItem(path, first, [], d, depth);
      assert first + [] == first && items == [items[0]];
    } else {
      var rest := ShredItems(path, items[1..], depth, d, depth);
      ItemLevels(path, items[1..], depth, d, depth);
      ItemsRoundTrip(path, items[1..], depth, d, depth);
      FirstItem(path, first, rest, d, depth);
      assert items == [items[0]] + items[1..];
    }
  }

  /** The first item of a list ends where the next value repeats at the level of the list. */
  lemma FirstItem<V>(path: Path, first: seq<Value<V>>, rest: seq<Value<V>>, d: nat, depth: nat)
    requires |first| > 0 && forall i :: 0 < i < |first| ==> first[i].repetitionLevel > depth
    requires |rest| > 0 ==> rest[0].repetitionLevel <= depth
    ensures AssembleItems(path, first + rest, d, depth)
      == [Assemble(path, first, d, depth)] + if rest == [] then [] else AssembleItems(path, rest, d, depth)
  {
    hide Assemble;
    var vs := first + rest;
    assert |rest| > 0 ==> vs[|first|] == rest[0];
    assert NextItem(vs, depth, 1) == |first|;
    assert vs[..|first|] == first && vs[|first|..] == rest;
  }

  // ----- the conversion of a column -----

  method IsDirectLevelMapping(levels: seq<nat>) returns (direct: bool)
    requires |levels| <= MAX_LEVEL + 1
    ensures direct <==> forall k :: 0 <= k < |levels| ==> levels[k] == k
  {
    for i := 0 to |levels|
      invariant forall k :: 0 <= k < i ==> levels[k] == k
    {
      if levels[i] != i {
        return false;
      }
    }
    return true;
  }

  /** Looks up the levels of all values of a column, in place. */
  method ConvertToLevels<V>(column: array<Value<V>>, reps: seq<nat>, defs: seq<nat>)
    modifies column
    ensures column[..] == MapValues(reps, defs, old(column[..]))
    ensures forall k :: 0 <= k < column.Length ==>
      var r, d := old(column[k]).repetitionLevel, old(column[k]).definitionLevel;
      if r < |reps| && d < |defs| then column[k] == Value(reps[r], defs[d], old(column[k]).data)
      else column[k] == Value(0, 0, None)
  {
    for i := 0 to column.Length
      invariant forall k :: 0 <= k < i ==> column[k] == MapValue(reps, defs, old(column[k]))
      invariant forall k :: i <= k < column.Length ==> column[k] == old(column[k])
    {
      var v := column[i];
      if v.repetitionLevel >= |reps| || v.definitionLevel >= |defs| {
        column[i] := Value(0, 0, None);
      } else {
        column[i] := v.(repetitionLevel := reps[v.repetitionLevel], definitionLevel := defs[v.definitionLevel]);
      }
    }
  }

  /**
   * Converts one row of a column to a path that is at least as permissive. The conversion is left out only when the
   * paths are the same; the column then holds the encoding of the same nested value under the target path.
   */
  method ConvertColumn<V>(to: Path, from: Path, column: array<Value<V>>, ghost n: Nested<V>) returns (converted: bool)
    requires Permits(from, to) && Conforms(from, n) && column[..] == Shred(from, n, 0, 0, 0)
    requires MaxLevel(DefinitionLevels, to) <= MAX_LEVEL
    modifies column
    ensures column[..] == Shred(to, Widen(from, to, n), 0, 0, 0)
    ensures Assemble(to, column[..], 0, 0) == Widen(from, to, n)
    ensures converted <==> from != to
  {
    FewerLevels(from, to);
    FewerRepetitions(from);
    var reps, defs := LevelTables(to, from);
    RepetitionsStay(from, to, 0);
    IdentityTable(from, to, 0);
    assert defs[0..] == defs;
    MapsShredded(reps, defs, from, to, n, 0, 0, 0, 0);
    ShredRoundTrip(to, Widen(from, to, n), 0, 0, 0);
    var directReps := IsDirectLevelMapping(reps);
    var directDefs := IsDirectLevelMapping(defs);
    converted := !directReps || !directDefs;
    if converted {
      ConvertToLevels(column, reps, defs);
    } else {
      WidenSame(from, n);
    }
  }

  lemma {:induction false} FewerLevels(from: Path, to: Path)
    requires Permits(from, to)
    ensures MaxLevel(DefinitionLevels, from) <= MaxLevel(DefinitionLevels, to)
  {
    if from != [] {
      Below(from, to);
      FewerLevels(from[1..], to[1..]);
    }
  }

  /** Nothing is wrapped when the paths are the same. */
  lemma {:induction false} WidenSame<V>(path: Path, n: Nested<V>)
    requires Conforms(path, n)
    ensures Permits(path, path) && Widen(path, path, n) == n
    decreases |path|
  {
    if path != [] {
      match path[0]
      case Required => WidenSame(path[1..], n);
      case Optional =>
        if n.Present? {
          WidenSame(path[1..], n.inner);
        }
      case Repeated =>
        forall i | 0 <= i < |n.items| ensures Widen(path[1..], path[1..], n.items[i]) == n.items[i] {
          WidenSame(path[1..], n.items[i]);
        }
        assert Widen(path, path, n).items == n.items;
    }
  }

  // ----- when levels and nested values stay apart -----

  /** The target adds a level at source node `j`, or after it before the next source node that adds one. */
  ghost predicate Answered(from: Path, to: Path, j: nat)
    requires j < |from| == |to|
  {
    exists k :: j <= k < |to| && !to[k].Required? && forall m :: j < m <= k ==> from[m].Required?
  }

  ghost predicate LaterLevel(from: Path, j: nat) {
    exists l :: j < l < |from| && !from[l].Required?
  }

  /** Every source node that adds a level is answered in the target. */
  ghost predicate LevelsAnswered(from: Path, to: Path)
    requires |from| == |to|
  {
    forall j: nat :: j < |from| && !from[j].Required? ==> Answered(from, to, j)
  }

  /** So is every one but the last, below which there are only values that are not null. */
  ghost predicate NullsAnswered(from: Path, to: Path)
    requires |from| == |to|
  {
    forall j: nat :: j < |from| && !from[j].Required? && LaterLevel(from, j) ==> Answered(from, to, j)
  }

  /** The first `n` entries are strictly increasing. */
  ghost predicate Rising(t: seq<nat>, n: int)
    requires n <= |t|
  {
    forall k :: 0 <= k < n - 1 ==> t[k] < t[k + 1]
  }

  lemma RisingTail(t: seq<nat>, level: nat, n: nat)
    requires 0 < n <= |t|
    ensures Rising([level] + t, n + 1) <==> level < t[0] && Rising(t, n)
  {
    var lt := [level] + t;
    if Rising(lt, n + 1) {
      assert lt[0] < lt[0 + 1];
      forall k | 0 <= k < n - 1 ensures t[k] < t[k + 1] {
        assert lt[k + 1] < lt[k + 1 + 1];
      }
    }
  }

  /** The first entry exceeds the level above the paths exactly when the target adds a level before the source does. */
  lemma {:induction false} FirstEntry(from: Path, to: Path, level: nat)
    requires |from| == |to|
    ensures var t := Table(DefinitionLevels, from, to, level);
      && t[0] >= level
      && (t[0] > level <==> exists k :: 0 <= k < |to| && !to[k].Required? && forall m :: 0 <= m <= k ==> from[m].Required?)
  {
    if from != [] {
      var from', to', below := from[1..], to[1..], level + Inc(DefinitionLevels, to[0]);
      FirstEntry(from', to', below);
      if from[0].Required? {
        if k :| 0 <= k < |to'| && !to'[k].Required? && forall m :: 0 <= m <= k ==> from'[m].Required? {
          assert !to[k + 1].Required? && forall m :: 0 <= m <= k + 1 ==> from[m].Required? by {
            assert forall m :: 0 < m <= k + 1 ==> from[m] == from'[m - 1];
          }
        }
        if k :| 0 <= k < |to| && !to[k].Required? && forall m :: 0 <= m <= k ==> from[m].Required? {
          if k > 0 {
            assert !to'[k - 1].Required? && forall m :: 0 <= m <= k - 1 ==> from'[m].Required?;
          }
        }
      }
    }
  }

  lemma AnsweredFirst(from: Path, to: Path, level: nat)
    requires |from| == |to| > 0
    ensures Answered(from, to, 0) <==>
      Table(DefinitionLevels, from[1..], to[1..], level + Inc(DefinitionLevels, to[0]))[0] > level
  {
    var from', to' := from[1..], to[1..];
    FirstEntry(from', to', level + Inc(DefinitionLevels, to[0]));
    if !to[0].Required? {
      assert Answered(from, to, 0);
    } else {
      if k :| 0 <= k < |to| && !to[k].Required? && forall m :: 0 < m <= k ==> from[m].Required? {
        assert !to'[k - 1].Required? && forall m :: 0 <= m <= k - 1 ==> from'[m].Required?;
      }
      if k :| 0 <= k < |to'| && !to'[k].Required? && forall m :: 0 <= m <= k ==> from'[m].Required? {
        assert forall m :: 0 < m <= k + 1 ==> from[m] == from'[m - 1];
        assert !to[k + 1].Required?;
      }
    }
  }

  lemma AnsweredTail(from: Path, to: Path, j: nat)
    requires |from| == |to| && j + 1 < |from|
    ensures Answered(from, to, j + 1) <==> Answered(from[1..], to[1..], j)
    ensures LaterLevel(from, j + 1) <==> LaterLevel(from[1..], j)
  {
    var from', to' := from[1..], to[1..];
    if k :| j + 1 <= k < |to| && !to[k].Required? && forall m :: j + 1 < m <= k ==> from[m].Required? {
      assert !to'[k - 1].Required? && forall m :: j < m <= k - 1 ==> from'[m].Required?;
    }
    if k :| j <= k < |to'| && !to'[k].Required? && forall m :: j < m <= k ==> from'[m].Required? {
      assert forall m :: j + 1 < m <= k + 1 ==> from[m] == from'[m - 1];
      assert !to[k + 1].Required?;
    }
    if l :| j + 1 < l < |from| && !from[l].Required? {
      assert !from'[l - 1].Required?;
    }
    if l :| j < l < |from'| && !from'[l].Required? {
      assert !from[l + 1].Required?;
    }
  }

  lemma AnsweredSplits(from: Path, to: Path)
    requires |from| == |to| > 0
    ensures LevelsAnswered(from, to) <==>
      (from[0].Required? || Answered(from, to, 0)) && LevelsAnswered(from[1..], to[1..])
    ensures NullsAnswered(from, to) <==>
      (from[0].Required? || !LaterLevel(from, 0) || Answered(from, to, 0)) && NullsAnswered(from[1..], to[1..])
  {
    hide Answered, LaterLevel;
    forall j: nat | j + 1 < |from|
      ensures Answered(from, to, j + 1) <==> Answered(from[1..], to[1..], j)
      ensures LaterLevel(from, j + 1) <==> LaterLevel(from[1..], j)
    {
      AnsweredTail(from, to, j);
    }
  }

  lemma {:induction false} AnyLevel(from: Path)
    ensures MaxLevel(DefinitionLevels, from) > 0 <==> exists l :: 0 <= l < |from| && !from[l].Required?
  {
    if from != [] {
      AnyLevel(from[1..]);
      if l :| 0 <= l < |from[1..]| && !from[1..][l].Required? {
        assert !from[l + 1].Required?;
      }
      if l :| 0 <= l < |from| && !from[l].Required? {
        assert l > 0 ==> !from[1..][l - 1].Required?;
      }
    }
  }

  lemma LaterIsLevel(from: Path)
    requires from != []
    ensures LaterLevel(from, 0) <==> MaxLevel(DefinitionLevels, from[1..]) > 0
  {
    AnyLevel(from[1..]);
    if l :| 0 <= l < |from[1..]| && !from[1..][l].Required? {
      assert !from[l + 1].Required?;
    }
    if l :| 0 < l < |from| && !from[l].Required? {
      assert !from[1..][l - 1].Required?;
    }
  }

  /**
   * The definition levels stay apart exactly when the target answers every level of the source; those of nulls do
   * exactly when it answers all but the last.
   */
  lemma {:induction false} TableRisesExactly(from: Path, to: Path, level: nat)
    requires |from| == |to|
    ensures var t := Table(DefinitionLevels, from, to, level);
      && (Rising(t, |t|) <==> LevelsAnswered(from, to))
      && (Rising(t, |t| - 1) <==> NullsAnswered(from, to))
  {
    hide Answered, LaterLevel, LevelsAnswered, NullsAnswered, Table, MaxLevel, Rising;
    TableOf(DefinitionLevels, from, to, level);
    if from == [] {
      NothingToAnswer(from, to, Table(DefinitionLevels, from, to, level));
    } else {
      var below := Table(DefinitionLevels, from[1..], to[1..], level + Inc(DefinitionLevels, to[0]));
      TableRisesExactly(from[1..], to[1..], level + Inc(DefinitionLevels, to[0]));
      AnsweredSplits(from, to);
      AnsweredFirst(from, to, level);
      LaterIsLevel(from);
      if !from[0].Required? {
        RisingTail(below, level, |below|);
        if |below| > 1 {
          RisingTail(below, level, |below| - 1);
        } else {
          ShortIsRising([level] + below);
          ShortIsRising(below);
        }
      }
    }
  }

  lemma ShortIsRising(t: seq<nat>)
    ensures |t| > 0 ==> Rising(t, |t| - 1) || |t| > 2
  {
  }

  lemma NothingToAnswer(from: Path, to: Path, t: seq<nat>)
    requires from == to == [] && |t| == 1
    ensures LevelsAnswered(from, to) && NullsAnswered(from, to) && Rising(t, 1) && Rising(t, 0)
  {
  }

  /** What a nested value is converted to, whether or not the target path admits it. */
  ghost function Converted<V>(from: Path, to: Path, n: Nested<V>): seq<Value<V>>
    requires |from| == |to| && Conforms(from, n)
  {
    MapValues(Table(RepetitionLevels, from, to, 0), Table(DefinitionLevels, from, to, 0), Shred(from, n, 0, 0, 0))
  }

  /** Levels lie within the table, and the largest definition level is that of values that are not null. */
  ghost predicate LevelsOf<V>(path: Path, v: Value<V>, d: nat, depth: nat) {
    && v.repetitionLevel <= depth + MaxLevel(RepetitionLevels, path)
    && v.definitionLevel <= d + MaxLevel(DefinitionLevels, path)
    && (v.data.Some? <==> v.definitionLevel == d + MaxLevel(DefinitionLevels, path))
  }

  lemma {:induction false} ShredWithin<V>(path: Path, n: Nested<V>, r: nat, d: nat, depth: nat)
    requires Conforms(path, n) && r <= depth
    ensures forall v :: v in Shred(path, n, r, d, depth) ==> LevelsOf(path, v, d, depth)
    decreases |path|, 1, 0
  {
    if path != [] {
      match path[0]
      case Required => ShredWithin(path[1..], n, r, d, depth);
      case Optional =>
        if n.Present? {
          ShredWithin(path[1..], n.inner, r, d + 1, depth);
        }
      case Repeated =>
        if n.items != [] {
          ItemsWithin(path[1..], n.items, r, d + 1, depth + 1);
        }
    }
  }

  lemma {:induction false} ItemsWithin<V>(path: Path, items: seq<Nested<V>>, r: nat, d: nat, depth: nat)
    requires items != [] && r <= depth && forall i :: 0 <= i < |items| ==> Conforms(path, items[i])
    ensures forall v :: v in ShredItems(path, items, r, d, depth) ==> LevelsOf(path, v, d, depth)
    decreases |path|, 2, |items|
  {
    ShredWithin(path, items[0], r, d, depth);
    if |items| > 1 {
      ItemsWithin(path, items[1..], depth, d, depth);
    }
  }

  /** A nested value whose encoding is one null with the given definition level, present down to there. */
  ghost function NullAt<V>(path: Path, level: nat): (n: Nested<V>)
    requires level < MaxLevel(DefinitionLevels, path)
    ensures Conforms(path, n)
    decreases |path|
  {
    match path[0]
    case Required => NullAt(path[1..], level)
    case Optional => if level == 0 then Absent else Present(NullAt(path[1..], level - 1))
    case Repeated => if level == 0 then List([]) else List([NullAt(path[1..], level - 1)])
  }

  lemma {:induction false} NullIsShredded<V>(path: Path, level: nat, r: nat, d: nat, depth: nat)
    requires level < MaxLevel(DefinitionLevels, path)
    ensures Shred<V>(path, NullAt(path, level), r, d, depth) == [Value(r, d + level, None)]
    decreases |path|
  {
    match path[0]
    case Required => NullIsShredded<V>(path[1..], level, r, d, depth);
    case Optional =>
      if level > 0 {
        NullIsShredded<V>(path[1..], level - 1, r, d + 1, depth);
      }
    case Repeated =>
      if level > 0 {
        NullIsShredded<V>(path[1..], level - 1, r, d + 1, depth + 1);
      }
  }

  /** A value's levels can be told from the levels they are mapped to. */
  lemma MapsApart<V>(path: Path, reps: seq<nat>, defs: seq<nat>, v: Value<V>, w: Value<V>)
    requires LevelsOf(path, v, 0, 0) && LevelsOf(path, w, 0, 0)
    requires |reps| == MaxLevel(RepetitionLevels, path) + 1 && Direct(reps, 0)
    requires |defs| == MaxLevel(DefinitionLevels, path) + 1 && Rising(defs, |defs| - 1)
    requires MapValue(reps, defs, v) == MapValue(reps, defs, w)
    ensures v == w
  {
    var x, y := v.definitionLevel, w.definitionLevel;
    if v.data.None? && x != y {
      StaysBelow(defs, |defs| - 1, if x < y then x else y, if x < y then y else x);
    }
  }

  lemma {:induction false} StaysBelow(t: seq<nat>, n: nat, j: nat, k: nat)
    requires n <= |t| && Rising(t, n) && j < k < n
    ensures t[j] < t[k]
    decreases k - j
  {
    assert t[k - 1] < t[k - 1 + 1];
    if j < k - 1 {
      StaysBelow(t, n, j, k - 1);
    }
  }

  lemma ConvertsApart<V>(from: Path, to: Path, m: Nested<V>, n: Nested<V>)
    requires SameRepeats(from, to) && NullsAnswered(from, to)
    requires Conforms(from, m) && Conforms(from, n) && Converted(from, to, m) == Converted(from, to, n)
    ensures m == n
  {
    hide Shred, Conforms, Assemble, Table, MaxLevel, LevelsOf, MapValue, NullsAnswered, Rising, Direct;
    var reps, defs := Table(RepetitionLevels, from, to, 0), Table(DefinitionLevels, from, to, 0);
    var vs, ws := Shred(from, m, 0, 0, 0), Shred(from, n, 0, 0, 0);
    TableRisesExactly(from, to, 0);
    RepetitionsStay(from, to, 0);
    ShredWithin(from, m, 0, 0, 0);
    ShredWithin(from, n, 0, 0, 0);
    assert |vs| == |MapValues(reps, defs, vs)| == |ws|;
    forall i | 0 <= i < |vs| ensures vs[i] == ws[i] {
      assert MapValues(reps, defs, vs)[i] == MapValues(reps, defs, ws)[i];
      MapsApart(from, reps, defs, vs[i], ws[i]);
    }
    assert vs == ws;
    ShredRoundTrip(from, m, 0, 0, 0);
    ShredRoundTrip(from, n, 0, 0, 0);
  }

  /** Two nulls with levels that the table does not keep apart are converted to the same. */
  lemma NullsMeet<V>(from: Path, to: Path, k: nat)
    requires |from| == |to| && k + 1 < MaxLevel(DefinitionLevels, from)
    requires var t := Table(DefinitionLevels, from, to, 0); t[k] == t[k + 1]
    ensures NullAt<V>(from, k) != NullAt<V>(from, k + 1)
    ensures Converted(from, to, NullAt<V>(from, k)) == Converted(from, to, NullAt<V>(from, k + 1))
  {
    hide Table, MapValue;
    NullIsShredded<V>(from, k, 0, 0, 0);
    NullIsShredded<V>(from, k + 1, 0, 0, 0);
    MapNull<V>(Table(RepetitionLevels, from, to, 0), Table(DefinitionLevels, from, to, 0), k);
  }

  lemma MapNull<V>(reps: seq<nat>, defs: seq<nat>, k: nat)
    requires |reps| > 0 && k + 1 < |defs| && defs[k] == defs[k + 1]
    ensures MapValues<V>(reps, defs, [Value(0, k, None)]) == MapValues(reps, defs, [Value(0, k + 1, None)])
  {
  }

  lemma {:induction false} TableNeverFalls(from: Path, to: Path, level: nat)
    requires |from| == |to|
    ensures var t := Table(DefinitionLevels, from, to, level);
      t[0] >= level && forall k :: 0 <= k < |t| - 1 ==> t[k] <= t[k + 1]
  {
    if from != [] {
      TableNeverFalls(from[1..], to[1..], level + Inc(DefinitionLevels, to[0]));
    }
  }

  /**
   * Where both paths repeat at the same nodes, no two nested values are converted to the same encoding exactly when
   * the target answers every level of the source but the last. It need not admit all that the source does.
   */
  lemma ConversionLosesNothingExactly<V>(from: Path, to: Path)
    requires SameRepeats(from, to)
    ensures
      (forall m: Nested<V>, n: Nested<V> ::
        Conforms(from, m) && Conforms(from, n) && Converted(from, to, m) == Converted(from, to, n) ==> m == n)
      <==> NullsAnswered(from, to)
  {
    hide Table, Conforms, Converted, NullsAnswered, MaxLevel;
    if NullsAnswered(from, to) {
      forall m: Nested<V>, n: Nested<V> |
        Conforms(from, m) && Conforms(from, n) && Converted(from, to, m) == Converted(from, to, n) ensures m == n
      {
        ConvertsApart(from, to, m, n);
      }
    } else {
      TableRisesExactly(from, to, 0);
      TableNeverFalls(from, to, 0);
      var t := Table(DefinitionLevels, from, to, 0);
      var k :| 0 <= k < |t| - 2 && t[k] >= t[k + 1];
      NullsMeet<V>(from, to, k);
      var m, n := NullAt<V>(from, k), NullAt<V>(from, k + 1);
      assert Conforms(from, m) && Conforms(from, n);
    }
  }
}
