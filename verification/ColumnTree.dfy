/** Rebuilding the column tree of a file from its depth-first list of schema elements. */
module ColumnTree {
  import opened FieldRepetition

  const MAX_COLUMN_DEPTH := 255
  const MAX_COLUMN_INDEX := 65534
  const GROUP_INDEX := 65535

  /** A schema element; `numChildren` is 0 where the file leaves it out. */
  datatype SchemaElement = SchemaElement(name: string, repetition: Repetition, isLeaf: bool, numChildren: nat)

  // ----- schemas and their depth-first lists -----

  datatype Tree = Tree(element: SchemaElement, children: seq<Tree>)

  ghost predicate WellFormed(t: Tree) {
    && t.element.numChildren == |t.children|
    && (t.element.isLeaf ==> t.children == [])
    && forall i :: 0 <= i < |t.children| ==> WellFormed(t.children[i])
  }

  ghost predicate AllWellFormed(ts: seq<Tree>) {
    forall i :: 0 <= i < |ts| ==> WellFormed(ts[i])
  }

  ghost function Preorder(t: Tree): (elements: seq<SchemaElement>)
    ensures |elements| > 0
  {
    [t.element] + PreorderAll(t.children)
  }

  ghost function PreorderAll(ts: seq<Tree>): seq<SchemaElement> {
    if ts == [] then [] else Preorder(ts[0]) + PreorderAll(ts[1..])
  }

  ghost function Leaves(t: Tree): nat {
    if t.element.isLeaf then 1 else LeavesAll(t.children)
  }

  ghost function LeavesAll(ts: seq<Tree>): nat {
    if ts == [] then 0 else Leaves(ts[0]) + LeavesAll(ts[1..])
  }

  /** The lengths of all paths of a tree whose root is at depth `d`. */
  ghost function PathSegments(t: Tree, d: nat): nat {
    d + 1 + PathSegmentsAll(t.children, d + 1)
  }

  ghost function PathSegmentsAll(ts: seq<Tree>, d: nat): nat {
    if ts == [] then 0 else PathSegments(ts[0], d) + PathSegmentsAll(ts[1..], d)
  }

  // ----- sizing the slabs -----

  /** The open children of each ancestor after a node is complete: it closes every ancestor it was the last child of. */
  ghost function Close(remaining: seq<nat>): seq<nat> {
    if remaining == [] then []
    else
      var n := |remaining| - 1;
      if remaining[n] > 1 then remaining[n := remaining[n] - 1] else Close(remaining[..n])
  }

  ghost function Enter(remaining: seq<nat>, e: SchemaElement): seq<nat> {
    if e.numChildren > 0 then remaining + [e.numChildren] else Close(remaining)
  }

  /** What the walk over the rest of the list adds to the path lengths. */
  ghost function Walk(elements: seq<SchemaElement>, remaining: seq<nat>): nat {
    if elements == [] then 0
    else |remaining| + 1 + Walk(elements[1..], Enter(remaining, elements[0]))
  }

  lemma {:induction false} WalkTree(t: Tree, rest: seq<SchemaElement>, remaining: seq<nat>)
    requires WellFormed(t)
    ensures Walk(Preorder(t) + rest, remaining) == PathSegments(t, |remaining|) + Walk(rest, Close(remaining))
    decreases t, 1
  {
    var elements := Preorder(t) + rest;
    assert elements[1..] == PreorderAll(t.children) + rest;
    if t.children == [] {
      assert PreorderAll(t.children) + rest == rest;
    } else {
      WalkChildren(t.children, rest, remaining);
    }
  }

  lemma {:induction false} WalkChildren(ts: seq<Tree>, rest: seq<SchemaElement>, remaining: seq<nat>)
    requires AllWellFormed(ts) && ts != []
    ensures Walk(PreorderAll(ts) + rest, remaining + [|ts|]) == PathSegmentsAll(ts, |remaining| + 1) + Walk(rest, Close(remaining))
    decreases ts, 0
  {
    hide Walk, Preorder, PathSegments, Close;
    var open := remaining + [|ts|];
    var more := PreorderAll(ts[1..]) + rest;
    assert PreorderAll(ts) + rest == Preorder(ts[0]) + more;
    WalkTree(ts[0], more, open);
    CloseLast(remaining, |ts|);
    if |ts| > 1 {
      WalkChildren(ts[1..], rest, remaining);
    } else {
      assert more == rest;
    }
  }

  lemma CloseLast(remaining: seq<nat>, n: nat)
    ensures Close(remaining + [n]) == if n > 1 then remaining + [(n - 1) as nat] else Close(remaining)
  {
    assert (remaining + [n])[..|remaining|] == remaining;
  }

  lemma {:induction false} CountLeaves(t: Tree, rest: seq<SchemaElement>)
    requires WellFormed(t)
    ensures LeafCount(Preorder(t) + rest) == Leaves(t) + LeafCount(rest)
    decreases t, 1
  {
    assert (Preorder(t) + rest)[1..] == PreorderAll(t.children) + rest;
    CountChildLeaves(t.children, rest);
  }

  lemma {:induction false} CountChildLeaves(ts: seq<Tree>, rest: seq<SchemaElement>)
    requires AllWellFormed(ts)
    ensures LeafCount(PreorderAll(ts) + rest) == LeavesAll(ts) + LeafCount(rest)
    decreases ts, 0
  {
    if ts == [] {
      assert PreorderAll(ts) + rest == rest;
    } else {
      assert PreorderAll(ts) + rest == Preorder(ts[0]) + (PreorderAll(ts[1..]) + rest);
      CountLeaves(ts[0], PreorderAll(ts[1..]) + rest);
      CountChildLeaves(ts[1..], rest);
    }
  }

  ghost function LeafCount(elements: seq<SchemaElement>): nat {
    if elements == [] then 0 else (if elements[0].isLeaf then 1 else 0) + LeafCount(elements[1..])
  }

  /** Counts the leaves of a schema and sums the lengths of its paths, without building the tree. */
  method Measure(schema: seq<SchemaElement>, ghost t: Tree) returns (numLeaves: nat, pathSegments: nat)
    requires WellFormed(t) && schema == Preorder(t)
    ensures numLeaves == Leaves(t) && pathSegments == PathSegments(t, 0)
  {
    numLeaves, pathSegments := 0, 0;
    var remaining: seq<nat> := [];
    assert schema + [] == schema;
    WalkTree(t, [], []);
    CountLeaves(t, []);
    for i := 0 to |schema|
      invariant pathSegments + Walk(schema[i..], remaining) == PathSegments(t, 0)
      invariant numLeaves + LeafCount(schema[i..]) == Leaves(t)
    {
      assert schema[i..][1..] == schema[i + 1..];
      pathSegments := pathSegments + |remaining| + 1;
      if schema[i].isLeaf {
        numLeaves := numLeaves + 1;
      }
      if schema[i].numChildren > 0 {
        remaining := remaining + [schema[i].numChildren];
      } else {
        remaining := CloseAncestors(remaining);
      }
    }
  }

  method CloseAncestors(open: seq<nat>) returns (remaining: seq<nat>)
    ensures remaining == Close(open)
  {
    remaining := open;
    while |remaining| > 0
      invariant Close(remaining) == Close(open)
    {
      var n := |remaining| - 1;
      if remaining[n] > 1 {
        return remaining[n := remaining[n] - 1];
      }
      remaining := remaining[..n];
    }
  }

  // ----- columns -----

  /**
   * A column of the tree. Slots are the cells of the loader's slabs that hold its path, its children, its fields and
   * its chunks; `chunks` are the positions of its chunks in each row group.
   */
  datatype Column = Column(
    element: SchemaElement, path: seq<string>, chunks: seq<nat>, columns: seq<Column>,
    pathSlots: seq<nat>, childSlots: seq<nat>, fieldSlots: seq<nat>, chunkSlots: seq<nat>,
    depth: nat, maxRepetitionLevel: nat, maxDefinitionLevel: nat, index: nat)

  /** The column is that of `t` below `path`, and its leaves have the chunks from position `leaf` on. */
  ghost predicate Rebuilds(c: Column, t: Tree, path: seq<string>, leaf: nat, numRowGroups: nat)
    decreases t
  {
    && c.element == t.element && c.path == path + [t.element.name]
    && |c.columns| == |t.children|
    && (if t.element.isLeaf then |c.chunks| == numRowGroups && forall g :: 0 <= g < numRowGroups ==> c.chunks[g] == leaf
        else RebuildAll(c.columns, t.children, c.path, leaf, numRowGroups))
  }

  ghost predicate RebuildAll(cs: seq<Column>, ts: seq<Tree>, path: seq<string>, leaf: nat, numRowGroups: nat)
    decreases ts
  {
    && |cs| == |ts|
    && (ts == [] || (Rebuilds(cs[0], ts[0], path, leaf, numRowGroups)
                     && RebuildAll(cs[1..], ts[1..], path, leaf + Leaves(ts[0]), numRowGroups)))
  }

  /** The slots of a slab that a tree of columns holds, in the order they were cut from it. */
  ghost function Slots(kind: Slab, c: Column): seq<nat>
    decreases c
  {
    match kind
    case Paths => c.pathSlots + SlotsAll(kind, c.columns)
    case Children => c.childSlots + SlotsAll(kind, c.columns)
    case Fields => SlotsAll(kind, c.columns) + c.fieldSlots
    case Chunks => c.chunkSlots + SlotsAll(kind, c.columns)
  }

  ghost function SlotsAll(kind: Slab, cs: seq<Column>): seq<nat>
    decreases cs
  {
    if cs == [] then [] else SlotsAll(kind, cs[..|cs| - 1]) + Slots(kind, cs[|cs| - 1])
  }

  datatype Slab = Paths | Children | Fields | Chunks

  /** How many slots a tree takes from a slab. */
  ghost function Needs(kind: Slab, t: Tree, d: nat, numRowGroups: nat): nat {
    match kind
    case Paths => PathSegments(t, d)
    case Children => |Preorder(t)| - 1
    case Fields => |Preorder(t)| - 1
    case Chunks => Leaves(t) * numRowGroups
  }

  datatype Result<T> = Ok(value: T) | Err(message: string)

  /** Cuts the first slots off a slab. */
  function Allocate(slab: seq<nat>, n: nat): (r: (seq<nat>, seq<nat>))
    requires n <= |slab|
    ensures r.0 + r.1 == slab && |r.0| == n
  {
    (slab[..n], slab[n..])
  }

  function Range(n: nat): (s: seq<nat>)
    ensures |s| == n && forall i :: 0 <= i < n ==> s[i] == i
  {
    seq(n, i => i)
  }

  // ----- loading a part of the list -----

  /** Where a loader is in the list and in the row groups, and what is left of its slabs. */
  datatype Progress = Progress(
    schemaIndex: nat, leaf: nat, paths: seq<nat>, children: seq<nat>, fields: seq<nat>, chunks: seq<nat>)

  function Left(l: Progress, kind: Slab): seq<nat> {
    match kind
    case Paths => l.paths
    case Children => l.children
    case Fields => l.fields
    case Chunks => l.chunks
  }

  ghost function NeedsAll(kind: Slab, ts: seq<Tree>, d: nat, numRowGroups: nat): nat {
    if ts == [] then 0 else Needs(kind, ts[0], d, numRowGroups) + NeedsAll(kind, ts[1..], d, numRowGroups)
  }

  /** The list goes on with the elements of the trees, and the slabs have room for them. */
  ghost predicate ReadyAll(l: Progress, schema: seq<SchemaElement>, ts: seq<Tree>, d: nat, n: nat) {
    && l.schemaIndex + |PreorderAll(ts)| <= |schema|
    && schema[l.schemaIndex..l.schemaIndex + |PreorderAll(ts)|] == PreorderAll(ts)
    && forall kind :: NeedsAll(kind, ts, d, n) <= |Left(l, kind)|
  }

  ghost predicate Ready(l: Progress, schema: seq<SchemaElement>, t: Tree, d: nat, n: nat) {
    && l.schemaIndex + |Preorder(t)| <= |schema|
    && schema[l.schemaIndex..l.schemaIndex + |Preorder(t)|] == Preorder(t)
    && forall kind :: Needs(kind, t, d, n) <= |Left(l, kind)|
  }

  /** From `l` to `l'` the loader has built `c` from `t`, and has taken exactly the slots of `c`. */
  ghost predicate Opened(l: Progress, l': Progress, c: Column, t: Tree, path: seq<string>, n: nat) {
    && Rebuilds(c, t, path, l.leaf, n)
    && l'.schemaIndex == l.schemaIndex + |Preorder(t)| && l'.leaf == l.leaf + Leaves(t)
    && forall kind :: Takes(Slots(kind, c), Needs(kind, t, |path|, n), Left(l, kind), Left(l', kind))
  }

  ghost predicate Takes(slots: seq<nat>, needs: nat, before: seq<nat>, after: seq<nat>) {
    |slots| == needs && slots + after == before
  }

  ghost predicate OpenedAll(l: Progress, l': Progress, cs: seq<Column>, ts: seq<Tree>, path: seq<string>, n: nat) {
    && RebuildAll(cs, ts, path, l.leaf, n)
    && l'.schemaIndex == l.schemaIndex + |PreorderAll(ts)| && l'.leaf == l.leaf + LeavesAll(ts)
    && forall kind :: Takes(SlotsAll(kind, cs), NeedsAll(kind, ts, |path|, n), Left(l, kind), Left(l', kind))
  }

  lemma {:induction false} AllSnoc(ts: seq<Tree>, t: Tree, d: nat, n: nat)
    ensures PreorderAll(ts + [t]) == PreorderAll(ts) + Preorder(t)
    ensures LeavesAll(ts + [t]) == LeavesAll(ts) + Leaves(t)
    ensures forall kind :: NeedsAll(kind, ts + [t], d, n) == NeedsAll(kind, ts, d, n) + Needs(kind, t, d, n)
  {
    if ts == [] {
      assert ts + [t] == [t] && [t][1..] == [];
    } else {
      assert (ts + [t])[1..] == ts[1..] + [t];
      AllSnoc(ts[1..], t, d, n);
    }
  }

  lemma {:induction false} RebuildSnoc(cs: seq<Column>, ts: seq<Tree>, c: Column, t: Tree, path: seq<string>, leaf: nat, n: nat)
    requires RebuildAll(cs, ts, path, leaf, n) && Rebuilds(c, t, path, leaf + LeavesAll(ts), n)
    ensures RebuildAll(cs + [c], ts + [t], path, leaf, n)
  {
    if ts == [] {
      assert cs + [c] == [c] && ts + [t] == [t] && [c][1..] == [] && [t][1..] == [];
    } else {
      assert (cs + [c])[1..] == cs[1..] + [c] && (ts + [t])[1..] == ts[1..] + [t];
      RebuildSnoc(cs[1..], ts[1..], c, t, path, leaf + Leaves(ts[0]), n);
    }
  }

  /** A child after others. */
  lemma OpenedSnoc(
      l: Progress, l': Progress, l'': Progress, cs: seq<Column>, ts: seq<Tree>, c: Column, t: Tree, path: seq<string>, n: nat)
    requires OpenedAll(l, l', cs, ts, path, n) && Opened(l', l'', c, t, path, n)
    ensures OpenedAll(l, l'', cs + [c], ts + [t], path, n)
  {
    hide Left, Needs, Slots;
    AllSnoc(ts, t, |path|, n);
    RebuildSnoc(cs, ts, c, t, path, l.leaf, n);
    forall kind
      ensures Takes(SlotsAll(kind, cs + [c]), NeedsAll(kind, ts + [t], |path|, n), Left(l, kind), Left(l'', kind))
    {
      assert (cs + [c])[..|cs|] == cs;
      assert Takes(SlotsAll(kind, cs), NeedsAll(kind, ts, |path|, n), Left(l, kind), Left(l', kind));
      assert Takes(Slots(kind, c), Needs(kind, t, |path|, n), Left(l', kind), Left(l'', kind));
      assert SlotsAll(kind, cs) + (Slots(kind, c) + Left(l'', kind)) == SlotsAll(kind, cs + [c]) + Left(l'', kind);
    }
  }

  /** The next tree is ready when all are, and once it is opened the others are. */
  lemma NextReady(
      l: Progress, l': Progress, schema: seq<SchemaElement>, c: Column, ts: seq<Tree>, path: seq<string>, n: nat)
    requires ts != [] && ReadyAll(l, schema, ts, |path|, n)
    ensures Ready(l, schema, ts[0], |path|, n)
    ensures Opened(l, l', c, ts[0], path, n) ==> ReadyAll(l', schema, ts[1..], |path|, n)
  {
    hide Left, Needs, Slots, Rebuilds, Preorder;
    var all, first := PreorderAll(ts), Preorder(ts[0]);
    assert all == first + PreorderAll(ts[1..]);
    assert schema[l.schemaIndex..l.schemaIndex + |first|] == all[..|first|] == first;
    assert schema[l.schemaIndex + |first|..l.schemaIndex + |all|] == all[|first|..] == PreorderAll(ts[1..]);
    forall kind ensures Needs(kind, ts[0], |path|, n) <= |Left(l, kind)| {
      assert NeedsAll(kind, ts, |path|, n) <= |Left(l, kind)|;
    }
    if Opened(l, l', c, ts[0], path, n) {
      forall kind ensures NeedsAll(kind, ts[1..], |path|, n) <= |Left(l', kind)| {
        assert NeedsAll(kind, ts, |path|, n) <= |Left(l, kind)|;
        assert Takes(Slots(kind, c), Needs(kind, ts[0], |path|, n), Left(l, kind), Left(l', kind));
      }
    }
  }

  // ----- a node and its children -----

  lemma {:induction false} NeedsOfChildren(ts: seq<Tree>, d: nat, n: nat)
    ensures NeedsAll(Paths, ts, d, n) == PathSegmentsAll(ts, d)
    ensures NeedsAll(Children, ts, d, n) + |ts| == |PreorderAll(ts)|
    ensures NeedsAll(Fields, ts, d, n) + |ts| == |PreorderAll(ts)|
    ensures NeedsAll(Chunks, ts, d, n) == LeavesAll(ts) * n
  {
    if ts != [] {
      NeedsOfChildren(ts[1..], d, n);
      assert (Leaves(ts[0]) + LeavesAll(ts[1..])) * n == Leaves(ts[0]) * n + LeavesAll(ts[1..]) * n;
    }
  }

  /** Each row group has the columns of the leaves from position `from` to `to`. */
  ghost predicate Enough(rowGroups: seq<nat>, from: nat, to: nat) {
    from == to || forall g :: 0 <= g < |rowGroups| ==> to <= rowGroups[g]
  }

  /** After a node's path and its children have been cut, its children are ready. */
  lemma ChildrenReady(l: Progress, l': Progress, schema: seq<SchemaElement>, t: Tree, path: seq<string>, n: nat)
    requires WellFormed(t) && !t.element.isLeaf && Ready(l, schema, t, |path|, n)
    requires l' == l.(schemaIndex := l.schemaIndex + 1, paths := l'.paths, children := l'.children)
    requires |l.paths| == |path| + 1 + |l'.paths| && |l.children| == |t.children| + |l'.children|
    ensures ReadyAll(l', schema, t.children, |path| + 1, n)
  {
    NeedsOfChildren(t.children, |path| + 1, n);
    var all := Preorder(t);
    assert schema[l.schemaIndex + 1..l.schemaIndex + |all|] == all[1..] == PreorderAll(t.children);
    forall kind ensures NeedsAll(kind, t.children, |path| + 1, n) <= |Left(l', kind)| {
      assert Needs(kind, t, |path|, n) <= |Left(l, kind)|;
    }
  }

  lemma OpenedGroup(
      l: Progress, l1: Progress, l2: Progress, l3: Progress, c: Column, t: Tree, path: seq<string>, n: nat)
    requires WellFormed(t) && !t.element.isLeaf
    requires c.element == t.element && c.path == path + [t.element.name] && c.chunkSlots == []
    requires l1 == l.(schemaIndex := l.schemaIndex + 1, paths := l1.paths, children := l1.children)
    requires |c.pathSlots| == |path| + 1 && c.pathSlots + l1.paths == l.paths
    requires |c.childSlots| == |t.children| && c.childSlots + l1.children == l.children
    requires OpenedAll(l1, l2, c.columns, t.children, c.path, n)
    requires l3 == l2.(fields := l3.fields) && |c.fieldSlots| == |t.children| && c.fieldSlots + l3.fields == l2.fields
    ensures Opened(l, l3, c, t, path, n)
  {
    hide RebuildAll, Preorder, PreorderAll;
    GroupShape(c, t, path, l1, l2, n);
    forall kind ensures Takes(Slots(kind, c), Needs(kind, t, |path|, n), Left(l, kind), Left(l3, kind)) {
      var slots, needs := SlotsAll(kind, c.columns), NeedsAll(kind, t.children, |c.path|, n);
      assert Takes(slots, needs, Left(l1, kind), Left(l2, kind));
      match kind
      case Paths => TakesFirst(c.pathSlots, slots, needs, l.paths, l1.paths, l3.paths);
      case Children => TakesFirst(c.childSlots, slots, needs, l.children, l1.children, l3.children);
      case Fields => TakesLast(slots, c.fieldSlots, needs, l.fields, l2.fields, l3.fields);
      case Chunks => assert [] + slots == slots;
    }
  }

  lemma GroupShape(c: Column, t: Tree, path: seq<string>, l1: Progress, l2: Progress, n: nat)
    requires WellFormed(t) && !t.element.isLeaf && c.element == t.element && c.path == path + [t.element.name]
    requires OpenedAll(l1, l2, c.columns, t.children, c.path, n)
    ensures Rebuilds(c, t, path, l1.leaf, n) && |c.path| == |path| + 1
    ensures |Preorder(t)| == 1 + |PreorderAll(t.children)| && Leaves(t) == LeavesAll(t.children)
    ensures Needs(Paths, t, |path|, n) == |path| + 1 + NeedsAll(Paths, t.children, |path| + 1, n)
    ensures Needs(Children, t, |path|, n) == |t.children| + NeedsAll(Children, t.children, |path| + 1, n)
    ensures Needs(Fields, t, |path|, n) == NeedsAll(Fields, t.children, |path| + 1, n) + |t.children|
    ensures Needs(Chunks, t, |path|, n) == NeedsAll(Chunks, t.children, |path| + 1, n)
  {
    NeedsOfChildren(t.children, |path| + 1, n);
    RebuildSizes(c.columns, t.children, c.path, l1.leaf, n);
  }

  lemma TakesFirst(own: seq<nat>, slots: seq<nat>, needs: nat, a: seq<nat>, b: seq<nat>, c: seq<nat>)
    requires own + b == a && Takes(slots, needs, b, c)
    ensures Takes(own + slots, |own| + needs, a, c)
  {
    assert own + (slots + c) == own + slots + c;
  }

  lemma TakesLast(slots: seq<nat>, own: seq<nat>, needs: nat, a: seq<nat>, b: seq<nat>, c: seq<nat>)
    requires Takes(slots, needs, a, b) && own + c == b
    ensures Takes(slots + own, needs + |own|, a, c)
  {
    assert slots + (own + c) == slots + own + c;
  }

  lemma RebuildSizes(cs: seq<Column>, ts: seq<Tree>, path: seq<string>, leaf: nat, n: nat)
    requires RebuildAll(cs, ts, path, leaf, n)
    ensures |cs| == |ts|
  {
  }

  lemma OpenedLeaf(l: Progress, l': Progress, c: Column, t: Tree, path: seq<string>, n: nat)
    requires WellFormed(t) && t.element.isLeaf
    requires c.element == t.element && c.path == path + [t.element.name] && c.columns == []
    requires c.childSlots == [] && c.fieldSlots == []
    requires |c.chunks| == n && forall g :: 0 <= g < n ==> c.chunks[g] == l.leaf
    requires l' == l.(schemaIndex := l.schemaIndex + 1, leaf := l.leaf + 1, paths := l'.paths, chunks := l'.chunks)
    requires |c.pathSlots| == |path| + 1 && c.pathSlots + l'.paths == l.paths
    requires |c.chunkSlots| == n && c.chunkSlots + l'.chunks == l.chunks
    ensures Opened(l, l', c, t, path, n)
  {
    assert t.children == [] && PreorderAll(t.children) == [];
    assert Preorder(t) == [t.element] && Leaves(t) == 1;
    assert PathSegmentsAll(t.children, |path| + 1) == 0;
    forall kind ensures Takes(Slots(kind, c), Needs(kind, t, |path|, n), Left(l, kind), Left(l', kind)) {
      match kind
      case Paths => assert Slots(kind, c) == c.pathSlots + [] == c.pathSlots;
      case Children => assert Slots(kind, c) == [];
      case Fields => assert Slots(kind, c) == [];
      case Chunks => assert Slots(kind, c) == c.chunkSlots + [] == c.chunkSlots;
    }
  }

  class ColumnLoader {
    const schema: seq<SchemaElement>
    const rowGroups: seq<nat>
    var schemaIndex: nat
    var rowGroupColumnIndex: nat
    var paths: seq<nat>
    var children: seq<nat>
    var fields: seq<nat>
    var chunks: seq<nat>

    ghost function At(): Progress
      reads this
    {
      Progress(schemaIndex, rowGroupColumnIndex, paths, children, fields, chunks)
    }

    /** Reserves slabs of the sizes the schema determines; `rowGroups` are the numbers of columns of the row groups. */
    constructor (schema: seq<SchemaElement>, rowGroups: seq<nat>, ghost t: Tree)
      requires WellFormed(t) && schema == Preorder(t)
      ensures this.schema == schema && this.rowGroups == rowGroups && schemaIndex == rowGroupColumnIndex == 0
      ensures forall kind :: Left(At(), kind) == Range(Needs(kind, t, 0, |rowGroups|))
    {
      var numLeaves, pathSegments := Measure(schema, t);
      this.schema, this.rowGroups := schema, rowGroups;
      schemaIndex, rowGroupColumnIndex := 0, 0;
      paths, children, fields := Range(pathSegments), Range(|schema| - 1), Range(|schema| - 1);
      chunks := Range(numLeaves * |rowGroups|);
    }

    /** Builds the column of the next element, with those of its children. */
    method Open(path: seq<string>, ghost t: Tree) returns (r: Result<Column>)
      requires WellFormed(t) && Ready(At(), schema, t, |path|, |rowGroups|)
      modifies this
      ensures r.Ok? <==> Enough(rowGroups, old(rowGroupColumnIndex), old(rowGroupColumnIndex) + Leaves(t))
      ensures r.Ok? ==> Opened(old(At()), At(), r.value, t, path, |rowGroups|)
      decreases t, 1
    {
      NodeReady(At(), schema, t, |path|, |rowGroups|);
      var element := schema[schemaIndex];
      var p := Allocate(paths, |path| + 1);
      paths := p.1;
      schemaIndex := schemaIndex + 1;
      var c := Column(element, path + [element.name], [], [], p.0, [], [], [], 0, 0, 0, 0);
      if element.isLeaf {
        r := OpenChunks(c);
        if r.Ok? {
          OpenedLeaf(old(At()), At(), r.value, t, path, |rowGroups|);
        }
        return;
      }
      if element.numChildren > |children| {
        return Err("more children than schema elements are left");
      }
      var slots := Allocate(children, element.numChildren);
      children := slots.1;
      ghost var l1 := At();
      ChildrenReady(old(At()), l1, schema, t, path, |rowGroups|);
      var columns := OpenChildren(c.path, element.numChildren, t.children);
      if columns.Err? {
        return Err(columns.message);
      }
      ghost var l2 := At();
      FieldsLeft(l1, l2, columns.value, t.children, c.path, |rowGroups|);
      var own := Allocate(fields, |columns.value|);
      fields := own.1;
      c := c.(columns := columns.value, childSlots := slots.0, fieldSlots := own.0);
      OpenedGroup(old(At()), l1, l2, At(), c, t, path, |rowGroups|);
      return Ok(c);
    }

    /** Takes the chunks of a leaf, one from each row group. */
    method OpenChunks(leaf: Column) returns (r: Result<Column>)
      requires |rowGroups| <= |chunks|
      modifies `rowGroupColumnIndex, `chunks
      ensures rowGroupColumnIndex == old(rowGroupColumnIndex) + 1
      ensures r.Ok? <==> forall g :: 0 <= g < |rowGroups| ==> old(rowGroupColumnIndex) + 1 <= rowGroups[g]
      ensures r.Ok? ==>
        && r.value == leaf.(chunks := r.value.chunks, chunkSlots := r.value.chunkSlots)
        && |r.value.chunks| == |rowGroups| && (forall g :: 0 <= g < |rowGroups| ==> r.value.chunks[g] == old(rowGroupColumnIndex))
        && |r.value.chunkSlots| == |rowGroups| && r.value.chunkSlots + chunks == old(chunks)
    {
      var columnIndex := rowGroupColumnIndex;
      rowGroupColumnIndex := rowGroupColumnIndex + 1;
      var slots := Allocate(chunks, |rowGroups|);
      chunks := slots.1;
      var positions := [];
      for i := 0 to |rowGroups|
        invariant |positions| == i && forall g :: 0 <= g < i ==> positions[g] == columnIndex
        invariant forall g :: 0 <= g < i ==> columnIndex + 1 <= rowGroups[g]
      {
        if columnIndex >= rowGroups[i] {
          return Err("row group does not have enough columns");
        }
        positions := positions + [columnIndex];
      }
      return Ok(leaf.(chunks := positions, chunkSlots := slots.0));
    }

    /** Builds the children of a group one after the other. */
    method OpenChildren(path: seq<string>, numChildren: nat, ghost ts: seq<Tree>) returns (r: Result<seq<Column>>)
      requires AllWellFormed(ts) && numChildren == |ts| && ReadyAll(At(), schema, ts, |path|, |rowGroups|)
      modifies this
      ensures r.Ok? <==> Enough(rowGroups, old(rowGroupColumnIndex), old(rowGroupColumnIndex) + LeavesAll(ts))
      ensures r.Ok? ==> OpenedAll(old(At()), At(), r.value, ts, path, |rowGroups|)
      decreases ts, 0
    {
      hide Opened, OpenedAll, ReadyAll, Ready, Rebuilds;
      var columns := [];
      NoneOpened(At(), path, |rowGroups|);
      for i := 0 to numChildren
        invariant OpenedAll(old(At()), At(), columns, ts[..i], path, |rowGroups|)
        invariant ReadyAll(At(), schema, ts[i..], |path|, |rowGroups|)
        invariant rowGroupColumnIndex + LeavesAll(ts[i..]) == old(rowGroupColumnIndex) + LeavesAll(ts)
        invariant old(rowGroupColumnIndex) <= rowGroupColumnIndex
        invariant Enough(rowGroups, old(rowGroupColumnIndex), rowGroupColumnIndex)
      {
        ghost var before := At();
        NextIsReady(before, schema, ts[i..], path, |rowGroups|);
        assert ts[i..][1..] == ts[i + 1..] && ts[i..][0] == ts[i] && ts[..i + 1] == ts[..i] + [ts[i]];
        var c := Open(path, ts[i]);
        if c.Err? {
          return Err(c.message);
        }
        NextReady(before, At(), schema, c.value, ts[i..], path, |rowGroups|);
        OpenedSnoc(old(At()), before, At(), columns, ts[..i], c.value, ts[i], path, |rowGroups|);
        LeafAfter(before, At(), c.value, ts[i], path, |rowGroups|);
        columns := columns + [c.value];
      }
      assert ts[..numChildren] == ts;
      return Ok(columns);
    }
  }

  lemma NodeReady(l: Progress, schema: seq<SchemaElement>, t: Tree, d: nat, n: nat)
    requires WellFormed(t) && Ready(l, schema, t, d, n)
    ensures l.schemaIndex < |schema| && schema[l.schemaIndex] == t.element
    ensures d + 1 <= |l.paths| && |t.children| <= |l.children| && |PreorderAll(t.children)| <= |l.fields|
    ensures t.element.isLeaf ==> n <= |l.chunks|
  {
    assert schema[l.schemaIndex..l.schemaIndex + |Preorder(t)|][0] == t.element;
    assert Needs(Paths, t, d, n) <= |Left(l, Paths)| && Needs(Children, t, d, n) <= |Left(l, Children)|;
    assert Needs(Fields, t, d, n) <= |Left(l, Fields)| && Needs(Chunks, t, d, n) <= |Left(l, Chunks)|;
    NeedsOfChildren(t.children, d + 1, n);
  }

  lemma NoneOpened(l: Progress, path: seq<string>, n: nat)
    ensures OpenedAll(l, l, [], [], path, n)
  {
  }

  lemma NextIsReady(l: Progress, schema: seq<SchemaElement>, ts: seq<Tree>, path: seq<string>, n: nat)
    requires ts != [] && ReadyAll(l, schema, ts, |path|, n)
    ensures Ready(l, schema, ts[0], |path|, n)
  {
    var c: Column := Column(ts[0].element, [], [], [], [], [], [], [], 0, 0, 0, 0);
    NextReady(l, l, schema, c, ts, path, n);
  }

  lemma LeafAfter(l: Progress, l': Progress, c: Column, t: Tree, path: seq<string>, n: nat)
    requires Opened(l, l', c, t, path, n)
    ensures l'.leaf == l.leaf + Leaves(t)
  {
  }

  lemma FieldsLeft(l: Progress, l': Progress, cs: seq<Column>, ts: seq<Tree>, path: seq<string>, n: nat)
    requires OpenedAll(l, l', cs, ts, path, n) && |l.fields| >= |PreorderAll(ts)|
    ensures |cs| == |ts| <= |l'.fields|
  {
    NeedsOfChildren(ts, |path|, n);
    assert Takes(SlotsAll(Fields, cs), NeedsAll(Fields, ts, |path|, n), Left(l, Fields), Left(l', Fields));
  }

  // ----- levels -----

  datatype LeafColumn = LeafColumn(path: seq<string>, maxRepetitionLevel: nat, maxDefinitionLevel: nat, columnIndex: nat)

  function RepetitionInc(t: Repetition): nat {
    if t.Repeated? then 1 else 0
  }

  function DefinitionInc(t: Repetition): nat {
    if t.Required? then 0 else 1
  }

  /** The leaf columns of a schema, numbered from `index`, with the levels of their paths. */
  ghost function ForEachLeafColumn(t: Tree, path: seq<string>, index: nat, rep: nat, def: nat): seq<LeafColumn> {
    var rep', def' := rep + RepetitionInc(t.element.repetition), def + DefinitionInc(t.element.repetition);
    if t.element.isLeaf then [LeafColumn(path, rep', def', index)]
    else ForEachLeafColumnOf(t.children, path, index, rep', def')
  }

  ghost function ForEachLeafColumnOf(ts: seq<Tree>, path: seq<string>, index: nat, rep: nat, def: nat): seq<LeafColumn> {
    if ts == [] then []
    else
      ForEachLeafColumn(ts[0], path + [ts[0].element.name], index, rep, def)
        + ForEachLeafColumnOf(ts[1..], path, index + Leaves(ts[0]), rep, def)
  }

  lemma {:induction false} ForEachSnoc(ts: seq<Tree>, t: Tree, path: seq<string>, index: nat, rep: nat, def: nat)
    ensures ForEachLeafColumnOf(ts + [t], path, index, rep, def) ==
      ForEachLeafColumnOf(ts, path, index, rep, def)
        + ForEachLeafColumn(t, path + [t.element.name], index + LeavesAll(ts), rep, def)
    ensures LeavesAll(ts + [t]) == LeavesAll(ts) + Leaves(t)
  {
    hide ForEachLeafColumn, Leaves;
    if ts == [] {
      assert ts + [t] == [t] && [t][1..] == [];
      var leaves := ForEachLeafColumn(t, path + [t.element.name], index, rep, def);
      assert ForEachLeafColumnOf([t], path, index, rep, def) == leaves + [] == leaves;
    } else {
      assert (ts + [t])[1..] == ts[1..] + [t];
      assert (ts + [t])[0] == ts[0];
      ForEachSnoc(ts[1..], t, path, index + Leaves(ts[0]), rep, def);
    }
  }

  /** What the columns of a tree say about its leaves; a column's own path leaves out the root. */
  ghost function LeafColumns(c: Column): seq<LeafColumn>
    decreases c
  {
    if c.element.isLeaf then
      [LeafColumn(if c.path == [] then [] else c.path[1..], c.maxRepetitionLevel, c.maxDefinitionLevel, c.index)]
    else LeafColumnsOf(c.columns)
  }

  ghost function LeafColumnsOf(cs: seq<Column>): seq<LeafColumn>
    decreases cs
  {
    if cs == [] then [] else LeafColumnsOf(cs[..|cs| - 1]) + LeafColumns(cs[|cs| - 1])
  }

  /** How many levels of children a tree has. */
  ghost function Height(t: Tree): nat {
    if t.children == [] then 0 else 1 + HeightOf(t.children)
  }

  ghost function HeightOf(ts: seq<Tree>): nat {
    if ts == [] then 0
    else
      var h := HeightOf(ts[1..]);
      if Height(ts[0]) > h then Height(ts[0]) else h
  }

  lemma {:induction false} HeightAt(ts: seq<Tree>, i: nat)
    requires i < |ts|
    ensures Height(ts[i]) <= HeightOf(ts)
  {
    if i > 0 {
      HeightAt(ts[1..], i - 1);
    }
  }

  /** The shape of a column without its levels. */
  ghost predicate SameShape(c: Column, c': Column)
    decreases c
  {
    && c' == c.(columns := c'.columns, depth := c'.depth, maxRepetitionLevel := c'.maxRepetitionLevel,
          maxDefinitionLevel := c'.maxDefinitionLevel, index := c'.index)
    && |c'.columns| == |c.columns|
    && forall i :: 0 <= i < |c.columns| ==> SameShape(c.columns[i], c'.columns[i])
  }

  function ToByte(i: nat): nat {
    i % 256
  }

  function ToUint16(i: nat): nat {
    i % 65536
  }

  /** The tree as its root's own repetition type is not looked at. */
  ghost function Rooted(t: Tree, depth: nat): Tree {
    if depth > 0 then t else t.(element := t.element.(repetition := Required))
  }

  ghost predicate Matches(c: Column, t: Tree, path: seq<string>)
    decreases t
  {
    && c.element == t.element && c.path == path + [t.element.name] && |c.columns| == |t.children|
    && forall i :: 0 <= i < |t.children| ==> Matches(c.columns[i], t.children[i], c.path)
  }

  /** `c'` is `c` with the levels of its leaves set, in a tree that is not too deep nor too wide. */
  ghost predicate LevelsSet(c: Column, c': Column, t: Tree, depth: nat, rep: nat, def: nat, index: nat, next: nat) {
    && SameShape(c, c') && next == index + Leaves(t) <= MAX_COLUMN_INDEX + 1 && depth + Height(t) <= MAX_COLUMN_DEPTH
    && c.path != [] && LeafColumns(c') == ForEachLeafColumn(Rooted(t, depth), c.path[1..], index, rep, def)
  }

  ghost predicate AllLevelsSet(
    cs: seq<Column>, cs': seq<Column>, ts: seq<Tree>, path: seq<string>, depth: nat, rep: nat, def: nat, index: nat, next: nat)
  {
    && |cs| == |cs'| == |ts| && path != []
    && (forall i :: 0 <= i < |cs| ==> SameShape(cs[i], cs'[i]) && depth + Height(ts[i]) <= MAX_COLUMN_DEPTH)
    && next == index + LeavesAll(ts) && (ts != [] ==> next <= MAX_COLUMN_INDEX + 1)
    && LeafColumnsOf(cs') == ForEachLeafColumnOf(ts, path[1..], index, rep, def)
  }

  /** Every column of the tree has its depth, its levels and, where it is a leaf, its place among the leaves. */
  ghost predicate Leveled(c: Column, t: Tree, depth: nat, rep: nat, def: nat, index: nat)
    decreases t, 1
  {
    var r := Rooted(t, depth).element.repetition;
    && c.depth == depth && c.maxRepetitionLevel == rep + RepetitionInc(r) && c.maxDefinitionLevel == def + DefinitionInc(r)
    && c.index == (if t.element.isLeaf then index else GROUP_INDEX)
    && AllLeveled(c.columns, t.children, depth + 1, c.maxRepetitionLevel, c.maxDefinitionLevel, index)
  }

  ghost predicate AllLeveled(cs: seq<Column>, ts: seq<Tree>, depth: nat, rep: nat, def: nat, index: nat)
    decreases ts, 0
  {
    |cs| == |ts| && forall i :: 0 <= i < |ts| ==> Leveled(cs[i], ts[i], depth, rep, def, index + LeavesAll(ts[..i]))
  }

  lemma LeveledSnoc(
      cs: seq<Column>, ts: seq<Tree>, depth: nat, rep: nat, def: nat, index: nat, c: Column, t: Tree)
    requires AllLeveled(cs, ts, depth, rep, def, index) && Leveled(c, t, depth, rep, def, index + LeavesAll(ts))
    ensures AllLeveled(cs + [c], ts + [t], depth, rep, def, index)
  {
    hide Leveled, LeavesAll;
    forall i | 0 <= i < |ts| + 1
      ensures Leveled((cs + [c])[i], (ts + [t])[i], depth, rep, def, index + LeavesAll((ts + [t])[..i]))
    {
      assert (ts + [t])[..i] == ts[..i];
      assert i == |ts| ==> ts[..i] == ts;
    }
  }

  lemma {:induction false} LevelsSnoc(
      cs: seq<Column>, cs': seq<Column>, ts: seq<Tree>, path: seq<string>, depth: nat, rep: nat, def: nat, index: nat,
      next: nat, c: Column, c': Column, t: Tree, next': nat)
    requires AllLevelsSet(cs, cs', ts, path, depth, rep, def, index, next) && depth > 0
    requires Matches(c, t, path) && LevelsSet(c, c', t, depth, rep, def, next, next')
    ensures AllLevelsSet(cs + [c], cs' + [c'], ts + [t], path, depth, rep, def, index, next')
  {
    hide Height, SameShape, LeafColumns, ForEachLeafColumn, ForEachLeafColumnOf, LeavesAll, LevelsSet, Matches;
    ForEachSnoc(ts, t, path[1..], index, rep, def);
    ChildLevels(c, c', t, path, depth, rep, def, next, next');
    LeafColumnsSnoc(cs', c');
  }

  lemma {:induction false} ChildLevels(
      c: Column, c': Column, t: Tree, path: seq<string>, depth: nat, rep: nat, def: nat, index: nat, next: nat)
    requires Matches(c, t, path) && LevelsSet(c, c', t, depth, rep, def, index, next) && depth > 0 && path != []
    ensures SameShape(c, c') && depth + Height(t) <= MAX_COLUMN_DEPTH
    ensures next == index + Leaves(t) <= MAX_COLUMN_INDEX + 1
    ensures LeafColumns(c') == ForEachLeafColumn(t, path[1..] + [t.element.name], index, rep, def)
  {
    assert c.path[1..] == path[1..] + [t.element.name];
  }

  lemma LeafColumnsSnoc(cs: seq<Column>, c: Column)
    ensures LeafColumnsOf(cs + [c]) == LeafColumnsOf(cs) + LeafColumns(c)
  {
    assert (cs + [c])[..|cs|] == cs;
  }

  lemma GroupLevels(
      c: Column, c': Column, t: Tree, depth: nat, rep: nat, def: nat, rep': nat, def': nat, index: nat, next: nat)
    requires WellFormed(t) && !t.element.isLeaf && depth <= MAX_COLUMN_DEPTH && index <= MAX_COLUMN_INDEX
    requires c.path != [] && c.element == t.element
    requires rep' == rep + RepetitionInc(Rooted(t, depth).element.repetition)
    requires def' == def + DefinitionInc(Rooted(t, depth).element.repetition)
    requires AllLevelsSet(c.columns, c'.columns, t.children, c.path, depth + 1, rep', def', index, next)
    requires c' == c.(columns := c'.columns, depth := c'.depth, maxRepetitionLevel := c'.maxRepetitionLevel,
      maxDefinitionLevel := c'.maxDefinitionLevel, index := c'.index)
    ensures LevelsSet(c, c', t, depth, rep, def, index, next)
  {
    HeightBound(t.children, MAX_COLUMN_DEPTH - depth - 1);
  }

  /** Levels and depths that are small enough are stored as they are. */
  lemma NothingLost(depth: nat, rep: nat, def: nat, index: nat)
    ensures depth <= MAX_COLUMN_DEPTH ==> ToByte(depth) == depth
    ensures rep <= MAX_COLUMN_DEPTH ==> ToByte(rep) == rep
    ensures def <= MAX_COLUMN_DEPTH ==> ToByte(def) == def
    ensures index <= MAX_COLUMN_INDEX ==> ToUint16(index) == index
  {
  }

  lemma RootedIs(t: Tree, depth: nat)
    ensures Rooted(t, depth).element.repetition == if depth > 0 then t.element.repetition else Required
  {
  }

  lemma NodeFacts(c: Column, t: Tree, path: seq<string>)
    requires WellFormed(t) && Matches(c, t, path)
    ensures c.element == t.element && c.path == path + [t.element.name] && |c.columns| == |t.children|
    ensures AllWellFormed(t.children) && forall i :: 0 <= i < |t.children| ==> Matches(c.columns[i], t.children[i], c.path)
    ensures t.children != [] ==> Height(t) == 1 + HeightOf(t.children)
    ensures !t.element.isLeaf ==> Leaves(t) == LeavesAll(t.children)
  {
  }

  lemma GroupLeveled(c: Column, t: Tree, depth: nat, rep: nat, def: nat, index: nat)
    requires !t.element.isLeaf && c.depth == depth && c.index == GROUP_INDEX
    requires c.maxRepetitionLevel == rep + RepetitionInc(Rooted(t, depth).element.repetition)
    requires c.maxDefinitionLevel == def + DefinitionInc(Rooted(t, depth).element.repetition)
    requires AllLeveled(c.columns, t.children, depth + 1, c.maxRepetitionLevel, c.maxDefinitionLevel, index)
    ensures Leveled(c, t, depth, rep, def, index)
  {
  }

  lemma LeafLevels(
      c: Column, t: Tree, path: seq<string>, depth: nat, rep: nat, def: nat, rep': nat, def': nat, index: nat)
    requires WellFormed(t) && Matches(c, t, path) && t.element.isLeaf && depth == |path| <= MAX_COLUMN_DEPTH
    requires index <= MAX_COLUMN_INDEX
    requires rep' == rep + RepetitionInc(Rooted(t, depth).element.repetition)
    requires def' == def + DefinitionInc(Rooted(t, depth).element.repetition)
    ensures
      var c' := c.(depth := depth, maxRepetitionLevel := rep', maxDefinitionLevel := def', index := index);
      LevelsSet(c, c', t, depth, rep, def, index, index + 1) && Leveled(c', t, depth, rep, def, index)
  {
  }

  /**
   * Sets the levels of a column and of those below it. Levels fit a byte because they never exceed the depth, so
   * storing them loses nothing.
   */
  method SetLevels(c: Column, depth: nat, repetition: nat, definition: nat, index: nat, ghost t: Tree, ghost path: seq<string>)
    returns (r: Result<(Column, nat)>)
    requires WellFormed(t) && Matches(c, t, path) && depth == |path|
    requires repetition <= definition && (if depth == 0 then definition == 0 else definition < depth)
    ensures r.Ok? ==> LevelsSet(c, r.value.0, t, depth, repetition, definition, index, r.value.1)
    ensures r.Ok? ==> Leveled(r.value.0, t, depth, repetition, definition, index)
    ensures depth + Height(t) <= MAX_COLUMN_DEPTH && index + Leaves(t) <= MAX_COLUMN_INDEX ==> r.Ok?
    decreases t, 1
  {
    NodeFacts(c, t, path);
    RootedIs(t, depth);
    hide SameShape, LeafColumns, ForEachLeafColumn, LevelsSet, AllLevelsSet, Leveled, AllLeveled, AllWellFormed;
    hide Matches, WellFormed, Height, HeightOf, Leaves, LeavesAll, ToByte, ToUint16, Rooted;
    if depth > MAX_COLUMN_DEPTH {
      return Err("too many nested levels");
    }
    if index > MAX_COLUMN_INDEX {
      return Err("too many columns");
    }
    if repetition > MAX_LEVEL {
      return Err("too many repetition levels");
    }
    if definition > MAX_LEVEL {
      return Err("too many definition levels");
    }
    var rep, def := repetition, definition;
    if depth > 0 {
      match c.element.repetition
      case Optional => def := def + 1;
      case Repeated => rep, def := rep + 1, def + 1;
      case Required =>
    }
    var column := c.(depth := ToByte(depth), maxRepetitionLevel := ToByte(rep), maxDefinitionLevel := ToByte(def));
    NothingLost(depth, rep, def, index);
    if c.element.isLeaf {
      LeafLevels(c, t, path, depth, repetition, definition, rep, def, index);
      return Ok((column.(index := ToUint16(index)), index + 1));
    }
    column := column.(index := GROUP_INDEX);
    var children := SetLevelsOf(c.columns, depth + 1, rep, def, index, t.children, c.path);
    if children.Err? {
      return Err(children.message);
    }
    column := column.(columns := children.value.0);
    GroupLevels(c, column, t, depth, repetition, definition, rep, def, index, children.value.1);
    GroupLeveled(column, t, depth, repetition, definition, index);
    return Ok((column, children.value.1));
  }

  method SetLevelsOf(
      cs: seq<Column>, depth: nat, repetition: nat, definition: nat, index: nat, ghost ts: seq<Tree>, ghost path: seq<string>)
    returns (r: Result<(seq<Column>, nat)>)
    requires AllWellFormed(ts) && |cs| == |ts| && depth == |path| > 0
    requires forall i :: 0 <= i < |ts| ==> Matches(cs[i], ts[i], path)
    requires repetition <= definition < depth
    ensures r.Ok? ==> AllLevelsSet(cs, r.value.0, ts, path, depth, repetition, definition, index, r.value.1)
    ensures r.Ok? ==> AllLeveled(r.value.0, ts, depth, repetition, definition, index)
    ensures ts == [] || (depth + HeightOf(ts) <= MAX_COLUMN_DEPTH && index + LeavesAll(ts) <= MAX_COLUMN_INDEX) ==> r.Ok?
    decreases ts, 0
  {
    hide SameShape, LeafColumns, ForEachLeafColumn, LevelsSet, AllLevelsSet, Matches, Height, Rooted, Leveled;
    var columns: seq<Column>, next: nat := [], index;
    NoneSet(path, depth, repetition, definition, index);
    for i := 0 to |cs|
      invariant AllLevelsSet(cs[..i], columns, ts[..i], path, depth, repetition, definition, index, next)
      invariant next + LeavesAll(ts[i..]) == index + LeavesAll(ts) && next == index + LeavesAll(ts[..i])
      invariant AllLeveled(columns, ts[..i], depth, repetition, definition, index)
    {
      assert ts[i..][1..] == ts[i + 1..] && ts[..i + 1] == ts[..i] + [ts[i]] && cs[..i + 1] == cs[..i] + [cs[i]];
      HeightAt(ts, i);
      var c := SetLevels(cs[i], depth, repetition, definition, next, ts[i], path);
      if c.Err? {
        return Err(c.message);
      }
      LevelsSnoc(cs[..i], columns, ts[..i], path, depth, repetition, definition, index, next, cs[i], c.value.0, ts[i], c.value.1);
      LeveledSnoc(columns, ts[..i], depth, repetition, definition, index, c.value.0, ts[i]);
      MoreLeaves(ts[..i], ts[i]);
      NextIndex(cs[i], c.value.0, ts[i], depth, repetition, definition, next, c.value.1);
      columns := columns + [c.value.0];
      next := c.value.1;
    }
    assert ts[..|cs|] == ts && cs[..|cs|] == cs;
    return Ok((columns, next));
  }

  lemma {:induction false} MoreLeaves(ts: seq<Tree>, t: Tree)
    ensures LeavesAll(ts + [t]) == LeavesAll(ts) + Leaves(t)
  {
    ForEachSnoc(ts, t, [], 0, 0, 0);
  }

  lemma NoneSet(path: seq<string>, depth: nat, rep: nat, def: nat, index: nat)
    requires path != []
    ensures AllLevelsSet([], [], [], path, depth, rep, def, index, index)
  {
  }

  lemma NextIndex(c: Column, c': Column, t: Tree, depth: nat, rep: nat, def: nat, index: nat, next: nat)
    requires LevelsSet(c, c', t, depth, rep, def, index, next)
    ensures next == index + Leaves(t)
  {
  }

  lemma {:induction false} HeightBound(ts: seq<Tree>, h: int)
    requires forall j :: 0 <= j < |ts| ==> Height(ts[j]) <= h
    ensures ts != [] ==> HeightOf(ts) <= h
  {
    if |ts| > 1 {
      HeightBound(ts[1..], h);
    }
  }

  // ----- opening the columns of a file -----

  lemma {:induction false} RebuildsMatches(c: Column, t: Tree, path: seq<string>, leaf: nat, n: nat)
    requires Rebuilds(c, t, path, leaf, n) && WellFormed(t)
    ensures Matches(c, t, path)
    decreases t, 1
  {
    if !t.element.isLeaf {
      AllMatch(c.columns, t.children, c.path, leaf, n);
    }
  }

  lemma {:induction false} AllMatch(cs: seq<Column>, ts: seq<Tree>, path: seq<string>, leaf: nat, n: nat)
    requires RebuildAll(cs, ts, path, leaf, n) && AllWellFormed(ts)
    ensures |cs| == |ts| && forall i :: 0 <= i < |ts| ==> Matches(cs[i], ts[i], path)
    decreases ts, 0
  {
    if ts != [] {
      RebuildsMatches(cs[0], ts[0], path, leaf, n);
      AllMatch(cs[1..], ts[1..], path, leaf + Leaves(ts[0]), n);
      forall i | 0 < i < |ts| ensures Matches(cs[i], ts[i], path) {
        assert Matches(cs[1..][i - 1], ts[1..][i - 1], path);
      }
    }
  }

  /**
   * Opens the columns of a file: the tree is rebuilt from its list, the slabs are handed out to the last slot with no
   * slot given twice, every leaf has its chunk in each row group, and its index and levels are those of the schema.
   */
  method OpenColumns(schema: seq<SchemaElement>, rowGroups: seq<nat>, ghost t: Tree)
    returns (r: Result<Column>, ghost loaded: Column)
    requires WellFormed(t) && schema == Preorder(t)
    ensures r.Ok? ==> forall g :: 0 <= g < |rowGroups| ==> rowGroups[g] == Leaves(t)
    ensures r.Ok? ==>
      && Rebuilds(loaded, t, [], 0, |rowGroups|)
      && (forall kind :: Slots(kind, loaded) == Range(Needs(kind, t, 0, |rowGroups|)))
      && LevelsSet(loaded, r.value, t, 0, 0, 0, 0, Leaves(t))
      && Leveled(r.value, t, 0, 0, 0, 0)
    ensures Height(t) <= MAX_COLUMN_DEPTH && Leaves(t) <= MAX_COLUMN_INDEX ==>
      (forall g :: 0 <= g < |rowGroups| ==> rowGroups[g] == Leaves(t)) ==> r.Ok?
  {
    hide Rebuilds, LevelsSet, Leveled, Height, Matches;
    var loader := new ColumnLoader(schema, rowGroups, t);
    WholeIsReady(loader.At(), schema, t, |rowGroups|);
    var c := loader.Open([], t);
    loaded := if c.Ok? then c.value else Column(t.element, [], [], [], [], [], [], [], 0, 0, 0, 0);
    if c.Err? {
      return Err(c.message), loaded;
    }
    for i := 0 to |rowGroups|
      invariant forall g :: 0 <= g < i ==> rowGroups[g] == Leaves(t)
    {
      if loader.rowGroupColumnIndex != rowGroups[i] {
        return Err("columns that the schema does not reference"), loaded;
      }
    }
    RebuildsMatches(c.value, t, [], 0, |rowGroups|);
    forall kind ensures Slots(kind, c.value) == Range(Needs(kind, t, 0, |rowGroups|)) {
      assert Takes(Slots(kind, c.value), Needs(kind, t, 0, |rowGroups|), Range(Needs(kind, t, 0, |rowGroups|)), Left(loader.At(), kind));
      assert |Left(loader.At(), kind)| == 0;
    }
    var leveled := SetLevels(c.value, 0, 0, 0, 0, t, []);
    if leveled.Err? {
      return Err(leveled.message), loaded;
    }
    NextIndex(c.value, leveled.value.0, t, 0, 0, 0, 0, leveled.value.1);
    return Ok(leveled.value.0), loaded;
  }

  lemma WholeIsReady(l: Progress, schema: seq<SchemaElement>, t: Tree, n: nat)
    requires schema == Preorder(t) && l.schemaIndex == 0
    requires forall kind :: Left(l, kind) == Range(Needs(kind, t, 0, n))
    ensures Ready(l, schema, t, 0, n)
  {
    assert schema[0..|schema|] == schema;
  }

  // ----- the root -----

  /** One more definition level above a tree is one more on each of its leaves. */
  lemma {:induction false} LevelsShift(t: Tree, path: seq<string>, index: nat, rep: nat, def: nat, rep': nat, def': nat)
    ensures |ForEachLeafColumn(t, path, index, rep, def)| == |ForEachLeafColumn(t, path, index, rep', def')| == Leaves(t)
    ensures forall i :: 0 <= i < Leaves(t) ==>
      ForEachLeafColumn(t, path, index, rep, def)[i].maxDefinitionLevel - def
        == ForEachLeafColumn(t, path, index, rep', def')[i].maxDefinitionLevel - def'
    decreases t, 1
  {
    if !t.element.isLeaf {
      var r, d := RepetitionInc(t.element.repetition), DefinitionInc(t.element.repetition);
      AllLevelsShift(t.children, path, index, rep + r, def + d, rep' + r, def' + d);
    }
  }

  lemma {:induction false} AllLevelsShift(
      ts: seq<Tree>, path: seq<string>, index: nat, rep: nat, def: nat, rep': nat, def': nat)
    ensures |ForEachLeafColumnOf(ts, path, index, rep, def)| == |ForEachLeafColumnOf(ts, path, index, rep', def')| == LeavesAll(ts)
    ensures forall i :: 0 <= i < LeavesAll(ts) ==>
      ForEachLeafColumnOf(ts, path, index, rep, def)[i].maxDefinitionLevel - def
        == ForEachLeafColumnOf(ts, path, index, rep', def')[i].maxDefinitionLevel - def'
    decreases ts, 0
  {
    if ts != [] {
      LevelsShift(ts[0], path + [ts[0].element.name], index, rep, def, rep', def');
      AllLevelsShift(ts[1..], path, index + Leaves(ts[0]), rep, def, rep', def');
    }
  }

  /** The file's levels, which ignore the root, are those of the schema walk exactly when the root is required. */
  lemma RootMustBeRequired(t: Tree)
    requires WellFormed(t) && Leaves(t) > 0
    ensures ForEachLeafColumn(Rooted(t, 0), [], 0, 0, 0) == ForEachLeafColumn(t, [], 0, 0, 0) <==> t.element.repetition.Required?
  {
    if t.element.repetition.Required? {
      assert Rooted(t, 0) == t;
    } else if !t.element.isLeaf {
      var r := RepetitionInc(t.element.repetition);
      AllLevelsShift(t.children, [], 0, 0, 0, r, 1);
      var walked, stored := ForEachLeafColumn(t, [], 0, 0, 0), ForEachLeafColumn(Rooted(t, 0), [], 0, 0, 0);
      assert walked[0].maxDefinitionLevel == stored[0].maxDefinitionLevel + 1;
    }
  }
}
