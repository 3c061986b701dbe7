/** What is stored in each column of an opened tree, by the way that leads to it from the root. */
module ColumnRoutes {
  import opened ColumnTree
  import opened FieldRepetition

  // ----- ways through a schema -----

  /** Which child to take at each node on the way down from the root. */
  ghost predicate IsRoute(t: Tree, route: seq<nat>)
    decreases |route|
  {
    route == [] || (route[0] < |t.children| && IsRoute(t.children[route[0]], route[1..]))
  }

  ghost function NodeAt(t: Tree, route: seq<nat>): Tree
    requires IsRoute(t, route)
    decreases |route|
  {
    if route == [] then t else NodeAt(t.children[route[0]], route[1..])
  }

  ghost predicate Leads(c: Column, route: seq<nat>)
    decreases |route|
  {
    route == [] || (route[0] < |c.columns| && Leads(c.columns[route[0]], route[1..]))
  }

  ghost function ColumnAt(c: Column, route: seq<nat>): Column
    requires Leads(c, route)
    decreases |route|
  {
    if route == [] then c else ColumnAt(c.columns[route[0]], route[1..])
  }

  /** The elements on the way below the root. */
  ghost function ElementsOn(t: Tree, route: seq<nat>): (elements: seq<SchemaElement>)
    requires IsRoute(t, route)
    ensures |elements| == |route|
    decreases |route|
  {
    if route == [] then []
    else [t.children[route[0]].element] + ElementsOn(t.children[route[0]], route[1..])
  }

  ghost function NamesOf(elements: seq<SchemaElement>): (names: seq<string>)
    ensures |names| == |elements|
  {
    seq(|elements|, i requires 0 <= i < |elements| => elements[i].name)
  }

  ghost function RepetitionsOf(elements: seq<SchemaElement>): (types: multiset<Repetition>) {
    multiset(seq(|elements|, i requires 0 <= i < |elements| => elements[i].repetition))
  }

  /** How many leaves come before a node in the depth-first list. */
  ghost function LeavesBefore(t: Tree, route: seq<nat>): nat
    requires IsRoute(t, route)
    decreases |route|
  {
    if route == [] then 0
    else LeavesAll(t.children[..route[0]]) + LeavesBefore(t.children[route[0]], route[1..])
  }

  lemma OneMoreElement(e: SchemaElement, elements: seq<SchemaElement>)
    ensures RepetitionsOf([e] + elements) == multiset{e.repetition} + RepetitionsOf(elements)
    ensures NamesOf([e] + elements) == [e.name] + NamesOf(elements)
  {
    var types := seq(|elements|, i requires 0 <= i < |elements| => elements[i].repetition);
    var all := [e] + elements;
    assert seq(|all|, i requires 0 <= i < |all| => all[i].repetition) == [e.repetition] + types;
  }

  // ----- what the columns store -----

  lemma {:induction false} LevelsOnRoute(c: Column, t: Tree, depth: nat, rep: nat, def: nat, index: nat, route: seq<nat>)
    requires Leveled(c, t, depth, rep, def, index) && IsRoute(t, route)
    ensures Leads(c, route)
    ensures
      var stored, types, root := ColumnAt(c, route), RepetitionsOf(ElementsOn(t, route)), Rooted(t, depth).element.repetition;
      && stored.depth == depth + |route|
      && stored.maxRepetitionLevel == rep + RepetitionInc(root) + types[Repeated]
      && stored.maxDefinitionLevel == def + DefinitionInc(root) + types[Optional] + types[Repeated]
      && stored.index == if NodeAt(t, route).element.isLeaf then index + LeavesBefore(t, route) else GROUP_INDEX
    decreases |route|
  {
    if route != [] {
      var i := route[0];
      assert Leveled(c.columns[i], t.children[i], depth + 1, c.maxRepetitionLevel, c.maxDefinitionLevel,
          index + LeavesAll(t.children[..i]));
      FirstStep(t, route);
      Counts(t.children[i].element.repetition);
      hide Leveled, LeavesAll, LeavesBefore, ElementsOn, RepetitionsOf, NodeAt;
      LevelsOnRoute(c.columns[i], t.children[i], depth + 1, c.maxRepetitionLevel, c.maxDefinitionLevel,
        index + LeavesAll(t.children[..i]), route[1..]);
    } else {
      assert RepetitionsOf([]) == multiset{};
    }
  }

  /** The first step of a way, and what is left of it. */
  lemma FirstStep(t: Tree, route: seq<nat>)
    requires IsRoute(t, route) && route != []
    ensures
      var child, rest := t.children[route[0]], route[1..];
      && NodeAt(t, route) == NodeAt(child, rest)
      && ElementsOn(t, route) == [child.element] + ElementsOn(child, rest)
      && LeavesBefore(t, route) == LeavesAll(t.children[..route[0]]) + LeavesBefore(child, rest)
      && RepetitionsOf(ElementsOn(t, route)) == multiset{child.element.repetition} + RepetitionsOf(ElementsOn(child, rest))
      && NamesOf(ElementsOn(t, route)) == [child.element.name] + NamesOf(ElementsOn(child, rest))
  {
    OneMoreElement(t.children[route[0]].element, ElementsOn(t.children[route[0]], route[1..]));
  }

  lemma Counts(t: Repetition)
    ensures RepetitionInc(t) == multiset{t}[Repeated]
    ensures DefinitionInc(t) == multiset{t}[Optional] + multiset{t}[Repeated]
  {
  }

  lemma {:induction false} PathOnRoute(c: Column, t: Tree, path: seq<string>, route: seq<nat>)
    requires Matches(c, t, path) && IsRoute(t, route)
    ensures Leads(c, route)
    ensures ColumnAt(c, route).path == path + [t.element.name] + NamesOf(ElementsOn(t, route))
    ensures ColumnAt(c, route).element == NodeAt(t, route).element
    decreases |route|
  {
    if route != [] {
      var child := t.children[route[0]];
      PathOnRoute(c.columns[route[0]], child, c.path, route[1..]);
      OneMoreElement(child.element, ElementsOn(child, route[1..]));
    }
  }

  lemma {:induction false} SameShapeMatches(c: Column, c': Column, t: Tree, path: seq<string>)
    requires SameShape(c, c') && Matches(c, t, path)
    ensures Matches(c', t, path)
    decreases t
  {
    forall i | 0 <= i < |t.children| ensures Matches(c'.columns[i], t.children[i], c'.path) {
      SameShapeMatches(c.columns[i], c'.columns[i], t.children[i], c.path);
    }
  }

  /**
   * Every column of an opened tree, groups included, stores how deep it lies, how many nodes on its path below the root
   * are repeated and how many are not required, and, if it is a leaf, how many leaves come before it.
   */
  lemma StoredOnPath(loaded: Column, c: Column, t: Tree, n: nat, route: seq<nat>)
    requires WellFormed(t) && Rebuilds(loaded, t, [], 0, n)
    requires LevelsSet(loaded, c, t, 0, 0, 0, 0, Leaves(t)) && Leveled(c, t, 0, 0, 0, 0) && IsRoute(t, route)
    ensures Leads(c, route)
    ensures
      var stored, elements := ColumnAt(c, route), ElementsOn(t, route);
      var types := RepetitionsOf(elements);
      && stored.path == [t.element.name] + NamesOf(elements) && stored.depth == |stored.path| - 1
      && stored.maxRepetitionLevel == types[Repeated]
      && stored.maxDefinitionLevel == types[Optional] + types[Repeated]
      && (stored.index == GROUP_INDEX <==> !NodeAt(t, route).element.isLeaf)
      && (NodeAt(t, route).element.isLeaf ==> stored.index == LeavesBefore(t, route))
  {
    hide Leveled, Matches, Rebuilds, SameShape;
    RebuildsMatches(loaded, t, [], 0, n);
    SameShapeMatches(loaded, c, t, []);
    LevelsOnRoute(c, t, 0, 0, 0, 0, route);
    PathOnRoute(c, t, [], route);
    LeavesOnRoute(t, route);
  }

  /** A leaf is one of the leaves of the tree. */
  lemma {:induction false} LeavesOnRoute(t: Tree, route: seq<nat>)
    requires WellFormed(t) && IsRoute(t, route)
    ensures LeavesBefore(t, route) + Leaves(NodeAt(t, route)) <= Leaves(t)
    decreases |route|
  {
    if route != [] {
      LeavesOnRoute(t.children[route[0]], route[1..]);
      LeavesUpTo(t.children, route[0]);
    }
  }

  lemma {:induction false} LeavesUpTo(ts: seq<Tree>, i: nat)
    requires i < |ts|
    ensures LeavesAll(ts[..i]) + Leaves(ts[i]) <= LeavesAll(ts)
  {
    if i > 0 {
      assert ts[..i][1..] == ts[1..][..i - 1];
      LeavesUpTo(ts[1..], i - 1);
    }
  }

  // ----- the walk over the leaves of a schema -----

  lemma {:induction false} LeavesOfChild(ts: seq<Tree>, i: nat, path: seq<string>, index: nat, rep: nat, def: nat)
    requires i < |ts|
    ensures
      var all := ForEachLeafColumnOf(ts, path, index, rep, def);
      var child := ForEachLeafColumn(ts[i], path + [ts[i].element.name], index + LeavesAll(ts[..i]), rep, def);
      && |child| == Leaves(ts[i]) && LeavesAll(ts[..i]) + |child| <= |all|
      && forall k: nat :: k < |child| ==> all[LeavesAll(ts[..i]) + k] == child[k]
  {
    hide ForEachLeafColumn, Leaves;
    var first := ForEachLeafColumn(ts[0], path + [ts[0].element.name], index, rep, def);
    LevelsShift(ts[0], path + [ts[0].element.name], index, rep, def, rep, def);
    assert ForEachLeafColumnOf(ts, path, index, rep, def) == first + ForEachLeafColumnOf(ts[1..], path, index + Leaves(ts[0]), rep, def);
    if i > 0 {
      LeavesOfFirst(ts, i);
      hide ForEachLeafColumnOf, LeavesAll;
      LeavesOfChild(ts[1..], i - 1, path, index + Leaves(ts[0]), rep, def);
    }
  }

  lemma LeavesOfFirst(ts: seq<Tree>, i: nat)
    requires 0 < i < |ts|
    ensures LeavesAll(ts[..i]) == Leaves(ts[0]) + LeavesAll(ts[1..][..i - 1])
  {
    assert ts[..i][1..] == ts[1..][..i - 1] && ts[..i][0] == ts[0];
  }

  /** The leaf at the end of a path: its levels count the nodes on the path, the root included. */
  ghost function LeafOf(
    path: seq<string>, rep: nat, def: nat, root: Repetition, elements: seq<SchemaElement>, index: nat): LeafColumn
  {
    var types := RepetitionsOf(elements) + multiset{root};
    LeafColumn(path + NamesOf(elements), rep + types[Repeated], def + types[Optional] + types[Repeated], index)
  }

  lemma NextLeaf(
      path: seq<string>, rep: nat, def: nat, root: Repetition, e: SchemaElement, elements: seq<SchemaElement>, index: nat)
    ensures LeafOf(path, rep, def, root, [e] + elements, index)
      == LeafOf(path + [e.name], rep + RepetitionInc(root), def + DefinitionInc(root), e.repetition, elements, index)
  {
    OneMoreElement(e, elements);
    Counts(root);
    hide RepetitionsOf, NamesOf;
    assert path + [e.name] + NamesOf(elements) == path + ([e.name] + NamesOf(elements));
  }

  /**
   * The walk visits every leaf, in depth-first order: it numbers a leaf by the leaves before it, and its levels count
   * the nodes on its path, the root included.
   */
  lemma {:induction false} LeafOnRoute(t: Tree, path: seq<string>, index: nat, rep: nat, def: nat, route: seq<nat>)
    requires IsRoute(t, route) && NodeAt(t, route).element.isLeaf && WellFormed(t)
    ensures
      var leaves, k := ForEachLeafColumn(t, path, index, rep, def), LeavesBefore(t, route);
      && k < |leaves| == Leaves(t)
      && leaves[k] == LeafOf(path, rep, def, t.element.repetition, ElementsOn(t, route), index + k)
    decreases |route|
  {
    hide LeavesAll, LeavesBefore, ElementsOn, NodeAt, Leaves, ForEachLeafColumn, ForEachLeafColumnOf, LeafOf, IsRoute, WellFormed;
    LevelsShift(t, path, index, rep, def, rep, def);
    if route == [] {
      LeafItself(t, path, index, rep, def);
    } else {
      FirstStep(t, route);
      ChildOnRoute(t, route, path, index, rep, def);
      var i, rest := route[0], route[1..];
      var child, r, d := t.children[i], RepetitionInc(t.element.repetition), DefinitionInc(t.element.repetition);
      LeafOnRoute(child, path + [child.element.name], index + LeavesAll(t.children[..i]), rep + r, def + d, rest);
      LeavesOfChild(t.children, i, path, index, rep + r, def + d);
      NextLeaf(path, rep, def, t.element.repetition, child.element, ElementsOn(child, rest), index + LeavesBefore(t, route));
    }
  }

  lemma LeafItself(t: Tree, path: seq<string>, index: nat, rep: nat, def: nat)
    requires NodeAt(t, []).element.isLeaf
    ensures LeavesBefore(t, []) == 0
    ensures ForEachLeafColumn(t, path, index, rep, def) == [LeafOf(path, rep, def, t.element.repetition, ElementsOn(t, []), index)]
  {
    assert path + NamesOf([]) == path && RepetitionsOf([]) == multiset{};
    Counts(t.element.repetition);
  }

  /** A node that has children on the way is a group, whose leaves are those of its children. */
  lemma ChildOnRoute(t: Tree, route: seq<nat>, path: seq<string>, index: nat, rep: nat, def: nat)
    requires IsRoute(t, route) && route != [] && WellFormed(t)
    ensures route[0] < |t.children| && IsRoute(t.children[route[0]], route[1..]) && WellFormed(t.children[route[0]])
    ensures ForEachLeafColumn(t, path, index, rep, def)
      == ForEachLeafColumnOf(t.children, path, index, rep + RepetitionInc(t.element.repetition), def + DefinitionInc(t.element.repetition))
  {
    hide ForEachLeafColumnOf;
  }
}
