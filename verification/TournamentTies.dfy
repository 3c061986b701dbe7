/** Which of several inputs with equal heads the tournament lets win. */
module TournamentTies {
  import opened LoserTree
  import opened Orders

  // ----- left and right in the tree -----

  /** Node `a` comes before node `b` from left to right: it is below a left child whose sibling `b` is below. */
  ghost predicate LeftOf(a: nat, b: nat) {
    exists c: nat :: Apart(c, a, b)
  }

  ghost predicate Apart(c: nat, a: nat, b: nat) {
    Above(2 * c + 1, a) && Above(2 * c + 2, b)
  }

  /** Of two ancestors of a node, one is above the other. */
  lemma {:induction false} AncestorsAreNested(c: nat, d: nat, n: nat)
    requires Above(c, n) && Above(d, n)
    ensures Above(c, d) || Above(d, c)
    decreases n
  {
    if c != n && d != n {
      AncestorsAreNested(c, d, Parent(n));
    }
  }

  lemma NoTwist(c: nat, d: nat, a: nat, b: nat)
    requires Apart(c, a, b) && Apart(d, b, a)
    ensures !Above(c, d)
  {
    hide Above;
    SubtreeSplits(c, a);
    SubtreeSplits(c, b);
    if Above(c, d) && c != d {
      ParentAbove(2 * d + 1, b);
      ParentAbove(2 * d + 2, a);
      BelowAChild(c, d);
      if Above(2 * c + 1, d) {
        AboveTransitive(2 * c + 1, d, b);
      } else {
        AboveTransitive(2 * c + 2, d, a);
      }
    }
  }

  /** No two nodes come before each other. */
  lemma LeftOfIsAsymmetric(a: nat, b: nat)
    ensures !(LeftOf(a, b) && LeftOf(b, a))
  {
    if LeftOf(a, b) && LeftOf(b, a) {
      var c: nat :| Apart(c, a, b);
      var d: nat :| Apart(d, b, a);
      ParentAbove(2 * c + 1, a);
      ParentAbove(2 * d + 2, a);
      AncestorsAreNested(c, d, a);
      NoTwist(c, d, a, b);
      NoTwist(d, c, b, a);
    }
  }

  // ----- the initial tournament -----

  /** Input `j` loses to `w`: its head is greater, or the same and its leaf is to the left. */
  ghost predicate LosesTo<T>(cmp: (T, T) -> int, pend: seq<seq<T>>, j: nat, w: int) {
    Alive(pend, j) && Alive(pend, w) &&
    (j == w || cmp(pend[w][0], pend[j][0]) < 0 || (cmp(pend[w][0], pend[j][0]) == 0 && LeftOf(|pend| + j, |pend| + w)))
  }

  lemma LeafBelowItself(k: nat, n: nat, j: nat)
    requires k <= n && j < k && Above(n, k + j)
    ensures n == k + j
  {
    if n != k + j {
      AboveIsNoLater(n, Parent(k + j));
    }
  }

  /** In every subtree, the winner is the last from left to right of the inputs with the smallest head. */
  lemma {:induction false} SubtreeWinnerIsLast<T(!new)>(cmp: (T, T) -> int, pend: seq<seq<T>>, n: nat, j: nat)
    requires TotalPreorder(cmp) && Alive(pend, j) && Above(n, |pend| + j)
    ensures LosesTo(cmp, pend, j, SubWinner(cmp, pend, n))
    decreases 2 * |pend| + 2 - n
  {
    var k := |pend|;
    AboveIsNoLater(n, k + j);
    if n >= k {
      LeafBelowItself(k, n, j);
      SelfOrder(cmp, pend[j][0]);
    } else {
      var a, b := SubWinner(cmp, pend, 2 * n + 1), SubWinner(cmp, pend, 2 * n + 2);
      SubWinnerIsMember(cmp, pend, 2 * n + 1);
      SubWinnerIsMember(cmp, pend, 2 * n + 2);
      BelowAChild(n, k + j);
      SubWinnerAt(cmp, pend, n);
      hide TotalPreorder, SubWinner, Above, LeftOf;
      if Above(2 * n + 1, k + j) {
        SubtreeWinnerIsLast(cmp, pend, 2 * n + 1, j);
        LeftLoses(cmp, pend, n, j, a, b);
      } else {
        SubtreeWinnerIsLast(cmp, pend, 2 * n + 2, j);
        RightLoses(cmp, pend, j, a, b);
      }
    }
  }

  lemma LeftLoses<T(!new)>(cmp: (T, T) -> int, pend: seq<seq<T>>, n: nat, j: nat, a: int, b: int)
    requires TotalPreorder(cmp) && LosesTo(cmp, pend, j, a) && Above(2 * n + 1, |pend| + j) && Member(pend, b, 2 * n + 2)
    ensures LosesTo(cmp, pend, j, GameWinner(cmp, pend, a, b))
  {
    hide Above;
    if Alive(pend, b) && cmp(pend[a][0], pend[b][0]) >= 0 {
      assert Apart(n, |pend| + j, |pend| + b);
      SelfOrder(cmp, pend[j][0]);
      NoGreater(cmp, pend[b][0], pend[a][0], pend[j][0]);
    }
  }

  lemma RightLoses<T(!new)>(cmp: (T, T) -> int, pend: seq<seq<T>>, j: nat, a: int, b: int)
    requires TotalPreorder(cmp) && LosesTo(cmp, pend, j, b)
    ensures LosesTo(cmp, pend, j, GameWinner(cmp, pend, a, b))
  {
    hide LeftOf;
    if Alive(pend, a) && cmp(pend[a][0], pend[b][0]) < 0 {
      SelfOrder(cmp, pend[j][0]);
      StrictlySmaller(cmp, pend[a][0], pend[b][0], pend[j][0]);
    }
  }

  lemma SubWinnerAt<T>(cmp: (T, T) -> int, pend: seq<seq<T>>, n: nat)
    requires n < |pend|
    ensures SubWinner(cmp, pend, n) == GameWinner(cmp, pend, SubWinner(cmp, pend, 2 * n + 1), SubWinner(cmp, pend, 2 * n + 2))
  {
  }

  lemma SelfOrder<T(!new)>(cmp: (T, T) -> int, x: T)
    requires TotalPreorder(cmp)
    ensures cmp(x, x) == 0
  {
    assert cmp(x, x) < 0 <==> cmp(x, x) > 0;
  }

  lemma NoGreater<T(!new)>(cmp: (T, T) -> int, x: T, y: T, z: T)
    requires TotalPreorder(cmp) && cmp(y, x) >= 0 && cmp(y, z) <= 0
    ensures cmp(x, z) <= 0
  {
    assert cmp(x, y) > 0 <==> cmp(y, x) < 0;
    assert Chained(cmp, x, y, z);
  }

  lemma StrictlySmaller<T(!new)>(cmp: (T, T) -> int, x: T, y: T, z: T)
    requires TotalPreorder(cmp) && cmp(x, y) < 0 && cmp(y, z) <= 0
    ensures cmp(x, z) < 0
  {
    assert Chained(cmp, y, z, x);
    assert cmp(x, y) < 0 <==> cmp(y, x) > 0;
    assert cmp(x, z) < 0 <==> cmp(z, x) > 0;
  }

  lemma SmallerThanLater<T(!new)>(cmp: (T, T) -> int, x: T, y: T, z: T)
    requires TotalPreorder(cmp) && cmp(x, y) < 0 && cmp(z, y) >= 0
    ensures cmp(x, z) < 0
  {
    assert cmp(z, y) < 0 <==> cmp(y, z) > 0;
    StrictlySmaller(cmp, x, y, z);
  }

  /**
   * The winner of the initial tournament has a smallest head, and of the inputs that share it, it is the one whose leaf
   * comes last from left to right.
   */
  lemma InitialWinnerIsLast<T(!new)>(cmp: (T, T) -> int, pend: seq<seq<T>>, j: nat)
    requires TotalPreorder(cmp) && j < |pend| && pend[j] != []
    ensures
      var w := SubWinner(cmp, pend, 0);
      && 0 <= w < |pend| && pend[w] != [] && cmp(pend[w][0], pend[j][0]) <= 0
      && (cmp(pend[w][0], pend[j][0]) == 0 && j != w ==> LeftOf(|pend| + j, |pend| + w))
  {
    RootAbove(|pend| + j);
    SelfOrder(cmp, pend[j][0]);
    SubtreeWinnerIsLast(cmp, pend, 0, j);
  }

  // ----- replays -----

  /** Node `p` is on the way from `node` to the root. */
  ghost predicate OnPath(p: nat, node: nat) {
    p < node && Above(p, node)
  }

  lemma PathFrom(p: nat, node: nat)
    requires node > 0
    ensures OnPath(p, node) <==> p == Parent(node) || OnPath(p, Parent(node))
    ensures OnPath(p, node) ==> p <= Parent(node)
  {
    if Above(p, Parent(node)) {
      AboveIsNoLater(p, Parent(node));
    }
  }

  /** The loser stored at node `q` takes the win: it beats `best` strictly, and so it does all losers stored before it. */
  ghost predicate Takes<T>(cmp: (T, T) -> int, pend: seq<seq<T>>, losers: seq<int>, node: nat, best: int, q: nat) {
    && OnPath(q, node) && q < |losers| && Beats(cmp, pend, losers[q], best)
    && forall p: nat :: OnPath(p, node) && q < p < |losers| ==> Beats(cmp, pend, losers[q], losers[p])
  }

  ghost predicate NoneBetter<T>(cmp: (T, T) -> int, pend: seq<seq<T>>, losers: seq<int>, node: nat, w: int) {
    forall p: nat :: OnPath(p, node) && p < |losers| ==> AtLeast(cmp, pend, w, losers[p])
  }

  /**
   * A replay is won by the replayed input unless an input on its path has a strictly smaller head; then, of those with
   * the smallest, by the first on the path.
   */
  lemma {:induction false} ReplayIsWonByFirst<T(!new)>(
      cmp: (T, T) -> int, pend: seq<seq<T>>, losers: seq<int>, node: nat, best: int)
    requires TotalPreorder(cmp) && node <= 2 * |losers|
    ensures
      var w := Replay(cmp, pend, losers, node, best).1;
      && (w == best || exists q: nat :: Takes(cmp, pend, losers, node, best, q) && losers[q] == w)
      && AtLeast(cmp, pend, w, best) && NoneBetter(cmp, pend, losers, node, w)
    decreases node
  {
    if node == 0 {
      if Alive(pend, best) {
        SelfOrder(cmp, pend[best][0]);
      }
    } else {
      var p := Parent(node);
      if Beats(cmp, pend, losers[p], best) {
        ReplayIsWonByFirst(cmp, pend, losers[p := best], p, losers[p]);
        FirstTakes(cmp, pend, losers, losers[p := best], node, best, Replay(cmp, pend, losers, node, best).1);
      } else {
        ReplayIsWonByFirst(cmp, pend, losers, p, best);
        BestStays(cmp, pend, losers, node, best, Replay(cmp, pend, losers, node, best).1);
      }
    }
  }

  lemma FirstTakes<T(!new)>(
      cmp: (T, T) -> int, pend: seq<seq<T>>, losers: seq<int>, losers': seq<int>, node: nat, best: int, w: int)
    requires TotalPreorder(cmp) && 0 < node <= 2 * |losers| && Beats(cmp, pend, losers[Parent(node)], best)
    requires losers' == losers[Parent(node) := best]
    requires var p := Parent(node);
      (w == losers[p] || exists q: nat :: Takes(cmp, pend, losers', p, losers[p], q) && losers'[q] == w)
    requires var p := Parent(node);
      AtLeast(cmp, pend, w, losers[p]) && NoneBetter(cmp, pend, losers', p, w)
    ensures exists q: nat :: Takes(cmp, pend, losers, node, best, q) && losers[q] == w
    ensures AtLeast(cmp, pend, w, best) && NoneBetter(cmp, pend, losers, node, w)
  {
    hide TotalPreorder;
    var p := Parent(node);
    forall i: nat ensures OnPath(i, node) <==> i == p || OnPath(i, p) {
      PathFrom(i, node);
    }
    if w == losers[p] {
      assert Takes(cmp, pend, losers, node, best, p);
    } else {
      var q: nat :| Takes(cmp, pend, losers', p, losers[p], q) && losers'[q] == w;
      if Alive(pend, best) {
        BeatsBoth(cmp, pend, losers[q], losers[p], best);
      }
      assert Takes(cmp, pend, losers, node, best, q);
    }
    if Alive(pend, best) {
      AtLeastChain(cmp, pend, w, losers[p], best);
    }
    forall i: nat | OnPath(i, node) && i < |losers| ensures AtLeast(cmp, pend, w, losers[i]) {
      assert i != p ==> losers'[i] == losers[i];
    }
  }

  lemma BeatsBoth<T(!new)>(cmp: (T, T) -> int, pend: seq<seq<T>>, x: int, y: int, z: int)
    requires TotalPreorder(cmp) && Beats(cmp, pend, x, y) && Beats(cmp, pend, y, z) && Alive(pend, z)
    ensures Beats(cmp, pend, x, z)
  {
    StrictlySmaller(cmp, pend[x][0], pend[y][0], pend[z][0]);
  }

  lemma AtLeastChain<T(!new)>(cmp: (T, T) -> int, pend: seq<seq<T>>, x: int, y: int, z: int)
    requires TotalPreorder(cmp) && AtLeast(cmp, pend, x, y) && AtLeast(cmp, pend, y, z)
    ensures AtLeast(cmp, pend, x, z)
  {
    if Alive(pend, z) {
      assert Chained(cmp, pend[x][0], pend[y][0], pend[z][0]);
    }
  }

  lemma BestStays<T(!new)>(cmp: (T, T) -> int, pend: seq<seq<T>>, losers: seq<int>, node: nat, best: int, w: int)
    requires TotalPreorder(cmp) && 0 < node <= 2 * |losers| && !Beats(cmp, pend, losers[Parent(node)], best)
    requires var p := Parent(node);
      w == best || exists q: nat :: Takes(cmp, pend, losers, p, best, q) && losers[q] == w
    requires AtLeast(cmp, pend, w, best) && NoneBetter(cmp, pend, losers, Parent(node), w)
    ensures w == best || exists q: nat :: Takes(cmp, pend, losers, node, best, q) && losers[q] == w
    ensures NoneBetter(cmp, pend, losers, node, w)
  {
    var p := Parent(node);
    forall i: nat ensures OnPath(i, node) <==> i == p || OnPath(i, p) {
      PathFrom(i, node);
    }
    if Alive(pend, losers[p]) {
      assert cmp(pend[best][0], pend[losers[p]][0]) <= 0 by {
        assert cmp(pend[best][0], pend[losers[p]][0]) > 0 <==> cmp(pend[losers[p]][0], pend[best][0]) < 0;
      }
      AtLeastChain(cmp, pend, w, best, losers[p]);
    }
    hide TotalPreorder;
    if w != best {
      var q: nat :| Takes(cmp, pend, losers, p, best, q) && losers[q] == w;
      if Alive(pend, losers[p]) {
        SmallerThanLater(cmp, pend[losers[q]][0], pend[best][0], pend[losers[p]][0]);
      }
      assert Takes(cmp, pend, losers, node, best, q);
    }
  }
}
