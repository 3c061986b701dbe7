/**
 * The tournament tree of losers behind the k-way merge, on values.
 * Players are input indexes, -1 stands for an exhausted input. Internal node i of the 2k heap holds the loser of
 * the game played there; the leaf of player p is node k + p.
 */
module LoserTree {
  import opened Options
  import opened Orders
  import opened MergeTraces

  function Parent(n: nat): nat
    requires n > 0
  {
    (n - 1) / 2
  }

  ghost function Sibling(n: nat): nat
    requires n > 0
  {
    if n % 2 == 1 then n + 1 else n - 1
  }

  /** Node `a` is `n` or one of its ancestors. */
  ghost predicate Above(a: nat, n: nat)
    decreases n
  {
    a == n || (n > 0 && Above(a, Parent(n)))
  }

  predicate Alive<T>(pend: seq<seq<T>>, p: int) {
    0 <= p < |pend| && pend[p] != []
  }

  /** The stored loser `p` takes the win from `w`: strictly, so ties favour the incumbent. */
  predicate Beats<T>(cmp: (T, T) -> int, pend: seq<seq<T>>, p: int, w: int) {
    Alive(pend, p) && (!Alive(pend, w) || cmp(pend[p][0], pend[w][0]) < 0)
  }

  /** Replays the games from `node`, won so far by `w`, up to the root; yields the losers and the overall winner. */
  function Replay<T>(cmp: (T, T) -> int, pend: seq<seq<T>>, losers: seq<int>, node: nat, w: int): (r: (seq<int>, int))
    requires node <= 2 * |losers|
    ensures |r.0| == |losers|
    decreases node
  {
    if node == 0 then (losers, w)
    else
      var p := Parent(node);
      if Beats(cmp, pend, losers[p], w) then Replay(cmp, pend, losers[p := w], p, losers[p])
      else Replay(cmp, pend, losers, p, w)
  }

  /** The player at leaf `p`: `p` itself while it has rows. */
  function Entrant<T>(pend: seq<seq<T>>, p: int): (e: int)
    ensures e == p || e == -1
  {
    if Alive(pend, p) then p else -1
  }

  /** The tree after the head of `w` changed and its games were replayed. */
  function Replayed<T>(cmp: (T, T) -> int, pend: seq<seq<T>>, losers: seq<int>, w: nat): (r: (seq<int>, int))
    requires w < |losers|
    ensures |r.0| == |losers|
  {
    Replay(cmp, pend, losers, |losers| + w, Entrant(pend, w))
  }

  /** The game of the initial tournament: a tie goes to the second player. */
  function GameWinner<T>(cmp: (T, T) -> int, pend: seq<seq<T>>, n1: int, n2: int): int {
    if !Alive(pend, n1) then n2
    else if !Alive(pend, n2) then n1
    else if cmp(pend[n1][0], pend[n2][0]) < 0 then n1 else n2
  }

  function GameLoser<T>(cmp: (T, T) -> int, pend: seq<seq<T>>, n1: int, n2: int): int {
    if GameWinner(cmp, pend, n1, n2) == n1 && n1 != n2 then n2 else n1
  }

  /** The winner of the initial tournament played in the subtree of `node`. */
  function SubWinner<T>(cmp: (T, T) -> int, pend: seq<seq<T>>, node: nat): int
    decreases 2 * |pend| + 2 - node
  {
    if node >= |pend| then Entrant(pend, node - |pend|)
    else GameWinner(cmp, pend, SubWinner(cmp, pend, 2 * node + 1), SubWinner(cmp, pend, 2 * node + 2))
  }

  function LoserAt<T>(cmp: (T, T) -> int, pend: seq<seq<T>>, i: nat): int {
    GameLoser(cmp, pend, SubWinner(cmp, pend, 2 * i + 1), SubWinner(cmp, pend, 2 * i + 2))
  }

  function InitialLosers<T>(cmp: (T, T) -> int, pend: seq<seq<T>>): (r: seq<int>)
    ensures |r| == |pend|
  {
    seq(|pend|, i requires 0 <= i < |pend| => LoserAt(cmp, pend, i))
  }

  /** The losers after the tournament of the subtree of node `i` has been played. */
  function Filled<T>(cmp: (T, T) -> int, pend: seq<seq<T>>, losers: seq<int>, i: nat): (r: seq<int>)
    requires |losers| == |pend|
    ensures |r| == |losers|
    decreases 2 * |pend| + 2 - i
  {
    if i >= |pend| then losers
    else Filled(cmp, pend, Filled(cmp, pend, losers, 2 * i + 1), 2 * i + 2)[i := LoserAt(cmp, pend, i)]
  }

  /** One game of the initial tournament. */
  lemma GameAt<T>(cmp: (T, T) -> int, pend: seq<seq<T>>, losers: seq<int>, i: nat)
    requires |losers| == |pend|
    ensures i >= |pend| ==> Filled(cmp, pend, losers, i) == losers && SubWinner(cmp, pend, i) == Entrant(pend, i - |pend|)
    ensures i < |pend| ==>
      var a, b := SubWinner(cmp, pend, 2 * i + 1), SubWinner(cmp, pend, 2 * i + 2);
      && SubWinner(cmp, pend, i) == GameWinner(cmp, pend, a, b)
      && Filled(cmp, pend, losers, i)
           == Filled(cmp, pend, Filled(cmp, pend, losers, 2 * i + 1), 2 * i + 2)[i := GameLoser(cmp, pend, a, b)]
  {
  }

  // ----- the invariant -----

  /** `w` is at least as good as `l`. */
  ghost predicate AtLeast<T>(cmp: (T, T) -> int, pend: seq<seq<T>>, w: int, l: int) {
    !Alive(pend, l) || (Alive(pend, w) && cmp(pend[w][0], pend[l][0]) <= 0)
  }

  ghost predicate Shape<T>(pend: seq<seq<T>>, losers: seq<int>, wins: seq<int>) {
    |losers| == |pend| && |wins| == 2 * |pend| + 1
  }

  /** The game at internal node `i` was played by the winners of its two subtrees, and the better one won. */
  ghost predicate Played<T>(cmp: (T, T) -> int, pend: seq<seq<T>>, losers: seq<int>, wins: seq<int>, i: nat)
    requires Shape(pend, losers, wins) && i < |pend|
  {
    && (|| (wins[i] == wins[2 * i + 1] && losers[i] == wins[2 * i + 2])
        || (wins[i] == wins[2 * i + 2] && losers[i] == wins[2 * i + 1]))
    && AtLeast(cmp, pend, wins[i], losers[i])
  }

  /** `x` is a live player whose leaf is below node `n`, or nobody. */
  ghost predicate Member<T>(pend: seq<seq<T>>, x: int, n: nat) {
    x == -1 || (Alive(pend, x) && Above(n, |pend| + x))
  }

  ghost predicate Sound<T>(pend: seq<seq<T>>, wins: seq<int>, n: nat)
    requires n < |wins|
  {
    Member(pend, wins[n], n)
  }

  ghost predicate LeafSet<T>(pend: seq<seq<T>>, wins: seq<int>, p: nat)
    requires p < |pend| && |wins| == 2 * |pend| + 1
  {
    wins[|pend| + p] == Entrant(pend, p)
  }

  /** On the way up from `c`, each node stores the winner of the subtree the path does not come from. */
  ghost predicate PathReady(losers: seq<int>, wins: seq<int>, c: nat)
    requires |wins| == 2 * |losers| + 1 && c < |wins|
  {
    c == 0 || (losers[Parent(c)] == wins[Sibling(c)] && PathReady(losers, wins, Parent(c)))
  }

  /** All games below `c` and beside its path to the root are settled; those above `c` are to be replayed. */
  ghost predicate SettledUpTo<T>(cmp: (T, T) -> int, pend: seq<seq<T>>, losers: seq<int>, wins: seq<int>, c: nat) {
    && Shape(pend, losers, wins)
    && c < |wins|
    && wins[2 * |pend|] == -1
    && (forall p: nat :: p < |pend| ==> LeafSet(pend, wins, p))
    && (forall i: nat :: i < |pend| && (i == c || !Above(i, c)) ==> Played(cmp, pend, losers, wins, i))
    && (forall n: nat :: n < |wins| && (n == c || !Above(n, c)) ==> Sound(pend, wins, n))
    && PathReady(losers, wins, c)
  }

  /** The loser-tree invariant: every game is settled. */
  ghost predicate Settled<T>(cmp: (T, T) -> int, pend: seq<seq<T>>, losers: seq<int>, wins: seq<int>) {
    SettledUpTo(cmp, pend, losers, wins, 0)
  }

  /** Everything is settled except the games of player `w`, whose head may have changed. */
  ghost predicate Awaiting<T>(cmp: (T, T) -> int, pend: seq<seq<T>>, losers: seq<int>, wins: seq<int>, w: nat) {
    && Shape(pend, losers, wins)
    && w < |pend|
    && wins[2 * |pend|] == -1
    && (forall p: nat :: p < |pend| && p != w ==> LeafSet(pend, wins, p))
    && (forall i: nat :: i < |pend| && !Above(i, |pend| + w) ==> Played(cmp, pend, losers, wins, i))
    && (forall n: nat :: n < |wins| && !Above(n, |pend| + w) ==> Sound(pend, wins, n))
    && PathReady(losers, wins, |pend| + w)
  }

  // ----- ancestry -----

  lemma {:induction false} AboveIsNoLater(a: nat, n: nat)
    requires Above(a, n)
    ensures a <= n
    decreases n
  {
    if a != n {
      AboveIsNoLater(a, Parent(n));
    }
  }

  lemma {:induction false} RootAbove(n: nat)
    ensures Above(0, n)
    decreases n
  {
    if n > 0 {
      RootAbove(Parent(n));
    }
  }

  lemma {:induction false} AboveTransitive(a: nat, b: nat, n: nat)
    requires Above(a, b) && Above(b, n)
    ensures Above(a, n)
    decreases n
  {
    if b != n {
      AboveTransitive(a, b, Parent(n));
    }
  }

  lemma ParentAbove(c: nat, n: nat)
    requires c > 0 && Above(c, n)
    ensures Above(Parent(c), n)
  {
    assert Above(Parent(c), Parent(c));
    AboveTransitive(Parent(c), c, n);
  }

  /** A node below both siblings does not exist. */
  lemma {:induction false} SiblingsDisjoint(c: nat, n: nat)
    requires c > 0 && Above(c, n)
    ensures !Above(Sibling(c), n)
    decreases n
  {
    if n == c {
      if Above(Sibling(c), Parent(c)) {
        AboveIsNoLater(Sibling(c), Parent(c));
      }
    } else if n == Sibling(c) {
      AboveIsNoLater(c, Parent(n));
      assert false;
    } else {
      SiblingsDisjoint(c, Parent(n));
    }
  }

  /** A proper descendant is below one of the two children. */
  lemma {:induction false} BelowAChild(a: nat, n: nat)
    requires Above(a, n) && a != n
    ensures Above(2 * a + 1, n) || Above(2 * a + 2, n)
    decreases n
  {
    if a != Parent(n) {
      BelowAChild(a, Parent(n));
    }
  }

  /** The nodes below `i` are `i` itself and, separately, those below each child. */
  lemma SubtreeSplits(i: nat, j: nat)
    ensures Above(i, j) <==> j == i || Above(2 * i + 1, j) || Above(2 * i + 2, j)
    ensures !(Above(2 * i + 1, j) && Above(2 * i + 2, j))
    ensures !Above(2 * i + 1, i) && !Above(2 * i + 2, i)
  {
    if Above(i, j) && j != i { BelowAChild(i, j); }
    if Above(2 * i + 1, j) {
      ParentAbove(2 * i + 1, j);
      SiblingsDisjoint(2 * i + 1, j);
    }
    if Above(2 * i + 2, j) { ParentAbove(2 * i + 2, j); }
    if Above(2 * i + 1, i) { AboveIsNoLater(2 * i + 1, i); }
    if Above(2 * i + 2, i) { AboveIsNoLater(2 * i + 2, i); }
  }

  /** Where the paths from `n` and `m` to the root meet, `m` comes from the sibling of `n`'s side. */
  lemma {:induction false} Fork(n: nat, m: nat, c: nat) returns (f: nat)
    requires Above(c, n) && !Above(c, m)
    requires forall a: nat :: Above(a, c) && a != c ==> a != m
    ensures f > 0 && Above(f, n) && Above(Sibling(f), m)
    decreases c
  {
    RootAbove(m);
    assert c > 0;
    if Above(Parent(c), m) {
      assert Above(Parent(c), c);
      BelowAChild(Parent(c), m);
      f := c;
    } else {
      ParentAbove(c, n);
      forall a: nat | Above(a, Parent(c)) ensures a != m {
        AboveIsNoLater(a, Parent(c));
        assert Above(a, c);
      }
      f := Fork(n, m, Parent(c));
    }
  }

  // ----- replaying keeps the invariant -----

  lemma FamilyOf(c: nat, k: nat)
    requires 0 < c < 2 * k + 1
    ensures Parent(c) < c && Parent(c) < k && Sibling(c) < 2 * k + 1
    ensures Parent(c) > 0 ==> Sibling(Parent(c)) < c
  {
  }

  lemma {:induction false} PathReadyFrame(losers: seq<int>, wins: seq<int>, losers': seq<int>, wins': seq<int>, c: nat, x: nat)
    requires |wins| == |wins'| == 2 * |losers| + 1 && |losers| == |losers'| && c < |wins|
    requires PathReady(losers, wins, c)
    requires forall i :: 0 <= i < |losers| && i < c ==> losers'[i] == losers[i]
    requires forall n :: 0 <= n < |wins| && n != x ==> wins'[n] == wins[n]
    requires x >= c && (c > 0 ==> x != Sibling(c))
    ensures PathReady(losers', wins', c)
    decreases c
  {
    if c > 0 {
      FamilyOf(c, |losers|);
      hide Parent, Sibling;
      var p, s := Parent(c), Sibling(c);
      assert wins'[s] == wins[s] && losers'[p] == losers[p];
      PathReadyFrame(losers, wins, losers', wins', p, x);
    }
  }

  /** The replayed player enters the tournament at its leaf. */
  lemma EnterLeaf<T>(cmp: (T, T) -> int, pend: seq<seq<T>>, losers: seq<int>, wins: seq<int>, w: nat)
    requires Awaiting(cmp, pend, losers, wins, w)
    ensures SettledUpTo(cmp, pend, losers, wins[|pend| + w := Entrant(pend, w)], |pend| + w)
  {
    var c := |pend| + w;
    var wins' := wins[c := Entrant(pend, w)];
    PathReadyFrame(losers, wins, losers, wins', c, c);
    forall i: nat | i < |pend| && (i == c || !Above(i, c)) ensures Played(cmp, pend, losers, wins', i) {
      assert Played(cmp, pend, losers, wins, i);
      assert 2 * i + 1 == c || 2 * i + 2 == c ==> Parent(c) == i && Above(i, Parent(c));
    }
    forall n: nat | n < |wins| && (n == c || !Above(n, c)) ensures Sound(pend, wins', n) {
      assert n != c ==> Sound(pend, wins, n);
    }
    forall p: nat | p < |pend| ensures LeafSet(pend, wins', p) {
      assert p != w ==> LeafSet(pend, wins, p);
    }
  }

  /** Recording the game at the parent of `c` leaves all other games as they were. */
  lemma RecordGame<T>(cmp: (T, T) -> int, pend: seq<seq<T>>, losers: seq<int>, wins: seq<int>, c: nat, l: int, w: int)
    requires c > 0 && SettledUpTo(cmp, pend, losers, wins, c)
    requires Parent(c) < |pend|
    requires Played(cmp, pend, losers[Parent(c) := l], wins[Parent(c) := w], Parent(c))
    requires Sound(pend, wins[Parent(c) := w], Parent(c))
    ensures SettledUpTo(cmp, pend, losers[Parent(c) := l], wins[Parent(c) := w], Parent(c))
  {
    var p := Parent(c);
    var losers', wins' := losers[p := l], wins[p := w];
    PathReadyFrame(losers, wins, losers', wins', p, p);
    forall i: nat | i < |pend| && (i == p || !Above(i, p)) ensures Played(cmp, pend, losers', wins', i) {
      if i != p {
        assert i == c || !Above(i, c);
        assert Played(cmp, pend, losers, wins, i);
        assert 2 * i + 1 == p || 2 * i + 2 == p ==> Parent(p) == i && Above(i, Parent(p));
      }
    }
    forall n: nat | n < |wins| && (n == p || !Above(n, p)) ensures Sound(pend, wins', n) {
      assert n != p ==> (n == c || !Above(n, c)) && Sound(pend, wins, n);
    }
    forall q: nat | q < |pend| ensures LeafSet(pend, wins', q) {
      assert LeafSet(pend, wins, q);
    }
  }

  lemma MemberAtParent<T>(pend: seq<seq<T>>, x: int, c: nat)
    requires c > 0 && Member(pend, x, c)
    ensures Member(pend, x, Parent(c))
  {
    if x != -1 {
      ParentAbove(c, |pend| + x);
    }
  }

  /** The two players that meet at the parent of `c`. */
  lemma Opponents<T>(cmp: (T, T) -> int, pend: seq<seq<T>>, losers: seq<int>, wins: seq<int>, c: nat)
    requires c > 0 && SettledUpTo(cmp, pend, losers, wins, c)
    ensures Parent(c) < |pend| && Sibling(c) < |wins|
    ensures losers[Parent(c)] == wins[Sibling(c)]
    ensures Member(pend, wins[c], Parent(c)) && Member(pend, wins[Sibling(c)], Parent(c))
    ensures wins[c] == wins[Sibling(c)] ==> wins[c] == -1
  {
    hide Played, AtLeast, LeafSet;
    var s := Sibling(c);
    assert Above(c, c);
    SiblingsDisjoint(c, c);
    assert Sound(pend, wins, s) && Sound(pend, wins, c);
    MemberAtParent(pend, wins[c], c);
    MemberAtParent(pend, wins[s], s);
    if wins[c] != -1 {
      SiblingsDisjoint(c, |pend| + wins[c]);
    }
  }

  /** One game on the way up, exactly as the replay plays it. */
  lemma PlayGame<T(!new)>(cmp: (T, T) -> int, pend: seq<seq<T>>, losers: seq<int>, wins: seq<int>, c: nat)
    returns (losers': seq<int>, wins': seq<int>)
    requires TotalPreorder(cmp)
    requires c > 0 && SettledUpTo(cmp, pend, losers, wins, c)
    ensures Parent(c) < |losers| && |wins'| == |wins|
    ensures var p := Parent(c);
      if Beats(cmp, pend, losers[p], wins[c])
      then losers' == losers[p := wins[c]] && wins'[p] == losers[p]
      else losers' == losers && wins'[p] == wins[c]
    ensures SettledUpTo(cmp, pend, losers', wins', Parent(c))
  {
    var p, s := Parent(c), Sibling(c);
    assert (2 * p + 1 == c && 2 * p + 2 == s) || (2 * p + 1 == s && 2 * p + 2 == c);
    Opponents(cmp, pend, losers, wins, c);
    var l, w := losers[p], wins[c];
    if Beats(cmp, pend, l, w) {
      l, w := w, l;
    }
    losers', wins' := losers[p := l], wins[p := w];
    RecordGame(cmp, pend, losers, wins, c, l, w);
    assert losers[p := losers[p]] == losers;
  }

  lemma {:induction false} ReplaySettles<T(!new)>(cmp: (T, T) -> int, pend: seq<seq<T>>, losers: seq<int>, wins: seq<int>, c: nat)
    returns (wins': seq<int>)
    requires TotalPreorder(cmp)
    requires SettledUpTo(cmp, pend, losers, wins, c)
    ensures var r := Replay(cmp, pend, losers, c, wins[c]);
      Settled(cmp, pend, r.0, wins') && r.1 == wins'[0]
    decreases c
  {
    if c == 0 {
      wins' := wins;
    } else {
      var losers1, wins1 := PlayGame(cmp, pend, losers, wins, c);
      wins' := ReplaySettles(cmp, pend, losers1, wins1, Parent(c));
    }
  }

  // ----- what the settled tree says -----

  lemma AtLeastTransitive<T(!new)>(cmp: (T, T) -> int, pend: seq<seq<T>>, a: int, b: int, c: int)
    requires TotalPreorder(cmp) && AtLeast(cmp, pend, a, b) && AtLeast(cmp, pend, b, c)
    ensures AtLeast(cmp, pend, a, c)
  {
    if Alive(pend, c) {
      assert Chained(cmp, pend[a][0], pend[b][0], pend[c][0]);
    }
  }

  /** The winner recorded at `a` is at least as good as the winner recorded anywhere below `a`. */
  lemma {:induction false} WinnerBeatsSubtree<T(!new)>(
      cmp: (T, T) -> int, pend: seq<seq<T>>, losers: seq<int>, wins: seq<int>, a: nat, n: nat)
    requires TotalPreorder(cmp) && Shape(pend, losers, wins)
    requires Above(a, n) && n < |wins|
    requires forall i: nat :: i < |pend| && Above(a, i) ==> Played(cmp, pend, losers, wins, i)
    ensures a < |wins| && AtLeast(cmp, pend, wins[a], wins[n])
    decreases n
  {
    if a != n {
      var p := Parent(n);
      AboveIsNoLater(a, p);
      WinnerBeatsSubtree(cmp, pend, losers, wins, a, p);
      assert Played(cmp, pend, losers, wins, p);
      assert 2 * p + 1 == n || 2 * p + 2 == n;
      assert AtLeast(cmp, pend, wins[p], wins[n]);
      AtLeastTransitive(cmp, pend, wins[a], wins[p], wins[n]);
    }
  }

  /** The overall winner holds a minimal head, and somebody wins as long as anybody has rows. */
  lemma WinnerIsMinimal<T(!new)>(cmp: (T, T) -> int, pend: seq<seq<T>>, losers: seq<int>, wins: seq<int>, j: nat)
    requires TotalPreorder(cmp) && Settled(cmp, pend, losers, wins)
    requires j < |pend| && pend[j] != []
    ensures Alive(pend, wins[0]) && cmp(pend[wins[0]][0], pend[j][0]) <= 0
  {
    RootAbove(|pend| + j);
    AllPlayed(cmp, pend, losers, wins);
    WinnerBeatsSubtree(cmp, pend, losers, wins, 0, |pend| + j);
    assert LeafSet(pend, wins, j);
  }

  lemma AllPlayed<T>(cmp: (T, T) -> int, pend: seq<seq<T>>, losers: seq<int>, wins: seq<int>)
    requires Settled(cmp, pend, losers, wins)
    ensures forall i: nat :: i < |pend| ==> Played(cmp, pend, losers, wins, i)
    ensures forall n: nat :: n < |wins| ==> Sound(pend, wins, n)
  {
  }

  /** The overall winner won every game on the path from its leaf. */
  lemma {:induction false} WinnerWinsItsPath<T>(
      cmp: (T, T) -> int, pend: seq<seq<T>>, losers: seq<int>, wins: seq<int>, c: nat)
    requires Settled(cmp, pend, losers, wins) && wins[0] >= 0
    requires Above(c, |pend| + wins[0])
    ensures c < |wins| && wins[c] == wins[0]
    ensures c > 0 ==> losers[Parent(c)] == wins[Sibling(c)]
    decreases c
  {
    hide PathReady, AtLeast;
    AllPlayed(cmp, pend, losers, wins);
    assert Sound(pend, wins, 0);
    AboveIsNoLater(c, |pend| + wins[0]);
    if c > 0 {
      ParentAbove(c, |pend| + wins[0]);
      WinnerWinsItsPath(cmp, pend, losers, wins, Parent(c));
      SiblingsDisjoint(c, |pend| + wins[0]);
      assert Played(cmp, pend, losers, wins, Parent(c));
      assert Sound(pend, wins, Sibling(c));
    }
  }

  lemma {:induction false} WinnerPathReady<T>(
      cmp: (T, T) -> int, pend: seq<seq<T>>, losers: seq<int>, wins: seq<int>, c: nat)
    requires Settled(cmp, pend, losers, wins) && wins[0] >= 0
    requires Above(c, |pend| + wins[0]) && c < |wins|
    ensures PathReady(losers, wins, c)
    decreases c
  {
    if c > 0 {
      WinnerWinsItsPath(cmp, pend, losers, wins, c);
      ParentAbove(c, |pend| + wins[0]);
      WinnerPathReady(cmp, pend, losers, wins, Parent(c));
    }
  }

  /** Once the winner's rows are taken, only its own games have to be replayed. */
  lemma WinnerAwaitsReplay<T>(
      cmp: (T, T) -> int, pend: seq<seq<T>>, losers: seq<int>, wins: seq<int>, rest: seq<T>)
    requires Settled(cmp, pend, losers, wins) && wins[0] >= 0
    ensures wins[0] < |pend|
    ensures Awaiting(cmp, pend[wins[0] := rest], losers, wins, wins[0])
  {
    AllPlayed(cmp, pend, losers, wins);
    assert Sound(pend, wins, 0);
    var w := wins[0];
    var leaf, pend' := |pend| + w, pend[w := rest];
    WinnerPathReady(cmp, pend, losers, wins, leaf);
    HeadChange(cmp, pend, losers, wins, w, rest);
  }

  /** Games beside the path of `w` do not depend on its rows. */
  lemma HeadChange<T>(
      cmp: (T, T) -> int, pend: seq<seq<T>>, losers: seq<int>, wins: seq<int>, w: nat, rest: seq<T>)
    requires Shape(pend, losers, wins) && w < |pend|
    requires wins[2 * |pend|] == -1
    requires forall p: nat :: p < |pend| && p != w ==> LeafSet(pend, wins, p)
    requires forall i: nat :: i < |pend| && !Above(i, |pend| + w) ==> Played(cmp, pend, losers, wins, i)
    requires forall n: nat :: n < |wins| && !Above(n, |pend| + w) ==> Sound(pend, wins, n)
    requires PathReady(losers, wins, |pend| + w)
    ensures Awaiting(cmp, pend[w := rest], losers, wins, w)
  {
    var leaf, pend' := |pend| + w, pend[w := rest];
    forall p: nat | p < |pend'| && p != w ensures LeafSet(pend', wins, p) {
      assert LeafSet(pend, wins, p);
    }
    forall n: nat | n < |wins| && !Above(n, leaf) ensures Sound(pend', wins, n) {
      assert Sound(pend, wins, n);
    }
    forall i: nat | i < |pend| && !Above(i, leaf) ensures Played(cmp, pend', losers, wins, i) {
      assert Played(cmp, pend, losers, wins, i);
      assert Sound(pend, wins, i);
      forall c | c == 2 * i + 1 || c == 2 * i + 2 ensures wins[c] != w {
        if Above(c, leaf) {
          ParentAbove(c, leaf);
        }
        assert Sound(pend, wins, c);
      }
    }
  }

  /** The player whose head changed is replayed; afterwards the tree is settled again. */
  lemma ReplayKeepsInvariant<T(!new)>(cmp: (T, T) -> int, pend: seq<seq<T>>, losers: seq<int>, wins: seq<int>, w: nat)
    returns (wins': seq<int>)
    requires TotalPreorder(cmp) && Awaiting(cmp, pend, losers, wins, w)
    ensures var r := Replayed(cmp, pend, losers, w);
      Settled(cmp, pend, r.0, wins') && r.1 == wins'[0]
  {
    EnterLeaf(cmp, pend, losers, wins, w);
    wins' := ReplaySettles(cmp, pend, losers, wins[|pend| + w := Entrant(pend, w)], |pend| + w);
  }

  // ----- the run bound -----

  /** The smallest head among `best` and the losers stored from the parent of `node` up to the root. */
  function Bound<T>(cmp: (T, T) -> int, pend: seq<seq<T>>, losers: seq<int>, node: nat, best: Option<T>): Option<T>
    requires node <= 2 * |losers|
    decreases node
  {
    if node == 0 then best
    else
      var p := Parent(node);
      var l := losers[p];
      Bound(cmp, pend, losers, p,
        if Alive(pend, l) && (best.None? || cmp(pend[l][0], best.value) < 0) then Some(pend[l][0]) else best)
  }

  function RunBound<T>(cmp: (T, T) -> int, pend: seq<seq<T>>, losers: seq<int>, w: nat): Option<T>
    requires w < |losers|
  {
    Bound(cmp, pend, losers, |losers| + w, None)
  }

  /** A bound no higher than `best` and no higher than any live loser on the path. */
  lemma {:induction false} BoundIsLower<T(!new)>(
      cmp: (T, T) -> int, pend: seq<seq<T>>, losers: seq<int>, node: nat, best: Option<T>, c: nat)
    requires TotalPreorder(cmp) && node <= 2 * |losers|
    ensures best.Some? ==>
        var b := Bound(cmp, pend, losers, node, best); b.Some? && cmp(b.value, best.value) <= 0
    ensures c > 0 && Above(c, node) && Parent(c) < |losers| && Alive(pend, losers[Parent(c)]) ==>
        var b := Bound(cmp, pend, losers, node, best);
        b.Some? && cmp(b.value, pend[losers[Parent(c)]][0]) <= 0
    decreases node
  {
    if node > 0 {
      var p := Parent(node);
      var l := losers[p];
      var next := if Alive(pend, l) && (best.None? || cmp(pend[l][0], best.value) < 0) then Some(pend[l][0]) else best;
      BoundIsLower(cmp, pend, losers, p, next, c);
      var b := Bound(cmp, pend, losers, node, best);
      if best.Some? {
        assert Chained(cmp, b.value, next.value, best.value);
      }
      if Alive(pend, l) {
        assert Chained(cmp, b.value, next.value, pend[l][0]);
      }
    }
  }

  lemma {:induction false} BoundIsAHead<T(!new)>(
      cmp: (T, T) -> int, pend: seq<seq<T>>, losers: seq<int>, wins: seq<int>, w: nat, node: nat, best: Option<T>)
    requires Awaiting(cmp, pend, losers, wins, w) && node < |wins| && Above(node, |pend| + w)
    requires best.Some? ==> exists j: nat :: j < |pend| && j != w && pend[j] != [] && best.value == pend[j][0]
    ensures var b := Bound(cmp, pend, losers, node, best);
      b.Some? ==> exists j: nat :: j < |pend| && j != w && pend[j] != [] && b.value == pend[j][0]
    decreases node
  {
    if node > 0 {
      var p, s := Parent(node), Sibling(node);
      var l := losers[p];
      ParentAbove(node, |pend| + w);
      PathReadyAt(losers, wins, |pend| + w, node);
      SiblingsDisjoint(node, |pend| + w);
      assert Sound(pend, wins, s);
      var next := if Alive(pend, l) && (best.None? || cmp(pend[l][0], best.value) < 0) then Some(pend[l][0]) else best;
      BoundIsAHead(cmp, pend, losers, wins, w, p, next);
    }
  }

  lemma {:induction false} PathReadyAt(losers: seq<int>, wins: seq<int>, n: nat, c: nat)
    requires |wins| == 2 * |losers| + 1 && n < |wins|
    requires PathReady(losers, wins, n) && Above(c, n) && c > 0
    ensures c < |wins| && losers[Parent(c)] == wins[Sibling(c)]
    decreases n
  {
    if c != n {
      PathReadyAt(losers, wins, Parent(n), c);
    }
  }

  /** Whoever is stored in the tree has rows, and is not the player that awaits its replay. */
  lemma LosersAreLive<T>(cmp: (T, T) -> int, pend: seq<seq<T>>, losers: seq<int>, wins: seq<int>, w: nat)
    requires Awaiting(cmp, pend, losers, wins, w)
    ensures forall i :: 0 <= i < |losers| ==> losers[i] == -1 || (Alive(pend, losers[i]) && losers[i] != w)
  {
    var leaf := |pend| + w;
    forall i: nat | i < |losers| ensures losers[i] == -1 || (Alive(pend, losers[i]) && losers[i] != w) {
      if Above(i, leaf) {
        AboveIsNoLater(i, leaf);
        BelowAChild(i, leaf);
        var c := if Above(2 * i + 1, leaf) then 2 * i + 1 else 2 * i + 2;
        PathReadyAt(losers, wins, leaf, c);
        SiblingsDisjoint(c, leaf);
        assert Sound(pend, wins, Sibling(c));
      } else {
        assert Played(cmp, pend, losers, wins, i);
        BesidePathIsSound(cmp, pend, losers, wins, w, i);
      }
    }
  }

  lemma BesidePathIsSound<T>(cmp: (T, T) -> int, pend: seq<seq<T>>, losers: seq<int>, wins: seq<int>, w: nat, i: nat)
    requires Awaiting(cmp, pend, losers, wins, w) && i < |pend| && !Above(i, |pend| + w)
    ensures forall c | c == 2 * i + 1 || c == 2 * i + 2 ::
      wins[c] == -1 || (Alive(pend, wins[c]) && wins[c] != w)
  {
    forall c: nat | c == 2 * i + 1 || c == 2 * i + 2
      ensures wins[c] == -1 || (Alive(pend, wins[c]) && wins[c] != w)
    {
      if Above(c, |pend| + w) {
        ParentAbove(c, |pend| + w);
      }
      assert Sound(pend, wins, c);
    }
  }

  /** The run bound is the smallest head of all other inputs, and there is none exactly when they are exhausted. */
  lemma RunBoundIsSecondSmallest<T(!new)>(
      cmp: (T, T) -> int, pend: seq<seq<T>>, losers: seq<int>, wins: seq<int>, w: nat)
    requires TotalPreorder(cmp) && Awaiting(cmp, pend, losers, wins, w)
    ensures var b := RunBound(cmp, pend, losers, w);
      && (b.Some? <==> exists j: nat :: j < |pend| && j != w && pend[j] != [])
      && (b.Some? ==> exists j: nat :: j < |pend| && j != w && pend[j] != [] && b.value == pend[j][0])
      && (forall j: nat :: j < |pend| && j != w && pend[j] != [] ==> b.Some? && cmp(b.value, pend[j][0]) <= 0)
  {
    var leaf := |pend| + w;
    BoundIsAHead(cmp, pend, losers, wins, w, leaf, None);
    forall j: nat | j < |pend| && j != w && pend[j] != []
      ensures var b := RunBound(cmp, pend, losers, w); b.Some? && cmp(b.value, pend[j][0]) <= 0
    {
      LoserOnPathBeats(cmp, pend, losers, wins, w, j);
    }
  }

  /** Every other live input is matched by a loser stored on the path of `w`. */
  lemma LoserOnPathBeats<T(!new)>(
      cmp: (T, T) -> int, pend: seq<seq<T>>, losers: seq<int>, wins: seq<int>, w: nat, j: nat)
    requires TotalPreorder(cmp) && Awaiting(cmp, pend, losers, wins, w)
    requires j < |pend| && j != w && pend[j] != []
    ensures var b := RunBound(cmp, pend, losers, w); b.Some? && cmp(b.value, pend[j][0]) <= 0
  {
    var leaf, other := |pend| + w, |pend| + j;
    if Above(leaf, other) {
      AboveIsNoLater(leaf, Parent(other));
    }
    forall a: nat | Above(a, leaf) && a != leaf ensures a != other {
      AboveIsNoLater(a, Parent(leaf));
    }
    var f := Fork(leaf, other, leaf);
    PathReadyAt(losers, wins, leaf, f);
    SiblingsDisjoint(f, leaf);
    forall i: nat | i < |pend| && Above(Sibling(f), i) ensures Played(cmp, pend, losers, wins, i) {
      if Above(i, leaf) {
        AboveTransitive(Sibling(f), i, leaf);
      }
    }
    WinnerBeatsSubtree(cmp, pend, losers, wins, Sibling(f), other);
    assert LeafSet(pend, wins, j);
    BoundIsLower(cmp, pend, losers, leaf, None, f);
    var b := RunBound(cmp, pend, losers, w);
    assert Chained(cmp, b.value, pend[wins[Sibling(f)]][0], pend[j][0]);
  }

  // ----- the initial tournament -----

  lemma {:induction false} SubWinnerIsMember<T>(cmp: (T, T) -> int, pend: seq<seq<T>>, n: nat)
    requires n <= 2 * |pend|
    ensures Member(pend, SubWinner(cmp, pend, n), n)
    decreases 2 * |pend| + 2 - n
  {
    if n < |pend| {
      SubWinnerIsMember(cmp, pend, 2 * n + 1);
      SubWinnerIsMember(cmp, pend, 2 * n + 2);
      MemberAtParent(pend, SubWinner(cmp, pend, 2 * n + 1), 2 * n + 1);
      MemberAtParent(pend, SubWinner(cmp, pend, 2 * n + 2), 2 * n + 2);
    }
  }

  /** The initial tournament settles the whole tree. */
  lemma InitialTreeIsSettled<T(!new)>(cmp: (T, T) -> int, pend: seq<seq<T>>) returns (wins: seq<int>)
    requires TotalPreorder(cmp)
    ensures Settled(cmp, pend, InitialLosers(cmp, pend), wins)
    ensures wins[0] == SubWinner(cmp, pend, 0)
  {
    var k := |pend|;
    wins := seq(2 * k + 1, n requires 0 <= n < 2 * k + 1 => SubWinner(cmp, pend, n));
    forall n: nat | n < |wins| ensures Sound(pend, wins, n) && wins[n] == SubWinner(cmp, pend, n) {
      SubWinnerIsMember(cmp, pend, n);
    }
    forall p: nat | p < k ensures LeafSet(pend, wins, p) {
      assert wins[k + p] == SubWinner(cmp, pend, k + p);
    }
    forall i: nat | i < k ensures Played(cmp, pend, InitialLosers(cmp, pend), wins, i) {
      FirstGame(cmp, pend, i);
    }
  }

  lemma {:induction false} FilledAt<T>(cmp: (T, T) -> int, pend: seq<seq<T>>, losers: seq<int>, i: nat, j: nat)
    requires |losers| == |pend| && j < |pend|
    ensures Filled(cmp, pend, losers, i)[j] == if Above(i, j) then LoserAt(cmp, pend, j) else losers[j]
    decreases 2 * |pend| + 2 - i
  {
    if i >= |pend| {
      if Above(i, j) { AboveIsNoLater(i, j); }
    } else {
      SubtreeSplits(i, j);
      FilledAt(cmp, pend, losers, 2 * i + 1, j);
      FilledAt(cmp, pend, Filled(cmp, pend, losers, 2 * i + 1), 2 * i + 2, j);
    }
  }

  /** Playing the whole tournament stores the loser of every game, whatever was stored before. */
  lemma AllFilled<T>(cmp: (T, T) -> int, pend: seq<seq<T>>, losers: seq<int>)
    requires |losers| == |pend|
    ensures Filled(cmp, pend, losers, 0) == InitialLosers(cmp, pend)
  {
    forall j: nat | j < |pend| ensures Filled(cmp, pend, losers, 0)[j] == InitialLosers(cmp, pend)[j] {
      RootAbove(j);
      FilledAt(cmp, pend, losers, 0, j);
    }
  }

  lemma FirstGame<T(!new)>(cmp: (T, T) -> int, pend: seq<seq<T>>, i: nat)
    requires TotalPreorder(cmp) && i < |pend|
    ensures var a, b := SubWinner(cmp, pend, 2 * i + 1), SubWinner(cmp, pend, 2 * i + 2);
      var w, l := SubWinner(cmp, pend, i), InitialLosers(cmp, pend)[i];
      ((w == a && l == b) || (w == b && l == a)) && AtLeast(cmp, pend, w, l)
  {
    FirstOpponents(cmp, pend, i);
    GameIsFair(cmp, pend, SubWinner(cmp, pend, 2 * i + 1), SubWinner(cmp, pend, 2 * i + 2));
  }

  lemma FirstOpponents<T>(cmp: (T, T) -> int, pend: seq<seq<T>>, i: nat)
    requires i < |pend|
    ensures var a, b := SubWinner(cmp, pend, 2 * i + 1), SubWinner(cmp, pend, 2 * i + 2);
      (a == -1 || Alive(pend, a)) && (b == -1 || Alive(pend, b)) && (a == b ==> a == -1)
  {
    var a := SubWinner(cmp, pend, 2 * i + 1);
    SubWinnerIsMember(cmp, pend, 2 * i + 1);
    SubWinnerIsMember(cmp, pend, 2 * i + 2);
    if a != -1 {
      SiblingsDisjoint(2 * i + 1, |pend| + a);
    }
  }

  lemma GameIsFair<T(!new)>(cmp: (T, T) -> int, pend: seq<seq<T>>, a: int, b: int)
    requires TotalPreorder(cmp)
    requires (a == -1 || Alive(pend, a)) && (b == -1 || Alive(pend, b)) && (a == b ==> a == -1)
    ensures var w, l := GameWinner(cmp, pend, a, b), GameLoser(cmp, pend, a, b);
      ((w == a && l == b) || (w == b && l == a)) && AtLeast(cmp, pend, w, l)
  {
  }

  // ----- the merge, one row at a time -----

  ghost function TotalRows<T>(pend: seq<seq<T>>): nat {
    if pend == [] then 0 else |pend[0]| + TotalRows(pend[1..])
  }

  lemma {:induction false} TotalRowsUpdate<T>(pend: seq<seq<T>>, w: nat, s: seq<T>)
    requires w < |pend|
    ensures TotalRows(pend[w := s]) == TotalRows(pend) - |pend[w]| + |s|
  {
    if w == 0 {
      assert pend[w := s][1..] == pend[1..];
    } else {
      assert pend[w := s][1..] == pend[1..][w - 1 := s];
      TotalRowsUpdate(pend[1..], w - 1, s);
    }
  }

  /** The inputs the rows come from when the tree is replayed after every single row. */
  ghost function MergeFrom<T>(cmp: (T, T) -> int, pend: seq<seq<T>>, losers: seq<int>, winner: int): seq<nat>
    requires |losers| == |pend|
    decreases TotalRows(pend), 0
  {
    if !Alive(pend, winner) then []
    else
      TotalRowsUpdate(pend, winner, pend[winner][1..]);
      [winner] + MergeAfter(cmp, pend[winner := pend[winner][1..]], losers, winner)
  }

  /** The same when the head of `w` has changed and its games are yet to be replayed. */
  ghost function MergeAfter<T>(cmp: (T, T) -> int, pend: seq<seq<T>>, losers: seq<int>, w: nat): seq<nat>
    requires |losers| == |pend| && w < |pend|
    decreases TotalRows(pend), 1
  {
    var r := Replayed(cmp, pend, losers, w);
    MergeFrom(cmp, pend, r.0, r.1)
  }

  /** The order in which the tournament merges the inputs `ins`: a function of the inputs alone. */
  ghost function MergeOrder<T>(cmp: (T, T) -> int, ins: seq<seq<T>>): seq<nat> {
    MergeFrom(cmp, ins, InitialLosers(cmp, ins), SubWinner(cmp, ins, 0))
  }

  lemma WinnerIsGreedy<T(!new)>(
      cmp: (T, T) -> int, ins: seq<seq<T>>, trace: seq<nat>, losers: seq<int>, wins: seq<int>)
    requires TotalPreorder(cmp) && Fits(ins, trace)
    requires Settled(cmp, Rest(ins, trace), losers, wins)
    ensures Alive(Rest(ins, trace), wins[0]) ==> GreedyAt(cmp, ins, trace, wins[0])
    ensures !Alive(Rest(ins, trace), wins[0]) ==> Complete(ins, trace)
  {
    var pend, w := Rest(ins, trace), wins[0];
    forall j: nat | j < |ins| && Taken(trace, j) < |ins[j]|
      ensures Alive(pend, w) && cmp(pend[w][0], pend[j][0]) <= 0
    {
      WinnerIsMinimal(cmp, pend, losers, wins, j);
    }
  }

  /** Emitting the winner's head and replaying its games is one step of the merge. */
  lemma StepSettles<T(!new)>(
      cmp: (T, T) -> int, ins: seq<seq<T>>, trace: seq<nat>, losers: seq<int>, wins: seq<int>) returns (wins': seq<int>)
    requires TotalPreorder(cmp) && Fits(ins, trace)
    requires Settled(cmp, Rest(ins, trace), losers, wins) && Alive(Rest(ins, trace), wins[0])
    ensures var pend, w := Rest(ins, trace), wins[0];
      var pend' := pend[w := pend[w][1..]];
      && Fits(ins, trace + [w]) && Rest(ins, trace + [w]) == pend'
      && TotalRows(pend') < TotalRows(pend)
      && Settled(cmp, pend', Replayed(cmp, pend', losers, w).0, wins')
      && Replayed(cmp, pend', losers, w).1 == wins'[0]
  {
    var pend, w := Rest(ins, trace), wins[0];
    OutputExtends(ins, trace, w);
    TotalRowsUpdate(pend, w, pend[w][1..]);
    WinnerAwaitsReplay(cmp, pend, losers, wins, pend[w][1..]);
    wins' := ReplayKeepsInvariant(cmp, pend[w := pend[w][1..]], losers, wins, w);
  }

  lemma MergeUnfolds<T>(cmp: (T, T) -> int, pend: seq<seq<T>>, losers: seq<int>, w: nat)
    requires |losers| == |pend| && Alive(pend, w)
    ensures MergeFrom(cmp, pend, losers, w) == [w] + MergeAfter(cmp, pend[w := pend[w][1..]], losers, w)
  {
  }

  /** From a settled tree, the merge goes on greedily until every input is exhausted. */
  lemma {:induction false} MergeFromIsGreedy<T(!new)>(
      cmp: (T, T) -> int, ins: seq<seq<T>>, trace: seq<nat>, pend: seq<seq<T>>, losers: seq<int>, wins: seq<int>)
    requires TotalPreorder(cmp) && Fits(ins, trace) && Greedy(cmp, ins, trace) && pend == Rest(ins, trace)
    requires Settled(cmp, pend, losers, wins)
    ensures Greedy(cmp, ins, trace + MergeFrom(cmp, pend, losers, wins[0]))
    ensures Complete(ins, trace + MergeFrom(cmp, pend, losers, wins[0]))
    decreases TotalRows(pend)
  {
    var w := wins[0];
    WinnerIsGreedy(cmp, ins, trace, losers, wins);
    if !Alive(pend, w) {
      assert trace + [] == trace;
    } else {
      GreedyExtends(cmp, ins, trace, w);
      var wins' := StepSettles(cmp, ins, trace, losers, wins);
      var pend' := pend[w := pend[w][1..]];
      MergeFromIsGreedy(cmp, ins, trace + [w], pend', Replayed(cmp, pend', losers, w).0, wins');
      MergeUnfolds(cmp, pend, losers, w);
      TraceConcat(trace, w, MergeAfter(cmp, pend', losers, w));
    }
  }

  lemma EmptyTraceIsGreedy<T>(cmp: (T, T) -> int, ins: seq<seq<T>>)
    ensures Fits(ins, []) && Greedy(cmp, ins, []) && Rest(ins, []) == ins
  {
  }

  /** The tournament merges sorted inputs into one sorted sequence of all their rows, each in its own order. */
  lemma TournamentMerges<T(!new)>(cmp: (T, T) -> int, ins: seq<seq<T>>)
    requires TotalPreorder(cmp) && AllSorted(cmp, ins)
    ensures var order := MergeOrder(cmp, ins);
      && Greedy(cmp, ins, order) && Complete(ins, order) && Fits(ins, order)
      && Sorted(cmp, Output(ins, order))
      && multiset(Output(ins, order)) == RowsOf(ins)
      && forall i: nat :: i < |ins| ==> TakenFrom(Output(ins, order), order, i) == ins[i]
  {
    hide TotalPreorder, AllSorted, Settled, SubWinner, InitialLosers, Greedy, Complete, TakenFrom, RowsOf, MergeFrom;
    var wins := InitialTreeIsSettled(cmp, ins);
    EmptyTraceIsGreedy(cmp, ins);
    MergeFromIsGreedy(cmp, ins, [], ins, InitialLosers(cmp, ins), wins);
    assert [] + MergeOrder(cmp, ins) == MergeOrder(cmp, ins);
    CompleteMergeIsSortedUnion(cmp, ins, MergeOrder(cmp, ins));
  }

  // ----- run mode -----

  lemma {:induction false} NobodyBeats<T(!new)>(
      cmp: (T, T) -> int, pend: seq<seq<T>>, losers: seq<int>, node: nat, w: int, best: Option<T>)
    requires TotalPreorder(cmp) && node <= 2 * |losers| && Alive(pend, w)
    requires var b := Bound(cmp, pend, losers, node, best); b.None? || cmp(pend[w][0], b.value) <= 0
    ensures Replay(cmp, pend, losers, node, w) == (losers, w)
    decreases node
  {
    if node > 0 {
      var p := Parent(node);
      var l := losers[p];
      var next := if Alive(pend, l) && (best.None? || cmp(pend[l][0], best.value) < 0) then Some(pend[l][0]) else best;
      BoundIsLower(cmp, pend, losers, node, best, node);
      if Alive(pend, l) {
        assert Chained(cmp, pend[w][0], Bound(cmp, pend, losers, node, best).value, pend[l][0]);
      }
      NobodyBeats(cmp, pend, losers, p, w, next);
    }
  }

  /** While its head stays within the run bound, a replayed player wins all its games and the tree stays the same. */
  lemma RunKeepsTree<T(!new)>(cmp: (T, T) -> int, pend: seq<seq<T>>, losers: seq<int>, w: nat)
    requires TotalPreorder(cmp) && w < |losers| && Alive(pend, w)
    requires var b := RunBound(cmp, pend, losers, w); b.None? || cmp(pend[w][0], b.value) <= 0
    ensures Replayed(cmp, pend, losers, w) == (losers, w)
  {
    NobodyBeats(cmp, pend, losers, |losers| + w, w, None);
  }

  /** The losers on the path of `w` are other players. */
  lemma LoserIsOther<T>(cmp: (T, T) -> int, pend: seq<seq<T>>, losers: seq<int>, wins: seq<int>, w: nat, node: nat)
    requires Awaiting(cmp, pend, losers, wins, w) && 0 < node < |wins| && Above(node, |pend| + w)
    ensures Parent(node) < |losers| && Parent(node) < node && losers[Parent(node)] != w
  {
    PathReadyAt(losers, wins, |pend| + w, node);
    SiblingsDisjoint(node, |pend| + w);
    assert Sound(pend, wins, Sibling(node));
  }

  lemma {:induction false} BoundIgnoresWinner<T>(
      cmp: (T, T) -> int, pend: seq<seq<T>>, losers: seq<int>, wins: seq<int>, w: nat, rest: seq<T>, node: nat, best: Option<T>)
    requires Awaiting(cmp, pend, losers, wins, w) && node < |wins| && Above(node, |pend| + w)
    ensures Bound(cmp, pend[w := rest], losers, node, best) == Bound(cmp, pend, losers, node, best)
    decreases node
  {
    if node > 0 {
      LoserIsOther(cmp, pend, losers, wins, w, node);
      ParentAbove(node, |pend| + w);
      hide Awaiting, Above, Parent;
      var l := losers[Parent(node)];
      var next := if Alive(pend, l) && (best.None? || cmp(pend[l][0], best.value) < 0) then Some(pend[l][0]) else best;
      BoundIgnoresWinner(cmp, pend, losers, wins, w, rest, Parent(node), next);
    }
  }

  lemma OneStep<T>(cmp: (T, T) -> int, pend: seq<seq<T>>, losers: seq<int>, w: nat)
    requires |losers| == |pend| && w < |pend| && Alive(pend, w) && Replayed(cmp, pend, losers, w) == (losers, w)
    ensures MergeAfter(cmp, pend, losers, w) == [w] + MergeAfter(cmp, pend[w := pend[w][1..]], losers, w)
  {
  }

  lemma Regrouped(w: nat, a: seq<nat>, b: seq<nat>)
    ensures [w] + (a + b) == [w] + a + b
  {
  }

  /**
   * Run mode is unobservable: taking at once the leading rows of `w` that do not exceed the run bound is what
   * the merge does when it replays the games after every row.
   */
  lemma {:induction false} BulkRunIsRowByRow<T(!new)>(
      cmp: (T, T) -> int, pend: seq<seq<T>>, losers: seq<int>, wins: seq<int>, w: nat, m: nat)
    requires TotalPreorder(cmp) && Awaiting(cmp, pend, losers, wins, w)
    requires m <= |pend[w]|
    requires var b := RunBound(cmp, pend, losers, w);
      b.None? || forall i :: 0 <= i < m ==> cmp(pend[w][i], b.value) <= 0
    ensures MergeAfter(cmp, pend, losers, w)
         == Repeat(m, w) + MergeAfter(cmp, pend[w := pend[w][m..]], losers, w)
    decreases m
  {
    if m == 0 {
      assert pend[w := pend[w][0..]] == pend;
      assert Repeat(0, w) + MergeAfter(cmp, pend, losers, w) == MergeAfter(cmp, pend, losers, w);
    } else {
      RunKeepsTree(cmp, pend, losers, w);
      var rest := pend[w][1..];
      var pend' := pend[w := rest];
      HeadChange(cmp, pend, losers, wins, w, rest);
      BoundIgnoresWinner(cmp, pend, losers, wins, w, rest, |pend| + w, None);
      OneStep(cmp, pend, losers, w);
      hide Awaiting, TotalPreorder, MergeAfter, Repeat;
      BulkRunIsRowByRow(cmp, pend', losers, wins, w, m - 1);
      assert pend'[w := pend'[w][m - 1..]] == pend[w := pend[w][m..]];
      RepeatUnfolds(m, w);
      Regrouped(w, Repeat(m - 1, w), MergeAfter(cmp, pend[w := pend[w][m..]], losers, w));
    }
  }

  // ----- every reader is in the tree once, and replays are short -----

  /** Each live input is the winner or the loser of exactly one node; all other entries are negative. */
  lemma EveryPlayerOnce<T>(cmp: (T, T) -> int, pend: seq<seq<T>>, losers: seq<int>, wins: seq<int>)
    requires Settled(cmp, pend, losers, wins) && |pend| > 0
    ensures multiset(losers) + multiset{wins[0]} == multiset(wins[|pend|..])
    ensures forall p: nat :: p < |pend| && pend[p] != [] ==> (multiset(losers) + multiset{wins[0]})[p] == 1
    ensures forall l :: l in losers ==> l == -1 || Alive(pend, l)
  {
    var k := |pend|;
    AllPlayed(cmp, pend, losers, wins);
    LosersBalance(cmp, pend, losers, wins, 0);
    assert losers[0..] == losers;
    assert wins[1..] == wins[1..k] + wins[k..];
    assert wins[..k] == [wins[0]] + wins[1..k];
    assert wins[0..k] == wins[..k];
    var all, mid := multiset(losers) + multiset{wins[0]}, multiset(wins[1..k]);
    assert multiset(wins[..k]) == multiset{wins[0]} + mid;
    assert all + mid == multiset(wins[1..]);
    MultisetCancel(all, multiset(wins[k..]), mid);
    forall p: nat | p < k && pend[p] != [] ensures all[p] == 1 {
      assert LeafSet(pend, wins, p);
      var leaves := wins[k..];
      forall q: nat | q < |leaves| ensures leaves[q] == if q < k then Entrant(pend, q) else -1 {
        assert q < k ==> LeafSet(pend, wins, q);
      }
      OnlyOnce(leaves, p);
    }
    forall l | l in losers ensures l == -1 || Alive(pend, l) {
      var i: nat :| i < |losers| && losers[i] == l;
      assert Played(cmp, pend, losers, wins, i);
      assert Sound(pend, wins, 2 * i + 1) && Sound(pend, wins, 2 * i + 2);
    }
  }

  lemma OnlyOnce(s: seq<int>, p: nat)
    requires p < |s| && s[p] == p
    requires forall q :: 0 <= q < |s| && q != p ==> s[q] != p
    ensures multiset(s)[p] == 1
  {
    assert s == s[..p] + [s[p]] + s[p + 1..];
    assert p !in s[..p] && p !in s[p + 1..];
  }

  /** One game more: its loser and its winner are the winners of its two children. */
  lemma BalanceStep(losers: seq<int>, wins: seq<int>, i: nat)
    requires |wins| == 2 * |losers| + 1 && i < |losers|
    requires var a, b := wins[2 * i + 1], wins[2 * i + 2];
      (losers[i] == a && wins[i] == b) || (losers[i] == b && wins[i] == a)
    requires multiset(losers[i + 1..]) + multiset(wins[i + 1..|losers|]) == multiset(wins[2 * i + 3..])
    ensures multiset(losers[i..]) + multiset(wins[i..|losers|]) == multiset(wins[2 * i + 1..])
  {
    var l, w := multiset{losers[i]}, multiset{wins[i]};
    var m, n := multiset(losers[i + 1..]), multiset(wins[i + 1..|losers|]);
    assert losers[i..] == [losers[i]] + losers[i + 1..];
    assert wins[i..|losers|] == [wins[i]] + wins[i + 1..|losers|];
    assert wins[2 * i + 1..] == [wins[2 * i + 1]] + ([wins[2 * i + 2]] + wins[2 * i + 3..]);
    assert (l + m) + (w + n) == (l + w) + (m + n);
  }

  /** Games i.. hand their players on: losers and winners of those games are the winners of the nodes below. */
  lemma {:induction false} LosersBalance<T>(cmp: (T, T) -> int, pend: seq<seq<T>>, losers: seq<int>, wins: seq<int>, i: nat)
    requires Shape(pend, losers, wins) && i <= |pend|
    requires forall i: nat :: i < |pend| ==> Played(cmp, pend, losers, wins, i)
    ensures multiset(losers[i..]) + multiset(wins[i..|pend|]) == multiset(wins[2 * i + 1..])
    decreases |pend| - i
  {
    if i < |pend| {
      LosersBalance(cmp, pend, losers, wins, i + 1);
      assert Played(cmp, pend, losers, wins, i);
      BalanceStep(losers, wins, i);
    }
  }

  ghost function Depth(n: nat): nat {
    if n == 0 then 0 else 1 + Depth(Parent(n))
  }

  /** The integer logarithm, rounded down. */
  ghost function Log2(n: nat): nat
    requires n > 0
  {
    if n == 1 then 0 else 1 + Log2(n / 2)
  }

  lemma {:induction false} DepthIsLog2(n: nat)
    ensures Depth(n) == Log2(n + 1)
  {
    if n > 0 {
      DepthIsLog2(Parent(n));
      assert (n + 1) / 2 == Parent(n) + 1;
    }
  }

  lemma {:induction false} Log2Monotone(m: nat, n: nat)
    requires 0 < m <= n
    ensures Log2(m) <= Log2(n)
  {
    if m > 1 {
      Log2Monotone(m / 2, n / 2);
    }
  }

  /** The path from a leaf to the root plays at most 1 + log2(k) games. */
  lemma ReplayIsShort(k: nat, w: nat)
    requires w < k
    ensures Depth(k + w) <= 1 + Log2(k)
  {
    DepthIsLog2(k + w);
    Log2Monotone(k + w + 1, 2 * k);
    assert 2 * k / 2 == k;
  }
}
