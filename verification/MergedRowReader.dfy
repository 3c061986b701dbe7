/** The k-way merge of buffered row readers. */
module KWayMerge {
  import opened Gallop
  import opened LoserTree
  import opened MergeTraces
  import opened Options
  import opened Orders
  import opened RowReaders

  /** The merged sequence of the inputs: what the reader emits, whatever the buffers and chunks. */
  ghost function Merged<T>(cmp: (T, T) -> int, ins: seq<seq<T>>): (out: seq<T>)
    requires Fits(ins, MergeOrder(cmp, ins))
    ensures |out| == |MergeOrder(cmp, ins)|
  {
    Output(ins, MergeOrder(cmp, ins))
  }

  /** `pend` is what the inputs still hold after the first `emitted` merged rows, and `later` is how the merge goes on. */
  ghost predicate Reached<T>(cmp: (T, T) -> int, ins: seq<seq<T>>, pend: seq<seq<T>>, emitted: nat, later: seq<nat>) {
    var order := MergeOrder(cmp, ins);
    && Fits(ins, order)
    && emitted <= |order|
    && Fits(ins, order[..emitted])
    && pend == Rest(ins, order[..emitted])
    && later == order[emitted..]
  }

  /** The games are settled and `winner` holds the next row. */
  ghost predicate Ready<T>(
    cmp: (T, T) -> int, ins: seq<seq<T>>, pend: seq<seq<T>>, losers: seq<int>, wins: seq<int>, winner: nat, emitted: nat)
  {
    && Settled(cmp, pend, losers, wins)
    && winner < |pend| && wins[0] == winner
    && Reached(cmp, ins, pend, emitted, MergeFrom(cmp, pend, losers, winner))
  }

  /** Rows of `winner` were taken and its games are yet to be replayed; it still counts as live. */
  ghost predicate Paused<T>(
    cmp: (T, T) -> int, ins: seq<seq<T>>, pend: seq<seq<T>>, losers: seq<int>, wins: seq<int>, winner: nat, emitted: nat)
  {
    && Awaiting(cmp, pend, losers, wins, winner)
    && wins[|pend| + winner] == winner
    && Reached(cmp, ins, pend, emitted, MergeAfter(cmp, pend, losers, winner))
  }

  ghost function Leaves(wins: seq<int>): (leaves: seq<int>)
    requires |wins| % 2 == 1
    ensures |leaves| == |wins| / 2
  {
    wins[|wins| / 2..|wins| - 1]
  }

  /** How many of the leaves hold a player. */
  ghost function CountLive(leaves: seq<int>): nat {
    if leaves == [] then 0 else (if leaves[0] >= 0 then 1 else 0) + CountLive(leaves[1..])
  }

  lemma {:induction false} CountLiveUpdate(leaves: seq<int>, w: nat, x: int)
    requires w < |leaves|
    ensures CountLive(leaves[w := x])
         == CountLive(leaves) - (if leaves[w] >= 0 then 1 else 0) + if x >= 0 then 1 else 0
  {
    if w == 0 {
      assert leaves[w := x][1..] == leaves[1..];
    } else {
      assert leaves[w := x][1..] == leaves[1..][w - 1 := x];
      CountLiveUpdate(leaves[1..], w - 1, x);
    }
  }

  lemma {:induction false} NobodyLive(leaves: seq<int>)
    ensures CountLive(leaves) == 0 <==> forall p :: 0 <= p < |leaves| ==> leaves[p] < 0
  {
    if leaves != [] {
      NobodyLive(leaves[1..]);
      assert forall p :: 0 <= p < |leaves| - 1 ==> leaves[1..][p] == leaves[p + 1];
      assert forall p :: 0 < p < |leaves| ==> leaves[p] == leaves[1..][p - 1];
    }
  }

  // ----- the steps of the reader, on values -----

  /** Emitting the head of the winner. */
  lemma Emit<T(!new)>(
      cmp: (T, T) -> int, ins: seq<seq<T>>, pend: seq<seq<T>>, losers: seq<int>, wins: seq<int>, w: nat, emitted: nat)
    requires TotalPreorder(cmp) && Ready(cmp, ins, pend, losers, wins, w, emitted) && pend[w] != []
    ensures emitted < |Merged(cmp, ins)| && Merged(cmp, ins)[emitted] == pend[w][0]
    ensures Paused(cmp, ins, pend[w := pend[w][1..]], losers, wins, w, emitted + 1)
  {
    var order := MergeOrder(cmp, ins);
    var later := MergeAfter(cmp, pend[w := pend[w][1..]], losers, w);
    MergeUnfolds(cmp, pend, losers, w);
    assert order[emitted..] == [w] + later;
    assert order[..emitted + 1] == order[..emitted] + [order[emitted]] && order[emitted] == w;
    assert order[emitted + 1..] == order[emitted..][1..] == later;
    OutputExtends(ins, order[..emitted], w);
    WinnerAwaitsReplay(cmp, pend, losers, wins, pend[w][1..]);
    AllPlayed(cmp, pend, losers, wins);
    assert LeafSet(pend, wins, w);
  }

  /** Emitting `m` more rows of the player whose games are not replayed yet, all within the run bound. */
  lemma {:induction false} EmitRun<T(!new)>(
      cmp: (T, T) -> int, ins: seq<seq<T>>, pend: seq<seq<T>>, losers: seq<int>, wins: seq<int>, w: nat, emitted: nat, m: nat)
    requires TotalPreorder(cmp) && Paused(cmp, ins, pend, losers, wins, w, emitted) && m <= |pend[w]|
    requires var b := RunBound(cmp, pend, losers, w);
      b.None? || forall i :: 0 <= i < m ==> cmp(pend[w][i], b.value) <= 0
    ensures emitted + m <= |Merged(cmp, ins)| && Merged(cmp, ins)[emitted..emitted + m] == pend[w][..m]
    ensures Paused(cmp, ins, pend[w := pend[w][m..]], losers, wins, w, emitted + m)
  {
    var order := MergeOrder(cmp, ins);
    var pend' := pend[w := pend[w][m..]];
    var later := MergeAfter(cmp, pend', losers, w);
    BulkRunIsRowByRow(cmp, pend, losers, wins, w, m);
    assert order[emitted..] == Repeat(m, w) + later;
    assert order[emitted + m..] == order[emitted..][m..] == later;
    assert forall i :: emitted <= i < emitted + m ==> order[i] == order[emitted..][i - emitted] == w;
    RunOutput(ins, order, emitted, m, w);
    HeadChange(cmp, pend, losers, wins, w, pend[w][m..]);
  }

  /** Emitting a run keeps the run bound. */
  lemma RunStep<T(!new)>(
      cmp: (T, T) -> int, ins: seq<seq<T>>, pend: seq<seq<T>>, losers: seq<int>, wins: seq<int>, w: nat, emitted: nat, m: nat)
    requires TotalPreorder(cmp) && Paused(cmp, ins, pend, losers, wins, w, emitted) && m <= |pend[w]|
    requires var b := RunBound(cmp, pend, losers, w);
      b.None? || forall i :: 0 <= i < m ==> cmp(pend[w][i], b.value) <= 0
    ensures Fits(ins, MergeOrder(cmp, ins)) && emitted + m <= |Merged(cmp, ins)|
    ensures Merged(cmp, ins)[emitted..emitted + m] == pend[w][..m]
    ensures Paused(cmp, ins, pend[w := pend[w][m..]], losers, wins, w, emitted + m)
    ensures RunBound(cmp, pend[w := pend[w][m..]], losers, w) == RunBound(cmp, pend, losers, w)
  {
    EmitRun(cmp, ins, pend, losers, wins, w, emitted, m);
    BoundIgnoresWinner(cmp, pend, losers, wins, w, pend[w][m..], |pend| + w, None);
  }

  lemma RunOutput<T>(ins: seq<seq<T>>, order: seq<nat>, emitted: nat, m: nat, w: nat)
    requires Fits(ins, order) && emitted + m <= |order| && w < |ins|
    requires forall i :: emitted <= i < emitted + m ==> order[i] == w
    requires Fits(ins, order[..emitted]) && m <= |Rest(ins, order[..emitted])[w]|
    ensures Fits(ins, order[..emitted + m])
    ensures Output(ins, order)[emitted..emitted + m] == Rest(ins, order[..emitted])[w][..m]
    ensures Rest(ins, order[..emitted + m])
         == Rest(ins, order[..emitted])[w := Rest(ins, order[..emitted])[w][m..]]
  {
    hide Fits, Output, Rest;
    assert order[..emitted + m] == order[..emitted] + Repeat(m, w);
    TakeEffect(ins, order[..emitted], w, m);
    OutputPrefix(ins, order, emitted + m);
    OutputPrefix(ins, order, emitted);
    assert Output(ins, order)[..emitted + m] == Output(ins, order)[..emitted] + Rest(ins, order[..emitted])[w][..m];
  }

  /** Replaying the games: either somebody is ready to go on, or all rows have been merged. */
  lemma ReplayGames<T(!new)>(
      cmp: (T, T) -> int, ins: seq<seq<T>>, pend: seq<seq<T>>, losers: seq<int>, wins: seq<int>, w: nat, emitted: nat)
    returns (wins': seq<int>)
    requires TotalPreorder(cmp) && Paused(cmp, ins, pend, losers, wins, w, emitted)
    ensures var r := Replayed(cmp, pend, losers, w);
      && Settled(cmp, pend, r.0, wins') && r.1 == wins'[0]
      && CountLive(Leaves(wins')) == CountLive(Leaves(wins)) - (if pend[w] == [] then 1 else 0)
      && (r.1 >= 0 ==> r.1 < |pend| && pend[r.1] != [] && Ready(cmp, ins, pend, r.0, wins', r.1, emitted))
      && (r.1 < 0 <==> CountLive(Leaves(wins')) == 0)
      && (r.1 < 0 ==> emitted == |Merged(cmp, ins)|)
  {
    hide Played, PathReady, AtLeast, TotalPreorder, Replay, Replayed, CountLive, Above;
    wins' := ReplayKeepsInvariant(cmp, pend, losers, wins, w);
    var k := |pend|;
    var r := Replayed(cmp, pend, losers, w);
    var leaves, leaves' := Leaves(wins), Leaves(wins');
    forall p: nat | p < k ensures leaves'[p] == Entrant(pend, p) && (p != w ==> leaves'[p] == leaves[p]) {
      assert LeafSet(pend, wins', p);
      assert p != w ==> LeafSet(pend, wins, p);
    }
    assert leaves' == leaves[w := Entrant(pend, w)];
    CountLiveUpdate(leaves, w, Entrant(pend, w));
    NobodyLive(leaves');
    AllPlayed(cmp, pend, r.0, wins');
    assert Sound(pend, wins', 0);
    if r.1 < 0 {
      forall p: nat | p < k ensures leaves'[p] < 0 {
        if pend[p] != [] {
          WinnerIsMinimal(cmp, pend, r.0, wins', p);
        }
      }
      assert MergeAfter(cmp, pend, losers, w) == [];
      assert |MergeOrder(cmp, ins)[emitted..]| == 0;
    } else {
      assert leaves'[r.1] == r.1;
    }
  }

  /** What an input still holds is as sorted as the input. */
  lemma PendIsSorted<T>(cmp: (T, T) -> int, ins: seq<seq<T>>, pend: seq<seq<T>>, emitted: nat, later: seq<nat>, w: nat)
    requires AllSorted(cmp, ins) && Reached(cmp, ins, pend, emitted, later) && w < |ins|
    ensures |pend| == |ins| && Sorted(cmp, pend[w])
  {
    assert Sorted(cmp, ins[w]);
  }

  lemma {:induction false} AllLive(leaves: seq<int>)
    requires forall i :: 0 <= i < |leaves| ==> leaves[i] >= 0
    ensures CountLive(leaves) == |leaves|
  {
    if leaves != [] {
      AllLive(leaves[1..]);
    }
  }

  /** The tournament is ready for its first row, or there is nothing to merge. */
  lemma StartMerge<T(!new)>(cmp: (T, T) -> int, ins: seq<seq<T>>, leaves: seq<int>) returns (wins: seq<int>)
    requires TotalPreorder(cmp) && LeavesOf(ins, leaves)
    ensures var w := SubWinner(cmp, ins, 0);
      && |wins| == 2 * |ins| + 1 && Leaves(wins) == leaves
      && (CountLive(leaves) != 0 ==>
          0 <= w < |ins| && ins[w] != [] && Ready(cmp, ins, ins, InitialLosers(cmp, ins), wins, w, 0))
      && (CountLive(leaves) == 0 ==> MergeOrder(cmp, ins) == [])
  {
    hide TotalPreorder, SubWinner, Settled, Greedy, Complete, Fits, InitialLosers, Leaves, CountLive;
    wins := InitialTreeIsSettled(cmp, ins);
    LeavesOfTree(cmp, ins, InitialLosers(cmp, ins), wins, leaves);
    NobodyLive(leaves);
    SubWinnerIsMember(cmp, ins, 0);
    var order := MergeOrder(cmp, ins);
    if CountLive(leaves) != 0 {
      var p :| 0 <= p < |leaves| && leaves[p] >= 0;
      WinnerIsMinimal(cmp, ins, InitialLosers(cmp, ins), wins, p);
      EmptyTraceIsGreedy(cmp, ins);
      assert order[..0] == [] && order[0..] == order;
      assert [] + order == order;
      MergeFromIsGreedy(cmp, ins, [], ins, InitialLosers(cmp, ins), wins);
      GreedyFits(cmp, ins, order);
    } else {
      forall p | 0 <= p < |ins| ensures ins[p] == [] {
        assert leaves[p] == Entrant(ins, p);
      }
    }
  }

  lemma LeavesOfTree<T>(cmp: (T, T) -> int, ins: seq<seq<T>>, losers: seq<int>, wins: seq<int>, leaves: seq<int>)
    requires Settled(cmp, ins, losers, wins) && LeavesOf(ins, leaves)
    ensures |wins| == 2 * |ins| + 1 && Leaves(wins) == leaves
  {
    forall p: nat | p < |ins| ensures Leaves(wins)[p] == leaves[p] {
      assert LeafSet(ins, wins, p);
    }
  }

  lemma OrderFits<T(!new)>(cmp: (T, T) -> int, ins: seq<seq<T>>)
    requires TotalPreorder(cmp) && AllSorted(cmp, ins)
    ensures Fits(ins, MergeOrder(cmp, ins))
  {
    TournamentMerges(cmp, ins);
  }

  // ----- the reader -----

  /** A leaf for each input: its index, or -1 when it has no rows. */
  ghost predicate LeavesOf<T>(pend: seq<seq<T>>, leaves: seq<int>) {
    && |leaves| == |pend|
    && forall i :: 0 <= i < |leaves| ==> leaves[i] == Entrant(pend, i)
  }

  lemma ReplayBegins<T>(cmp: (T, T) -> int, pend: seq<seq<T>>, losers: seq<int>, w: nat)
    requires w < |losers|
    ensures Replay(cmp, pend, losers, |losers| + w, Entrant(pend, w)) == Replayed(cmp, pend, losers, w)
    ensures Entrant(pend, w) == -1 || Alive(pend, Entrant(pend, w))
  {
  }

  lemma ReplayEnds<T>(cmp: (T, T) -> int, pend: seq<seq<T>>, losers: seq<int>, w: int)
    ensures Replay(cmp, pend, losers, 0, w) == (losers, w)
  {
  }

  lemma EntrantOf<T>(pend: seq<seq<T>>, j: nat)
    requires j < |pend|
    ensures Entrant(pend, j) == if pend[j] == [] then -1 else j
  {
  }

  lemma LeafOf<T>(pend: seq<seq<T>>, leaves: seq<int>, j: nat)
    requires LeavesOf(pend, leaves)
    ensures Entrant(pend, j) == if j < |leaves| then leaves[j] else -1
  {
  }

  class MergedRowReader<T(!new)> {
    const compare: (T, T) -> int
    const buffers: seq<BufferedRowReader<T>>
    var losers: array<int>
    var count: int
    var winner: int
    var winnerLeaf: int
    var streak: int
    var initialized: bool

    ghost const inputs: seq<seq<T>>          // the rows of each input
    ghost const readers: set<object>         // the buffers and the readers below them
    ghost var pend: seq<seq<T>>              // what each input still holds
    ghost var emitted: nat                   // rows returned so far
    ghost var failed: bool                   // an input failed before the merge began
    ghost var wins: seq<int>                 // the winner of the games at each node

    /** `pend` is what the buffers and the readers below them still hold. */
    ghost predicate Buffered()
      reads `pend, readers
    {
      && |pend| == |buffers|
      && forall i :: 0 <= i < |buffers| ==>
          && buffers[i] in readers && buffers[i].rows in readers
          && buffers[i].Valid() && buffers[i].Pending() == pend[i]
    }

    /** No two buffers share a reader. */
    ghost predicate Owns()
      reads `losers, `pend, readers
      ensures Owns() ==> Buffered() && this !in readers && losers !in readers
    {
      && this !in readers && losers !in readers
      && Buffered()
      && (forall i, j :: 0 <= i < j < |buffers| ==> Apart(buffers[i], buffers[j]))
    }

    static ghost predicate Apart(a: BufferedRowReader<T>, b: BufferedRowReader<T>) {
      a != b && a.rows != b.rows
    }

    ghost predicate Valid()
      reads `losers, `pend, `count, `winner, `winnerLeaf, `initialized, `emitted, `failed, `wins, readers, losers
      ensures Valid() ==> Owns() && this !in readers && losers !in readers
      ensures Valid() ==> Configured()
      ensures Valid() && !initialized ==> NothingBuffered()
      ensures Valid() ==> emitted <= |Merged(compare, inputs)|
      ensures Valid() && !initialized ==> !failed
      ensures Valid() && initialized && !failed ==> count >= 0
      ensures Valid() && initialized && !failed && count != 0 ==>
        0 <= winner < |buffers| && buffers[winner] in readers && (buffers[winner].Empty() ==> Midway())
      ensures Valid() && failed ==> count == 0
      ensures Valid() && initialized && !failed && count == 0 ==> emitted == |Merged(compare, inputs)|
    {
      && Owns()
      && Configured()
      && (!initialized ==> !failed && emitted == 0 && pend == inputs && NothingBuffered())
      && (failed ==> initialized && count == 0 && emitted == 0)
      && (initialized && !failed ==> Merging())
    }

    ghost predicate Configured()
      ensures Configured() ==> TotalPreorder(compare) && AllSorted(compare, inputs) && |inputs| == |buffers|
      ensures Configured() ==> Fits(inputs, MergeOrder(compare, inputs))
    {
      && TotalPreorder(compare) && AllSorted(compare, inputs) && |inputs| == |buffers|
      && Fits(inputs, MergeOrder(compare, inputs))
    }

    ghost predicate NothingBuffered()
      reads readers
    {
      forall i :: 0 <= i < |buffers| ==> buffers[i] in readers && buffers[i].Empty()
    }

    /** Where the reader stands in the merge. */
    ghost predicate Merging()
      requires Owns()
      reads `losers, `pend, `count, `winner, `winnerLeaf, `initialized, `emitted, `failed, `wins, readers, losers
    {
      && losers.Length == |buffers| && |wins| == 2 * |buffers| + 1
      && count == CountLive(Leaves(wins))
      && (count == 0 ==>
        && Fits(inputs, MergeOrder(compare, inputs))
        && emitted == |Merged(compare, inputs)|)
      && (count != 0 ==>
        && 0 <= winner < |buffers| && winnerLeaf == |buffers| + winner
        && HeadsBuffered(winner)
        && if buffers[winner].Empty()
           then Paused(compare, inputs, pend, losers[..], wins, winner, emitted)
           else Ready(compare, inputs, pend, losers[..], wins, winner, emitted))
    }

    constructor (
      buffers: seq<BufferedRowReader<T>>, compare: (T, T) -> int, ghost inputs: seq<seq<T>>, ghost readers: set<object>)
      requires TotalPreorder(compare) && AllSorted(compare, inputs) && |inputs| == |buffers|
      requires forall i :: 0 <= i < |buffers| ==>
        && buffers[i] in readers && buffers[i].rows in readers
        && buffers[i].Valid() && buffers[i].Empty() && buffers[i].Pending() == inputs[i]
      requires forall i, j :: 0 <= i < j < |buffers| ==> Apart(buffers[i], buffers[j])
      ensures Valid() && !initialized && emitted == 0
      ensures this.buffers == buffers && this.compare == compare && this.inputs == inputs && this.readers == readers
    {
      this.compare := compare;
      this.buffers := buffers;
      losers := new int[0];
      count, winner, winnerLeaf, streak, initialized := 0, 0, 0, 0, false;
      pend, emitted, failed, wins := inputs, 0, false, [];
      this.inputs := inputs;
      this.readers := readers;
      new;
      hide Merging, Midway, Merged, Sorted, AllSorted, TotalPreorder, Fits, MergeOrder, Greedy, Complete, Output;
      OrderFits(compare, inputs);
      assert Configured();
      hide Configured, Apart, BufferedRowReader.Pending, BufferedRowReader.Valid, BufferedRowReader.Empty;
      assert Buffered();
      assert NothingBuffered();
      hide Buffered, NothingBuffered;
      assert this !in readers && losers !in readers;
      assert Owns();
    }

    /** Using the buffer of one input leaves the others as they were. */
    twostate lemma OneBufferChanged(w: nat)
      requires old(Owns()) && w < |buffers| && buffers[w].Valid()
      requires pend == old(pend)[w := buffers[w].Pending()]
      requires forall o :: o in readers && o != buffers[w] && o != buffers[w].rows ==> unchanged(o)
      requires losers !in readers
      ensures Owns()
      ensures forall i :: 0 <= i < |buffers| && i != w ==> buffers[i].Empty() == old(buffers[i].Empty())
    {
      forall i | 0 <= i < |buffers| && i != w
        ensures buffers[i].Valid() && buffers[i].Pending() == old(buffers[i].Pending())
        ensures buffers[i].Empty() == old(buffers[i].Empty())
      {
        assert Apart(buffers[if i < w then i else w], buffers[if i < w then w else i]);
      }
    }

    /** An input has returned the error. */
    ghost predicate Reported(err: ReadError)
      requires Buffered()
      reads `pend, readers
    {
      exists i :: 0 <= i < |buffers| && err in buffers[i].rows.errors
    }

    /** Reads more rows of input `w`, whose buffer is empty; nothing is consumed. */
    method ReadBuffer(w: nat) returns (err: ReadError)
      requires Owns() && w < |buffers| && buffers[w].Empty()
      modifies readers
      ensures Owns()
      ensures err == NoError <==> !buffers[w].Empty()
      ensures err == NoError ==> pend[w] != []
      ensures err == EOF ==> pend[w] == []
      ensures err != NoError ==> Reported(err)
      ensures forall i :: 0 <= i < |buffers| && i != w ==> buffers[i].Empty() == old(buffers[i].Empty())
    {
      err := buffers[w].Read();
      assert pend[w := buffers[w].Pending()] == pend;
      OneBufferChanged(w);
    }

    /** Consumes the first `m` buffered rows of input `w` and reports whether more are buffered. */
    method TakeRows(w: nat, m: nat) returns (hasNext: bool)
      requires Owns() && w < |buffers| && m <= |buffers[w].Window()|
      modifies readers, this`pend
      ensures Owns()
      ensures m <= |old(pend)[w]| && pend == old(pend)[w := old(pend)[w][m..]]
      ensures hasNext == !buffers[w].Empty()
      ensures old(HeadsBuffered(w)) ==> HeadsBuffered(w)
    {
      hasNext := buffers[w].Advance(m);
      pend := pend[w := pend[w][m..]];
      OneBufferChanged(w);
    }

    /** Every input that still has rows has its head buffered, except possibly `but`. */
    ghost predicate HeadsBuffered(but: int)
      requires Buffered()
      reads `pend, readers
    {
      forall i :: 0 <= i < |buffers| && i != but && buffers[i].Empty() ==> pend[i] == []
    }

    method PlayGame(n1: int, n2: int) returns (loser: int, best: int)
      requires Buffered() && HeadsBuffered(-1)
      requires (n1 == -1 || Alive(pend, n1)) && (n2 == -1 || Alive(pend, n2))
      ensures loser == GameLoser(compare, pend, n1, n2) && best == GameWinner(compare, pend, n1, n2)
    {
      if n1 < 0 {
        return n1, n2;
      }
      if n2 < 0 {
        return n2, n1;
      }
      if compare(buffers[n1].Head(), buffers[n2].Head()) < 0 {
        return n2, n1;
      }
      return n1, n2;
    }

    /** Plays the tournament of the subtree of node `i`, storing the loser of each of its games. */
    method PlayInitialGames(i: nat, leaves: seq<int>) returns (best: int)
      requires Buffered() && HeadsBuffered(-1) && LeavesOf(pend, leaves)
      requires losers !in readers && losers.Length == |buffers| && i <= 2 * |buffers|
      modifies losers
      ensures best == SubWinner(compare, pend, i)
      ensures losers[..] == Filled(compare, pend, old(losers[..]), i)
      decreases 2 * |buffers| + 2 - i
    {
      assert |pend| == |buffers|;
      ghost var before := losers[..];
      hide GameWinner, GameLoser, SubWinner, Filled, Buffered, LeavesOf, HeadsBuffered, Entrant, Alive;
      GameAt(compare, pend, before, i);
      if i >= |buffers| {
        LeafOf(pend, leaves, i - |buffers|);
        if i - |buffers| < |leaves| {
          return leaves[i - |buffers|];
        }
        return -1;
      }
      FirstOpponents(compare, pend, i);
      var n1 := PlayInitialGames(2 * i + 1, leaves);
      var n2 := PlayInitialGames(2 * i + 2, leaves);
      ghost var played := losers[..];
      assert played == Filled(compare, pend, Filled(compare, pend, before, 2 * i + 1), 2 * i + 2);
      best := PlayNode(i, n1, n2);
    }

    /** Plays the game of node `i` and stores its loser there. */
    method PlayNode(i: nat, n1: int, n2: int) returns (best: int)
      requires Buffered() && HeadsBuffered(-1) && losers !in readers && i < losers.Length
      requires (n1 == -1 || Alive(pend, n1)) && (n2 == -1 || Alive(pend, n2))
      modifies losers
      ensures best == GameWinner(compare, pend, n1, n2)
      ensures losers[..] == old(losers[..])[i := GameLoser(compare, pend, n1, n2)]
    {
      hide GameWinner, GameLoser, Buffered, HeadsBuffered, Alive;
      var loser;
      loser, best := PlayGame(n1, n2);
      losers[i] := loser;
    }

    /** The tree may wait for the replay of the winner, whose head is buffered unless it has just been exhausted. */
    ghost predicate Midway()
      reads `losers, `pend, `count, `winner, `winnerLeaf, `initialized, `emitted, `failed, `wins, readers, losers
      ensures Midway() ==> 0 <= winner < |buffers| == losers.Length && Owns()
      ensures Midway() ==> this !in readers && losers !in readers
      ensures Midway() ==> buffers[winner] in readers && buffers[winner].rows in readers && buffers[winner].Valid()
      ensures Midway() ==> Fits(inputs, MergeOrder(compare, inputs)) && emitted <= |Merged(compare, inputs)|
    {
      && Owns()
      && Configured()
      && initialized && !failed
      && losers.Length == |buffers| && |wins| == 2 * |buffers| + 1
      && count == CountLive(Leaves(wins)) && count != 0
      && 0 <= winner < |buffers| && winnerLeaf == |buffers| + winner
      && HeadsBuffered(winner)
      && Paused(compare, inputs, pend, losers[..], wins, winner, emitted)
    }

    /** Where an input that is not exhausted has its head. */
    lemma HeadIs(i: int)
      requires Buffered() && HeadsBuffered(-1) && Alive(pend, i)
      ensures 0 <= i < |buffers| && buffers[i].Valid() && !buffers[i].Empty() && buffers[i].Head() == pend[i][0]
    {
    }

    /** Plays `best` against the loser stored above `node`, which takes its place if it wins. */
    method ReplayGame(node: nat, best: int) returns (best': int, ghost compared: nat)
      requires Buffered() && HeadsBuffered(-1) && losers !in readers && losers.Length == |buffers|
      requires 0 < node <= 2 * losers.Length && (best == -1 || Alive(pend, best))
      requires forall i :: 0 <= i < losers.Length ==> losers[i] == -1 || Alive(pend, losers[i])
      modifies losers
      ensures best' == -1 || Alive(pend, best')
      ensures forall i :: 0 <= i < losers.Length ==> losers[i] == -1 || Alive(pend, losers[i])
      ensures Replay(compare, pend, losers[..], Parent(node), best') == Replay(compare, pend, old(losers[..]), node, best)
      ensures compared <= 1
    {
      hide Buffered, HeadsBuffered;
      compared, best' := 0, best;
      var player := losers[Parent(node)];
      if player >= 0 {
        HeadIs(player);
        if best >= 0 {
          HeadIs(best);
          compared := 1;
        }
        if best < 0 || compare(buffers[player].Head(), buffers[best].Head()) < 0 {
          losers[Parent(node)] := best;
          best' := player;
        }
      }
    }

    /** Plays the current winner against the losers on the path from its leaf and records the overall winner. */
    method ReplayPath(ghost w: nat) returns (ghost comparisons: nat)
      requires Buffered() && HeadsBuffered(-1) && losers !in readers
      requires losers.Length == |buffers| && w < |buffers|
      requires winner == Entrant(pend, w) && winnerLeaf == |buffers| + w
      requires forall i :: 0 <= i < losers.Length ==> losers[i] == -1 || Alive(pend, losers[i])
      modifies this`winner, this`winnerLeaf, losers
      ensures (losers[..], winner) == Replayed(compare, pend, old(losers[..]), w)
      ensures winnerLeaf == |buffers| + winner
      ensures comparisons <= 1 + Log2(|buffers|)
    {
      ghost var start := losers[..];
      ReplayBegins(compare, pend, start, w);
      ReplayIsShort(|buffers|, w);
      hide Replay, Replayed, Log2, Entrant, Buffered, HeadsBuffered, Alive;
      var best := winner;
      var node := winnerLeaf;
      comparisons := 0;
      while node != 0
        invariant 0 <= node <= 2 * losers.Length && comparisons + Depth(node) <= Depth(|buffers| + w)
        invariant best == -1 || Alive(pend, best)
        invariant forall i :: 0 <= i < losers.Length ==> losers[i] == -1 || Alive(pend, losers[i])
        invariant Replay(compare, pend, losers[..], node, best) == Replayed(compare, pend, start, w)
        decreases node
      {
        ghost var compared;
        best, compared := ReplayGame(node, best);
        comparisons := comparisons + compared;
        node := Parent(node);
      }
      ReplayEnds(compare, pend, losers[..], best);
      winner := best;
      winnerLeaf := |buffers| + best;
    }

    /** The second-smallest head: the bound up to which the current winner keeps winning. */
    method SecondHead() returns (bound: Option<T>)
      requires Midway()
      ensures bound == RunBound(compare, pend, losers[..], winner)
    {
      LosersAreLive(compare, pend, losers[..], wins, winner);
      bound := None;
      var node := winnerLeaf;
      while node != 0
        invariant 0 <= node <= 2 * losers.Length
        invariant Bound(compare, pend, losers[..], node, bound) == RunBound(compare, pend, losers[..], winner)
        decreases node
      {
        var offset := (node - 1) / 2;
        var player := losers[offset];
        if player >= 0 {
          assert losers[..][offset] == player;
          var head := buffers[player].Head();
          if bound.None? || compare(head, bound.value) < 0 {
            bound := Some(head);
          }
        }
        node := offset;
      }
    }

    /** What holds of the reader besides its place in the merge. */
    ghost predicate Running()
      reads `losers, `pend, `initialized, `failed, `wins, readers
    {
      && Owns()
      && Configured()
      && initialized && !failed
      && losers.Length == |buffers| && |wins| == 2 * |buffers| + 1
    }

    /** Replays the games of input `w`, whose head has changed or which has been found exhausted. */
    method RejoinTournament(ghost w: nat)
      requires Running() && w < |buffers| && HeadsBuffered(-1) && |wins| == 2 * |buffers| + 1
      requires Paused(compare, inputs, pend, losers[..], wins, w, emitted)
      requires winner == Entrant(pend, w) && winnerLeaf == |buffers| + w
      requires count == CountLive(Leaves(wins)) - if pend[w] == [] then 1 else 0
      modifies this`winner, this`winnerLeaf, this`wins, losers
      ensures Valid()
      ensures count != 0 ==> 0 <= winner < |buffers| && !buffers[winner].Empty()
    {
      hide Ready, Reached, Played, Sound, LeafSet, PathReady, TotalPreorder, AllSorted, CountLive;
      LosersAreLive(compare, pend, losers[..], wins, w);
      ghost var wins' := ReplayGames(compare, inputs, pend, losers[..], wins, w, emitted);
      ghost var comparisons := ReplayPath(w);
      wins := wins';
    }

    /** Reads more rows of the winner, whose buffer is empty, and replays its games. */
    method Refill() returns (err: ReadError)
      requires Midway() && buffers[winner].Empty()
      modifies this`count, this`winner, this`winnerLeaf, this`streak, this`wins, this`pend, losers, readers
      ensures Valid() && err != EOF && (err != NoError ==> Reported(err))
      ensures err != NoError ==> count == old(count)
      ensures err == NoError ==> count <= old(count)
      ensures err == NoError && count != 0 ==> 0 <= winner < |buffers| && !buffers[winner].Empty()
    {
      hide Ready, Paused, Settled, SettledUpTo, Awaiting, Reached, TotalPreorder, AllSorted, Fits, Merged, CountLive, Leaves, Entrant, Alive, Reported;
      var w := winner;
      var e := ReadBuffer(w);
      EntrantOf(pend, w);
      if e != NoError && e != EOF {
        return e;
      }
      if e == EOF {
        winner := -1;
        count := count - 1;
      }
      var prev := winner;
      RejoinTournament(w);
      if winner != prev {
        streak := 0;
      }
      return NoError;
    }

    /** Measures the rows of the winner's window that stay within the run bound, as far as they fit. */
    method MeasureRun(room: nat, bound: Option<T>) returns (window: seq<T>, run: nat)
      requires Midway() && bound == RunBound(compare, pend, losers[..], winner)
      ensures window <= buffers[winner].Window() && |window| <= room && run <= |window|
      ensures run < |window| || |window| == room || window == buffers[winner].Window()
      ensures bound.None? || forall i :: 0 <= i < run ==> compare(pend[winner][i], bound.value) <= 0
    {
      window := buffers[winner].Window();
      if |window| > room {
        window := window[..room];
      }
      run := |window|;
      if bound.Some? {
        ghost var later := MergeAfter(compare, pend, losers[..], winner);
        PendIsSorted(compare, inputs, pend, emitted, later, winner);
        PrefixIsSorted(compare, pend[winner], |window|);
        ghost var comparisons;
        assert window == pend[winner][..|window|];
        run, comparisons := RunLength(window, bound.value, compare, 0);
        assert forall i :: 0 <= i < run ==> pend[winner][i] == window[i] && Within(compare, window[i], bound.value, 0);
      }
    }

    /** Consumes `run` buffered rows of the winner, all within the run bound: the next merged rows. */
    method ConsumeRun(run: nat) returns (hasNext: bool)
      requires Midway() && run <= |buffers[winner].Window()|
      requires var b := RunBound(compare, pend, losers[..], winner);
        b.None? || forall i :: 0 <= i < run ==> compare(pend[winner][i], b.value) <= 0
      modifies this`pend, this`emitted, readers
      ensures Midway() && emitted == old(emitted) + run && hasNext == !buffers[winner].Empty()
      ensures Fits(inputs, MergeOrder(compare, inputs)) && emitted <= |Merged(compare, inputs)|
      ensures Merged(compare, inputs)[old(emitted)..emitted] == old(buffers[winner].Window()[..run])
      ensures RunBound(compare, pend, losers[..], winner) == old(RunBound(compare, pend, losers[..], winner))
    {
      hide Settled, Awaiting, Paused, Reached, TotalPreorder, AllSorted, Sorted, CountLive, Leaves, Fits;
      ghost var ls := losers[..];
      RunStep(compare, inputs, pend, losers[..], wins, winner, emitted, run);
      assert pend[winner][..run] == buffers[winner].Window()[..run];
      hasNext := TakeRows(winner, run);
      emitted := emitted + run;
      assert losers[..] == ls;
    }

    /** Emits the part of the winner's run that is buffered and fits; `more` says whether the run may go on. */
    method EmitWindow(rows: array<T>, from: nat, bound: Option<T>) returns (n: nat, more: bool)
      requires Midway() && !buffers[winner].Empty() && from < rows.Length
      requires rows as object !in readers && rows as object != losers
      requires bound == RunBound(compare, pend, losers[..], winner)
      modifies this`pend, this`emitted, readers, rows
      ensures Midway() && from <= n <= rows.Length && emitted == old(emitted) + n - from
      ensures bound == RunBound(compare, pend, losers[..], winner)
      ensures rows[..] == Splice(old(rows[..]), from, Merged(compare, inputs)[old(emitted)..emitted])
      ensures more ==> !buffers[winner].Empty() && from < n
    {
      hide Midway, Fits, Owns, RunBound, Merged, Buffered, Configured, Splice;
      var window, run := MeasureRun(rows.Length - from, bound);
      ghost var ls := losers[..];
      assert window[..run] == buffers[winner].Window()[..run];
      CopyRows(window, run, rows, from);
      assert losers[..] == ls;
      ghost var filled := rows[..];
      var hasNext := ConsumeRun(run);
      assert rows[..] == filled;
      n := from + run;
      more := hasNext && run == |window|;
    }

    /** Emits in bulk the buffered rows of the winner that do not exceed the second-smallest head. */
    method EmitBulk(rows: array<T>, from: nat) returns (n: nat)
      requires Midway() && !buffers[winner].Empty() && from <= rows.Length
      requires rows as object !in readers && rows as object != losers
      modifies this`pend, this`emitted, readers, rows
      ensures Midway() && from <= n <= rows.Length && emitted == old(emitted) + n - from
      ensures rows[..] == Splice(old(rows[..]), from, Merged(compare, inputs)[old(emitted)..emitted])
    {
      hide Midway, Fits, Owns, Splice;
      n := from;
      var bound := SecondHead();
      ghost var merged := Merged(compare, inputs);
      SpliceNothing(rows[..], from);
      assert merged[emitted..emitted] == [];
      var more := true;
      while more && n < rows.Length
        invariant Midway() && from <= n <= rows.Length
        invariant more ==> !buffers[winner].Empty()
        invariant emitted == old(emitted) + n - from
        invariant bound == RunBound(compare, pend, losers[..], winner)
        invariant rows[..] == Splice(old(rows[..]), from, merged[old(emitted)..emitted])
        decreases more, rows.Length - n
      {
        ghost var before := emitted;
        n, more := EmitWindow(rows, n, bound);
        SpliceOn(old(rows[..]), from, merged, old(emitted), before, emitted);
      }
    }

    /** Emits the head of the winner. */
    method EmitHead(rows: array<T>, n: nat) returns (hasNext: bool)
      requires Valid() && initialized && !failed && count != 0 && !buffers[winner].Empty() && n < rows.Length
      requires rows as object !in readers && rows as object != losers
      modifies this`pend, this`emitted, readers, rows
      ensures Midway() && emitted == old(emitted) + 1 && hasNext == !buffers[winner].Empty()
      ensures rows[..] == Splice(old(rows[..]), n, Merged(compare, inputs)[old(emitted)..emitted])
    {
      hide Settled, Awaiting, Paused, Reached, TotalPreorder, AllSorted, CountLive, Leaves, Fits;
      var w := winner;
      ghost var ls := losers[..];
      Emit(compare, inputs, pend, ls, wins, w, emitted);
      ghost var merged := Merged(compare, inputs);
      rows[n] := buffers[w].Head();
      assert merged[emitted..emitted + 1] == [merged[emitted]];
      hasNext := TakeRows(w, 1);
      emitted := emitted + 1;
      assert losers[..] == ls;
    }

    /** A reader whose winner has run out of buffered rows rests until the next call. */
    lemma MidwayIsValid()
      requires Midway() && buffers[winner].Empty()
      ensures Valid()
    {
    }

    /** Replays the games of the winner, whose next row is buffered. */
    method ReplayWinner()
      requires Midway() && !buffers[winner].Empty()
      modifies this`winner, this`winnerLeaf, this`wins, losers
      ensures Valid() && (count != 0 ==> 0 <= winner < |buffers| && !buffers[winner].Empty())
    {
      hide Settled, Awaiting, Paused, Reached, TotalPreorder, AllSorted, CountLive, Leaves, Fits;
      RejoinTournament(winner);
    }

    /** Fills every buffer; a leaf is -1 for each input found empty. */
    method FillBuffers() returns (leaves: seq<int>, err: ReadError)
      requires Owns() && forall i :: 0 <= i < |buffers| ==> buffers[i].Empty()
      modifies readers, this`count
      ensures Owns()
      ensures err == NoError ==> LeavesOf(pend, leaves) && HeadsBuffered(-1) && count == CountLive(leaves)
      ensures err != NoError ==> err != EOF && count == 0 && Reported(err)
    {
      hide Owns, CountLive, Reported;
      var k := |buffers|;
      count := k;
      leaves := seq(k, i => i);
      AllLive(leaves);
      var i := 0;
      while i < k
        invariant Owns() && 0 <= i <= k && Filling(i, leaves) && count == CountLive(leaves)
      {
        hide Filling;
        var exhausted;
        leaves, exhausted, err := FillBuffer(i, leaves);
        if exhausted {
          count := count - 1;
        } else if err != NoError {
          count := 0;
          return;
        }
        i := i + 1;
      }
      return leaves, NoError;
    }

    /** The first `i` buffers have been filled as far as their inputs have rows. */
    ghost predicate Filling(i: nat, leaves: seq<int>)
      requires Buffered()
      reads `pend, readers
    {
      && |leaves| == |buffers|
      && (forall j :: 0 <= j < |leaves| ==> leaves[j] == if j < i then Entrant(pend, j) else j)
      && (forall j :: 0 <= j < |leaves| ==> (buffers[j].Empty() <==> j >= i || leaves[j] == -1))
    }

    method FillBuffer(i: nat, leaves: seq<int>) returns (leaves': seq<int>, exhausted: bool, err: ReadError)
      requires Owns() && i < |buffers| && Filling(i, leaves)
      modifies readers
      ensures Owns() && err != EOF && (err != NoError ==> Reported(err))
      ensures err == NoError ==> Filling(i + 1, leaves')
      ensures err == NoError ==> CountLive(leaves') == CountLive(leaves) - if exhausted then 1 else 0
      ensures exhausted ==> err == NoError && CountLive(leaves) > 0
    {
      hide Owns, CountLive, Entrant, Reported;
      leaves', exhausted := leaves, false;
      err := ReadBuffer(i);
      EntrantOf(pend, i);
      if err == EOF {
        CountLiveUpdate(leaves, i, -1);
        leaves', exhausted, err := leaves[i := -1], true, NoError;
      }
    }

    /** Plays the initial tournament once every buffer has been filled. */
    method Begin(leaves: seq<int>)
      requires Owns() && Configured() && initialized && !failed && emitted == 0 && pend == inputs
      requires LeavesOf(pend, leaves) && HeadsBuffered(-1) && count == CountLive(leaves)
      requires losers.Length == |buffers|
      modifies this`wins, this`winner, this`winnerLeaf, losers
      ensures Valid()
    {
      hide Ready, Paused, Filled, SubWinner, CountLive, Fits, InitialLosers, LeavesOf, Configured, Owns;
      wins := StartMerge(compare, inputs, leaves);
      if count > 0 {
        AllFilled(compare, pend, losers[..]);
        winner := PlayInitialGames(0, leaves);
        winnerLeaf := |buffers| + winner;
        assert losers[..] == InitialLosers(compare, pend);
        assert Ready(compare, inputs, pend, losers[..], wins, winner, emitted);
      }
    }

    /** Fills the buffers and plays the initial tournament, unless an input fails. */
    method Start() returns (err: ReadError)
      requires Owns() && Configured() && initialized && !failed && emitted == 0 && pend == inputs
      requires NothingBuffered() && losers.Length == |buffers|
      modifies readers, this`count, this`failed, this`wins, this`winner, this`winnerLeaf, losers
      ensures Valid() && err != EOF && (err == NoError <==> !failed) && (err != NoError ==> Reported(err))
    {
      hide Reported, Configured, CountLive, Merging, Midway, Ready, Paused, HeadsBuffered, Merged, Fits, LeavesOf, Entrant, Owns;
      var leaves, e := FillBuffers();
      err := e;
      if e != NoError {
        failed := true;
      } else {
        Begin(leaves);
      }
    }

    /** Makes room for the tree of losers and starts the merge. */
    method Initialize() returns (err: ReadError)
      requires Valid() && !initialized
      modifies this, readers
      ensures Valid() && initialized && emitted == old(emitted)
      ensures err != EOF && (err == NoError <==> !failed) && fresh(losers) && (err != NoError ==> Reported(err))
    {
      hide Reported, Configured, Merging, Midway, Merged, Fits;
      initialized := true;
      losers := new int[|buffers|];
      assert Owns();
      hide Owns, Valid;
      err := Start();
    }

    /** One round of the merge: refills the winner's buffer, or emits its head and possibly a run after it. */
    method Round(rows: array<T>, from: nat) returns (n: nat, stop: bool, err: ReadError)
      requires Valid() && initialized && !failed && count != 0 && from < rows.Length
      requires rows as object !in readers && rows as object != losers
      modifies this`pend, this`emitted, this`count, this`winner, this`winnerLeaf, this`wins, this`streak
      modifies losers, readers, rows
      ensures Valid() && from <= n <= rows.Length && emitted == old(emitted) + n - from
      ensures rows[..] == Splice(old(rows[..]), from, Merged(compare, inputs)[old(emitted)..emitted])
      ensures err != EOF && (err != NoError ==> stop && Reported(err))
      ensures stop && err == NoError ==> from < n
      ensures !stop && n == from ==> old(buffers[winner].Empty()) && count <= old(count)
      ensures !stop && n == from && count != 0 ==> 0 <= winner < |buffers| && !buffers[winner].Empty()
    {
      hide Valid, Midway, Fits, Splice, Owns, Configured, Reported;
      n, stop, err := from, false, NoError;
      ghost var merged := Merged(compare, inputs);
      if buffers[winner].Empty() {
        SpliceNothing(rows[..], from);
        assert merged[emitted..emitted] == [];
        err := Refill();
        stop := err != NoError;
        return;
      }
      ghost var before := emitted;
      var hasNext := EmitHead(rows, n);
      n := n + 1;
      if !hasNext {
        MidwayIsValid();
        stop := true;
        return;
      }
      if streak >= RUN_DETECTION_STREAK {
        n, stop := EmitRunAfterHead(rows, n);
        SpliceOn(old(rows[..]), from, merged, before, before + 1, emitted);
      } else {
        var prev := winner;
        ReplayWinner();
        streak := if winner == prev then streak + 1 else 0;
      }
    }

    /** Run mode: emits the rest of the winner's run in bulk and replays its games once. */
    method EmitRunAfterHead(rows: array<T>, from: nat) returns (n: nat, stop: bool)
      requires Midway() && !buffers[winner].Empty() && from <= rows.Length
      requires rows as object !in readers && rows as object != losers
      modifies this`pend, this`emitted, this`winner, this`winnerLeaf, this`wins, this`streak, losers, readers, rows
      ensures Valid() && from <= n <= rows.Length && emitted == old(emitted) + n - from
      ensures rows[..] == Splice(old(rows[..]), from, Merged(compare, inputs)[old(emitted)..emitted])
    {
      hide Valid, Midway, Fits, Splice, Owns, Configured;
      n := EmitBulk(rows, from);
      stop := buffers[winner].Empty();
      if stop {
        MidwayIsValid();
      } else {
        streak := 0;
        ghost var filled := rows[..];
        ReplayWinner();
        assert rows[..] == filled;
      }
    }

    /** Merges until `rows` is full, a buffer has to be refilled, or all inputs are exhausted. */
    method MergeRows(rows: array<T>) returns (n: nat, err: ReadError)
      requires Valid() && initialized
      requires rows as object !in readers && rows as object != losers
      modifies this`pend, this`emitted, this`count, this`winner, this`winnerLeaf, this`wins, this`streak
      modifies losers, readers, rows
      ensures Valid() && n <= rows.Length && emitted == old(emitted) + n
      ensures rows[..] == Splice(old(rows[..]), 0, Merged(compare, inputs)[old(emitted)..emitted])
      ensures err == EOF ==> failed || emitted == |Merged(compare, inputs)|
      ensures err == NoError && n == 0 ==> rows.Length == 0
      ensures failed ==> n == 0 && err == EOF
      ensures err.Failure? ==> Reported(err)
    {
      hide Valid, Midway, Fits, Splice, Owns, Configured, Reported;
      n := 0;
      SpliceNothing(rows[..], 0);
      ghost var merged := Merged(compare, inputs);
      assert merged[emitted..emitted] == [];
      while n < rows.Length && count != 0
        invariant Valid() && n <= rows.Length && emitted == old(emitted) + n && (failed ==> n == 0)
        invariant rows[..] == Splice(old(rows[..]), 0, merged[old(emitted)..emitted])
        decreases rows.Length - n, count, 0 <= winner < |buffers| ==> buffers[winner].Empty()
      {
        ghost var before := emitted;
        var stop, e;
        n, stop, e := Round(rows, n);
        SpliceOn(old(rows[..]), 0, merged, old(emitted), before, emitted);
        if stop {
          return n, e;
        }
      }
      return n, if count == 0 then EOF else NoError;
    }

    /**
     * Returns the next rows of the merge: for every sequence of calls, with buffers of any length, the rows returned
     * are, in order, the merged sequence. The end is reported only when the whole sequence has been returned.
     * If an input fails before the merge begins, the error is returned once and the reader is at its end from then on.
     */
    method ReadRows(rows: array<T>) returns (n: nat, err: ReadError)
      requires Valid() && rows as object !in readers && rows as object != losers
      modifies this, losers, readers, rows
      ensures Valid() && initialized && (losers == old(losers) || fresh(losers))
      ensures n <= rows.Length && emitted == old(emitted) + n
      ensures rows[..n] == Merged(compare, inputs)[old(emitted)..emitted] && rows[n..] == old(rows[..])[n..]
      ensures err == EOF ==> failed || emitted == |Merged(compare, inputs)|
      ensures err == NoError && n == 0 ==> rows.Length == 0
      ensures failed ==> n == 0 && if old(failed) then err == EOF else err.Failure?
      ensures old(failed) ==> failed
      ensures err.Failure? ==> Reported(err)
      ensures old(emitted) == |Merged(compare, inputs)| && rows.Length > 0 ==> err == EOF || err.Failure?
    {
      hide Valid, Midway, Fits, Owns, Configured, Reported;
      if !initialized {
        err := Initialize();
        if err != NoError {
          return 0, err;
        }
      }
      ghost var before := rows[..];
      n, err := MergeRows(rows);
      SplicedFront(before, Merged(compare, inputs)[emitted - n..emitted]);
    }

    static lemma PrefixIsSorted(cmp: (T, T) -> int, s: seq<T>, m: nat)
      requires Sorted(cmp, s) && m <= |s|
      ensures Sorted(cmp, s[..m])
    {
    }
  }
}
