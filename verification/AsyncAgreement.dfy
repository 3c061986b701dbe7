/** Exactly when what the asynchronous reader returns is what a synchronous reader does. */
module AsyncAgreement {
  import opened AsyncPages
  import opened Options

  predicate FatalOutcome(o: Outcome) {
    o.Failed? && o.err.Fatal?
  }

  /** Where the underlying reader can be: as it was opened, or at a row that it can seek to. */
  ghost predicate Position(src: Source, p: Option<int>) {
    p.Some? ==> p.value >= 0 && src.seek(p.value).None?
  }

  /** The first `n` reads at a position do not break the reader. */
  ghost predicate Unbroken(src: Source, p: Option<int>, n: nat) {
    forall k: nat :: k < n ==> !FatalOutcome(src.read(p, k))
  }

  ghost predicate ReadBreaks(src: Source, p: Option<int>, n: nat, e: Error) {
    Position(src, p) && Unbroken(src, p, n) && src.read(p, n) == Failed(e)
  }

  ghost predicate SeekBreaks(src: Source, row: int, e: Error) {
    row >= 0 && src.seek(row) == Some(e)
  }

  /** A fatal error the underlying reader can meet, whatever the client asks for. */
  ghost predicate Breaks(src: Source, e: Error) {
    e.Fatal? && ((exists p, n: nat :: ReadBreaks(src, p, n, e)) || exists row :: SeekBreaks(src, row, e))
  }

  ghost predicate Reached(src: Source, s: State) {
    exists steps :: Run(src, INIT, steps) == Some(s)
  }

  ghost predicate Synchronous(src: Source, s: State) {
    forall i: nat :: i < |s.results| ==> s.results[i] == Expected(src, s.sought, i)
  }

  // ----- what holds of every run -----

  /** The reader is somewhere it can be, and has met no fatal error unless it is broken by one. */
  ghost predicate Placed(src: Source, s: State) {
    && Position(src, s.positioned)
    && (s.broken.None? ==> Unbroken(src, s.positioned, s.consumed))
    && (s.broken.Some? ==> Breaks(src, s.broken.value))
    && (s.positioned.Some? && !AboutToRead(s) ==> s.consumed > 0)
  }

  ghost predicate AboutToRead(s: State) {
    s.reader.Looping? && s.reader.seekTo.rowIndex < 0 && !IsFatal(s.reader.err)
  }

  /** Result `i` is the read with that number after the base, or the error that broke the reader. */
  ghost predicate Continued(src: Source, s: State, i: nat)
    requires i < |s.results|
  {
    || (s.results[i] == src.read(s.positioned, s.base + i) && Unbroken(src, s.positioned, s.base + i))
    || (s.broken.Some? && s.results[i] == Failed(s.broken.value))
  }

  /** Reading goes on where the reader was, but not before the first row of a position it has been sent to. */
  ghost predicate Based(s: State) {
    s.base > 0 || s.positioned.None?
  }

  /** The reader has taken a negative seek and is as many reads past the base as there are results, or one more. */
  ghost predicate AtBase(src: Source, s: State)
    requires s.reader.Looping? || s.reader.Offering?
  {
    && Based(s)
    && (s.broken.None? && s.reader.Looping? ==> s.consumed == s.base + |s.results|)
    && (s.broken.None? && s.reader.Offering? ==>
        s.consumed == s.base + |s.results| + 1 && src.read(s.positioned, s.base + |s.results|) == Offered(s.reader))
  }

  function Offered(reader: Goroutine): Outcome
    requires reader.Offering?
  {
    if reader.page.Some? then Page(reader.page.value.id)
    else Failed(if reader.err.Some? then reader.err.value else EndOfFile)
  }

  /** After a seek to a negative row the results go on from the base. */
  ghost predicate GoesOn(src: Source, s: State) {
    s.sought.Some? && s.sought.value < 0 ==>
      && (forall i: nat :: i < |s.results| ==> Continued(src, s, i))
      && (s.results != [] ==> Based(s))
      && (UpToDate(s) ==> s.reader.seekTo.rowIndex < 0 && (s.doneClosed || AtBase(src, s)))
  }

  /** After any other seek, and before the first, they begin at its position. */
  ghost predicate BasedAtSeek(s: State) {
    && (s.reader.AwaitingInit? || s.reader.TakingFirstSeek? ==> s.base == 0)
    && (UpToDate(s) && ValidSeek(s.sought) && s.reader.seekTo.rowIndex < 0 ==> s.base == 0)
  }

  ghost predicate Tracked(src: Source, s: State) {
    Placed(src, s) && GoesOn(src, s) && BasedAtSeek(s)
  }

  lemma SeekIsBreak(src: Source, row: int, e: Error)
    requires SeekBreaks(src, row, e) && e.Fatal?
    ensures Breaks(src, e)
  {
  }

  lemma ReadIsBreak(src: Source, p: Option<int>, n: nat, e: Error)
    requires ReadBreaks(src, p, n, e) && e.Fatal?
    ensures Breaks(src, e)
  {
  }

  lemma LoopPlaces(src: Source, s: State)
    requires Placed(src, s) && Orderly(s) && s.reader.Looping?
    ensures Placed(src, Loop(src, s))
  {
    hide Versions, SeekArrives, Breaks;
    var t := Loop(src, s);
    if t.broken.Some? && s.broken.None? {
      if s.reader.seekTo.rowIndex >= 0 {
        SeekIsBreak(src, s.reader.seekTo.rowIndex, t.broken.value);
      } else {
        ReadIsBreak(src, s.positioned, s.consumed, t.broken.value);
      }
    }
  }

  lemma StepPlaces(src: Source, s: State, step: Step)
    requires Placed(src, s) && Orderly(s) && Next(src, s, step).Some?
    ensures Placed(src, Next(src, s, step).value)
  {
    if step.ReaderLoop? {
      LoopPlaces(src, s);
    } else {
      OnlyLoopMoves(src, s, step);
      hide Breaks, Unbroken, Position, Versions, SeekArrives, Next;
      assert s.positioned.Some? && AboutToRead(s) ==> AboutToRead(Next(src, s, step).value);
    }
  }

  /** Results stay what they are while reader and base are where they were. */
  lemma StillContinued(src: Source, s: State, t: State)
    requires forall i: nat :: i < |s.results| ==> Continued(src, s, i)
    requires t.results == [] || (t.results == s.results && t.positioned == s.positioned && t.base == s.base
      && (s.broken.Some? ==> t.broken == s.broken))
    ensures forall i: nat :: i < |t.results| ==> Continued(src, t, i)
  {
    forall i: nat | i < |t.results| ensures Continued(src, t, i) {
      assert Continued(src, s, i);
    }
  }

  lemma LoopGoesOn(src: Source, s: State)
    requires GoesOn(src, s) && Orderly(s) && s.reader.Looping?
    ensures GoesOn(src, Loop(src, s))
  {
    hide Unbroken, Versions, Continued;
    var t := Loop(src, s);
    if s.sought.Some? && s.sought.value < 0 {
      LoopIsOrderly(src, s);
      LoopChanges(src, s);
      StillContinued(src, s, t);
    }
  }

  /** A result the client gets is the read the reader is at. */
  lemma ResultContinues(src: Source, s: State, t: State)
    requires Placed(src, s) && Orderly(s) && s.reader.Offering? && AtBase(src, s)
    requires forall i: nat :: i < |s.results| ==> Continued(src, s, i)
    requires t.results == s.results + [Offered(s.reader)] && t.positioned == s.positioned && t.base == s.base && t.broken == s.broken
    ensures forall i: nat :: i < |t.results| ==> Continued(src, t, i)
  {
    hide Versions, SeekArrives, Position, Breaks;
    forall i: nat | i < |t.results| ensures Continued(src, t, i) {
      if i < |s.results| {
        assert Continued(src, s, i) && t.results[i] == s.results[i];
      }
    }
  }

  lemma ReceiveGoesOn(src: Source, s: State)
    requires GoesOn(src, s) && Placed(src, s) && Orderly(s) && Lifecycle(src, s) && Receives(src, s).Some?
    ensures GoesOn(src, Receives(src, s).value)
  {
    hide Breaks, SeekArrives, Position, Continued, Unbroken, Placed;
    var t := Receives(src, s).value;
    if s.sought.Some? && s.sought.value < 0 {
      if s.client.Receiving? && s.reader.Offering? && s.reader.seekTo.version == s.version {
        ResultContinues(src, s, t);
      } else {
        StillContinued(src, s, t);
      }
    }
  }

  lemma ReaderGoesOn(src: Source, s: State, step: Step)
    requires GoesOn(src, s) && Placed(src, s) && Orderly(s) && ReaderStep(src, s, step).Some? && !step.ReaderLoop?
    ensures GoesOn(src, ReaderStep(src, s, step).value)
  {
    hide Unbroken, Breaks, Position, Continued;
    if s.sought.Some? && s.sought.value < 0 {
      StillContinued(src, s, ReaderStep(src, s, step).value);
    }
  }

  lemma ClientGoesOn(src: Source, s: State, step: Step)
    requires GoesOn(src, s) && Orderly(s) && Next(src, s, step).Some?
    requires ClientStep(step)
    ensures GoesOn(src, Next(src, s, step).value)
  {
    hide Continued;
    var t := Next(src, s, step).value;
    if step.CallSeekToRow? && !s.closed {
      assert t.results == [] && !UpToDate(t);
    } else if s.sought.Some? && s.sought.value < 0 {
      StillContinued(src, s, t);
      assert t.reader == s.reader && t.results == s.results && t.sought == s.sought;
    }
  }

  lemma StepKeepsBase(src: Source, s: State, step: Step)
    requires BasedAtSeek(s) && Orderly(s) && Lifecycle(src, s) && Next(src, s, step).Some?
    ensures BasedAtSeek(Next(src, s, step).value)
  {
    hide SeekArrives, OffersSomething;
    if ClientStep(step) {
      ClientLeavesReader(src, s, step);
      ClientSeeks(src, s, step);
      hide Next, Lifecycle;
    }
  }

  lemma ClientSeeks(src: Source, s: State, step: Step)
    requires Versions(s) && Next(src, s, step).Some? && ClientStep(step)
    ensures var t := Next(src, s, step).value;
      (t.version == s.version && t.sought == s.sought) || !UpToDate(t)
  {
  }

  lemma {:induction false} RunTracks(src: Source, s: State, steps: seq<Step>)
    requires Inv(src, s) && Tracked(src, s) && Run(src, s, steps).Some?
    ensures Inv(src, Run(src, s, steps).value) && Tracked(src, Run(src, s, steps).value)
    decreases |steps|
  {
    hide Orderly, Agrees, Accounted, Lifecycle, Placed, GoesOn, BasedAtSeek, Next;
    if steps != [] {
      var step := steps[0];
      StepRefines(src, s, step);
      StepAccounts(src, s, step);
      StepLives(src, s, step);
      StepTracks(src, s, step);
      RunTracks(src, Next(src, s, step).value, steps[1..]);
    }
  }

  lemma StepTracks(src: Source, s: State, step: Step)
    requires Tracked(src, s) && Refines(src, s) && Lifecycle(src, s) && Next(src, s, step).Some?
    ensures Tracked(src, Next(src, s, step).value)
  {
    hide Orderly, Agrees, Lifecycle, Placed, GoesOn, BasedAtSeek, Call, Continue, Receives, Loop;
    StepPlaces(src, s, step);
    StepKeepsBase(src, s, step);
    if step.ReaderLoop? {
      LoopGoesOn(src, s);
    } else if step.Receive? {
      ReceiveGoesOn(src, s);
    } else if ClientStep(step) {
      ClientGoesOn(src, s, step);
    } else {
      ReaderGoesOn(src, s, step);
    }
  }

  lemma ReachedTracks(src: Source, s: State)
    requires Reached(src, s)
    ensures Inv(src, s) && Tracked(src, s)
  {
    var steps :| Run(src, INIT, steps) == Some(s);
    InitHolds(src);
    RunTracks(src, INIT, steps);
  }

  /** After a seek to a negative row the client goes on reading where the reader is, past what it has read by then. */
  lemma NegativeSeekGoesOn(src: Source, s: State, i: nat)
    requires Reached(src, s) && s.sought.Some? && s.sought.value < 0 && i < |s.results|
    ensures Position(src, s.positioned) && (s.base > 0 || s.positioned.None?)
    ensures
      || (s.results[i] == src.read(s.positioned, s.base + i) && Unbroken(src, s.positioned, s.base + i))
      || (IsFatal(s.broken) && s.results[i] == Failed(s.broken.value))
  {
    ReachedTracks(src, s);
    assert Continued(src, s, i);
  }

  // ----- what a seek to a negative row loses -----

  lemma {:induction false} RunConcat(src: Source, s: State, first: seq<Step>, more: seq<Step>)
    requires Run(src, s, first).Some?
    ensures Run(src, s, first + more) == Run(src, Run(src, s, first).value, more)
    decreases |first|
  {
    hide Next;
    if first == [] {
      assert first + more == more;
    } else {
      assert (first + more)[1..] == first[1..] + more;
      RunConcat(src, Next(src, s, first[0]).value, first[1..], more);
    }
  }

  /** The position of the reader and the reads it had taken for the client are those of a negative seek, or past them. */
  ghost predicate Beyond(s: State, p: Option<int>, m: nat) {
    && s.sought.Some? && s.sought.value < 0 && (s.reader.Looping? || s.reader.Offering? || !Active(s))
    && (s.broken.None? ==>
        && s.positioned == p && s.consumed >= m
        && (s.results != [] ==> s.base > m)
        && (Active(s) ==> s.reader.seekTo.rowIndex < 0)
        && (UpToDate(s) ==> s.base > m)
        && (s.reader.Offering? ==> s.consumed > m))
  }

  lemma StepStaysBeyond(src: Source, s: State, step: Step, p: Option<int>, m: nat)
    requires Beyond(s, p, m) && Orderly(s) && Lifecycle(src, s) && Next(src, s, step).Some? && !step.CallSeekToRow?
    ensures Beyond(Next(src, s, step).value, p, m)
  {
    hide SeekArrives;
    if step.ReaderLoop? {
      LoopStaysBeyond(src, s, p, m);
    } else if step.Receive? {
      ReceiveStaysBeyond(src, s, p, m);
    } else if ClientStep(step) {
      ClientLeavesReader(src, s, step);
      CallsKeepResults(src, s, step);
      hide Next, BrokenByFatal, OffersSomething, Lifecycle;
    } else {
      TakeStaysBeyond(src, s, step, p, m);
    }
  }

  lemma CallsKeepResults(src: Source, s: State, step: Step)
    requires Next(src, s, step).Some? && ClientStep(step) && !step.CallSeekToRow?
    ensures var t := Next(src, s, step).value;
      t.results == s.results && t.sought == s.sought && t.version == s.version
  {
  }

  lemma LoopStaysBeyond(src: Source, s: State, p: Option<int>, m: nat)
    requires Beyond(s, p, m) && BrokenByFatal(s) && s.reader.Looping?
    ensures Beyond(Loop(src, s), p, m)
  {
    LoopChanges(src, s);
  }

  lemma ReceiveStaysBeyond(src: Source, s: State, p: Option<int>, m: nat)
    requires Beyond(s, p, m) && Lifecycle(src, s) && Receives(src, s).Some?
    ensures Beyond(Receives(src, s).value, p, m)
  {
  }

  lemma TakeStaysBeyond(src: Source, s: State, step: Step, p: Option<int>, m: nat)
    requires Beyond(s, p, m) && OffersSomething(s) && ReaderStep(src, s, step).Some? && !step.ReaderLoop?
    requires s.seek.Some? ==> s.sought == Some(s.seek.value.rowIndex)
    ensures Beyond(ReaderStep(src, s, step).value, p, m)
  {
  }

  lemma {:induction false} RunStaysBeyond(src: Source, s: State, steps: seq<Step>, p: Option<int>, m: nat)
    requires Beyond(s, p, m) && Inv(src, s) && Run(src, s, steps).Some?
    requires forall step :: step in steps ==> !step.CallSeekToRow?
    ensures Beyond(Run(src, s, steps).value, p, m)
    decreases |steps|
  {
    hide Orderly, Agrees, Accounted, Lifecycle, Beyond, Next;
    if steps != [] {
      var step := steps[0];
      assert step in steps && forall later :: later in steps[1..] ==> later in steps;
      StepRefines(src, s, step);
      StepAccounts(src, s, step);
      StepLives(src, s, step);
      StepStaysBeyond(src, s, step, p, m);
      RunStaysBeyond(src, Next(src, s, step).value, steps[1..], p, m);
    }
  }

  /** While the client has results of a seek, the reader is at its position and has read at least these. */
  lemma HasResults(src: Source, s: State)
    requires Inv(src, s) && Tracked(src, s) && s.client.Idle? && !s.closed && s.broken.None? && s.results != []
    requires s.sought.Some? && s.sought.value >= 0 ==> src.seek(s.sought.value).None?
    ensures UpToDate(s) && s.reader.seekTo.rowIndex < 0 && s.seek.None?
    ensures s.consumed == s.base + |s.results| + if s.reader.Offering? then 1 else 0
    ensures s.sought.None? || s.sought.value >= 0 ==> s.positioned == s.sought && s.base == 0
  {
  }

  /**
   * A client that seeks to a negative row after it has read something loses at least one read: what it gets from then
   * on are later reads at the position where it was.
   */
  lemma NegativeSeekSkips(src: Source, s: State, row: int, after: seq<Step>, t: State, i: nat)
    requires Reached(src, s) && s.client.Idle? && !s.closed && s.results != []
    requires s.sought.Some? && s.sought.value >= 0 ==> src.seek(s.sought.value).None?
    requires row < 0 && forall step :: step in after ==> !step.CallSeekToRow?
    requires Run(src, s, [CallSeekToRow(row)] + after) == Some(t) && t.broken.None? && i < |t.results|
    ensures t.base > s.base + |s.results| && t.results[i] == src.read(s.positioned, t.base + i)
    ensures ValidSeek(s.sought) ==> s.base == 0 && s.positioned == s.sought
  {
    hide Run, Beyond;
    var steps :| Run(src, INIT, steps) == Some(s);
    RunConcat(src, INIT, steps, [CallSeekToRow(row)] + after);
    assert Reached(src, t);
    ReachedTracks(src, s);
    ReachedTracks(src, t);
    SeekThenRun(src, s, row, after);
    var called := Next(src, s, CallSeekToRow(row)).value;
    StepsUnbroken(src, called, after);
    HasResults(src, s);
    StepRefines(src, s, CallSeekToRow(row));
    StepAccounts(src, s, CallSeekToRow(row));
    StepLives(src, s, CallSeekToRow(row));
    CallIsBeyond(src, s, row);
    RunStaysBeyond(src, called, after, s.positioned, s.base + |s.results|);
    BeyondSkips(src, t, s.positioned, s.base + |s.results|, i);
  }

  lemma SeekThenRun(src: Source, s: State, row: int, after: seq<Step>)
    requires s.client.Idle?
    ensures Run(src, s, [CallSeekToRow(row)] + after) == Run(src, Next(src, s, CallSeekToRow(row)).value, after)
  {
    assert ([CallSeekToRow(row)] + after)[1..] == after;
  }

  /** A broken reader stays broken. */
  lemma {:induction false} StepsUnbroken(src: Source, s: State, steps: seq<Step>)
    requires Run(src, s, steps).Some? && Run(src, s, steps).value.broken.None?
    ensures s.broken.None?
    decreases |steps|
  {
    hide Next;
    if steps != [] {
      StepsUnbroken(src, Next(src, s, steps[0]).value, steps[1..]);
      StaysBroken(src, s, steps[0]);
    }
  }

  lemma StaysBroken(src: Source, s: State, step: Step)
    requires Next(src, s, step).Some?
    ensures s.broken.Some? ==> Next(src, s, step).value.broken.Some?
  {
    if !step.ReaderLoop? {
      OnlyLoopMoves(src, s, step);
      hide Next;
    }
  }

  lemma CallIsBeyond(src: Source, s: State, row: int)
    requires s.client.Idle? && !s.closed && row < 0 && UpToDate(s) && s.reader.seekTo.rowIndex < 0 && s.seek.None?
    requires s.consumed == s.base + |s.results| + if s.reader.Offering? then 1 else 0
    requires Versions(s)
    ensures Beyond(Next(src, s, CallSeekToRow(row)).value, s.positioned, s.base + |s.results|)
  {
  }

  lemma BeyondSkips(src: Source, t: State, p: Option<int>, m: nat, i: nat)
    requires Beyond(t, p, m) && GoesOn(src, t) && t.broken.None? && i < |t.results|
    ensures t.base > m && t.results[i] == src.read(p, t.base + i)
  {
    assert Continued(src, t, i);
  }

  // ----- runs that show a disagreement -----

  lemma Reach(src: Source, s: State, step: Step) returns (t: State)
    requires Reached(src, s) && Next(src, s, step).Some?
    ensures Reached(src, t) && Next(src, s, step) == Some(t)
  {
    hide Next;
    var steps :| Run(src, INIT, steps) == Some(s);
    t := Next(src, s, step).value;
    RunConcat(src, INIT, steps, [step]);
    RunOne(src, s, step);
    assert Run(src, INIT, steps + [step]) == Some(t);
  }

  lemma RunOne(src: Source, s: State, step: Step)
    requires Next(src, s, step).Some?
    ensures Run(src, s, [step]) == Next(src, s, step)
  {
    hide Next;
    assert [step][1..] == [];
  }

  /** The client may read or seek, and the reader is about to take the `n`th read at position `p` for it. */
  ghost predicate At(src: Source, s: State, p: Option<int>, n: nat) {
    && Reached(src, s) && s.client.Idle? && !s.closed && !s.doneClosed && s.seek.None?
    && s.reader.Looping? && s.reader.seekTo.rowIndex < 0 && s.reader.seekTo.version == s.version && !IsFatal(s.reader.err)
    && s.positioned == p && s.consumed == n
  }

  /** The client may read or seek, and the reader is broken by `e`. */
  ghost predicate BrokenAt(src: Source, s: State, e: Error) {
    && Reached(src, s) && s.client.Idle? && !s.closed && !s.doneClosed && s.seek.None?
    && s.reader.Looping? && s.reader.seekTo.version == s.version && s.reader.err == Some(e) && e.Fatal?
  }

  /** A first seek, taken before the reader does anything. */
  lemma StartWith(src: Source, row: int) returns (s: State)
    ensures Reached(src, s)
    ensures s == INIT.(version := 1, sought := Some(row), initClosed := true, reader := Looping(Seek(row, 1), None))
  {
    hide Run;
    assert Run(src, INIT, []) == Some(INIT) by {
      NoSteps(src);
    }
    assert Reached(src, INIT);
    s := Reach(src, INIT, CallSeekToRow(row));
    s := Reach(src, s, PushSeek);
    s := Reach(src, s, StartReader);
    s := Reach(src, s, ReaderInit);
    s := Reach(src, s, ReaderFirstSeek);
  }

  lemma NoSteps(src: Source)
    ensures Run(src, INIT, []) == Some(INIT)
  {
  }

  /** Every position can be reached before anything is read. */
  lemma Begin(src: Source, p: Option<int>) returns (s: State)
    requires Position(src, p)
    ensures At(src, s, p, 0) && s.results == []
  {
    hide Run, Reached;
    if p.None? {
      s := StartWith(src, -1);
    } else {
      s := StartWith(src, p.value);
      s := Reach(src, s, ReaderLoop);
    }
  }

  lemma ReadOne(src: Source, s: State, p: Option<int>, n: nat) returns (t: State)
    requires At(src, s, p, n)
    ensures Reached(src, t) && t.results == s.results + [src.read(p, n)] && t.sought == s.sought
    ensures !FatalOutcome(src.read(p, n)) ==> At(src, t, p, n + 1)
  {
    hide Run, Reached;
    t := Reach(src, s, CallReadPage);
    t := Reach(src, t, ReaderLoop);
    t := Reach(src, t, Receive);
  }

  lemma {:induction false} ReadMany(src: Source, s: State, p: Option<int>, n: nat, m: nat) returns (t: State)
    requires At(src, s, p, n) && Unbroken(src, p, n + m)
    ensures At(src, t, p, n + m) && |t.results| == |s.results| + m && t.sought == s.sought
    decreases m
  {
    hide At;
    t := s;
    if m > 0 {
      t := ReadOne(src, s, p, n);
      t := ReadMany(src, t, p, n + 1, m - 1);
    }
  }

  lemma {:induction false} BrokenReads(src: Source, s: State, e: Error, m: nat) returns (t: State)
    requires BrokenAt(src, s, e)
    ensures BrokenAt(src, t, e) && |t.results| == |s.results| + m && t.sought == s.sought
    ensures m > 0 ==> t.results[|t.results| - 1] == Failed(e)
    decreases m
  {
    t := s;
    if m > 0 {
      t := BrokenReads(src, s, e, m - 1);
      t := BrokenRead(src, t, e);
    }
  }

  lemma BrokenRead(src: Source, s: State, e: Error) returns (t: State)
    requires BrokenAt(src, s, e)
    ensures BrokenAt(src, t, e) && t.results == s.results + [Failed(e)] && t.sought == s.sought
  {
    hide Run, Reached;
    t := Reach(src, s, CallReadPage);
    t := Reach(src, t, ReaderLoop);
    t := Reach(src, t, Receive);
  }

  /** A seek that the reader takes while it offers what it has read ahead. */
  lemma SeekWhileOffering(src: Source, s: State, row: int) returns (t: State)
    requires Reached(src, s) && s.client.Idle? && !s.closed && s.seek.None? && s.reader.Offering?
    ensures Reached(src, t)
    ensures t == s.(version := s.version + 1, initClosed := true, sought := Some(row), results := [],
                    reader := Looping(Seek(row, s.version + 1), s.reader.err), base := s.consumed,
                    pages := Release(s.pages, s.reader.page))
  {
    hide Run, Reached;
    t := Reach(src, s, CallSeekToRow(row));
    t := Reach(src, t, PushSeek);
    t := Reach(src, t, StartReader);
    t := Reach(src, t, ReaderTakeSeek);
  }

  /** A seek after the reader has read ahead: what it has read is lost, or has broken it. */
  lemma SeekPast(src: Source, s: State, p: Option<int>, n: nat, row: int) returns (t: State)
    requires At(src, s, p, n)
    ensures t.results == [] && t.sought == Some(row)
    ensures !FatalOutcome(src.read(p, n)) && row < 0 ==> At(src, t, p, n + 1)
    ensures FatalOutcome(src.read(p, n)) ==> BrokenAt(src, t, src.read(p, n).err)
  {
    hide Run, Reached;
    t := Reach(src, s, ReaderLoop);
    t := SeekWhileOffering(src, t, row);
  }

  /** Every fatal error of the underlying reader can be met before a seek, to whatever row. */
  lemma BreakBefore(src: Source, e: Error, row: int) returns (s: State)
    requires Breaks(src, e)
    ensures BrokenAt(src, s, e) && s.results == [] && s.sought == Some(row)
  {
    hide Run, Reached;
    if p, n: nat :| ReadBreaks(src, p, n, e) {
      s := Begin(src, p);
      s := ReadMany(src, s, p, 0, n);
      s := SeekPast(src, s, p, n, row);
    } else {
      var first :| SeekBreaks(src, first, e);
      s := StartWith(src, first);
      s := Reach(src, s, ReaderLoop);
      s := SeekWhileOffering(src, s, row);
    }
  }

  /** A fatal error that can be met can be what a client gets for any read after any seek. */
  lemma ReadAheadErrorSticks(src: Source, e: Error, row: int, i: nat) returns (s: State)
    requires Breaks(src, e)
    ensures Reached(src, s) && s.sought == Some(row) && |s.results| == i + 1 && s.results[i] == Failed(e)
  {
    s := BreakBefore(src, e, row);
    s := BrokenReads(src, s, e, i + 1);
  }

  /** Read `base + i` at a position can be the `i`th that a client gets after a seek to a negative row. */
  lemma NegativeSeekReads(src: Source, p: Option<int>, base: nat, row: int, i: nat) returns (s: State)
    requires Position(src, p) && (base > 0 || p.None?) && Unbroken(src, p, base + i) && row < 0
    ensures Reached(src, s) && s.sought == Some(row) && |s.results| == i + 1 && s.results[i] == src.read(p, base + i)
  {
    hide Run, Reached;
    if base == 0 {
      s := StartWith(src, row);
    } else {
      s := Begin(src, p);
      s := ReadMany(src, s, p, 0, base - 1);
      s := SeekPast(src, s, p, base - 1, row);
    }
    s := ReadMany(src, s, p, base, i);
    s := ReadOne(src, s, p, base + i);
  }

  // ----- when the two readers agree -----

  /** Whatever fatal error the reader can meet, reading from the row would give that error all along. */
  ghost predicate FailsAnyway(src: Source, row: int) {
    forall e, i: nat :: Breaks(src, e) ==> Expected(src, Some(row), i) == Failed(e)
  }

  /** Wherever the reader can be, reading on gives what reading from the row would. */
  ghost predicate SameEverywhere(src: Source, row: int) {
    forall p, base: nat, i: nat :: SameFrom(src, row, p, base, i)
  }

  ghost predicate SameFrom(src: Source, row: int, p: Option<int>, base: nat, i: nat) {
    Position(src, p) && (base > 0 || p.None?) && Unbroken(src, p, base + i) ==>
      src.read(p, base + i) == Expected(src, Some(row), i)
  }

  lemma ResultOrBroken(src: Source, s: State, i: nat)
    requires ResultsAgree(src, s) && i < |s.results|
    ensures s.results[i] == Expected(src, s.sought, i) || (s.broken.Some? && s.results[i] == Failed(s.broken.value))
  {
  }

  /**
   * After a seek to a row, over every interleaving, the client gets exactly what a synchronous reader gives, if and
   * only if no fatal error can be met that reading from that row does not give as well.
   */
  lemma AgreesExactly(src: Source, row: nat)
    ensures (forall s :: Reached(src, s) && s.sought == Some(row) ==> Synchronous(src, s)) <==> FailsAnyway(src, row)
  {
    if FailsAnyway(src, row) {
      forall s | Reached(src, s) && s.sought == Some(row) ensures Synchronous(src, s) {
        ReachedTracks(src, s);
        forall i: nat | i < |s.results| ensures s.results[i] == Expected(src, s.sought, i) {
          ResultOrBroken(src, s, i);
        }
      }
    } else {
      var e, i: nat :| Breaks(src, e) && Expected(src, Some(row), i) != Failed(e);
      var s := ReadAheadErrorSticks(src, e, row, i);
      assert !Synchronous(src, s);
    }
  }

  /** After a seek to a negative row it does so only if, besides, it makes no difference where the reader is. */
  lemma NegativeSeekAgreesExactly(src: Source, row: int)
    requires row < 0
    ensures (forall s :: Reached(src, s) && s.sought == Some(row) ==> Synchronous(src, s))
      <==> FailsAnyway(src, row) && SameEverywhere(src, row)
  {
    if FailsAnyway(src, row) && SameEverywhere(src, row) {
      forall s | Reached(src, s) && s.sought == Some(row) ensures Synchronous(src, s) {
        ReachedTracks(src, s);
        forall i: nat | i < |s.results| ensures s.results[i] == Expected(src, s.sought, i) {
          NegativeSeekGoesOn(src, s, i);
          assert SameFrom(src, row, s.positioned, s.base, i);
        }
      }
    } else if !FailsAnyway(src, row) {
      var e, i: nat :| Breaks(src, e) && Expected(src, Some(row), i) != Failed(e);
      var s := ReadAheadErrorSticks(src, e, row, i);
      assert !Synchronous(src, s);
    } else {
      var p, base: nat, i: nat :| !SameFrom(src, row, p, base, i);
      var s := NegativeSeekReads(src, p, base, row, i);
      assert !Synchronous(src, s);
    }
  }
}
