/** The page reader that reads ahead in a goroutine: two processes, a rendezvous channel and a seek channel of one slot. */
module AsyncPages {
  import opened Options

  datatype Error = EndOfFile | SeekOutOfRange | Fatal(code: int)

  predicate IsFatal(err: Option<Error>) {
    err.Some? && err.value.Fatal?
  }

  /** What reading a page comes to. */
  datatype Outcome = Page(id: int) | Failed(err: Error)

  /**
   * The underlying reader. What it reads depends on the row it was last positioned at (None before the first seek) and
   * on the number of reads since; seeking either positions it or fails.
   */
  datatype Source = Source(read: (Option<int>, nat) -> Outcome, seek: int -> Option<Error>, closeErr: Option<Error>)

  datatype Seek = Seek(rowIndex: int, version: int)

  /** A page object, numbered in the order the underlying reader produced them. */
  datatype PageRef = PageRef(serial: nat, id: int)

  /** How many pages have been produced, and which of them were delivered to the client or released. */
  datatype Ledger = Ledger(produced: nat, delivered: multiset<nat>, released: multiset<nat>)

  function Produce(pages: Ledger): Ledger {
    pages.(produced := pages.produced + 1)
  }

  function Deliver(pages: Ledger, page: Option<PageRef>): Ledger {
    if page.Some? then pages.(delivered := pages.delivered + multiset{page.value.serial}) else pages
  }

  function Release(pages: Ledger, page: Option<PageRef>): Ledger {
    if page.Some? then pages.(released := pages.released + multiset{page.value.serial}) else pages
  }

  datatype Client =
    | Idle
    | Receiving
    | PushingSeek(rowIndex: int)
    | Starting
    | ClosingDone
    | Draining(last: Option<Error>)

  datatype Goroutine =
    | AwaitingInit
    | TakingFirstSeek
    | Looping(seekTo: Seek, err: Option<Error>)
    | Offering(seekTo: Seek, err: Option<Error>, page: Option<PageRef>)
    | Finishing
    | Exited

  /**
   * `positioned` and `consumed` are the state of the underlying reader. The last six fields record what has happened:
   * where pages went, what the client asked for and got since, what it got from closing and from reading after that,
   * and how many reads there had been when the reader took up the seek it is working on.
   */
  datatype State = State(
    version: nat, seek: Option<Seek>, initClosed: bool, doneClosed: bool, closed: bool,
    client: Client, reader: Goroutine,
    positioned: Option<int>, consumed: nat, broken: Option<Error>,
    pages: Ledger,
    sought: Option<int>, results: seq<Outcome>, closes: seq<Option<Error>>, late: seq<Outcome>, base: nat)

  const INIT := State(
    0, None, false, false, false, Idle, AwaitingInit, None, 0, None,
    Ledger(0, multiset{}, multiset{}), None, [], [], [], 0)

  /** One atomic step of one process; a receive from the read channel is a step of both. */
  datatype Step =
    | CallReadPage | CallSeekToRow(rowIndex: int) | CallClose
    | PushSeek | StartReader | CloseDone | Receive
    | ReaderInit | ReaderDone | ReaderFirstSeek | ReaderLoop | ReaderTakeSeek

  // ----- client steps -----

  /** Calls begin when no other is in progress. Seeking first takes back a seek the reader has not seen yet. */
  function Call(s: State, step: Step): Option<State>
    requires s.client.Idle?
  {
    match step
    case CallReadPage => Some(s.(initClosed := true, client := Receiving))
    case CallSeekToRow(row) =>
      if s.closed then Some(s)
      else
        var asked := s.(client := PushingSeek(row), sought := Some(row), results := []);
        if s.seek.Some? then Some(asked.(seek := None)) else Some(asked.(version := s.version + 1))
    case CallClose => Some(s.(initClosed := true, client := ClosingDone))
    case _ => None
  }

  /** Sending on a channel of one slot is possible only while the slot is empty. */
  function Continue(s: State, step: Step): Option<State> {
    match step
    case PushSeek =>
      if s.client.PushingSeek? && s.seek.None? then
        Some(s.(seek := Some(Seek(s.client.rowIndex, s.version)), client := Starting))
      else None
    case StartReader => if s.client.Starting? then Some(s.(initClosed := true, client := Idle)) else None
    case CloseDone => if s.client.ClosingDone? then Some(s.(doneClosed := true, client := Draining(None))) else None
    case _ => None
  }

  /** The client takes what the reader offers: pages of an older version are dropped, and draining drops them all. */
  function Take(s: State, version: int, page: Option<PageRef>, err: Option<Error>): (r: State) {
    if s.client.Draining? then s.(client := Draining(err), pages := Release(s.pages, page))
    else if version != s.version then s.(pages := Release(s.pages, page))
    else
      s.(client := Idle,
         pages := Deliver(s.pages, page),
         results := s.results + [if page.Some? then Page(page.value.id) else Failed(if err.Some? then err.value else EndOfFile)])
  }

  /** The read channel: a rendezvous with an offer of the reader, or the end of the closed channel. */
  function Receives(src: Source, s: State): Option<State> {
    if !s.client.Receiving? && !s.client.Draining? then None
    else
      match s.reader
      case Offering(seekTo, err, page) => Some(Take(s.(reader := Looping(seekTo, err)), seekTo.version, page, err))
      case Finishing => Some(Take(s.(reader := Exited), -1, None, src.closeErr))
      case Exited =>
        if s.client.Receiving? then Some(s.(client := Idle, late := s.late + [Failed(EndOfFile)]))
        else Some(s.(client := Idle, closed := true, closes := s.closes + [s.client.last]))
      case _ => None
  }

  // ----- reader steps -----

  /** One pass of the reader's loop up to its select: position the underlying reader, or read a page, unless broken. */
  function Loop(src: Source, s: State): State
    requires s.reader.Looping?
  {
    var seekTo, err := s.reader.seekTo, s.reader.err;
    if IsFatal(err) then s.(reader := Offering(seekTo, err, None))
    else if seekTo.rowIndex >= 0 then
      var failed := src.seek(seekTo.rowIndex);
      if failed.None? then
        s.(reader := Looping(seekTo.(rowIndex := -1), None), positioned := Some(seekTo.rowIndex), consumed := 0, base := 0)
      else
        s.(reader := Offering(seekTo, failed, None), broken := if IsFatal(failed) then failed else s.broken)
    else
      match src.read(s.positioned, s.consumed)
      case Page(id) =>
        s.(reader := Offering(seekTo, None, Some(PageRef(s.pages.produced, id))), consumed := s.consumed + 1, pages := Produce(s.pages))
      case Failed(e) =>
        s.(reader := Offering(seekTo, Some(e), None), consumed := s.consumed + 1,
           broken := if IsFatal(Some(e)) then Some(e) else s.broken)
  }

  function ReaderStep(src: Source, s: State, step: Step): Option<State> {
    match step
    case ReaderInit => if s.reader.AwaitingInit? && s.initClosed then Some(s.(reader := TakingFirstSeek)) else None
    case ReaderDone =>
      if s.doneClosed && s.reader.AwaitingInit? then Some(s.(reader := Finishing))
      else if s.doneClosed && s.reader.Offering? then
        Some(s.(reader := Finishing, pages := Release(s.pages, s.reader.page)))
      else None
    case ReaderFirstSeek =>
      if !s.reader.TakingFirstSeek? then None
      else if s.seek.Some? then Some(s.(reader := Looping(s.seek.value, None), seek := None, base := s.consumed))
      else Some(s.(reader := Looping(Seek(-1, 0), None)))
    case ReaderLoop => if s.reader.Looping? then Some(Loop(src, s)) else None
    case ReaderTakeSeek =>
      if s.reader.Offering? && s.seek.Some? then
        Some(s.(reader := Looping(s.seek.value, s.reader.err), seek := None, base := s.consumed, pages := Release(s.pages, s.reader.page)))
      else None
    case _ => None
  }

  /** The state after a step, where the step is possible. */
  function Next(src: Source, s: State, step: Step): Option<State> {
    match step
    case CallReadPage => if s.client.Idle? then Call(s, step) else None
    case CallSeekToRow(_) => if s.client.Idle? then Call(s, step) else None
    case CallClose => if s.client.Idle? then Call(s, step) else None
    case PushSeek => Continue(s, step)
    case StartReader => Continue(s, step)
    case CloseDone => Continue(s, step)
    case Receive => Receives(src, s)
    case _ => ReaderStep(src, s, step)
  }

  /** The state after a run of steps, in whatever order the two processes take them. */
  function Run(src: Source, s: State, steps: seq<Step>): Option<State>
    decreases |steps|
  {
    if steps == [] then Some(s)
    else
      var next := Next(src, s, steps[0]);
      if next.None? then None else Run(src, next.value, steps[1..])
  }

  // ----- the synchronous reader -----

  /** What the `i`th read gives a client that seeks and reads without a goroutine in between. */
  ghost function Expected(src: Source, sought: Option<int>, i: nat): Outcome {
    if sought.Some? && src.seek(sought.value).Some? then Failed(src.seek(sought.value).value)
    else src.read(sought, i)
  }

  /** Rows are numbered from 0; a seek to a negative row is not a seek. */
  ghost predicate ValidSeek(sought: Option<int>) {
    sought.Some? ==> sought.value >= 0
  }

  // ----- invariants -----

  /** The reader is ahead of the client's last seek by at most the outcome it offers. */
  ghost predicate InStep(src: Source, s: State) {
    match s.reader
    case Looping(seekTo, err) =>
      IsFatal(err) || AtRead(src, s, seekTo, |s.results|)
    case Offering(seekTo, err, page) =>
      if page.Some? then
        AtRead(src, s, seekTo, |s.results| + 1) && Page(page.value.id) == Expected(src, s.sought, |s.results|)
      else
        err.Some? && (IsFatal(err) || (AtRead(src, s, seekTo, |s.results| + 1) && Failed(err.value) == Expected(src, s.sought, |s.results|)))
    case _ => true
  }

  /** The underlying reader is where `n` synchronous reads would leave it, or still has to be positioned. */
  ghost predicate AtRead(src: Source, s: State, seekTo: Seek, n: nat) {
    if seekTo.rowIndex >= 0 then s.sought == Some(seekTo.rowIndex) && (n > 0 ==> src.seek(seekTo.rowIndex).Some?)
    else s.positioned == s.sought && s.consumed == n && (s.sought.Some? ==> src.seek(s.sought.value).None?)
  }

  /** The reader has taken the client's last seek. */
  ghost predicate UpToDate(s: State) {
    (s.reader.Looping? || s.reader.Offering?) && s.reader.seekTo.version == s.version
  }

  /** A seek on its way carries the current version, which the reader has not seen yet. */
  ghost predicate Versions(s: State) {
    && (s.sought.None? <==> s.version == 0)
    && (s.seek.Some? ==> s.sought == Some(s.seek.value.rowIndex) && s.seek.value.version == s.version)
    && (s.client.PushingSeek? ==> s.seek.None? && s.sought == Some(s.client.rowIndex))
    && (s.reader.Looping? || s.reader.Offering? ==> s.reader.seekTo.version <= s.version)
    && (s.seek.Some? || s.client.PushingSeek? ==> !UpToDate(s))
  }

  /** Every result is the one a synchronous reader gives, up to an error that broke the underlying reader for good. */
  ghost predicate ResultsAgree(src: Source, s: State) {
    forall i, j :: 0 <= i <= j < |s.results| && s.results[i] != Expected(src, s.sought, i) ==>
      s.broken.Some? && s.results[j] == Failed(s.broken.value)
  }

  ghost predicate BrokenByFatal(s: State) {
    && (s.broken.Some? ==> IsFatal(s.broken))
    && (s.reader.Looping? || s.reader.Offering? ==> IsFatal(s.reader.err) == s.broken.Some? && (s.broken.Some? ==> s.reader.err == s.broken))
    && (s.reader.AwaitingInit? || s.reader.TakingFirstSeek? ==>
        s.broken.None? && s.positioned.None? && s.consumed == 0)
  }

  ghost predicate Active(s: State) {
    !s.reader.Finishing? && !s.reader.Exited?
  }

  /** Unless the reader has taken the last seek, there are no results yet and the seek is still to come. */
  ghost predicate SeekArrives(s: State) {
    Active(s) && !UpToDate(s) ==>
      s.results == [] && (s.seek.Some? || s.client.PushingSeek? || (!s.reader.Looping? && !s.reader.Offering? && s.version == 0))
  }

  /** What an offer holds: a page, or an error. */
  ghost predicate OffersSomething(s: State) {
    s.reader.Offering? ==> (s.reader.page.Some? <==> s.reader.err.None?)
  }

  ghost predicate Refines(src: Source, s: State) {
    Orderly(s) && Agrees(src, s)
  }

  /** Seeks and errors are where they should be. */
  ghost predicate Orderly(s: State) {
    Versions(s) && SeekArrives(s) && BrokenByFatal(s) && OffersSomething(s)
  }

  ghost predicate Agrees(src: Source, s: State) {
    ValidSeek(s.sought) ==> ResultsAgree(src, s) && (UpToDate(s) && !s.doneClosed ==> InStep(src, s))
  }

  function HeldPage(s: State): Option<PageRef> {
    if s.reader.Offering? then s.reader.page else None
  }

  /** Every page produced was delivered or released exactly once, except for the one the reader holds. */
  ghost predicate Balanced(pages: Ledger, held: Option<PageRef>) {
    forall n: nat :: pages.delivered[n] + pages.released[n] + (if held.Some? && held.value.serial == n then 1 else 0)
      == if n < pages.produced then 1 else 0
  }

  ghost predicate Accounted(s: State) {
    Balanced(s.pages, HeldPage(s))
  }

  ghost predicate Lifecycle(src: Source, s: State) {
    && (s.doneClosed ==> s.initClosed)
    && (s.reader.Finishing? || s.reader.Exited? ==> s.doneClosed)
    && (s.client.Draining? ==> s.doneClosed)
    && (s.client.Receiving? || s.client.ClosingDone? ==> s.initClosed)
    && (s.closed ==> s.reader.Exited? && s.closes != [])
    && (s.closes != [] ==> s.closed && s.closes[0] == src.closeErr)
    && (s.closes == [] && s.doneClosed ==> s.client.Draining?)
    && (s.closes == [] && s.client.Draining? && s.reader.Exited? ==> s.client.last == src.closeErr)
    && (s.late != [] ==> s.closed) && (forall o :: o in s.late ==> o == Failed(EndOfFile))
  }

  ghost predicate Inv(src: Source, s: State) {
    Refines(src, s) && Accounted(s) && Lifecycle(src, s)
  }

  predicate ClientStep(step: Step) {
    || step.CallReadPage? || step.CallSeekToRow? || step.CallClose?
    || step.PushSeek? || step.StartReader? || step.CloseDone?
  }

  /** The client's own steps change nothing about the reader. */
  lemma ClientLeavesReader(src: Source, s: State, step: Step)
    requires Next(src, s, step).Some? && ClientStep(step)
    ensures var t := Next(src, s, step).value;
      && t.positioned == s.positioned && t.consumed == s.consumed && t.broken == s.broken && t.base == s.base
      && t.reader == s.reader
  {
  }

  /** Nor do receives and the reader's own steps, other than the loop, move the underlying reader. */
  lemma OnlyLoopMoves(src: Source, s: State, step: Step)
    requires Next(src, s, step).Some? && !step.ReaderLoop?
    ensures var t := Next(src, s, step).value;
      && t.positioned == s.positioned && t.consumed == s.consumed && t.broken == s.broken
      && (s.reader.Looping? ==> t.reader == s.reader)
  {
    if step.Receive? {
      ReceiveLeavesReader(src, s);
    } else if ClientStep(step) {
      ClientLeavesReader(src, s, step);
    } else {
      hide Take, Call, Continue, Receives, Loop;
    }
  }

  lemma ReceiveLeavesReader(src: Source, s: State)
    requires Receives(src, s).Some?
    ensures var t := Receives(src, s).value;
      t.positioned == s.positioned && t.consumed == s.consumed && t.broken == s.broken && !s.reader.Looping?
  {
  }

  /** What matters to the reader has not changed. */
  lemma SameForReader(src: Source, s: State, t: State)
    requires Refines(src, s) && !s.client.PushingSeek? && !t.client.PushingSeek?
    requires t.version == s.version && t.seek == s.seek && t.reader == s.reader && t.sought == s.sought && t.results == s.results
    requires t.positioned == s.positioned && t.consumed == s.consumed && t.broken == s.broken
    requires s.doneClosed ==> t.doneClosed
    ensures Refines(src, t)
  {
  }

  lemma SeekRefines(src: Source, s: State, row: int)
    requires Refines(src, s) && s.client.Idle? && !s.closed
    ensures Refines(src, Call(s, CallSeekToRow(row)).value)
  {
    var t := Call(s, CallSeekToRow(row)).value;
    assert t.results == [] && !UpToDate(t);
    hide InStep;
  }

  lemma CallRefines(src: Source, s: State, step: Step)
    requires Refines(src, s) && s.client.Idle? && Call(s, step).Some?
    ensures Refines(src, Call(s, step).value)
  {
    if step.CallSeekToRow? && !s.closed {
      SeekRefines(src, s, step.rowIndex);
    } else {
      hide Refines;
      SameForReader(src, s, Call(s, step).value);
    }
  }

  lemma PushRefines(src: Source, s: State)
    requires Refines(src, s) && Continue(s, PushSeek).Some?
    ensures Refines(src, Continue(s, PushSeek).value)
  {
    assert !UpToDate(s);
    hide InStep;
  }

  lemma ContinueRefines(src: Source, s: State, step: Step)
    requires Refines(src, s) && Continue(s, step).Some?
    ensures Refines(src, Continue(s, step).value)
  {
    hide Refines;
    if step.PushSeek? {
      PushRefines(src, s);
    } else {
      SameForReader(src, s, Continue(s, step).value);
    }
  }

  lemma TakeRefines(src: Source, s: State)
    requires Refines(src, s) && Lifecycle(src, s) && s.client.Receiving? && s.reader.Offering?
    ensures Refines(src, Receives(src, s).value)
  {
  }

  lemma DrainRefines(src: Source, s: State)
    requires Refines(src, s) && Lifecycle(src, s) && Receives(src, s).Some? && (s.client.Draining? || !s.reader.Offering?)
    ensures Refines(src, Receives(src, s).value)
  {
  }

  /** What a pass of the loop leaves as it is. */
  lemma LoopChanges(src: Source, s: State)
    requires s.reader.Looping?
    ensures var t := Loop(src, s);
      && t == s.(reader := t.reader, positioned := t.positioned, consumed := t.consumed, base := t.base,
                 broken := t.broken, pages := t.pages)
      && (t.reader.Looping? || t.reader.Offering?) && t.reader.seekTo.version == s.reader.seekTo.version
  {
  }

  lemma LoopKeepsErrors(src: Source, s: State)
    requires BrokenByFatal(s) && s.reader.Looping?
    ensures BrokenByFatal(Loop(src, s)) && OffersSomething(Loop(src, s))
  {
  }

  lemma LoopIsOrderly(src: Source, s: State)
    requires Orderly(s) && s.reader.Looping?
    ensures Orderly(Loop(src, s)) && UpToDate(Loop(src, s)) == UpToDate(s)
  {
    hide Loop, BrokenByFatal, OffersSomething;
    LoopChanges(src, s);
    LoopKeepsErrors(src, s);
  }

  lemma SeekingRefines(src: Source, s: State)
    requires Refines(src, s) && s.reader.Looping? && (IsFatal(s.reader.err) || s.reader.seekTo.rowIndex >= 0)
    ensures Refines(src, Loop(src, s))
  {
    LoopIsOrderly(src, s);
    hide Orderly;
  }

  lemma ReadingRefines(src: Source, s: State)
    requires Refines(src, s) && s.reader.Looping? && !IsFatal(s.reader.err) && s.reader.seekTo.rowIndex < 0
    ensures Refines(src, Loop(src, s))
  {
    LoopIsOrderly(src, s);
    assert s.broken.None?;
    hide Orderly;
  }

  lemma TakeSeekRefines(src: Source, s: State)
    requires Refines(src, s) && ReaderStep(src, s, ReaderTakeSeek).Some?
    ensures Refines(src, ReaderStep(src, s, ReaderTakeSeek).value)
  {
  }

  lemma ReaderRefines(src: Source, s: State, step: Step)
    requires Refines(src, s) && ReaderStep(src, s, step).Some? && !step.ReaderLoop?
    ensures Refines(src, ReaderStep(src, s, step).value)
  {
    if step.ReaderTakeSeek? {
      TakeSeekRefines(src, s);
    } else {
      hide Release;
    }
  }

  lemma StepRefines(src: Source, s: State, step: Step)
    requires Refines(src, s) && Lifecycle(src, s) && Next(src, s, step).Some?
    ensures Refines(src, Next(src, s, step).value)
  {
    hide Refines, Call, Continue, Receives, Loop, Lifecycle;
    match step
    case CallReadPage => CallRefines(src, s, step);
    case CallSeekToRow(_) => CallRefines(src, s, step);
    case CallClose => CallRefines(src, s, step);
    case PushSeek => ContinueRefines(src, s, step);
    case StartReader => ContinueRefines(src, s, step);
    case CloseDone => ContinueRefines(src, s, step);
    case Receive =>
      if s.client.Receiving? && s.reader.Offering? {
        TakeRefines(src, s);
      } else {
        CanReceive(src, s);
        DrainRefines(src, s);
      }
    case ReaderLoop =>
      if IsFatal(s.reader.err) || s.reader.seekTo.rowIndex >= 0 {
        SeekingRefines(src, s);
      } else {
        ReadingRefines(src, s);
      }
    case _ => ReaderRefines(src, s, step);
  }

  lemma CanReceive(src: Source, s: State)
    requires Receives(src, s).Some?
    ensures s.client.Receiving? || s.client.Draining?
  {
  }

  // ----- pages -----

  lemma PagesMove(pages: Ledger, id: int, page: Option<PageRef>)
    ensures Balanced(pages, None) ==> Balanced(Produce(pages), Some(PageRef(pages.produced, id)))
    ensures Balanced(pages, page) ==> Balanced(Deliver(pages, page), None) && Balanced(Release(pages, page), None)
  {
  }

  lemma ReaderAccounts(src: Source, s: State, step: Step)
    requires Accounted(s) && ReaderStep(src, s, step).Some?
    ensures Accounted(ReaderStep(src, s, step).value)
  {
    hide Balanced, Produce, Deliver, Release;
    if step.ReaderLoop? && src.read(s.positioned, s.consumed).Page? {
      PagesMove(s.pages, src.read(s.positioned, s.consumed).id, None);
    }
    PagesMove(s.pages, 0, HeldPage(s));
  }

  lemma ReceiveAccounts(src: Source, s: State)
    requires Accounted(s) && Receives(src, s).Some?
    ensures Accounted(Receives(src, s).value)
  {
    hide Balanced, Produce, Deliver, Release;
    PagesMove(s.pages, 0, HeldPage(s));
    PagesMove(s.pages, 0, None);
  }

  lemma StepAccounts(src: Source, s: State, step: Step)
    requires Accounted(s) && Next(src, s, step).Some?
    ensures Accounted(Next(src, s, step).value)
  {
    hide Receives, ReaderStep, Balanced;
    match step
    case Receive => ReceiveAccounts(src, s);
    case CallReadPage =>
    case CallSeekToRow(_) =>
    case CallClose =>
    case PushSeek =>
    case StartReader =>
    case CloseDone =>
    case _ => ReaderAccounts(src, s, step);
  }

  lemma StepLives(src: Source, s: State, step: Step)
    requires Lifecycle(src, s) && Next(src, s, step).Some?
    ensures Lifecycle(src, Next(src, s, step).value)
  {
  }

  // ----- what holds of every run -----

  lemma {:induction false} RunKeeps(src: Source, s: State, steps: seq<Step>)
    requires Inv(src, s) && Run(src, s, steps).Some?
    ensures Inv(src, Run(src, s, steps).value)
    decreases |steps|
  {
    hide Refines, Accounted, Lifecycle, Next;
    if steps != [] {
      StepRefines(src, s, steps[0]);
      StepAccounts(src, s, steps[0]);
      StepLives(src, s, steps[0]);
      RunKeeps(src, Next(src, s, steps[0]).value, steps[1..]);
    }
  }

  ghost predicate NeverFatal(src: Source) {
    && (forall positioned, n: nat :: src.read(positioned, n).Failed? ==> !src.read(positioned, n).err.Fatal?)
    && (forall row :: !IsFatal(src.seek(row)))
  }

  lemma {:induction false} NeverBroken(src: Source, s: State, steps: seq<Step>)
    requires NeverFatal(src) && s.broken.None? && Run(src, s, steps).Some?
    ensures Run(src, s, steps).value.broken.None?
    decreases |steps|
  {
    hide Next, NeverFatal;
    if steps != [] {
      StepNeverBreaks(src, s, steps[0]);
      NeverBroken(src, Next(src, s, steps[0]).value, steps[1..]);
    }
  }

  lemma StepNeverBreaks(src: Source, s: State, step: Step)
    requires NeverFatal(src) && s.broken.None? && Next(src, s, step).Some?
    ensures Next(src, s, step).value.broken.None?
  {
    if !step.ReaderLoop? {
      OnlyLoopMoves(src, s, step);
      hide Next;
    }
  }

  lemma InitHolds(src: Source)
    ensures Inv(src, INIT)
  {
  }

  /**
   * Over every interleaving, what the client has read since its last seek is what a synchronous reader gives after the
   * same seek, page by page; an error that breaks the underlying reader may replace it, and then does so for good.
   */
  lemma ReadsAreSynchronous(src: Source, steps: seq<Step>, i: nat)
    requires Run(src, INIT, steps).Some?
    requires var s := Run(src, INIT, steps).value; ValidSeek(s.sought) && i < |s.results|
    ensures
      var s := Run(src, INIT, steps).value;
      || s.results[i] == Expected(src, s.sought, i)
      || (IsFatal(s.broken) && forall j :: i <= j < |s.results| ==> s.results[j] == Failed(s.broken.value))
    ensures
      var s := Run(src, INIT, steps).value;
      NeverFatal(src) ==> s.results[i] == Expected(src, s.sought, i)
  {
    if NeverFatal(src) {
      NeverBroken(src, INIT, steps);
    }
    InitHolds(src);
    RunKeeps(src, INIT, steps);
  }

  /** Sending a seek never waits: the slot of the seek channel is always free at that point. */
  lemma SeekNeverBlocks(src: Source, steps: seq<Step>)
    requires Run(src, INIT, steps).Some? && Run(src, INIT, steps).value.client.PushingSeek?
    ensures Next(src, Run(src, INIT, steps).value, PushSeek).Some?
  {
    InitHolds(src);
    RunKeeps(src, INIT, steps);
  }

  /** No page is both delivered and released, or either twice; when the reader has exited, no page has been lost. */
  lemma PagesAreDisposedOnce(src: Source, steps: seq<Step>, n: nat)
    requires Run(src, INIT, steps).Some?
    ensures
      var s := Run(src, INIT, steps).value;
      && s.pages.delivered[n] + s.pages.released[n] <= (if n < s.pages.produced then 1 else 0)
      && (s.reader.Exited? && n < s.pages.produced ==> s.pages.delivered[n] + s.pages.released[n] == 1)
  {
    InitHolds(src);
    RunKeeps(src, INIT, steps);
  }

  /** A client that waits in a read or in closing never waits forever for nothing: some step is possible. */
  lemma NoDeadlock(src: Source, steps: seq<Step>)
    requires Run(src, INIT, steps).Some?
    requires var s := Run(src, INIT, steps).value; s.client.Receiving? || s.client.Draining?
    ensures
      var s := Run(src, INIT, steps).value;
      exists step :: step in [Receive, ReaderInit, ReaderFirstSeek, ReaderLoop] && Next(src, s, step).Some?
  {
    InitHolds(src);
    RunKeeps(src, INIT, steps);
    var s := Run(src, INIT, steps).value;
    var step := match s.reader
      case AwaitingInit => ReaderInit
      case TakingFirstSeek => ReaderFirstSeek
      case Looping(_, _) => ReaderLoop
      case _ => Receive;
    assert step in [Receive, ReaderInit, ReaderFirstSeek, ReaderLoop];
    assert Next(src, s, step).Some?;
  }

  /** The first close returns the error of closing the underlying reader, after the reader has exited. */
  lemma CloseReportsError(src: Source, steps: seq<Step>)
    requires Run(src, INIT, steps).Some? && Run(src, INIT, steps).value.closes != []
    ensures var s := Run(src, INIT, steps).value; s.closes[0] == src.closeErr && s.reader.Exited?
  {
    InitHolds(src);
    RunKeeps(src, INIT, steps);
  }

  /** Reads after closing report the end of the pages, and only then is the channel found closed. */
  lemma ReadsAfterCloseEnd(src: Source, steps: seq<Step>, o: Outcome)
    requires Run(src, INIT, steps).Some? && o in Run(src, INIT, steps).value.late
    ensures Run(src, INIT, steps).value.closed && o == Failed(EndOfFile)
  {
    InitHolds(src);
    RunKeeps(src, INIT, steps);
  }
}
