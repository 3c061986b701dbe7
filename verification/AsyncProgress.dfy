/** Runs in which a read or a close of the asynchronous reader returns. */
module AsyncProgress {
  import opened AsyncAgreement
  import opened AsyncPages
  import opened Options

  /** Some run of steps leads from one state to another. */
  ghost predicate CanReach(src: Source, s: State, t: State) {
    exists steps :: Run(src, s, steps) == Some(t)
  }

  lemma Stay(src: Source, s: State)
    ensures CanReach(src, s, s)
  {
    assert Run(src, s, []) == Some(s);
  }

  lemma Go(src: Source, s: State, t: State, step: Step) returns (t': State)
    requires CanReach(src, s, t) && Next(src, t, step).Some?
    ensures CanReach(src, s, t') && Next(src, t, step) == Some(t')
  {
    hide Next;
    var steps :| Run(src, s, steps) == Some(t);
    t' := Next(src, t, step).value;
    RunConcat(src, s, steps, [step]);
    RunOne(src, t, step);
    assert Run(src, s, steps + [step]) == Some(t');
  }

  /** The reader's loop comes to an offer: it positions the underlying reader at most once before it has one. */
  lemma LoopToOffer(src: Source, s: State, t: State) returns (t': State)
    requires CanReach(src, s, t) && t.reader.Looping?
    ensures CanReach(src, s, t') && t'.reader.Offering? && t'.reader.seekTo.version == t.reader.seekTo.version
    ensures t'.version == t.version && t'.seek == t.seek && t'.client == t.client && t'.results == t.results
    ensures t'.doneClosed == t.doneClosed && t'.closes == t.closes
  {
    hide CanReach;
    t' := Go(src, s, t, ReaderLoop);
    LoopChanges(src, t);
    if t'.reader.Looping? {
      var u := t';
      Positioned(src, t);
      t' := Go(src, s, u, ReaderLoop);
      LoopChanges(src, u);
      SecondPass(src, u);
    }
  }

  lemma Positioned(src: Source, t: State)
    requires t.reader.Looping? && Loop(src, t).reader.Looping?
    ensures Loop(src, t).reader.seekTo.rowIndex < 0
  {
  }

  lemma SecondPass(src: Source, t: State)
    requires t.reader.Looping? && t.reader.seekTo.rowIndex < 0
    ensures Loop(src, t).reader.Offering?
  {
  }

  /** When the client has closed the done channel, the reader can come to its end. */
  lemma ReaderCanFinish(src: Source, s: State) returns (t: State)
    requires s.doneClosed && !s.reader.Exited?
    ensures CanReach(src, s, t) && t.reader.Finishing? && t.client == s.client && t.closes == s.closes
  {
    Stay(src, s);
    hide CanReach;
    t := s;
    if t.reader.TakingFirstSeek? {
      t := Go(src, s, t, ReaderFirstSeek);
    }
    if t.reader.Looping? {
      t := LoopToOffer(src, s, t);
    }
    if !t.reader.Finishing? {
      t := Go(src, s, t, ReaderDone);
    }
  }

  /** From every state in which a client waits in a close, some run of steps lets the close return. */
  lemma CloseCanReturn(src: Source, s: State) returns (t: State)
    requires Reached(src, s) && s.client.Draining?
    ensures CanReach(src, s, t) && t.closed && t.client.Idle? && |t.closes| == |s.closes| + 1
  {
    ReachedTracks(src, s);
    Stay(src, s);
    hide CanReach, Reached;
    t := s;
    if !t.reader.Exited? {
      t := ReaderCanFinish(src, s);
      t := Go(src, s, t, Receive);
    }
    t := Go(src, s, t, Receive);
  }

  /** The reader can come to offer something that belongs to the client's last seek. */
  lemma OfferCanCome(src: Source, s: State) returns (t: State)
    requires Inv(src, s) && s.client.Receiving? && !s.closed
    ensures CanReach(src, s, t) && t.client == s.client && t.results == s.results
    ensures t.reader.Offering? && t.reader.seekTo.version == t.version
  {
    Stay(src, s);
    hide CanReach;
    t := s;
    assert Active(t);
    if t.reader.AwaitingInit? {
      t := Go(src, s, t, ReaderInit);
    }
    if t.reader.TakingFirstSeek? {
      t := Go(src, s, t, ReaderFirstSeek);
    }
    if t.reader.Looping? {
      t := LoopToOffer(src, s, t);
    }
    if t.reader.seekTo.version != t.version {
      t := Go(src, s, t, ReaderTakeSeek);
      t := LoopToOffer(src, s, t);
    }
  }

  /** From every state in which a client waits in a read, some run of steps lets the read return. */
  lemma ReadCanReturn(src: Source, s: State) returns (t: State)
    requires Reached(src, s) && s.client.Receiving?
    ensures CanReach(src, s, t) && t.client.Idle?
    ensures if s.closed then |t.late| == |s.late| + 1 else |t.results| == |s.results| + 1
  {
    ReachedTracks(src, s);
    Stay(src, s);
    hide CanReach, Reached;
    t := s;
    if !s.closed {
      t := OfferCanCome(src, s);
    }
    t := Go(src, s, t, Receive);
  }
}
