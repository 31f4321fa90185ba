/**
 A split stream: reader and writer driver on the same shared cells, joined by the queue of control
 requests, in any interleaving of their steps.
 */
module SplitStreams {
  import opened Octets
  import opened Masking
  import opened Messages
  import opened Heartbeats
  import opened Outbound
  import opened Inboxes
  import P = ProtocolHandling
  import R = SplitReading
  import W = SplitWriting
  import U = UnifiedStreams
  import S = UnifiedSafety

  /**
   `taken` requests of the reader's queue have reached the driver; `pongs` are its answers to Pings,
   and `answer` is its answer to a Close.
   */
  datatype Split = Split(reader: R.Reader, driver: W.Driver, taken: nat, pongs: seq<Message>, answer: Option<Message>)

  /** What the two halves start with: the batch parsed before the split, and whether a parse error is behind it. */
  function NewSplit(config: W.Settings, heartbeat: Heartbeat, closed: bool, batch: seq<Message>, failed: bool): Split {
    Split(R.NewReader(W.NewShared(closed, failed), batch, failed), W.NewDriver(config, heartbeat, closed, failed), 0, [], None)
  }

  /** Splitting a unified stream: the reader keeps what was parsed, the writer's encoder copies the reason to answer with. */
  function SplitOf(s: U.Stream, heartbeat: Heartbeat): Split {
    NewSplit(W.Settings(s.config.closeTimeout, s.config.pongNotice, s.config.idleNotice, s.inbox.closing.pending), heartbeat,
             s.state != U.Open && s.state != U.ReadErrorPending, s.inbox.batch, s.inbox.error.Some?)
  }

  /**
   What the halves take over: the reader owes the batch and the error behind it, sending is open
   exactly if the stream was and no error is known, and the driver starts with the stream's settings.
   */
  lemma SplitTakesOver(s: U.Stream, heartbeat: Heartbeat)
    ensures var t := SplitOf(s, heartbeat);
            && t.reader.cells == t.driver.cells && Reverse(t.reader.stack) == s.inbox.batch && (t.reader.parseError <==> s.inbox.error.Some?)
            && (t.driver.cells.status == W.Closed <==> s.state == U.CloseSent || s.state == U.Closed)
            && (t.driver.cells.status == W.Open <==> (s.state == U.Open || s.state == U.ReadErrorPending) && s.inbox.error.None?)
            && t.driver.config.closeTimeout == s.config.closeTimeout && t.driver.config.closeAtSplit == s.inbox.closing.pending
            && t.driver.config.pongNotice == s.config.pongNotice && t.driver.config.idleNotice == s.config.idleNotice
            && t.driver.heartbeat == heartbeat && t.driver.wire == [] && t.driver.encoded == [] && t.driver.phase == W.Head
            && t.driver.closing.None? && !t.driver.localCloseSent && t.driver.deferred.None? && t.reader.call == R.NoCall && !t.reader.reported
  {
    ReverseTwice(s.inbox.batch);
  }

  datatype Event = ReaderStep(r: R.Event) | DriverStep(d: W.Event)

  /** The shared cells move with the steps themselves; the queue has room until the driver is gone, and keeps its order. */
  predicate Enabled(s: Split, e: Event) {
    match e
    case ReaderStep(r) =>
      && !r.DriverCloses? && !r.DriverTerminates?
      && (r.Capacity? ==> r.room == !s.driver.phase.Stopped?)
      && (r.DriverReports? ==> s.driver.phase.Stopped?)
    case DriverStep(d) =>
      && !d.ReaderCloses? && !d.ReaderTerminates? && !d.ReaderNotes?
      && var request := W.TakenFromQueue(s.driver, d);
         request.Some? ==> s.taken < |s.reader.queued| && s.reader.queued[s.taken] == request.value
  }

  /** The step handles a Close of the peer that is to be answered. */
  predicate Answers(d: W.Driver, e: W.Event) {
    W.Handled(d, e) == Some(W.PeerClose) && !d.localCloseSent
  }

  /** The step handles a Ping of the peer. */
  predicate Pongs(d: W.Driver, e: W.Event) {
    W.Handled(d, e).Some? && W.Handled(d, e).value.PeerPing?
  }

  /** What was encoded behind `d`. */
  function Added(d: W.Driver, t: W.Driver): seq<Message> {
    if |t.encoded| > |d.encoded| then [t.encoded[|d.encoded|].message] else []
  }

  /** One step; an event that is not enabled changes nothing. */
  function Step(s: Split, e: Event): Split {
    if !Enabled(s, e) then s
    else
      match e
      case ReaderStep(r) =>
        var t := R.Step(s.reader, r);
        s.(reader := t, driver := s.driver.(cells := t.cells))
      case DriverStep(d) =>
        var t := W.Step(s.driver, d);
        s.(driver := t, reader := s.reader.(cells := t.cells),
           taken := if W.TakenFromQueue(s.driver, d).Some? then s.taken + 1 else s.taken,
           pongs := s.pongs + (if Pongs(s.driver, d) then Added(s.driver, t) else []),
           answer := if Answers(s.driver, d) && Added(s.driver, t) != [] then Some(Added(s.driver, t)[0]) else s.answer)
  }

  function Run(s: Split, es: seq<Event>): Split {
    if es == [] then s else Step(Run(s, es[..|es| - 1]), es[|es| - 1])
  }

  // ---------------------------------------------------------------------
  // The first Close
  // ---------------------------------------------------------------------

  function FirstClose(ms: seq<Message>): (r: Option<Message>)
    ensures r.Some? ==> r.value.CloseMessage?
  {
    if ms == [] then None else if ms[0].CloseMessage? then Some(ms[0]) else FirstClose(ms[1..])
  }

  lemma {:induction false} FirstCloseStays(a: seq<Message>, b: seq<Message>)
    requires a <= b && FirstClose(a).Some?
    ensures FirstClose(b) == FirstClose(a)
    decreases |a|
  {
    if !a[0].CloseMessage? {
      FirstCloseStays(a[1..], b[1..]);
    }
  }

  lemma {:induction false} FirstCloseAt(ms: seq<Message>, i: nat)
    requires i < |ms| && ms[i].CloseMessage?
    ensures FirstClose(ms).Some?
    decreases i
  {
    if !ms[0].CloseMessage? {
      FirstCloseAt(ms[1..], i - 1);
    }
  }

  lemma {:induction false} FirstClosePlace(ms: seq<Message>) returns (i: nat)
    requires FirstClose(ms).Some?
    ensures i < |ms| && FirstClose(ms) == Some(ms[i]) && forall j :: 0 <= j < i ==> !ms[j].CloseMessage?
    decreases |ms|
  {
    if ms[0].CloseMessage? {
      i := 0;
    } else {
      i := FirstClosePlace(ms[1..]);
      i := i + 1;
      assert forall j :: 0 < j < i ==> ms[j] == ms[1..][j - 1];
    }
  }

  lemma HoldingIsFirst(ms: seq<Message>)
    ensures R.HoldsClose(ms) <==> FirstClose(ms).Some?
  {
    if R.HoldsClose(ms) {
      var i :| 0 <= i < |ms| && ms[i].CloseMessage?;
      FirstCloseAt(ms, i);
    }
    if FirstClose(ms).Some? {
      var i := FirstClosePlace(ms);
    }
  }

  /** A queued request for a Close means that one was returned. */
  lemma {:induction false} RequestIsHanded(q: seq<W.Control>, i: nat)
    requires i < |q| && q[i].PeerClose?
    ensures R.HandedClose in R.HandedRequests(q)
    decreases |q|
  {
    if i < |q| - 1 {
      RequestIsHanded(q[..|q| - 1], i);
    }
  }

  lemma {:induction false} HandedIsReturned(ms: seq<Message>)
    requires R.HandedClose in R.HandedMessages(ms)
    ensures FirstClose(ms).Some?
    decreases |ms|
  {
    var front, last := ms[..|ms| - 1], ms[|ms| - 1];
    if last.CloseMessage? {
      FirstCloseAt(ms, |ms| - 1);
    } else {
      HandedIsReturned(front);
      FirstCloseStays(front, ms);
    }
  }

  // ---------------------------------------------------------------------
  // What steps of the halves do
  // ---------------------------------------------------------------------

  /** New messages of a reader's step. */
  function NewMessages(r: R.Reader, e: R.Event): seq<Message> {
    if e.ReadMessages? && r.call.ReadingMore? then e.messages else []
  }

  /** What was returned, queued and parsed stays, and the cells only move on. */
  predicate Grows(r: R.Reader, t: R.Reader) {
    && r.delivered <= t.delivered && r.queued <= t.queued && r.parsed <= t.parsed
    && W.Rank(r.cells.status) <= W.Rank(t.cells.status)
  }

  /** While no message is lost: what is owed is what was owed and is new, or is cut behind a Close. */
  predicate LosesNothing(r: R.Reader, t: R.Reader, new': seq<Message>) {
    && t.parsed == r.parsed + new'
    && (t.kept == r.kept + new' || (t.kept <= r.kept + new' && R.HoldsClose(t.kept)))
    && (t.discarding && !r.discarding ==> R.HoldsClose(t.kept))
  }

  lemma TurnMoves(r: R.Reader, now: nat)
    requires R.Inv(r.(call := R.NoCall))
    ensures Grows(r, R.Turn(r, now)) && LosesNothing(r, R.Turn(r, now), [])
  {
    hide Reverse, R.HandedRequests, R.HandedMessages, IsSubsequence;
    var t := R.Turn(r, now);
    assert r.parsed + [] == r.parsed && r.kept + [] == r.kept;
    if t.kept != r.kept || t.discarding != r.discarding {
      ReverseLast(r.stack);
      assert t.kept[|r.delivered|].CloseMessage?;
    }
  }

  lemma ReaderGrows(r: R.Reader, e: R.Event)
    requires R.Inv(r)
    ensures Grows(r, R.Step(r, e))
    ensures !(e.Capacity? && !e.room) ==> LosesNothing(r, R.Step(r, e), NewMessages(r, e))
  {
    hide Reverse, R.HandedRequests, R.HandedMessages, IsSubsequence, R.Turn, R.HoldsClose;
    assert r.parsed + [] == r.parsed && r.kept + [] == r.kept;
    match e
    case Call(now) => if r.call.NoCall? { TurnMoves(r, now); }
    case Capacity(room, now) => CapacityGrows(r, room, now);
    case ReadMessages(ms, failed, fragment, now) =>
      if r.call.ReadingMore? {
        ParsingGrows(r, ms, failed, fragment, now);
      }
    case DriverReports(cause, now) =>
      if r.call.ReadingMore? {
        var u := r.(cells := W.Terminate(r.cells, cause));
        CellsKeepReader(r, u.cells);
        TurnMoves(u, now);
      }
    case _ =>
  }

  lemma CapacityGrows(r: R.Reader, room: bool, now: nat)
    requires R.Inv(r)
    ensures Grows(r, R.Step(r, R.Capacity(room, now)))
    ensures room ==> LosesNothing(r, R.Step(r, R.Capacity(room, now)), [])
  {
    hide Reverse, R.HandedRequests, R.HandedMessages, IsSubsequence, R.Turn, R.HoldsClose;
    assert r.parsed + [] == r.parsed && r.kept + [] == r.kept;
    R.Notice(r.queued, W.Eof);
    if r.call.Offering? && !room {
      var rest := r.stack[..|r.stack| - 1];
      var u := r.(stack := rest, request := None, kept := r.delivered + Reverse(rest), discarding := true,
                  cells := W.Terminate(r.cells, W.ConnectionClosed));
      R.LossKeepsOrder(r, u.(call := R.NoCall));
      TurnMoves(u, now);
    } else if r.call.OfferingEof? {
      var u := r.(queued := if room then r.queued + [W.Eof] else r.queued, cells := W.Terminate(r.cells, W.ConnectionClosed));
      CellsKeepReader(r, u.cells);
      TurnMoves(u, now);
    }
  }

  lemma ParsingGrows(r: R.Reader, ms: seq<Message>, failed: bool, fragment: bool, now: nat)
    requires R.Inv(r) && r.call.ReadingMore?
    ensures var t := R.Parsed(r, ms, failed, fragment, now); Grows(r, t) && LosesNothing(r, t, ms)
  {
    hide Reverse, R.HandedRequests, R.HandedMessages, IsSubsequence, R.Turn, R.HoldsClose;
    var cells := if failed then W.BeginClosing(r.cells) else if fragment then R.NoteInbound(r.cells, now) else r.cells;
    var u := r.(stack := Reverse(ms), parseError := failed, cells := cells, kept := r.kept + ms, parsed := r.parsed + ms);
    R.ParsingKeepsOrder(r, ms, u.(call := R.NoCall));
    TurnMoves(u, now);
    assert u.kept + [] == u.kept && u.parsed + [] == u.parsed;
  }

  /** Cells that only move on keep the invariant of either half. */
  lemma CellsKeepReader(r: R.Reader, cells: W.Shared)
    requires R.Inv(r) && W.Rank(r.cells.status) <= W.Rank(cells.status) && (cells.status == W.Closed <==> cells.terminal.Some?)
    ensures R.Inv(r.(cells := cells))
  {
    hide Reverse, R.HandedRequests, R.HandedMessages, IsSubsequence, R.HoldsClose;
  }

  lemma CellsKeepDriver(d: W.Driver, cells: W.Shared)
    requires W.Inv(d) && W.Rank(d.cells.status) <= W.Rank(cells.status) && (cells.status == W.Closed <==> cells.terminal.Some?)
    ensures W.Inv(d.(cells := cells))
  {
    hide Accounts, OnlyPongsAfterClose, HasClose;
  }

  /** A request is deferred only when it is taken. */
  lemma DeferredWasTaken(d: W.Driver, e: W.Event)
    ensures var t := W.Step(d, e);
            t.deferred.Some? ==> t.deferred == d.deferred || t.deferred == W.TakenFromQueue(d, e)
  {
    if e.Woken? && d.phase.Waiting? {
      hide W.OnControl, W.OnSend, W.OnTimer;
      if W.Handled(d, e).Some? {
        ControlPongs(d.(deferred := None), W.Handled(d, e).value, e.now, e.key);
      } else {
        WakeKeepsDeferred(d, e);
      }
    } else if e.ControlDuringWrite? && d.phase.Writing? {
      hide OnInbound, Stop;
    } else {
      OtherSteps(d, e);
    }
  }

  lemma SyncKeepsDeferred(d: W.Driver)
    ensures W.Sync(d).deferred == d.deferred && W.Sync(d).phase == d.phase
  {
    hide OnInbound;
  }

  // ---------------------------------------------------------------------
  // The answer to a Close
  // ---------------------------------------------------------------------

  /** The Close that was returned first is the first that was parsed, and until then nothing parsed is missing. */
  predicate InStep(r: R.Reader) {
    && (FirstClose(r.delivered).Some? ==> FirstClose(r.parsed) == FirstClose(r.delivered))
    && (FirstClose(r.delivered).None? ==> r.kept <= r.parsed)
    && (r.discarding ==> R.HoldsClose(r.kept))
  }

  predicate HasRequest(q: seq<W.Control>, n: nat) {
    exists i :: 0 <= i < n && i < |q| && q[i].PeerClose?
  }

  ghost predicate Inv(s: Split, batch: seq<Message>) {
    && R.Inv(s.reader) && W.Inv(s.driver) && s.reader.cells == s.driver.cells
    && s.taken <= |s.reader.queued| && batch <= s.reader.parsed
    && (!s.driver.phase.Stopped? ==> InStep(s.reader))
    && (s.driver.deferred == Some(W.PeerClose) ==> HasRequest(s.reader.queued, s.taken))
    && (s.answer.Some? ==>
          && s.answer.value == CloseMessage(s.driver.config.closeAtSplit) && W.Ending(s.driver)
          && s.driver.encoded != [] && s.driver.encoded[|s.driver.encoded| - 1].message == s.answer.value
          && FirstClose(s.reader.delivered).Some? && FirstClose(s.reader.parsed) == FirstClose(s.reader.delivered))
  }

  lemma ReaderStaysInStep(r: R.Reader, t: R.Reader, new': seq<Message>)
    requires R.Inv(r) && R.Inv(t) && InStep(r) && Grows(r, t) && LosesNothing(r, t, new')
    requires new' != [] ==> r.stack == []
    ensures InStep(t)
  {
    hide Reverse, R.HandedRequests, R.HandedMessages, IsSubsequence, FirstClose, R.HoldsClose;
    ReverseNothing<Message>();
    HoldingIsFirst(r.kept);
    HoldingIsFirst(t.kept);
    if FirstClose(r.delivered).Some? {
      FirstCloseStays(r.delivered, t.delivered);
      FirstCloseStays(r.parsed, t.parsed);
    } else {
      assert new' == [] || r.kept == r.delivered;
      assert r.kept + new' <= r.parsed + new';
      assert t.delivered <= t.kept <= t.parsed;
      if FirstClose(t.delivered).Some? {
        FirstCloseStays(t.delivered, t.parsed);
      }
    }
    if r.discarding {
      FirstCloseStays(r.kept, r.kept + new');
    }
  }

  lemma ReaderStepKeepsInv(s: Split, e: R.Event, batch: seq<Message>)
    requires Inv(s, batch)
    ensures Inv(Step(s, ReaderStep(e)), batch)
  {
    hide R.Inv, W.Inv, InStep, R.Step, FirstClose, R.HoldsClose;
    if Enabled(s, ReaderStep(e)) {
      var r, t := s.reader, R.Step(s.reader, e);
      R.StepKeepsInv(r, e);
      ReaderGrows(r, e);
      StatusIsTerminal(t);
      CellsKeepDriver(s.driver, t.cells);
      if !s.driver.phase.Stopped? {
        ReadingMeansEmpty(r, e);
        ReaderStaysInStep(r, t, NewMessages(r, e));
      }
      if s.answer.Some? {
        FirstCloseStays(r.delivered, t.delivered);
        FirstCloseStays(r.parsed, t.parsed);
      }
    }
  }

  lemma StatusIsTerminal(r: R.Reader)
    requires R.Inv(r)
    ensures r.cells.status == W.Closed <==> r.cells.terminal.Some?
  {
  }

  lemma ReadingMeansEmpty(r: R.Reader, e: R.Event)
    requires R.Inv(r)
    ensures NewMessages(r, e) != [] ==> r.stack == []
  {
  }

  lemma DriverStepKeepsInv(s: Split, e: W.Event, batch: seq<Message>)
    requires Inv(s, batch)
    ensures Inv(Step(s, DriverStep(e)), batch)
  {
    hide R.Inv, InStep, W.Step, FirstClose, R.HoldsClose, Accounts, OnlyPongsAfterClose, HasClose, W.TakenFromQueue;
    if Enabled(s, DriverStep(e)) {
      var d, t := s.driver, W.Step(s.driver, e);
      W.StepKeepsInv(d, e);
      CellsKeepReader(s.reader, t.cells);
      SameReader(s.reader, t.cells);
      RequestsStay(s, e);
      if Answers(d, e) {
        AnsweredWasReturned(s, e, batch);
        W.PeerCloseIsAnswered(d, e);
      }
    }
  }

  /** A deferred Close is one that was taken. */
  lemma RequestsStay(s: Split, e: W.Event)
    requires Enabled(s, DriverStep(e)) && s.taken <= |s.reader.queued|
    requires s.driver.deferred == Some(W.PeerClose) ==> HasRequest(s.reader.queued, s.taken)
    ensures var n := if W.TakenFromQueue(s.driver, e).Some? then s.taken + 1 else s.taken;
            W.Step(s.driver, e).deferred == Some(W.PeerClose) ==> HasRequest(s.reader.queued, n)
    ensures W.Handled(s.driver, e) == Some(W.PeerClose) ==> HasRequest(s.reader.queued, |s.reader.queued|)
  {
    hide W.Step, W.TakenFromQueue, W.Handled;
    DeferredWasTaken(s.driver, e);
    if W.TakenFromQueue(s.driver, e) == Some(W.PeerClose) {
      assert s.reader.queued[s.taken].PeerClose?;
    }
    if W.Handled(s.driver, e).Some? {
      HandledWasTaken(s.driver, e);
    }
  }

  lemma AnsweredWasReturned(s: Split, e: W.Event, batch: seq<Message>)
    requires Inv(s, batch) && Enabled(s, DriverStep(e)) && Answers(s.driver, e)
    ensures FirstClose(s.reader.delivered).Some? && FirstClose(s.reader.parsed) == FirstClose(s.reader.delivered)
    ensures s.driver.phase.Waiting?
  {
    hide R.Inv, W.Inv, InStep, W.Step, FirstClose, W.TakenFromQueue;
    RequestsStay(s, e);
    HandledWasTaken(s.driver, e);
    ReturnedIfRequested(s.reader);
  }

  lemma SameReader(r: R.Reader, cells: W.Shared)
    ensures InStep(r.(cells := cells)) == InStep(r)
  {
  }

  lemma HandledWasTaken(d: W.Driver, e: W.Event)
    requires W.Handled(d, e).Some?
    ensures W.Handled(d, e) == d.deferred || W.Handled(d, e) == W.TakenFromQueue(d, e)
    ensures d.phase.Waiting?
  {
  }

  lemma ReturnedIfRequested(r: R.Reader)
    requires R.Inv(r) && InStep(r) && HasRequest(r.queued, |r.queued|)
    ensures FirstClose(r.delivered).Some? && FirstClose(r.parsed) == FirstClose(r.delivered)
  {
    hide Reverse, IsSubsequence, R.HoldsClose, FirstClose;
    var i :| 0 <= i < |r.queued| && r.queued[i].PeerClose?;
    RequestIsHanded(r.queued, i);
    HandedIsReturned(r.delivered);
  }

  lemma {:induction false} RunKeepsInv(s: Split, es: seq<Event>, batch: seq<Message>)
    requires Inv(s, batch)
    ensures Inv(Run(s, es), batch) && Run(s, es).driver.config == s.driver.config
    decreases |es|
  {
    hide Inv, Step;
    if es != [] {
      var t, e := Run(s, es[..|es| - 1]), es[|es| - 1];
      RunKeepsInv(s, es[..|es| - 1], batch);
      SameConfig(t, e, batch);
      match e
      case ReaderStep(r) => ReaderStepKeepsInv(t, r, batch);
      case DriverStep(d) => DriverStepKeepsInv(t, d, batch);
    }
  }

  lemma SameConfig(s: Split, e: Event, batch: seq<Message>)
    requires Inv(s, batch)
    ensures Step(s, e).driver.config == s.driver.config
  {
    hide R.Inv, R.Step, InStep, W.Step, Accounts, OnlyPongsAfterClose, HasClose;
    if e.DriverStep? {
      W.StepKeepsInv(s.driver, e.d);
    }
  }

  lemma NewSplitIsFine(config: W.Settings, heartbeat: Heartbeat, closed: bool, batch: seq<Message>, failed: bool)
    ensures Inv(NewSplit(config, heartbeat, closed, batch, failed), batch)
  {
    hide Reverse;
    R.NewReaderIsFine(W.NewShared(closed, failed), batch, failed);
    W.NewDriverIsFine(config, heartbeat, closed, failed);
    assert FirstClose([]).None?;
  }

  /** The reason that the protocol has stored for a batch is that of its first Close. */
  lemma ReasonOfBatch(b: Inbox)
    requires Unanswered(b)
    ensures b.closing.pending == if FirstClose(b.batch).Some? then FirstClose(b.batch).value.reason else None
  {
    hide FirstClose;
    var ms, start := b.delivered + b.batch, P.Closing(P.Open, None);
    if FirstClose(b.batch).Some? {
      var i := FirstClosePlace(b.batch);
      var k := |b.delivered| + i;
      assert ms[k] == b.batch[i];
      assert forall j :: 0 <= j < k ==> ms[j] == if j < |b.delivered| then b.delivered[j] else b.batch[j - |b.delivered|];
      P.FirstCloseIsAnswered(start, ms, k);
    } else {
      NoClose(b.batch);
      assert forall j :: 0 <= j < |ms| ==> ms[j] == if j < |b.delivered| then b.delivered[j] else b.batch[j - |b.delivered|];
      P.NoCloseNoChange(start, ms);
    }
  }

  lemma NoClose(ms: seq<Message>)
    requires FirstClose(ms).None?
    ensures forall j :: 0 <= j < |ms| ==> !ms[j].CloseMessage?
  {
    hide FirstClose;
    forall j | 0 <= j < |ms| ensures !ms[j].CloseMessage? {
      if ms[j].CloseMessage? {
        FirstCloseAt(ms, j);
      }
    }
  }

  /**
   Over every run of a stream, split at any time, and every run of its halves: an answer to a Close
   is the last frame encoded, the Close it answers is the first one returned to the caller, and the
   answer echoes it if and only if that Close was parsed before the split or carries no reason.
   */
  lemma AnswerEchoesOnlyEarlyClose(config: U.Config, clock: Heartbeat, settings: Messages.Settings, leftover: seq<Octet>,
                                   us: seq<U.Event>, heartbeat: Heartbeat, es: seq<Event>)
    requires var s := U.Run(U.NewStream(config, clock, settings, leftover), us);
             && (s.state == U.Open || s.state == U.ReadErrorPending)
             && Run(SplitOf(s, heartbeat), es).answer.Some?
    ensures var s := U.Run(U.NewStream(config, clock, settings, leftover), us);
            var t := Run(SplitOf(s, heartbeat), es);
            var early, returned := FirstClose(s.inbox.batch), FirstClose(t.reader.delivered);
            && returned.Some? && (early.Some? ==> returned == early)
            && t.driver.encoded != [] && t.driver.encoded[|t.driver.encoded| - 1].message == t.answer.value
            && (t.answer.value == returned.value <==> early.Some? || returned.value.reason.None?)
  {
    hide Run, U.Run, SplitOf, FirstClose, S.Inv, S.Advances;
    S.NewStreamIsSafe(config, clock, settings, leftover);
    S.RunIsSafe(U.NewStream(config, clock, settings, leftover), us);
    SplitAnswer(U.Run(U.NewStream(config, clock, settings, leftover), us), heartbeat, es);
  }

  lemma SplitAnswer(s: U.Stream, heartbeat: Heartbeat, es: seq<Event>)
    requires S.Inv(s) && (s.state == U.Open || s.state == U.ReadErrorPending)
    requires Run(SplitOf(s, heartbeat), es).answer.Some?
    ensures var t := Run(SplitOf(s, heartbeat), es);
            var early, returned := FirstClose(s.inbox.batch), FirstClose(t.reader.delivered);
            && returned.Some? && (early.Some? ==> returned == early)
            && t.driver.encoded != [] && t.driver.encoded[|t.driver.encoded| - 1].message == t.answer.value
            && (t.answer.value == returned.value <==> early.Some? || returned.value.reason.None?)
  {
    hide Run, FirstClose, R.Inv, W.Inv, InStep, S.Inv;
    var start := SplitOf(s, heartbeat);
    NewSplitIsFine(start.driver.config, heartbeat, false, s.inbox.batch, s.inbox.error.Some?);
    RunKeepsInv(start, es, s.inbox.batch);
    OpenIsUnanswered(s);
    ReasonOfBatch(s.inbox);
    var t := Run(start, es);
    if FirstClose(s.inbox.batch).Some? {
      FirstCloseStays(s.inbox.batch, t.reader.parsed);
    }
  }

  /**
   At an input: a Close with a reason is read after the split and returned with its reason, and the
   driver answers it with an empty one.
   */
  lemma LateCloseGetsEmptyAnswer(config: W.Settings, heartbeat: Heartbeat, reason: CloseReason, key: Option<MaskKey>)
    requires config.closeAtSplit.None? && NextDeadline(heartbeat).None?
    ensures var es := [ReaderStep(R.Call(0)), ReaderStep(R.ReadMessages([CloseMessage(Some(reason))], false, false, 0)),
                       ReaderStep(R.Capacity(true, 0)), DriverStep(W.Loop(0)),
                       DriverStep(W.Woken(W.ControlReady(Some(W.PeerClose)), 0, 0, key, true))];
            var t := Run(NewSplit(config, heartbeat, false, [], false), es);
            && t.reader.delivered == [CloseMessage(Some(reason))]
            && t.driver.encoded == [Encoded(CloseMessage(None), key)] && t.answer == Some(CloseMessage(None))
  {
    hide FrameOctets, Run, Step;
    var close, wake := CloseMessage(Some(reason)), DriverStep(W.Woken(W.ControlReady(Some(W.PeerClose)), 0, 0, key, true));
    var es := [ReaderStep(R.Call(0)), ReaderStep(R.ReadMessages([close], false, false, 0)), ReaderStep(R.Capacity(true, 0)),
               DriverStep(W.Loop(0)), wake];
    var s0 := NewSplit(config, heartbeat, false, [], false);
    var s1 := Step(s0, es[0]);
    var s2 := Step(s1, es[1]);
    var s3 := Step(s2, es[2]);
    var s4 := Step(s3, es[3]);
    FiveSteps(s0, es);
    CloseIsRead(s0, reason);
    CloseIsHandedOver(s2, reason);
    DriverWaits(s3);
    CloseIsHandled(s4, key);
  }

  lemma FiveSteps(s: Split, es: seq<Event>)
    requires |es| == 5
    ensures Run(s, es) == Step(Step(Step(Step(Step(s, es[0]), es[1]), es[2]), es[3]), es[4])
  {
    hide Step;
    assert es[..4][..3] == es[..3] && es[..3][..2] == es[..2] && es[..2][..1] == es[..1] && es[..1][..0] == [];
    assert Run(s, es[..1]) == Step(s, es[0]);
    assert Run(s, es[..2]) == Step(Run(s, es[..1]), es[1]);
    assert Run(s, es[..3]) == Step(Run(s, es[..2]), es[2]);
    assert Run(s, es[..4]) == Step(Run(s, es[..3]), es[3]);
  }

  /** A reader without messages reads a Close and offers it to the driver. */
  lemma CloseIsRead(s: Split, reason: CloseReason)
    requires s.reader == R.NewReader(W.NewShared(false, false), [], false) && s.driver.phase.Head?
    ensures var t := Step(Step(s, ReaderStep(R.Call(0))), ReaderStep(R.ReadMessages([CloseMessage(Some(reason))], false, false, 0)));
            && t.reader.stack == [CloseMessage(Some(reason))] && t.reader.request == Some(W.PeerClose) && t.reader.call.Offering?
            && t.reader.delivered == [] && t.reader.queued == [] && t.reader.cells == s.reader.cells.(status := W.Closing)
            && t.driver == s.driver.(cells := t.reader.cells) && t.taken == s.taken && t.answer == s.answer
  {
    ReverseNothing<Message>();
    ReverseOne(CloseMessage(Some(reason)));
  }

  lemma CloseIsHandedOver(s: Split, reason: CloseReason)
    requires s.reader.stack == [CloseMessage(Some(reason))] && s.reader.request == Some(W.PeerClose) && s.reader.call.Offering?
    requires s.reader.delivered == [] && s.reader.queued == [] && s.driver.phase.Head?
    ensures var t := Step(s, ReaderStep(R.Capacity(true, 0)));
            && t.reader.delivered == [CloseMessage(Some(reason))] && t.reader.queued == [W.PeerClose]
            && t.reader.cells == s.reader.cells && t.driver == s.driver.(cells := s.reader.cells)
            && t.taken == s.taken && t.answer == s.answer
  {
  }

  lemma DriverWaits(s: Split)
    requires s.driver.phase.Head? && s.driver.cells.status == W.Closing && NextDeadline(s.driver.heartbeat).None? && s.driver.closing.None?
    requires s.driver.cells.lastInbound == s.driver.synced
    ensures var t := Step(s, DriverStep(W.Loop(0)));
            && t.driver == s.driver.(phase := W.Waiting(false))
            && t.reader == s.reader.(cells := s.driver.cells) && t.taken == s.taken && t.answer == s.answer
  {
    hide NextDeadline;
  }

  lemma CloseIsHandled(s: Split, key: Option<MaskKey>)
    requires s.driver.phase == W.Waiting(false) && s.driver.deferred.None? && !s.driver.localCloseSent && s.driver.encoded == []
    requires s.reader.queued == [W.PeerClose] && s.taken == 0
    ensures var t := Step(s, DriverStep(W.Woken(W.ControlReady(Some(W.PeerClose)), 0, 0, key, true)));
            && t.driver.encoded == [Encoded(CloseMessage(s.driver.config.closeAtSplit), key)]
            && t.answer == Some(CloseMessage(s.driver.config.closeAtSplit)) && t.reader.delivered == s.reader.delivered
  {
    hide FrameOctets, Stop;
  }

  lemma OpenIsUnanswered(s: U.Stream)
    requires S.Inv(s) && (s.state == U.Open || s.state == U.ReadErrorPending)
    ensures Unanswered(s.inbox)
  {
    hide Unanswered, InOrder, PrefixOnly, Receive, Accounts, OnlyPongsAfterClose, HasClose;
  }

  // ---------------------------------------------------------------------
  // The answers to Pings
  // ---------------------------------------------------------------------

  /** The Pongs that answer the Pings among messages, in order. */
  function PongsFor(ms: seq<Message>): seq<Message> {
    if ms == [] then []
    else PongsFor(ms[..|ms| - 1]) + (if ms[|ms| - 1].PingMessage? then [PongMessage(ms[|ms| - 1].data)] else [])
  }

  function PongFor(c: Option<W.Control>): seq<Message> {
    if c.Some? && c.value.PeerPing? then [PongMessage(c.value.payload)] else []
  }

  function PongsAsked(q: seq<W.Control>): seq<Message> {
    if q == [] then [] else PongsAsked(q[..|q| - 1]) + PongFor(Some(q[|q| - 1]))
  }

  function PongsHanded(hs: seq<R.Handed>): seq<Message> {
    if hs == [] then []
    else PongsHanded(hs[..|hs| - 1]) + (if hs[|hs| - 1].HandedPing? then [PongMessage(hs[|hs| - 1].payload)] else [])
  }

  lemma HandedSnoc(hs: seq<R.Handed>, h: R.Handed)
    ensures PongsHanded(hs + [h]) == PongsHanded(hs) + (if h.HandedPing? then [PongMessage(h.payload)] else [])
  {
    assert (hs + [h])[..|hs|] == hs;
  }

  lemma {:induction false} MessagesAreHanded(ms: seq<Message>)
    ensures PongsFor(ms) == PongsHanded(R.HandedMessages(ms))
    decreases |ms|
  {
    hide PongsHanded;
    if ms == [] {
      assert PongsHanded([]) == [] by { NoneHanded(); }
    } else {
      var front, last := ms[..|ms| - 1], ms[|ms| - 1];
      MessagesAreHanded(front);
      var hs := R.HandedMessages(front);
      if R.IsControlMessage(last) {
        HandedSnoc(hs, if last.PingMessage? then R.HandedPing(last.data)
                       else if last.PongMessage? then R.HandedPong(last.data) else R.HandedClose);
      }
    }
  }

  lemma {:induction false} RequestsAreHanded(q: seq<W.Control>)
    ensures PongsAsked(q) == PongsHanded(R.HandedRequests(q))
    decreases |q|
  {
    hide PongsHanded;
    if q == [] {
      NoneHanded();
    } else {
      var front, last := q[..|q| - 1], q[|q| - 1];
      RequestsAreHanded(front);
      var hs := R.HandedRequests(front);
      if last.PeerPing? {
        HandedSnoc(hs, R.HandedPing(last.payload));
      } else if last.Answer? {
        HandedSnoc(hs, R.HandedPong(last.payload));
      } else if last.PeerClose? {
        HandedSnoc(hs, R.HandedClose);
      }
    }
  }

  lemma NoneHanded()
    ensures PongsHanded([]) == []
  {
  }

  /** The answers given, and the one that is deferred, are to Pings taken from the queue, in order. */
  ghost predicate PongsInv(s: Split) {
    && s.taken <= |s.reader.queued|
    && IsSubsequence(s.pongs + PongFor(s.driver.deferred), PongsAsked(s.reader.queued[..s.taken]))
  }

  /** A step answers or keeps the deferred Ping and the one it takes, or drops the deferred one for what it takes. */
  lemma DriverPongs(d: W.Driver, e: W.Event)
    ensures var t, c := W.Step(d, e), W.TakenFromQueue(d, e);
            var given := if Pongs(d, e) then Added(d, t) else [];
            || given + PongFor(t.deferred) == PongFor(d.deferred) + PongFor(c)
            || given + PongFor(t.deferred) == PongFor(c)
  {
    hide W.Step, W.TakenFromQueue, PongFor, W.OnControlDuringWrite;
    if e.Woken? && d.phase.Waiting? {
      WakePongs(d, e);
    } else {
      NoPong();
      OtherSteps(d, e);
      WritePongs(d, e);
      assert [] + PongFor(W.Step(d, e).deferred) == PongFor(W.Step(d, e).deferred);
      assert PongFor(d.deferred) + [] == PongFor(d.deferred);
    }
  }

  lemma OtherSteps(d: W.Driver, e: W.Event)
    requires !(e.Woken? && d.phase.Waiting?)
    ensures !Pongs(d, e)
    ensures !(e.ControlDuringWrite? && d.phase.Writing?) ==> W.Step(d, e).deferred == d.deferred && W.TakenFromQueue(d, e).None?
  {
    hide NextDeadline, NextHardDeadline, OnInbound, PingFlushed, W.Sync, W.OnControlDuringWrite;
    SyncKeepsDeferred(d);
  }

  /** During a write a Ping replaces the deferred one, and so does a final request. */
  lemma WritePongs(d: W.Driver, e: W.Event)
    ensures e.ControlDuringWrite? && d.phase.Writing? ==>
              var t, c := W.Step(d, e), W.TakenFromQueue(d, e);
              PongFor(t.deferred) == PongFor(c) || (t.deferred == d.deferred && PongFor(c) == [])
  {
    hide OnInbound, Stop;
  }

  lemma WakePongs(d: W.Driver, e: W.Event)
    requires e.Woken? && d.phase.Waiting?
    ensures var t, c := W.Step(d, e), W.TakenFromQueue(d, e);
            var given := if Pongs(d, e) then Added(d, t) else [];
            given + PongFor(t.deferred) == PongFor(d.deferred) + PongFor(c)
  {
    hide W.OnControl, W.OnSend, W.OnTimer;
    if W.Handled(d, e).Some? {
      ControlPongs(d.(deferred := None), W.Handled(d, e).value, e.now, e.key);
    } else {
      WakeKeepsDeferred(d, e);
    }
  }

  lemma ControlPongs(d: W.Driver, c: W.Control, now: nat, key: Option<MaskKey>)
    requires d.deferred.None?
    ensures var t := W.OnControl(d, c, now, key);
            t.deferred.None? && (c.PeerPing? ==> Added(d, t) == [PongMessage(c.payload)])
  {
    hide FrameOctets, OnInbound, Stop;
  }

  lemma WakeKeepsDeferred(d: W.Driver, e: W.Event)
    requires e.Woken? && d.phase.Waiting? && W.Handled(d, e).None?
    ensures W.Step(d, e).deferred == d.deferred
  {
    hide FrameOctets, NextDeadline, IssuePing, PingPayload, Stop, W.Sync, W.OnControl;
    SyncKeepsDeferred(d);
  }

  lemma StepKeepsPongs(s: Split, e: Event)
    requires PongsInv(s) && R.Inv(s.reader)
    ensures PongsInv(Step(s, e))
  {
    hide IsSubsequence, R.Inv, R.Step, W.Step, W.TakenFromQueue, PongFor, R.HandedRequests;
    if Enabled(s, e) {
      var q := s.reader.queued;
      match e
      case ReaderStep(r) =>
        ReaderGrows(s.reader, r);
        assert R.Step(s.reader, r).queued[..s.taken] == q[..s.taken];
      case DriverStep(d) =>
        var t, c := W.Step(s.driver, d), W.TakenFromQueue(s.driver, d);
        var given := if Pongs(s.driver, d) then Added(s.driver, t) else [];
        var asked := PongsAsked(q[..s.taken]);
        DriverPongs(s.driver, d);
        if c.Some? {
          assert q[..s.taken + 1][..s.taken] == q[..s.taken];
        } else {
          NoPong();
          assert asked + [] == asked;
        }
        assert PongsAsked(q[..Step(s, e).taken]) == asked + PongFor(c);
        SubsequenceAppend(s.pongs + PongFor(s.driver.deferred), asked, PongFor(c));
        SubsequencePrefix(s.pongs + PongFor(s.driver.deferred), |s.pongs|, asked);
        assert (s.pongs + PongFor(s.driver.deferred))[..|s.pongs|] == s.pongs;
        SubsequenceAppend(s.pongs, asked, PongFor(c));
        assert s.pongs + given + PongFor(t.deferred) == s.pongs + (given + PongFor(t.deferred));
        assert s.pongs + PongFor(s.driver.deferred) + PongFor(c) == s.pongs + (PongFor(s.driver.deferred) + PongFor(c));
    }
  }

  lemma NoPong()
    ensures PongFor(None) == []
  {
  }

  lemma {:induction false} RunKeepsPongs(s: Split, es: seq<Event>, batch: seq<Message>)
    requires Inv(s, batch) && PongsInv(s)
    ensures PongsInv(Run(s, es))
    decreases |es|
  {
    hide Inv, Step, PongsInv;
    if es != [] {
      var front := es[..|es| - 1];
      RunKeepsPongs(s, front, batch);
      RunKeepsInv(s, front, batch);
      ReaderIsFine(Run(s, front), batch);
      StepKeepsPongs(Run(s, front), es[|es| - 1]);
    }
  }

  lemma ReaderIsFine(s: Split, batch: seq<Message>)
    requires Inv(s, batch)
    ensures R.Inv(s.reader)
  {
  }

  /** Over every run: the driver's Pongs answer Pings that were returned to the caller, each at most once and in order. */
  lemma PongsAnswerPings(config: W.Settings, heartbeat: Heartbeat, closed: bool, batch: seq<Message>, failed: bool, es: seq<Event>)
    ensures var t := Run(NewSplit(config, heartbeat, closed, batch, failed), es);
            IsSubsequence(t.pongs, PongsFor(t.reader.delivered))
  {
    hide IsSubsequence, R.HandedRequests, R.HandedMessages, PongsFor, PongFor, PongsHanded, PongsAsked, Run, Inv;
    NothingAsked(config, heartbeat, closed, batch, failed);
    var start := NewSplit(config, heartbeat, closed, batch, failed);
    NewSplitIsFine(config, heartbeat, closed, batch, failed);
    RunKeepsPongs(start, es, batch);
    RunKeepsInv(start, es, batch);
    var t := Run(start, es);
    HandedAlike(t, batch);
    RequestsAreHanded(t.reader.queued);
    MessagesAreHanded(t.reader.delivered);
    GivenWereAsked(t.pongs, PongFor(t.driver.deferred), t.reader.queued, t.taken);
  }

  lemma GivenWereAsked(given: seq<Message>, deferred: seq<Message>, q: seq<W.Control>, n: nat)
    requires n <= |q| && IsSubsequence(given + deferred, PongsAsked(q[..n]))
    ensures IsSubsequence(given, PongsAsked(q))
  {
    hide IsSubsequence, PongsAsked;
    AskedStays(q, n);
    SubsequencePrefix(given + deferred, |given|, PongsAsked(q[..n]));
    assert (given + deferred)[..|given|] == given;
    var asked := PongsAsked(q[..n]);
    SubsequenceOfMore(given, asked, PongsAsked(q)[|asked|..]);
    assert asked + PongsAsked(q)[|asked|..] == PongsAsked(q);
  }

  lemma NothingAsked(config: W.Settings, heartbeat: Heartbeat, closed: bool, batch: seq<Message>, failed: bool)
    ensures PongsInv(NewSplit(config, heartbeat, closed, batch, failed))
  {
    hide IsSubsequence;
    var s := NewSplit(config, heartbeat, closed, batch, failed);
    SubsequenceOfItself<Message>([]);
    assert s.reader.queued[..0] == [] && s.pongs + PongFor(s.driver.deferred) == [];
  }

  lemma HandedAlike(s: Split, batch: seq<Message>)
    requires Inv(s, batch)
    ensures R.HandedRequests(s.reader.queued) == R.HandedMessages(s.reader.delivered)
  {
  }

  lemma {:induction false} AskedStays(q: seq<W.Control>, n: nat)
    requires n <= |q|
    ensures PongsAsked(q[..n]) <= PongsAsked(q)
    decreases |q|
  {
    if n < |q| {
      AskedStays(q[..|q| - 1], n);
      assert q[..|q| - 1][..n] == q[..n];
    } else {
      assert q[..n] == q;
    }
  }
}
