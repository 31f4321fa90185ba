/**
 The writer driver of a split stream, as a step machine: control requests from the reader,
 application requests, cancellation, timers, partial writes and the reader's shared cells are
 inputs, in any interleaving. Times are milliseconds since the split.
 */
module SplitWriting {
  import opened Octets
  import opened Masking
  import opened Messages
  import opened Heartbeats
  import opened Outbound

  datatype Cause = ConnectionClosed | HeartbeatTimeout | IdleTimeout

  datatype Status = Open | Closing | Closed

  function Rank(s: Status): nat {
    match s
    case Open => 0
    case Closing => 1
    case Closed => 2
  }

  /** The cells that reader and driver share. */
  datatype Shared = Shared(status: Status, terminal: Option<Cause>, lastInbound: nat)

  /** At the split; a parse error that is still to be reported already ends sending. */
  function NewShared(closed: bool, failed: bool): Shared {
    if closed then Shared(Closed, Some(ConnectionClosed), 0) else Shared(if failed then Closing else Open, None, 0)
  }

  function BeginClosing(c: Shared): Shared {
    if c.status == Open then c.(status := Closing) else c
  }

  function Terminate(c: Shared, cause: Cause): Shared {
    if c.status == Closed then c else c.(status := Closed, terminal := Some(cause))
  }

  datatype Control = Answer(payload: seq<Octet>, at: nat) | PeerPing(payload: seq<Octet>, at: nat) | PeerClose | ReadError | Eof

  datatype Request = Send(message: Message) | FlushOut

  datatype Wake = Cancelled | ControlReady(control: Option<Control>) | ApplicationReady(request: Option<Request>) | TimerFired

  /** Where the driver is: at the head of its loop, waiting, in a write it will return from, in its last write, or done. */
  datatype Phase = Head | Waiting(expired: bool) | Writing(isPing: bool) | LastWrite(cause: Cause) | Stopped(cause: Cause)

  /** `closeAtSplit` is the reason of a Close that was parsed before the split; the writer's encoder learns of no later one. */
  datatype Settings = Settings(closeTimeout: nat, pongNotice: CloseReason, idleNotice: CloseReason, closeAtSplit: Option<CloseReason>)

  datatype Driver = Driver(config: Settings, cells: Shared, heartbeat: Heartbeat, closing: Option<nat>, localCloseSent: bool,
                           synced: nat, deferred: Option<Control>, phase: Phase,
                           encoded: seq<Encoded>, pending: seq<Octet>, wire: seq<Octet>)

  function NewDriver(config: Settings, heartbeat: Heartbeat, closed: bool, failed: bool): Driver {
    Driver(config, NewShared(closed, failed), heartbeat, None, false, 0, None, Head, [], [], [])
  }

  // ---------------------------------------------------------------------
  // Steps
  // ---------------------------------------------------------------------

  /** The end of the driver: the writer is released before either half sees the termination. */
  function Finish(d: Driver, cause: Cause): Driver {
    d.(cells := Terminate(BeginClosing(d.cells), cause), phase := Stopped(cause))
  }

  /** Pick up activity that the reader published without a request. */
  function Sync(d: Driver): Driver {
    if d.cells.lastInbound > d.synced then
      d.(synced := d.cells.lastInbound, heartbeat := OnInbound(d.heartbeat, d.cells.lastInbound, None))
    else d
  }

  /** The closing budget starts once. */
  function BeginBudget(d: Driver, now: nat): Driver {
    if d.closing.Some? then d else d.(closing := Some(now + d.config.closeTimeout))
  }

  function Write(d: Driver, e: Encoded, phase: Phase): Driver {
    d.(encoded := d.encoded + [e], pending := FrameOctets(e), phase := phase)
  }

  predicate BudgetSpent(d: Driver, now: nat) {
    d.closing.Some? && d.closing.value <= now
  }

  function LoopHead(d: Driver, now: nat): Driver {
    if d.cells.status == Closed then Finish(d, ConnectionClosed)
    else
      var s := Sync(d);
      var next := NextDeadline(s.heartbeat);
      s.(phase := Waiting((next.Some? && next.value.at <= now) || BudgetSpent(s, now)))
  }

  function OnControl(d: Driver, c: Control, now: nat, key: Option<MaskKey>): Driver {
    match c
    case Answer(payload, at) => d.(heartbeat := OnInbound(d.heartbeat, at, Some(payload)), phase := Head)
    case PeerPing(payload, at) =>
      Write(d.(heartbeat := OnInbound(d.heartbeat, at, None)), Encoded(PongMessage(payload), key), Writing(false))
    case PeerClose =>
      var s := BeginBudget(d.(heartbeat := Stop(d.heartbeat)), now);
      if s.localCloseSent then Finish(s, ConnectionClosed)
      else Write(s, Encoded(CloseMessage(d.config.closeAtSplit), key), LastWrite(ConnectionClosed))
    case ReadError => Finish(d.(heartbeat := Stop(d.heartbeat)), ConnectionClosed)
    case Eof => Finish(d.(heartbeat := Stop(d.heartbeat)), ConnectionClosed)
  }

  function OnSend(d: Driver, m: Message, now: nat, key: Option<MaskKey>, encodes: bool): Driver {
    if d.cells.status != Open then d.(phase := Head)
    else
      var s := if m.CloseMessage?
               then BeginBudget(d.(cells := BeginClosing(d.cells), heartbeat := Stop(d.heartbeat), localCloseSent := true), now)
               else d;
      if encodes then Write(s, Encoded(m, key), Writing(false)) else Finish(s, ConnectionClosed)
  }

  function OnTimer(d: Driver, now: nat, nonce: nat, key: Option<MaskKey>, encodes: bool): Driver {
    if BudgetSpent(d, now) then Finish(d, ConnectionClosed)
    else
      var s := Sync(d);
      var next := NextDeadline(s.heartbeat);
      if next.None? || next.value.at > now then s.(phase := Head)
      else
        match next.value
        case PingDue(_) =>
          var t := s.(heartbeat := IssuePing(s.heartbeat, now, nonce));
          if encodes then Write(t, Encoded(PingMessage(PingPayload(nonce)), key), Writing(true)) else Finish(t, ConnectionClosed)
        case PongDue(_) => LastNotice(s, s.config.pongNotice, HeartbeatTimeout, key, encodes)
        case IdleDue(_) => LastNotice(s, s.config.idleNotice, IdleTimeout, key, encodes)
  }

  function LastNotice(d: Driver, notice: CloseReason, cause: Cause, key: Option<MaskKey>, encodes: bool): Driver {
    if encodes then Write(d, Encoded(CloseMessage(Some(notice)), key), LastWrite(cause)) else Finish(d, cause)
  }

  /** What woke the driver. An expired deadline comes first, then cancellation, then a deferred request. */
  function Effective(d: Driver, wake: Wake): Wake
    requires d.phase.Waiting?
  {
    if d.phase.expired then TimerFired
    else if wake.Cancelled? || d.deferred.None? then wake
    else ControlReady(d.deferred)
  }

  function OnWake(d: Driver, wake: Wake, now: nat, nonce: nat, key: Option<MaskKey>, encodes: bool): Driver
    requires d.phase.Waiting?
  {
    match Effective(d, wake)
    case Cancelled => Finish(d, ConnectionClosed)
    case ControlReady(c) =>
      if c.None? then Finish(d, ConnectionClosed) else OnControl(d.(deferred := None), c.value, now, key)
    case ApplicationReady(r) =>
      if r.None? then Finish(d, ConnectionClosed)
      else if r.value.FlushOut? then d.(phase := Writing(false))
      else OnSend(d, r.value.message, now, key, encodes)
    case TimerFired => OnTimer(d, now, nonce, key, encodes)
  }

  /** Requests that end the connection once the current frame is written. */
  predicate IsFinal(c: Option<Control>) {
    c == Some(PeerClose) || c == Some(ReadError)
  }

  /** A request that arrives during a write; none is read while a final one is deferred. */
  function OnControlDuringWrite(d: Driver, c: Option<Control>, now: nat): Driver {
    if IsFinal(d.deferred) then d
    else if c.None? || c.value.Eof? then Finish(d, ConnectionClosed)
    else if c.value.Answer? then d.(heartbeat := OnInbound(d.heartbeat, c.value.at, Some(c.value.payload)))
    else if c.value.PeerPing? then d.(heartbeat := OnInbound(d.heartbeat, c.value.at, None), deferred := c)
    else BeginBudget(d.(heartbeat := Stop(d.heartbeat)), now).(deferred := c)
  }

  function OnTimerDuringWrite(d: Driver, now: nat): Driver {
    if BudgetSpent(d, now) then Finish(d, ConnectionClosed)
    else
      var s := Sync(d);
      var next := NextHardDeadline(s.heartbeat);
      if next.None? || next.value.at > now then s
      else Finish(s, if next.value.PongDue? then HeartbeatTimeout else IdleTimeout)
  }

  datatype Event =
    // The reader changes the shared cells.
    | ReaderCloses
    | ReaderTerminates(cause: Cause)
    | ReaderNotes(at: nat)
    // The driver's loop.
    | Loop(now: nat)
    | Woken(wake: Wake, now: nat, nonce: nat, key: Option<MaskKey>, encodes: bool)
    // During a write.
    | Accept(n: nat)
    | Written(now: nat)
    | WriteFails
    | CancelledDuringWrite
    | SyncDuringWrite
    | ControlDuringWrite(control: Option<Control>, now: nat)
    | TimerDuringWrite(now: nat)

  /** One step; an event that is not enabled changes nothing. A released write may still be completed by the kernel. */
  function Step(d: Driver, e: Event): Driver {
    match e
    case ReaderCloses => d.(cells := BeginClosing(d.cells))
    case ReaderTerminates(cause) => d.(cells := Terminate(d.cells, cause))
    case ReaderNotes(at) => d.(cells := d.cells.(lastInbound := if d.cells.lastInbound < at then at else d.cells.lastInbound))
    case Loop(now) => if d.phase.Head? then LoopHead(d, now) else d
    case Woken(wake, now, nonce, key, encodes) =>
      if d.phase.Waiting? then OnWake(d, wake, now, nonce, key, encodes) else d
    case Accept(n) => if n <= |d.pending| then d.(wire := d.wire + d.pending[..n], pending := d.pending[n..]) else d
    case Written(now) =>
      if d.pending != [] then d
      else if d.phase.LastWrite? then Finish(d, d.phase.cause)
      else if d.phase.Writing? then
        d.(heartbeat := if d.phase.isPing then PingFlushed(d.heartbeat, now) else d.heartbeat, phase := Head)
      else d
    case WriteFails => StopWrite(d)
    case CancelledDuringWrite => if d.phase.Writing? then Finish(d, ConnectionClosed) else d
    case SyncDuringWrite => if d.phase.Writing? then Sync(d) else d
    case ControlDuringWrite(c, now) => if d.phase.Writing? then OnControlDuringWrite(d, c, now) else d
    case TimerDuringWrite(now) =>
      if d.phase.Writing? then OnTimerDuringWrite(d, now) else StopWrite(d)
  }

  /** A failed write ends the driver; the last write may also be cut short by its timer. */
  function StopWrite(d: Driver): Driver {
    if d.phase.Writing? then Finish(d, ConnectionClosed)
    else if d.phase.LastWrite? then Finish(d, d.phase.cause)
    else d
  }

  function Run(d: Driver, es: seq<Event>): Driver {
    if es == [] then d else Step(Run(d, es[..|es| - 1]), es[|es| - 1])
  }

  // ---------------------------------------------------------------------
  // Safety
  // ---------------------------------------------------------------------

  predicate Ending(d: Driver) {
    d.phase.LastWrite? || d.phase.Stopped?
  }

  predicate Inv(d: Driver) {
    && Accounts(d.wire, d.pending, d.encoded)
    && (d.phase.Head? || d.phase.Waiting? ==> d.pending == [])
    && OnlyPongsAfterClose(d.encoded)
    && (HasClose(d.encoded) ==> d.localCloseSent || Ending(d))
    && (d.localCloseSent ==> d.heartbeat.stopped && d.cells.status != Open && d.closing.Some?)
    && (IsFinal(d.deferred) ==> d.heartbeat.stopped && d.closing.Some?)
    && (d.cells.status == Closed <==> d.cells.terminal.Some?)
    && (d.phase.Stopped? ==> d.cells.status == Closed)
  }

  /** What a step, and so a run, never takes back. */
  predicate Advances(d: Driver, t: Driver) {
    && t.config == d.config
    && Rank(d.cells.status) <= Rank(t.cells.status)
    && (d.cells.terminal.Some? ==> t.cells.terminal == d.cells.terminal)
    && (d.closing.Some? ==> t.closing == d.closing)
    && (d.heartbeat.stopped ==> t.heartbeat.stopped)
    && (d.localCloseSent ==> t.localCloseSent)
    && d.encoded <= t.encoded
    && d.wire <= t.wire
    && (Ending(d) ==> Ending(t) && t.encoded == d.encoded)
    && (d.phase.Stopped? ==> t.phase == d.phase)
    && (IsFinal(d.deferred) ==> t.deferred == d.deferred || Ending(t))
  }

  lemma WriteKeepsInv(d: Driver, e: Encoded, phase: Phase)
    requires Inv(d) && d.pending == []
    requires phase.Writing? || phase.LastWrite?
    requires if e.message.PongMessage? then !Ending(d)
             else !HasClose(d.encoded) && (e.message.CloseMessage? ==> d.localCloseSent || phase.LastWrite?)
    ensures Inv(Write(d, e, phase))
  {
    hide Accounts, FrameOctets, OnlyPongsAfterClose, HasClose;
    StartKeepsAccounts(d.wire, d.encoded, e);
    OneMore(d.encoded, e);
  }

  lemma SyncKeeps(d: Driver)
    ensures Inv(d) ==> Inv(Sync(d))
    ensures Sync(d) == d.(synced := Sync(d).synced, heartbeat := Sync(d).heartbeat)
    ensures Sync(d).heartbeat.stopped == d.heartbeat.stopped
  {
    hide Accounts, OnlyPongsAfterClose, HasClose;
  }

  lemma SendKeepsInv(d: Driver, m: Message, now: nat, key: Option<MaskKey>, encodes: bool)
    requires Inv(d) && d.phase.Waiting?
    ensures Inv(OnSend(d, m, now, key, encodes)) && Advances(d, OnSend(d, m, now, key, encodes))
  {
    hide Accounts, OnlyPongsAfterClose, HasClose, FrameOctets;
    if d.cells.status == Open {
      var s := if m.CloseMessage?
               then BeginBudget(d.(cells := BeginClosing(d.cells), heartbeat := Stop(d.heartbeat), localCloseSent := true), now)
               else d;
      assert Inv(s);
      if encodes {
        WriteKeepsInv(s, Encoded(m, key), Writing(false));
      }
    }
  }

  lemma ControlKeepsInv(d: Driver, c: Control, now: nat, key: Option<MaskKey>)
    requires Inv(d) && d.phase.Waiting? && d.deferred.None?
    ensures Inv(OnControl(d, c, now, key)) && Advances(d, OnControl(d, c, now, key))
    ensures IsFinal(Some(c)) ==> Ending(OnControl(d, c, now, key))
  {
    hide Accounts, OnlyPongsAfterClose, HasClose, FrameOctets;
    match c
    case PeerPing(payload, at) =>
      WriteKeepsInv(d.(heartbeat := OnInbound(d.heartbeat, at, None)), Encoded(PongMessage(payload), key), Writing(false));
    case PeerClose =>
      var s := BeginBudget(d.(heartbeat := Stop(d.heartbeat)), now);
      if !s.localCloseSent {
        WriteKeepsInv(s, Encoded(CloseMessage(d.config.closeAtSplit), key), LastWrite(ConnectionClosed));
      }
    case _ =>
  }

  lemma TimerKeepsInv(d: Driver, now: nat, nonce: nat, key: Option<MaskKey>, encodes: bool)
    requires Inv(d) && d.phase.Waiting?
    ensures Inv(OnTimer(d, now, nonce, key, encodes)) && Advances(d, OnTimer(d, now, nonce, key, encodes))
  {
    hide Accounts, OnlyPongsAfterClose, HasClose, FrameOctets, PingPayload, Sync, NextDeadline;
    SyncKeeps(d);
    var s := Sync(d);
    var next := NextDeadline(s.heartbeat);
    if !BudgetSpent(d, now) && next.Some? && next.value.at <= now {
      StoppedHasNoDeadline(s.heartbeat);
      match next.value
      case PingDue(_) =>
        var t := s.(heartbeat := IssuePing(s.heartbeat, now, nonce));
        if encodes {
          WriteKeepsInv(t, Encoded(PingMessage(PingPayload(nonce)), key), Writing(true));
        }
      case PongDue(_) =>
        if encodes {
          WriteKeepsInv(s, Encoded(CloseMessage(Some(s.config.pongNotice)), key), LastWrite(HeartbeatTimeout));
        }
      case IdleDue(_) =>
        if encodes {
          WriteKeepsInv(s, Encoded(CloseMessage(Some(s.config.idleNotice)), key), LastWrite(IdleTimeout));
        }
    }
  }

  lemma StoppedHasNoDeadline(h: Heartbeat)
    ensures h.stopped ==> NextDeadline(h).None?
  {
  }

  lemma WakeKeepsInv(d: Driver, wake: Wake, now: nat, nonce: nat, key: Option<MaskKey>, encodes: bool)
    requires Inv(d) && d.phase.Waiting?
    ensures var t := OnWake(d, wake, now, nonce, key, encodes); Inv(t) && Advances(d, t)
  {
    hide Accounts, OnlyPongsAfterClose, HasClose, FrameOctets, OnControl, OnSend, OnTimer;
    match Effective(d, wake)
    case ControlReady(c) =>
      if c.Some? {
        ControlKeepsInv(d.(deferred := None), c.value, now, key);
      }
    case ApplicationReady(r) =>
      if r.Some? && r.value.Send? {
        SendKeepsInv(d, r.value.message, now, key, encodes);
      }
    case TimerFired => TimerKeepsInv(d, now, nonce, key, encodes);
    case Cancelled =>
  }

  lemma ControlDuringWriteKeepsInv(d: Driver, c: Option<Control>, now: nat)
    requires Inv(d) && d.phase.Writing?
    ensures Inv(OnControlDuringWrite(d, c, now)) && Advances(d, OnControlDuringWrite(d, c, now))
  {
    hide Accounts, OnlyPongsAfterClose, HasClose, OnInbound;
    if c.Some? && c.value.Answer? {
      InboundKeepsStopped(d.heartbeat, c.value.at, Some(c.value.payload));
    } else if c.Some? && c.value.PeerPing? {
      InboundKeepsStopped(d.heartbeat, c.value.at, None);
    }
  }

  lemma InboundKeepsStopped(h: Heartbeat, now: nat, pong: Option<seq<Octet>>)
    ensures OnInbound(h, now, pong).stopped == h.stopped
  {
  }

  lemma TimerDuringWriteKeepsInv(d: Driver, now: nat)
    requires Inv(d) && d.phase.Writing?
    ensures Inv(OnTimerDuringWrite(d, now)) && Advances(d, OnTimerDuringWrite(d, now))
    ensures OnTimerDuringWrite(d, now).encoded == d.encoded
  {
    hide Accounts, OnlyPongsAfterClose, HasClose, Sync, NextHardDeadline;
    SyncKeeps(d);
  }

  lemma WrittenKeepsInv(d: Driver, now: nat)
    requires Inv(d)
    ensures Inv(Step(d, Written(now))) && Advances(d, Step(d, Written(now)))
  {
    hide Accounts, OnlyPongsAfterClose, HasClose, PingFlushed;
    FlushKeepsStopped(d.heartbeat, now);
  }

  lemma LoopKeepsInv(d: Driver, now: nat)
    requires Inv(d)
    ensures Inv(Step(d, Loop(now))) && Advances(d, Step(d, Loop(now)))
  {
    hide Accounts, OnlyPongsAfterClose, HasClose, Sync, NextDeadline;
    SyncKeeps(d);
  }

  lemma StepKeepsInv(d: Driver, e: Event)
    requires Inv(d)
    ensures Inv(Step(d, e)) && Advances(d, Step(d, e))
  {
    hide Accounts, OnlyPongsAfterClose, HasClose, FrameOctets, OnWake, Sync, NextDeadline,
         OnControlDuringWrite, OnTimerDuringWrite, PingFlushed, LoopHead;
    SyncKeeps(d);
    match e
    case Loop(now) => LoopKeepsInv(d, now);
    case Woken(wake, now, nonce, key, encodes) =>
      if d.phase.Waiting? {
        WakeKeepsInv(d, wake, now, nonce, key, encodes);
      }
    case Accept(n) =>
      if n <= |d.pending| {
        AcceptKeepsAccounts(d.wire, d.pending, d.encoded, n);
      }
    case Written(now) => WrittenKeepsInv(d, now);
    case ControlDuringWrite(c, now) =>
      if d.phase.Writing? {
        ControlDuringWriteKeepsInv(d, c, now);
      }
    case TimerDuringWrite(now) =>
      if d.phase.Writing? {
        TimerDuringWriteKeepsInv(d, now);
      }
    case _ =>
  }

  lemma FlushKeepsStopped(h: Heartbeat, now: nat)
    ensures PingFlushed(h, now).stopped == h.stopped
  {
  }

  lemma {:induction false} RunKeepsInv(d: Driver, es: seq<Event>)
    requires Inv(d)
    ensures Inv(Run(d, es)) && Advances(d, Run(d, es))
    decreases |es|
  {
    hide Accounts, OnlyPongsAfterClose, HasClose, FrameOctets, Step;
    if es != [] {
      RunKeepsInv(d, es[..|es| - 1]);
      StepKeepsInv(Run(d, es[..|es| - 1]), es[|es| - 1]);
    }
  }

  // ---------------------------------------------------------------------
  // Main results
  // ---------------------------------------------------------------------

  lemma NewDriverIsFine(config: Settings, heartbeat: Heartbeat, closed: bool, failed: bool)
    ensures Inv(NewDriver(config, heartbeat, closed, failed))
  {
  }

  /** Over every interleaving: whole frames and at most one cut frame at the very end, one Close at most, only Pongs after it. */
  lemma WriterIsOrderly(config: Settings, heartbeat: Heartbeat, closed: bool, failed: bool, es: seq<Event>)
    ensures var d := Run(NewDriver(config, heartbeat, closed, failed), es);
            && Accounts(d.wire, d.pending, d.encoded)
            && (!d.phase.Writing? && !Ending(d) ==> d.wire == OnWire(d.encoded))
            && OnlyPongsAfterClose(d.encoded) && Closes(d.encoded) <= 1
  {
    var start := NewDriver(config, heartbeat, closed, failed);
    NewDriverIsFine(config, heartbeat, closed, failed);
    RunKeepsInv(start, es);
    var d := Run(start, es);
    AtMostOneClose(d.encoded);
    assert d.wire + [] == d.wire;
  }

  /** The peer can read whatever has reached the wire: every whole message, in order, and never an error. */
  lemma PeerReadsTheWire(config: Settings, heartbeat: Heartbeat, closed: bool, failed: bool, es: seq<Event>, peer: Messages.Settings)
    requires AllSendable(peer, Run(NewDriver(config, heartbeat, closed, failed), es).encoded)
    ensures var d := Run(NewDriver(config, heartbeat, closed, failed), es);
            var r := Receive(peer, Idle, d.wire);
            && r.error.None? && r.messages <= MessagesOf(d.encoded) && |d.encoded| <= |r.messages| + 1
            && (d.pending == [] ==> r.messages == MessagesOf(d.encoded))
  {
    hide Receive, AllSendable, Accounts;
    WriterIsOrderly(config, heartbeat, closed, failed, es);
    var d := Run(NewDriver(config, heartbeat, closed, failed), es);
    CutWireIsReceived(peer, d.wire, d.pending, d.encoded);
  }

  lemma {:induction false} RunSplits(d: Driver, es: seq<Event>, fs: seq<Event>)
    ensures Run(d, es + fs) == Run(Run(d, es), fs)
    decreases |fs|
  {
    hide Step;
    if fs == [] {
      assert es + fs == es;
    } else {
      var all := es + fs;
      assert all[..|all| - 1] == es + fs[..|fs| - 1];
      RunSplits(d, es, fs[..|fs| - 1]);
    }
  }

  /** Status, first terminal cause, closing budget, wire and deferred final requests are never taken back, whatever follows. */
  lemma NothingIsTakenBack(config: Settings, heartbeat: Heartbeat, closed: bool, failed: bool, es: seq<Event>, fs: seq<Event>)
    ensures var start := NewDriver(config, heartbeat, closed, failed);
            Advances(Run(start, es), Run(start, es + fs))
  {
    var start := NewDriver(config, heartbeat, closed, failed);
    NewDriverIsFine(config, heartbeat, closed, failed);
    RunKeepsInv(start, es);
    RunKeepsInv(Run(start, es), fs);
    RunSplits(start, es, fs);
  }

  /** The control request that a step handles: the deferred one, or one just taken. */
  function Handled(d: Driver, e: Event): Option<Control> {
    if e.Woken? && d.phase.Waiting? && Effective(d, e.wake).ControlReady? then Effective(d, e.wake).control else None
  }

  /** The control request that a step takes from the queue, to handle or to defer. */
  function TakenFromQueue(d: Driver, e: Event): Option<Control> {
    if e.Woken? && d.phase == Waiting(false) && d.deferred.None? && e.wake.ControlReady? then e.wake.control
    else if e.ControlDuringWrite? && d.phase.Writing? && !IsFinal(d.deferred) then e.control
    else None
  }

  /**
   A peer Close that is handled, at once or after it was deferred, is the last thing the driver
   does: unless a Close was sent locally it is answered, with the reason known at the split.
   */
  lemma PeerCloseIsAnswered(d: Driver, e: Event)
    requires Inv(d) && Handled(d, e) == Some(PeerClose)
    ensures var t := Step(d, e);
            if d.localCloseSent then t.phase == Stopped(ConnectionClosed) && t.encoded == d.encoded
            else t.phase == LastWrite(ConnectionClosed) && t.encoded == d.encoded + [Encoded(CloseMessage(d.config.closeAtSplit), e.key)]
  {
    hide Accounts, OnlyPongsAfterClose, HasClose, FrameOctets;
  }

  /** After a final request was deferred, nothing but the answer to a Close is encoded any more. */
  predicate OnlyAnswers(d: Driver, t: Driver) {
    || (t.encoded == d.encoded && (t.deferred == d.deferred || Ending(t)))
    || (&& Ending(t) && d.deferred == Some(PeerClose) && !d.localCloseSent
        && |t.encoded| == |d.encoded| + 1 && t.encoded[..|d.encoded|] == d.encoded
        && t.encoded[|d.encoded|].message == CloseMessage(d.config.closeAtSplit))
  }

  lemma FinalStep(d: Driver, e: Event)
    requires Inv(d) && IsFinal(d.deferred) && !Ending(d)
    ensures OnlyAnswers(d, Step(d, e)) && Step(d, e).localCloseSent == d.localCloseSent
  {
    hide Accounts, OnlyPongsAfterClose, HasClose, FrameOctets, Sync, NextDeadline, NextHardDeadline, PingFlushed;
    SyncKeeps(d);
    StoppedHasNoDeadline(Sync(d).heartbeat);
  }

  /** Over every run, a deferred peer Close or read error ends the driver; only the answer to a Close is still written. */
  lemma {:induction false} DeferredRequestEndsTheDriver(d: Driver, es: seq<Event>)
    requires Inv(d) && IsFinal(d.deferred) && !Ending(d)
    ensures OnlyAnswers(d, Run(d, es)) && (!Ending(Run(d, es)) ==> Run(d, es).localCloseSent == d.localCloseSent)
    decreases |es|
  {
    hide Step, Inv;
    if es != [] {
      var t, e := Run(d, es[..|es| - 1]), es[|es| - 1];
      DeferredRequestEndsTheDriver(d, es[..|es| - 1]);
      RunKeepsInv(d, es[..|es| - 1]);
      StepKeepsInv(t, e);
      if !Ending(t) {
        FinalStep(t, e);
      }
    }
  }

  // ---------------------------------------------------------------------
  // Application data
  // ---------------------------------------------------------------------

  predicate IsData(m: Message) {
    m.TextMessage? || m.BinaryMessage?
  }

  function DataOf(es: seq<Encoded>): seq<Message> {
    if es == [] then []
    else DataOf(es[..|es| - 1]) + (if IsData(es[|es| - 1].message) then [es[|es| - 1].message] else [])
  }

  /** The data message that a step takes from the application: nothing more urgent is due, and the connection is open. */
  function Taken(d: Driver, e: Event): seq<Message> {
    if e.Woken? && d.phase == Waiting(false) && d.deferred.None? && d.cells.status == Open && e.encodes
       && e.wake.ApplicationReady? && e.wake.request.Some? && e.wake.request.value.Send? && IsData(e.wake.request.value.message)
    then [e.wake.request.value.message] else []
  }

  function TakenOver(d: Driver, es: seq<Event>): seq<Message> {
    if es == [] then []
    else TakenOver(d, es[..|es| - 1]) + Taken(Run(d, es[..|es| - 1]), es[|es| - 1])
  }

  lemma WriteData(es: seq<Encoded>, e: Encoded)
    ensures DataOf(es + [e]) == DataOf(es) + (if IsData(e.message) then [e.message] else [])
  {
    assert (es + [e])[..|es|] == es;
  }

  lemma ControlTakesNothing(d: Driver, c: Control, now: nat, key: Option<MaskKey>)
    ensures DataOf(OnControl(d, c, now, key).encoded) == DataOf(d.encoded)
  {
    hide DataOf, FrameOctets, OnInbound, Stop;
    if c.PeerPing? {
      WriteData(d.encoded, Encoded(PongMessage(c.payload), key));
    } else if c.PeerClose? {
      WriteData(d.encoded, Encoded(CloseMessage(d.config.closeAtSplit), key));
    }
    assert DataOf(d.encoded) + [] == DataOf(d.encoded);
  }

  lemma SyncWritesNothing(d: Driver)
    ensures Sync(d).encoded == d.encoded && Sync(d).config == d.config
  {
    hide OnInbound;
  }

  lemma TimerTakesNothing(d: Driver, now: nat, nonce: nat, key: Option<MaskKey>, encodes: bool)
    ensures DataOf(OnTimer(d, now, nonce, key, encodes).encoded) == DataOf(d.encoded)
  {
    hide DataOf, FrameOctets, NextDeadline, IssuePing, PingPayload, Sync;
    SyncWritesNothing(d);
    WriteData(d.encoded, Encoded(PingMessage(PingPayload(nonce)), key));
    WriteData(d.encoded, Encoded(CloseMessage(Some(d.config.pongNotice)), key));
    WriteData(d.encoded, Encoded(CloseMessage(Some(d.config.idleNotice)), key));
    assert DataOf(d.encoded) + [] == DataOf(d.encoded);
  }

  lemma SendTakes(d: Driver, m: Message, now: nat, key: Option<MaskKey>, encodes: bool)
    ensures DataOf(OnSend(d, m, now, key, encodes).encoded)
         == DataOf(d.encoded) + (if d.cells.status == Open && encodes && IsData(m) then [m] else [])
  {
    hide DataOf, FrameOctets, Stop;
    WriteData(d.encoded, Encoded(m, key));
    assert DataOf(d.encoded) + [] == DataOf(d.encoded);
  }

  lemma WakeTakes(d: Driver, e: Event)
    requires e.Woken? && d.phase.Waiting?
    ensures DataOf(Step(d, e).encoded) == DataOf(d.encoded) + Taken(d, e)
  {
    hide DataOf, OnControl, OnTimer, OnSend;
    assert DataOf(d.encoded) + [] == DataOf(d.encoded);
    var Woken(wake, now, nonce, key, encodes) := e;
    match Effective(d, wake)
    case ControlReady(c) =>
      if c.Some? {
        ControlTakesNothing(d.(deferred := None), c.value, now, key);
      }
    case ApplicationReady(r) =>
      if r.Some? && r.value.Send? {
        SendTakes(d, r.value.message, now, key, encodes);
      }
    case TimerFired => TimerTakesNothing(d, now, nonce, key, encodes);
    case Cancelled =>
  }

  lemma StepTakes(d: Driver, e: Event)
    ensures DataOf(Step(d, e).encoded) == DataOf(d.encoded) + Taken(d, e)
  {
    hide DataOf, OnWake, Sync, NextDeadline, NextHardDeadline, OnInbound, PingFlushed;
    if e.Woken? && d.phase.Waiting? {
      WakeTakes(d, e);
    } else {
      assert DataOf(d.encoded) + [] == DataOf(d.encoded);
      SyncWritesNothing(d);
    }
  }

  /** Data frames are exactly the messages taken from the application, each once and in order. */
  lemma {:induction false} DataIsWhatWasTaken(d: Driver, es: seq<Event>)
    requires d.encoded == []
    ensures DataOf(Run(d, es).encoded) == TakenOver(d, es)
    decreases |es|
  {
    hide Step, Taken;
    if es != [] {
      DataIsWhatWasTaken(d, es[..|es| - 1]);
      StepTakes(Run(d, es[..|es| - 1]), es[|es| - 1]);
    }
  }

  // ---------------------------------------------------------------------
  // Why a frame is written
  // ---------------------------------------------------------------------

  /** What a step may encode, and why: an answer, what the application sends, or what is due. */
  predicate HasOrigin(d: Driver, e: Event, m: Message) {
    e.Woken? && d.phase.Waiting? &&
    match Effective(d, e.wake)
    case ControlReady(c) => c.Some? && IsAnswer(d, c.value, m)
    case ApplicationReady(r) => r.Some? && r.value.Send? && m == r.value.message && d.cells.status == Open
    case TimerFired => IsTimely(d, e.now, e.nonce, m)
    case Cancelled => false
  }

  predicate IsAnswer(d: Driver, c: Control, m: Message) {
    || (c.PeerPing? && m == PongMessage(c.payload))
    || (c.PeerClose? && !d.localCloseSent && m == CloseMessage(d.config.closeAtSplit))
  }

  predicate IsTimely(d: Driver, now: nat, nonce: nat, m: Message) {
    var next := NextDeadline(Sync(d).heartbeat);
    && next.Some? && next.value.at <= now && !BudgetSpent(d, now)
    && match next.value
       case PingDue(_) => m == PingMessage(PingPayload(nonce))
       case PongDue(_) => m == CloseMessage(Some(d.config.pongNotice))
       case IdleDue(_) => m == CloseMessage(Some(d.config.idleNotice))
  }

  /** `t` has one frame more, with message `m`. */
  predicate AddsFrame(d: Driver, t: Driver, m: Message) {
    |t.encoded| == |d.encoded| + 1 && d.encoded <= t.encoded && t.encoded[|d.encoded|].message == m
  }

  lemma ControlAdds(d: Driver, c: Control, now: nat, key: Option<MaskKey>)
    ensures var t := OnControl(d, c, now, key);
            t.encoded == d.encoded || (AddsFrame(d, t, t.encoded[|d.encoded|].message) && IsAnswer(d, c, t.encoded[|d.encoded|].message))
  {
    hide FrameOctets, OnInbound, Stop;
  }

  lemma SendAdds(d: Driver, m: Message, now: nat, key: Option<MaskKey>, encodes: bool)
    ensures var t := OnSend(d, m, now, key, encodes);
            t.encoded == d.encoded || (AddsFrame(d, t, m) && d.cells.status == Open)
  {
    hide FrameOctets, Stop;
  }

  lemma TimerAdds(d: Driver, now: nat, nonce: nat, key: Option<MaskKey>, encodes: bool)
    ensures var t := OnTimer(d, now, nonce, key, encodes);
            t.encoded == d.encoded || (AddsFrame(d, t, t.encoded[|d.encoded|].message) && IsTimely(d, now, nonce, t.encoded[|d.encoded|].message))
  {
    hide FrameOctets, NextDeadline, IssuePing, PingPayload, Sync;
    SyncWritesNothing(d);
  }

  lemma OnlyWakesWrite(d: Driver, e: Event)
    requires !(e.Woken? && d.phase.Waiting?)
    ensures Step(d, e).encoded == d.encoded
  {
    hide NextDeadline, NextHardDeadline, OnInbound, PingFlushed, Stop, Sync;
    SyncWritesNothing(d);
  }

  /** A step adds at most one frame, and only with a reason for it. */
  lemma StepAdds(d: Driver, e: Event)
    ensures var t := Step(d, e);
            || t.encoded == d.encoded
            || (|t.encoded| == |d.encoded| + 1 && d.encoded <= t.encoded && HasOrigin(d, e, t.encoded[|d.encoded|].message))
  {
    if e.Woken? && d.phase.Waiting? {
      hide OnControl, OnSend, OnTimer, IsAnswer, IsTimely;
      match Effective(d, e.wake)
      case ControlReady(c) =>
        if c.Some? {
          ControlAdds(d.(deferred := None), c.value, e.now, e.key);
          SameAnswers(d, c.value, Step(d, e));
        }
      case ApplicationReady(r) =>
        if r.Some? && r.value.Send? {
          SendAdds(d, r.value.message, e.now, e.key, e.encodes);
        }
      case TimerFired => TimerAdds(d, e.now, e.nonce, e.key, e.encodes);
      case Cancelled =>
    } else {
      OnlyWakesWrite(d, e);
    }
  }

  lemma SameAnswers(d: Driver, c: Control, t: Driver)
    ensures forall m :: IsAnswer(d.(deferred := None), c, m) == IsAnswer(d, c, m)
    ensures forall m :: AddsFrame(d.(deferred := None), t, m) == AddsFrame(d, t, m)
  {
  }

  /** Every frame of every run was added by a step that had such a reason for it, one frame after the other. */
  lemma {:induction false} EveryFrameHasOrigin(d: Driver, es: seq<Event>, i: nat) returns (n: nat)
    requires |d.encoded| <= i < |Run(d, es).encoded|
    ensures n < |es| && |Run(d, es[..n]).encoded| == i && HasOrigin(Run(d, es[..n]), es[n], Run(d, es).encoded[i].message)
    decreases |es|
  {
    hide Step, HasOrigin;
    assert es != [];
    var front := es[..|es| - 1];
    var t := Run(d, front);
    StepAdds(t, es[|es| - 1]);
    if i < |t.encoded| {
      n := EveryFrameHasOrigin(d, front, i);
      assert front[..n] == es[..n];
    } else {
      n := |es| - 1;
    }
  }
}
