/**
 What the writer driver must do: every request it takes and every deadline it reaches has its effect
 on frames, heartbeat, budget and shared cells; nothing taken is dropped silently.
 */
module SplitWriterLaws {
  import opened Octets
  import opened Masking
  import opened Messages
  import opened Heartbeats
  import opened Outbound
  import opened SplitWriting

  // ---------------------------------------------------------------------
  // Application requests
  // ---------------------------------------------------------------------

  /** The application is served: nothing more urgent is due. */
  predicate Serves(d: Driver, e: Event) {
    e.Woken? && d.phase == Waiting(false) && d.deferred.None? && e.wake.ApplicationReady?
  }

  /** The message that the application hands over in a step, while sending is open and it can be encoded. */
  function HandedOver(d: Driver, e: Event): seq<Message> {
    if Serves(d, e) && e.wake.request.Some? && e.wake.request.value.Send? && d.cells.status == Open && e.encodes
    then [e.wake.request.value.message] else []
  }

  function NewFrames(d: Driver, t: Driver): seq<Encoded> {
    if |d.encoded| <= |t.encoded| then t.encoded[|d.encoded|..] else []
  }

  /** The frames that are encoded while the application is served. */
  function ApplicationFrames(d: Driver, es: seq<Event>): seq<Encoded> {
    if es == [] then []
    else
      var before, e := Run(d, es[..|es| - 1]), es[|es| - 1];
      ApplicationFrames(d, es[..|es| - 1]) + (if Serves(before, e) then NewFrames(before, Step(before, e)) else [])
  }

  function AllHandedOver(d: Driver, es: seq<Event>): seq<Message> {
    if es == [] then []
    else AllHandedOver(d, es[..|es| - 1]) + HandedOver(Run(d, es[..|es| - 1]), es[|es| - 1])
  }

  /** A message handed over, of whatever kind, is encoded at once and waits to be written; a Close also starts closing. */
  lemma SendIsWritten(d: Driver, e: Event)
    requires Serves(d, e)
    ensures MessagesOf(NewFrames(d, Step(d, e))) == HandedOver(d, e)
    ensures HandedOver(d, e) != [] ==>
              var t, m := Step(d, e), e.wake.request.value.message;
              && t.encoded == d.encoded + [Encoded(m, e.key)] && t.pending == FrameOctets(Encoded(m, e.key)) && t.phase == Writing(false)
              && (if m.CloseMessage? then
                    t.localCloseSent && t.cells.status == Closing && t.heartbeat.stopped
                    && t.closing == (if d.closing.Some? then d.closing else Some(e.now + d.config.closeTimeout))
                  else t == d.(encoded := t.encoded, pending := t.pending, phase := t.phase))
    ensures var r := e.wake.request;
            && (r == Some(FlushOut) ==> Step(d, e) == d.(phase := Writing(false)))
            && (r.Some? && r.value.Send? && d.cells.status != Open ==> Step(d, e) == d.(phase := Head))
            && (r.Some? && r.value.Send? && d.cells.status == Open && !e.encodes ==> EndedWith(d, Step(d, e), ConnectionClosed))
  {
    hide FrameOctets;
  }

  /** Over every run: the frames written for the application are, one to one and in order, what it handed over. */
  lemma {:induction false} ApplicationMessagesAreWritten(d: Driver, es: seq<Event>)
    ensures MessagesOf(ApplicationFrames(d, es)) == AllHandedOver(d, es)
    decreases |es|
  {
    hide Step, HandedOver, NewFrames;
    if es != [] {
      var before, e := Run(d, es[..|es| - 1]), es[|es| - 1];
      ApplicationMessagesAreWritten(d, es[..|es| - 1]);
      if Serves(before, e) {
        SendIsWritten(before, e);
        MessagesOfBoth(ApplicationFrames(d, es[..|es| - 1]), NewFrames(before, Step(before, e)));
      } else {
        NothingHandedOver(before, e);
        MessagesOfBoth(ApplicationFrames(d, es[..|es| - 1]), []);
      }
    }
  }

  lemma NothingHandedOver(d: Driver, e: Event)
    requires !Serves(d, e)
    ensures HandedOver(d, e) == []
  {
  }

  lemma MessagesOfBoth(a: seq<Encoded>, b: seq<Encoded>)
    ensures MessagesOf(a + b) == MessagesOf(a) + MessagesOf(b)
  {
  }

  /** A Close that the application sent is among the frames, or the driver has ended. */
  predicate OwnCloseIsWritten(d: Driver) {
    d.localCloseSent ==> HasClose(d.encoded) || d.phase.Stopped?
  }

  lemma StepKeepsOwnClose(d: Driver, e: Event)
    requires Inv(d) && OwnCloseIsWritten(d)
    ensures OwnCloseIsWritten(Step(d, e))
  {
    hide FrameOctets, Step, Inv, HasClose, HandedOver;
    var t := Step(d, e);
    StepKeepsInv(d, e);
    if HasClose(d.encoded) {
      StaysClosed(d, t);
    } else if t.localCloseSent && !d.localCloseSent {
      LocalCloseIsRequested(d, e);
      if !t.phase.Stopped? {
        CloseIsAmong(d, t, e);
      }
    }
  }

  lemma StaysClosed(d: Driver, t: Driver)
    requires Advances(d, t) && HasClose(d.encoded)
    ensures HasClose(t.encoded)
  {
    var i :| 0 <= i < |d.encoded| && d.encoded[i].message.CloseMessage?;
    assert t.encoded[i] == d.encoded[i];
  }

  lemma LocalCloseIsRequested(d: Driver, e: Event)
    requires Step(d, e).localCloseSent && !d.localCloseSent
    ensures Serves(d, e) && e.wake.request.Some? && e.wake.request.value.Send? && e.wake.request.value.message.CloseMessage?
    ensures HandedOver(d, e) == [] ==> Step(d, e).phase.Stopped?
  {
    hide FrameOctets, NextDeadline, NextHardDeadline, OnInbound, IssuePing, PingFlushed, PingPayload, Stop, Sync;
    SyncKeepsSent(d);
  }

  lemma SyncKeepsSent(d: Driver)
    ensures Sync(d).localCloseSent == d.localCloseSent
  {
    hide OnInbound;
  }

  lemma CloseIsAmong(d: Driver, t: Driver, e: Event)
    requires Serves(d, e) && t == Step(d, e) && HandedOver(d, e) != [] && e.wake.request.value.message.CloseMessage?
    ensures HasClose(t.encoded)
  {
    hide Step;
    SendIsWritten(d, e);
    assert t.encoded[|d.encoded|].message.CloseMessage?;
  }

  lemma {:induction false} LocalCloseIsWritten(config: SplitWriting.Settings, heartbeat: Heartbeat, closed: bool, failed: bool, es: seq<Event>)
    ensures OwnCloseIsWritten(Run(NewDriver(config, heartbeat, closed, failed), es))
    decreases |es|
  {
    hide Step, Inv;
    if es != [] {
      var start := NewDriver(config, heartbeat, closed, failed);
      LocalCloseIsWritten(config, heartbeat, closed, failed, es[..|es| - 1]);
      NewDriverIsFine(config, heartbeat, closed, failed);
      RunKeepsInv(start, es[..|es| - 1]);
      StepKeepsOwnClose(Run(start, es[..|es| - 1]), es[|es| - 1]);
    }
  }

  // ---------------------------------------------------------------------
  // What comes first
  // ---------------------------------------------------------------------

  /** The driver has ended with `cause`, which both halves see unless they saw another before. */
  predicate EndedWith(d: Driver, t: Driver, cause: Cause) {
    && t.phase == Stopped(cause) && t.encoded == d.encoded && t.pending == d.pending && t.wire == d.wire
    && t.cells.status == Closed && (d.cells.status != Closed ==> t.cells.terminal == Some(cause))
  }

  /** An expired deadline comes before anything that is ready; then cancellation; then the deferred request; then the rest. */
  lemma WakesInOrder(d: Driver, e: Event, e': Event)
    requires d.phase.Waiting? && e.Woken? && e'.Woken?
    requires e'.now == e.now && e'.nonce == e.nonce && e'.key == e.key && e'.encodes == e.encodes
    ensures d.phase.expired ==> Step(d, e) == Step(d, e')
    ensures !d.phase.expired && e.wake.Cancelled? ==> EndedWith(d, Step(d, e), ConnectionClosed)
    ensures !d.phase.expired && !e.wake.Cancelled? && d.deferred.Some? && e'.wake == ControlReady(d.deferred) ==>
              Step(d, e) == Step(d.(deferred := None), e')
    ensures !d.phase.expired && d.deferred.None? && (e.wake == ControlReady(None) || e.wake == ApplicationReady(None)) ==>
              EndedWith(d, Step(d, e), ConnectionClosed)
  {
    hide OnControl, OnSend, OnTimer;
  }

  /** Waiting is over at once exactly if some deadline, or the closing budget, is reached; a terminated connection ends the driver. */
  lemma LoopSeesDeadlines(d: Driver, now: nat)
    requires d.phase.Head?
    ensures d.cells.status == Closed ==> EndedWith(d, Step(d, Loop(now)), ConnectionClosed)
    ensures d.cells.status != Closed ==>
              var t := Step(d, Loop(now));
              && t.phase.Waiting? && t.encoded == d.encoded && t.cells == d.cells
              && (t.phase.expired <==> (exists x :: Active(t.heartbeat, x) && x.at <= now) || (d.closing.Some? && d.closing.value <= now))
  {
    hide NextDeadline, OnInbound, Active;
    if d.cells.status != Closed {
      var h := Sync(d).heartbeat;
      if NextDeadline(h).Some? {
        var first := NextDeadline(h).value;
        NextDeadlineIsFirst(h, first);
        forall x | Active(h, x) ensures Before(first, x) {}
      } else {
        NextDeadlineIsFirst(h, PingDue(0));
      }
    }
  }

  /** Activity that the reader has published counts from the next turn of the loop. */
  lemma PublishedActivityCounts(d: Driver, now: nat)
    requires d.phase.Head? && d.cells.status != Closed && !d.heartbeat.stopped && d.synced < d.cells.lastInbound
    ensures Step(d, Loop(now)).heartbeat.lastInbound >= d.cells.lastInbound && Step(d, Loop(now)).synced == d.cells.lastInbound
  {
    hide NextDeadline, Matches;
  }

  // ---------------------------------------------------------------------
  // Timers
  // ---------------------------------------------------------------------

  /** `h` is the heartbeat after the reader's published activity. */
  predicate IsSynced(d: Driver, h: Heartbeat) {
    if d.cells.lastInbound > d.synced then h == OnInbound(d.heartbeat, d.cells.lastInbound, None) else h == d.heartbeat
  }

  /** The timer fires, or has already done so. */
  predicate TimerIsUp(d: Driver, e: Event) {
    d.phase.Waiting? && e.Woken? && (d.phase.expired || (e.wake.TimerFired? && d.deferred.None?))
  }

  /** What deadline `x` brings when it is reached: the Ping that is due, or the notice as the last frame. */
  predicate Brings(d: Driver, t: Driver, e: Event, x: Deadline)
    requires e.Woken?
  {
    match x
    case PingDue(_) =>
      && t.encoded == d.encoded + [Encoded(PingMessage(PingPayload(e.nonce)), e.key)] && t.phase == Writing(true)
      && t.heartbeat.outstanding == Some(OutstandingPing(PingPayload(e.nonce), None, false, false))
    case PongDue(_) =>
      t.encoded == d.encoded + [Encoded(CloseMessage(Some(d.config.pongNotice)), e.key)] && t.phase == LastWrite(HeartbeatTimeout)
    case IdleDue(_) =>
      t.encoded == d.encoded + [Encoded(CloseMessage(Some(d.config.idleNotice)), e.key)] && t.phase == LastWrite(IdleTimeout)
  }

  /** When the timer fires, the first deadline that is reached is acted on; a message that cannot be encoded ends the driver. */
  lemma TimerActs(d: Driver, e: Event, h: Heartbeat, x: Deadline)
    requires TimerIsUp(d, e) && IsSynced(d, h) && !(d.closing.Some? && d.closing.value <= e.now) && NextDeadline(h) == Some(x) && x.at <= e.now
    ensures e.encodes ==> Brings(d, Step(d, e), e, x)
    ensures !e.encodes ==> EndedWith(d, Step(d, e), match x
                                                    case PingDue(_) => ConnectionClosed
                                                    case PongDue(_) => HeartbeatTimeout
                                                    case IdleDue(_) => IdleTimeout)
  {
    hide FrameOctets, NextDeadline, OnInbound, PingPayload, OnControl, OnSend, OnControlDuringWrite, OnTimerDuringWrite, LoopHead, StopWrite;
  }

  /** The closing budget comes before any deadline; without either the driver waits again. */
  lemma TimerWithoutDeadline(d: Driver, e: Event, h: Heartbeat)
    requires TimerIsUp(d, e) && IsSynced(d, h)
    ensures d.closing.Some? && d.closing.value <= e.now ==> EndedWith(d, Step(d, e), ConnectionClosed)
    ensures !(d.closing.Some? && d.closing.value <= e.now) && (NextDeadline(h).None? || NextDeadline(h).value.at > e.now) ==>
              Step(d, e).encoded == d.encoded && Step(d, e).phase == Head && Step(d, e).heartbeat == h
  {
    hide FrameOctets, NextDeadline, OnInbound, PingPayload, OnControl, OnSend, OnControlDuringWrite, OnTimerDuringWrite, LoopHead, StopWrite;
  }

  /** During a write only the hard deadlines act, and they end the driver. */
  lemma TimerActsDuringWrite(d: Driver, now: nat, h: Heartbeat)
    requires d.phase.Writing? && IsSynced(d, h)
    ensures var t, next := Step(d, TimerDuringWrite(now)), NextHardDeadline(h);
            if d.closing.Some? && d.closing.value <= now then EndedWith(d, t, ConnectionClosed)
            else if next.Some? && next.value.at <= now then EndedWith(d, t, if next.value.PongDue? then HeartbeatTimeout else IdleTimeout)
            else t.phase == d.phase && t.encoded == d.encoded && t.heartbeat == h
  {
    hide NextHardDeadline, OnInbound;
  }

  /** The hard deadlines are those of Pong and idleness, the first of them, Pong at the same time. */
  lemma HardDeadlineIsFirst(h: Heartbeat, x: Deadline)
    ensures NextHardDeadline(h) == Some(x) <==>
              Active(h, x) && !x.PingDue? && forall y :: Active(h, y) && !y.PingDue? ==> Before(x, y)
  {
    var n := NextHardDeadline(h);
    if n.Some? {
      assert Active(h, n.value);
      forall y | Active(h, y) && !y.PingDue? ensures Before(n.value, y) {}
      if Active(h, x) && !x.PingDue? && forall y :: Active(h, y) && !y.PingDue? ==> Before(x, y) {
        assert Before(x, n.value) && Before(n.value, x);
      }
    }
  }

  // ---------------------------------------------------------------------
  // Requests of the reader
  // ---------------------------------------------------------------------

  /** A request that is handled: Pongs reach the heartbeat, Pings are answered, and the rest ends the driver. */
  lemma RequestActs(d: Driver, e: Event)
    requires Handled(d, e).Some?
    ensures var t, c := Step(d, e), Handled(d, e).value;
            match c
            case Answer(payload, at) => t == d.(heartbeat := OnInbound(d.heartbeat, at, Some(payload)), deferred := None, phase := Head)
            case PeerPing(payload, at) =>
              && t.encoded == d.encoded + [Encoded(PongMessage(payload), e.key)] && t.pending == FrameOctets(Encoded(PongMessage(payload), e.key))
              && t.phase == Writing(false) && t.heartbeat == OnInbound(d.heartbeat, at, None) && t.deferred.None?
            case PeerClose =>
              && t.heartbeat.stopped && t.closing == (if d.closing.Some? then d.closing else Some(e.now + d.config.closeTimeout))
              && (d.localCloseSent ==> EndedWith(d, t, ConnectionClosed))
              && (!d.localCloseSent ==> t.phase == LastWrite(ConnectionClosed)
                                        && t.encoded == d.encoded + [Encoded(CloseMessage(d.config.closeAtSplit), e.key)])
            case _ => EndedWith(d, t, ConnectionClosed) && t.heartbeat.stopped
  {
    hide FrameOctets, OnInbound;
  }

  /** During a write: Pongs reach the heartbeat at once, a Ping waits in place of an earlier one, a final request waits and stops the heartbeat. */
  lemma RequestWaits(d: Driver, c: Option<Control>, now: nat)
    requires d.phase.Writing? && !IsFinal(d.deferred)
    ensures var t := Step(d, ControlDuringWrite(c, now));
            if c.None? || c.value.Eof? then EndedWith(d, t, ConnectionClosed)
            else if c.value.Answer? then t == d.(heartbeat := OnInbound(d.heartbeat, c.value.at, Some(c.value.payload)))
            else if c.value.PeerPing? then t == d.(heartbeat := OnInbound(d.heartbeat, c.value.at, None), deferred := c)
            else t.deferred == c && t.heartbeat.stopped && t.closing.Some? && t.encoded == d.encoded && t.phase == d.phase
                 && (d.closing.None? ==> t.closing == Some(now + d.config.closeTimeout))
  {
    hide OnInbound;
  }

  // ---------------------------------------------------------------------
  // Writes
  // ---------------------------------------------------------------------

  /** A write that is complete goes on with the loop, after a Ping with its timeout running; the last one ends the driver. */
  lemma WriteCompletes(d: Driver, now: nat)
    requires d.pending == [] && (d.phase.Writing? || d.phase.LastWrite?)
    ensures d.phase.LastWrite? ==> EndedWith(d, Step(d, Written(now)), d.phase.cause)
    ensures d.phase.Writing? ==>
              Step(d, Written(now)) == d.(heartbeat := if d.phase.isPing then PingFlushed(d.heartbeat, now) else d.heartbeat, phase := Head)
  {
    hide PingFlushed;
  }

  /** A write that fails or is cancelled ends the driver; the transport takes octets in order. */
  lemma WriteStops(d: Driver, n: nat)
    requires d.phase.Writing? || d.phase.LastWrite?
    ensures EndedWith(d, Step(d, WriteFails), if d.phase.LastWrite? then d.phase.cause else ConnectionClosed)
    ensures d.phase.Writing? ==> EndedWith(d, Step(d, CancelledDuringWrite), ConnectionClosed)
    ensures n <= |d.pending| ==> Step(d, Accept(n)) == d.(wire := d.wire + d.pending[..n], pending := d.pending[n..])
  {
  }
}
