/**
 The unified stream: one owner that receives, sends, closes and flushes. Clock readings and the
 outcomes of transport operations are inputs; every loop turn of `next` and every other call is one
 step. Times are milliseconds since the stream was made.
 */
module UnifiedStreams {
  import opened Octets
  import opened Masking
  import opened Messages
  import opened Heartbeats
  import opened Outbound
  import opened Inboxes

  datatype State = Open | ReadErrorPending | CloseSent | Closed

  function Rank(s: State): nat {
    match s
    case Open => 0
    case ReadErrorPending => 1
    case CloseSent => 2
    case Closed => 3
  }

  datatype Config = Config(closeTimeout: nat, immediateShutdown: bool, pongNotice: CloseReason, idleNotice: CloseReason)

  datatype Failure = ParseFailure(error: ProtocolError) | PongTimeout | IdleTimeout | ConnectionClosed | TransportError

  datatype Outcome = Got(message: Message) | Failed(failure: Failure)

  /** The sending side: `pending` is the write buffer, `broken` that a write failed or was given up. */
  datatype Outbox = Outbox(encoded: seq<Encoded>, pending: seq<Octet>, wire: seq<Octet>, broken: bool, shut: bool)

  datatype Stream = Stream(config: Config, clock: nat, state: State, deadline: Option<nat>, lateRead: bool, lateReads: nat,
                           batchHasClose: bool, heartbeat: Heartbeat, out: Outbox, inbox: Inbox, results: seq<Outcome>, replied: bool)

  function NewStream(config: Config, heartbeat: Heartbeat, settings: Settings, leftover: seq<Octet>): Stream {
    Stream(config, 0, Open, None, false, 0, false, heartbeat, Outbox([], [], [], false, false), NewInbox(settings, leftover), [], false)
  }

  // ---------------------------------------------------------------------
  // Sending side
  // ---------------------------------------------------------------------

  datatype WriteOutcome = Flushed | GivenUp(accepted: nat, timeout: bool)

  function Encode(o: Outbox, e: Encoded): Outbox {
    o.(encoded := o.encoded + [e], pending := FrameOctets(e))
  }

  function FlushOut(o: Outbox, w: WriteOutcome): Outbox {
    var n := if w.GivenUp? && w.accepted < |o.pending| then w.accepted else |o.pending|;
    o.(wire := o.wire + o.pending[..n], pending := o.pending[n..], broken := o.broken || w.GivenUp?)
  }

  /** Flush and then end the send half. */
  function FinishClose(o: Outbox, w: WriteOutcome, shutdownOk: bool): Outbox {
    FlushOut(o, w).(shut := w.Flushed? && shutdownOk)
  }

  function BeginClosing(s: Stream, now: nat): Stream {
    s.(heartbeat := Stop(s.heartbeat), deadline := if s.deadline.Some? then s.deadline else Some(now + s.config.closeTimeout))
  }

  function Break(s: Stream): Stream {
    s.(state := Closed, heartbeat := Stop(s.heartbeat))
  }

  function Answer(s: Stream, r: Outcome): Stream {
    s.(results := s.results + [r])
  }

  /** The error of an automatic control write that was given up. */
  function ControlFailure(h: Heartbeat, w: WriteOutcome): Failure {
    if w.GivenUp? && w.timeout && NextHardDeadline(h).Some? then
      (if NextHardDeadline(h).value.IdleDue? then IdleTimeout else PongTimeout)
    else ConnectionClosed
  }

  /** Write one control frame on a live stream. */
  function SendControl(s: Stream, e: Encoded, w: WriteOutcome): Stream {
    var t := s.(out := FlushOut(Encode(s.out, e), w));
    if w.Flushed? then t else Break(t)
  }

  // ---------------------------------------------------------------------
  // Receiving
  // ---------------------------------------------------------------------

  datatype ReadResult = Chunk(data: seq<Octet>) | EndOfStream | ReadError

  /** Clock readings before, at and after the wait of a turn, and the outcomes of its transport operations. */
  datatype Input = Input(now: nat, start: nat, after: nat, nonce: nat, key: Option<MaskKey>, write: WriteOutcome, shutdownOk: bool,
                         expired: bool, recoveryExpired: bool, read: Option<ReadResult>)

  function OnInboundMessage(h: Heartbeat, now: nat, m: Message): Heartbeat {
    if h.stopped || (!h.autoPing && h.idleTimeout == 0) then h
    else OnInbound(h, now, if m.PongMessage? then Some(m.data) else None)
  }

  function HandleMessage(s: Stream, i: Input): Stream
    requires s.inbox.batch != []
  {
    var m := s.inbox.batch[0];
    if m.CloseMessage? then HandleClose(s, i)
    else if m.PingMessage? && !s.out.shut && !s.batchHasClose && !(s.deadline.Some? && i.now >= s.deadline.value) then
      var t := SendControl(s, Encoded(PongMessage(m.data), i.key), i.write);
      if i.write.Flushed? then Answer(t.(inbox := Deliver(t.inbox)), Got(m))
      else Answer(t, Failed(ControlFailure(s.heartbeat, i.write)))
    else Answer(s.(inbox := Deliver(s.inbox)), Got(m))
  }

  /** An accepted Close ends the stream; it is answered unless this side has closed already. */
  function HandleClose(s: Stream, i: Input): Stream
    requires s.inbox.batch != []
  {
    var t := BeginClosing(s, i.now);
    var answers := s.state == Open || s.state == ReadErrorPending;
    var out := if answers then Encode(s.out, Encoded(CloseMessage(s.inbox.closing.pending), i.key)) else s.out;
    var done := if s.out.shut then out else FinishClose(out, i.write, i.shutdownOk);
    Answer(t.(state := Closed, out := done, inbox := Discard(Deliver(s.inbox)), replied := s.replied || answers), Got(s.inbox.batch[0]))
  }

  /** Give up on a silent peer: one best-effort Close. */
  function Notify(s: Stream, notice: CloseReason, now: nat, i: Input, failure: Failure): Stream {
    var t := BeginClosing(s, now);
    var out := FinishClose(Encode(t.out, Encoded(CloseMessage(Some(notice)), i.key)), i.write, i.shutdownOk);
    Answer(t.(state := Closed, out := out), Failed(failure))
  }

  function HandleDeadline(s: Stream, d: Deadline, now: nat, i: Input): Stream {
    if d.at > now then s
    else
      match d
      case PingDue(_) =>
        if !PingIsDue(s.heartbeat, now) then s
        else
          var t := SendControl(s.(heartbeat := IssuePing(s.heartbeat, now, i.nonce)),
                               Encoded(PingMessage(PingPayload(i.nonce)), i.key), i.write);
          if i.write.Flushed? then t.(heartbeat := PingFlushed(t.heartbeat, i.after))
          else Answer(t, Failed(ControlFailure(s.heartbeat, i.write)))
      case PongDue(_) => Notify(s, s.config.pongNotice, now, i, PongTimeout)
      case IdleDue(_) => Notify(s, s.config.idleNotice, now, i, IdleTimeout)
  }

  function OnRead(s: Stream, r: Option<ReadResult>): Stream {
    if s.state == Closed || r.None? then s
    else
      match r.value
      case Chunk(data) => s.(inbox := Arrive(s.inbox, data))
      case EndOfStream => Break(s)
      case ReadError => Answer(Break(s), Failed(TransportError))
  }

  function HasCloseMessage(ms: seq<Message>): bool {
    exists i :: 0 <= i < |ms| && ms[i].CloseMessage?
  }

  /** An accepted fragment is activity too. */
  function OnFragment(h: Heartbeat, now: nat, fragment: bool): Heartbeat {
    if fragment && !h.stopped && (h.autoPing || h.idleTimeout != 0) then OnInbound(h, now, None) else h
  }

  /** Parse what is buffered; an error waits behind the messages accepted before it. */
  function ProcessBuffer(s: Stream, i: Input): Stream {
    var fragment := Receive(s.inbox.settings, s.inbox.assembly, s.inbox.buffer).fragment;
    var b := Process(s.inbox);
    s.(inbox := b, batchHasClose := HasCloseMessage(b.batch), heartbeat := OnFragment(s.heartbeat, i.now, fragment),
       state := if b.error.Some? && s.state == Open then ReadErrorPending else s.state)
  }

  /** Recovering the buffer of a read that a due Ping interrupts is itself bounded. */
  function RecoveryLimit(h: Heartbeat, d: Deadline): Option<Deadline> {
    if NextHardDeadline(h).Some? then NextHardDeadline(h)
    else if h.pongTimeout != 0 then Some(PongDue(SaturatingAdd(d.at, h.pongTimeout)))
    else None
  }

  /** A read that starts after the closing deadline is noted. */
  function MarkRead(s: Stream, late: bool): Stream {
    s.(lateRead := s.lateRead || late, lateReads := s.lateReads + if late then 1 else 0)
  }

  /** Read more, under the closing budget, under the heartbeat, or without a bound. */
  function ReadMore(s: Stream, i: Input): Stream {
    var next := NextDeadline(s.heartbeat);
    if s.deadline.Some? && i.now >= s.deadline.value && s.lateRead then
      Answer(s.(state := Closed, out := s.out.(shut := s.out.shut || (s.out.pending == [] && i.shutdownOk))), Failed(ConnectionClosed))
    else if s.deadline.Some? then
      var t := MarkRead(s, i.start >= s.deadline.value);
      if i.read.None? then Answer(t.(state := Closed), Failed(ConnectionClosed)) else OnRead(t, i.read)
    else if next.Some? && i.expired then
      var limit := RecoveryLimit(s.heartbeat, next.value);
      if !next.value.PingDue? then HandleDeadline(s, next.value, i.after, i)
      else if i.recoveryExpired && limit.Some? then HandleDeadline(s, limit.value, i.after, i)
      else OnRead(HandleDeadline(s, next.value, i.after, i), i.read)
    else OnRead(s, i.read)
  }

  /** One turn of `next`. A turn that returns appends to the results, except the plain end of the stream. */
  function NextTurn(s: Stream, i: Input): Stream {
    if s.state == Closed then s
    else if s.inbox.batch != [] then
      HandleMessage(s.(heartbeat := OnInboundMessage(s.heartbeat, i.now, s.inbox.batch[0])), i)
    else if s.inbox.error.Some? then Answer(Break(s), Failed(ParseFailure(s.inbox.error.value)))
    else if NextDeadline(s.heartbeat).Some? && NextDeadline(s.heartbeat).value.at <= i.now then
      HandleDeadline(s, NextDeadline(s.heartbeat).value, i.now, i)
    else
      var t := ProcessBuffer(s, i);
      if t.inbox.batch != [] || t.inbox.error.Some? then t else ReadMore(t, i)
  }

  // ---------------------------------------------------------------------
  // The other calls
  // ---------------------------------------------------------------------

  function Send(s: Stream, m: Message, encodes: bool, i: Input): Stream {
    if s.state != Open then s
    else
      var t := if m.CloseMessage? then BeginClosing(s.(state := CloseSent), i.now) else s;
      if encodes then SendControl(t.(inbox := NoteSent(t.inbox, m)), Encoded(m, i.key), i.write) else t
  }

  /** Send a Close; multiplexed transports end the send half at once. */
  function CloseCall(s: Stream, reason: CloseReason, encodes: bool, i: Input): Stream {
    if s.state != Open then s
    else
      var t := Send(s, CloseMessage(Some(reason)), encodes, i);
      if !encodes || t.state == Closed || !s.config.immediateShutdown then t
      else if i.shutdownOk then t.(out := t.out.(shut := true))
      else t.(state := Closed)
  }

  function Flush(s: Stream, i: Input): Stream {
    if s.state == Closed then s
    else
      var t := s.(out := FlushOut(s.out, i.write));
      if i.write.Flushed? then t else Break(t)
  }

  datatype Event =
    | Next(i: Input)
    | SendEvent(m: Message, encodes: bool, i: Input)
    | CloseEvent(reason: CloseReason, encodes: bool, i: Input)
    | FlushEvent(i: Input)
    // A write that was given up may still be completed by the kernel.
    | KernelAccepts(n: nat)

  /** The clock never runs backwards. */
  predicate InTime(s: Stream, i: Input) {
    s.clock <= i.now <= i.start <= i.after
  }

  /** One step; an event that is not enabled changes nothing. */
  function Step(s: Stream, e: Event): Stream {
    match e
    case Next(i) => if InTime(s, i) then NextTurn(s.(clock := i.after), i) else s
    case SendEvent(m, encodes, i) => if InTime(s, i) then Send(s.(clock := i.after), m, encodes, i) else s
    case CloseEvent(reason, encodes, i) => if InTime(s, i) then CloseCall(s.(clock := i.after), reason, encodes, i) else s
    case FlushEvent(i) => if InTime(s, i) then Flush(s.(clock := i.after), i) else s
    case KernelAccepts(n) =>
      if s.out.broken && n <= |s.out.pending| then
        s.(out := s.out.(wire := s.out.wire + s.out.pending[..n], pending := s.out.pending[n..]))
      else s
  }

  function Run(s: Stream, es: seq<Event>): Stream {
    if es == [] then s else Step(Run(s, es[..|es| - 1]), es[|es| - 1])
  }
}
