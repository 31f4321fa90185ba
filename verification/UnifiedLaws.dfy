/**
 What the unified stream must do in every turn and call: each case of a turn has its effect on
 results, frames, timers and inbox; over runs, the Pongs it sends are those for the Pings it takes.
 */
module UnifiedLaws {
  import opened Octets
  import opened Masking
  import opened Messages
  import opened Heartbeats
  import opened Outbound
  import opened Inboxes
  import opened UnifiedStreams
  import opened UnifiedSafety
  import opened UnifiedDelivery

  // ---------------------------------------------------------------------
  // Messages
  // ---------------------------------------------------------------------

  /** A turn takes the next message of a batch. */
  predicate Takes(s: Stream, e: UnifiedStreams.Event) {
    e.Next? && InTime(s, e.i) && s.state != Closed && s.inbox.batch != []
  }

  /** The turn takes a Ping, may still send, has no Close in its batch and has not used up its closing budget. */
  predicate MustPong(s: Stream, e: UnifiedStreams.Event) {
    && Takes(s, e) && s.inbox.batch[0].PingMessage? && !s.out.shut
    && (forall k :: 0 <= k < |s.inbox.batch| ==> !s.inbox.batch[k].CloseMessage?)
    && !(s.deadline.Some? && e.i.now >= s.deadline.value)
  }

  /** Frame `f` was encoded and then flushed, or given up with the stream. */
  predicate Writes(s: Stream, t: Stream, f: Encoded, w: WriteOutcome) {
    && t.out.encoded == s.out.encoded + [f]
    && (w.Flushed? ==> t.out.wire == s.out.wire + FrameOctets(f) && t.out.pending == [] && t.out.broken == s.out.broken)
    && (w.GivenUp? ==> t.out.broken && t.state == Closed && t.out.wire + t.out.pending == s.out.wire + FrameOctets(f))
  }

  lemma FlushWrites(o: Outbox, f: Encoded, w: WriteOutcome)
    ensures var o' := FlushOut(Encode(o, f), w);
            && o'.encoded == o.encoded + [f] && o'.shut == o.shut && o'.broken == (o.broken || w.GivenUp?)
            && o'.wire + o'.pending == o.wire + FrameOctets(f) && (w.Flushed? ==> o'.pending == [] && o'.wire == o.wire + FrameOctets(f))
  {
    hide FrameOctets;
    var p := FrameOctets(f);
    var n := if w.GivenUp? && w.accepted < |p| then w.accepted else |p|;
    assert o.wire + p[..n] + p[n..] == o.wire + p;
    assert p[..|p|] == p;
  }

  lemma ControlIsWritten(s: Stream, f: Encoded, w: WriteOutcome)
    ensures var t := SendControl(s, f, w);
            Writes(s, t, f, w) && t.results == s.results && t.state == (if w.Flushed? then s.state else Closed) && t.inbox == s.inbox
            && (w.Flushed? ==> t.heartbeat == s.heartbeat)
  {
    hide FrameOctets, FlushOut, Encode;
    FlushWrites(s.out, f, w);
  }

  /** A heartbeat that keeps track of traffic, after some that is not a Pong. */
  function Noticed(h: Heartbeat, now: nat): Heartbeat {
    if h.stopped || (!h.autoPing && h.idleTimeout == 0) then h else OnInbound(h, now, None)
  }

  /** The error of a write that was given up: the hard deadline that ran out, or the lost connection. */
  predicate IsWriteFailure(h: Heartbeat, w: WriteOutcome, r: Outcome) {
    var hard := NextHardDeadline(h);
    r == Failed(if w.GivenUp? && w.timeout && hard.Some? then (if hard.value.PongDue? then PongTimeout else IdleTimeout) else ConnectionClosed)
  }

  /**
   A Ping that must be answered is answered in its own turn, with its own payload, and then returned;
   if the Pong cannot be written the stream ends with an error instead.
   */
  lemma PingIsAnswered(s: Stream, e: UnifiedStreams.Event)
    requires FlagOk(s) && MustPong(s, e)
    ensures var t, data := Step(s, e), s.inbox.batch[0].data;
            && Writes(s, t, Encoded(PongMessage(data), e.i.key), e.i.write)
            && (e.i.write.Flushed? ==> t.results == s.results + [Got(PingMessage(data))] && t.state == s.state && t.inbox.batch == s.inbox.batch[1..])
            && (e.i.write.GivenUp? ==> |t.results| == |s.results| + 1 && s.results <= t.results
                                       && IsWriteFailure(Noticed(s.heartbeat, e.i.now), e.i.write, t.results[|s.results|]))
  {
    hide FrameOctets, OnInbound, NextHardDeadline, SendControl, Writes;
    var c := s.(clock := e.i.after, heartbeat := OnInboundMessage(s.heartbeat, e.i.now, s.inbox.batch[0]));
    HardIsNoPing(c.heartbeat);
    ControlIsWritten(c, Encoded(PongMessage(s.inbox.batch[0].data), e.i.key), e.i.write);
    SameOut(s, c, Step(s, e), Encoded(PongMessage(s.inbox.batch[0].data), e.i.key), e.i.write);
  }

  lemma HardIsNoPing(h: Heartbeat)
    ensures NextHardDeadline(h).Some? ==> !NextHardDeadline(h).value.PingDue?
  {
  }

  /** What was written shows in the send side alone. */
  lemma SameOut(s: Stream, c: Stream, t: Stream, f: Encoded, w: WriteOutcome)
    requires c.out == s.out
    ensures forall u: Stream :: u.out == t.out && u.state == t.state && Writes(c, u, f, w) ==> Writes(s, t, f, w)
  {
    hide FrameOctets;
  }

  /** Every other message but a Close is returned, and nothing is written. */
  lemma MessageIsReturned(s: Stream, e: UnifiedStreams.Event)
    requires FlagOk(s) && Takes(s, e) && !MustPong(s, e) && !s.inbox.batch[0].CloseMessage?
    ensures var t := Step(s, e);
            && t.results == s.results + [Got(s.inbox.batch[0])] && t.state == s.state && t.out == s.out && t.deadline == s.deadline
            && t.inbox.batch == s.inbox.batch[1..]
  {
    hide FrameOctets, OnInbound, NextHardDeadline;
  }

  /** Every message that is taken counts as activity, a Pong also as an answer. */
  lemma MessageIsActivity(s: Stream, e: UnifiedStreams.Event)
    requires Takes(s, e) && !s.heartbeat.stopped && (s.heartbeat.autoPing || s.heartbeat.idleTimeout != 0) && Step(s, e).state != Closed
    ensures var m := s.inbox.batch[0];
            Step(s, e).heartbeat == OnInbound(s.heartbeat, e.i.now, if m.PongMessage? then Some(m.data) else None)
  {
    hide FrameOctets, OnInbound, NextHardDeadline;
  }

  /**
   A Close is returned and ends the stream. It is answered unless this side sent one, and the send
   half is shut down once everything is flushed.
   */
  lemma CloseIsAnswered(s: Stream, e: UnifiedStreams.Event)
    requires Takes(s, e) && s.inbox.batch[0].CloseMessage?
    ensures var t := Step(s, e);
            && t.results == s.results + [Got(s.inbox.batch[0])] && t.state == Closed && t.inbox.batch == [] && t.inbox.buffer == []
            && t.deadline == (if s.deadline.Some? then s.deadline else Some(e.i.now + s.config.closeTimeout))
            && (s.state == CloseSent ==> t.out.encoded == s.out.encoded)
            && (s.state != CloseSent ==> t.out.encoded == s.out.encoded + [Encoded(CloseMessage(s.inbox.closing.pending), e.i.key)])
            && (s.state != CloseSent && !s.out.shut ==> Writes(s, t, Encoded(CloseMessage(s.inbox.closing.pending), e.i.key), e.i.write))
            && (!s.out.shut ==> (t.out.shut <==> e.i.write.Flushed? && e.i.shutdownOk))
  {
    hide FrameOctets, OnInbound, NextHardDeadline, FlushOut, Encode;
    FlushWrites(s.out, Encoded(CloseMessage(s.inbox.closing.pending), e.i.key), e.i.write);
    FlushFlags(s.out, e.i.write);
    EncodeFlags(s.out, Encoded(CloseMessage(s.inbox.closing.pending), e.i.key));
    FlushKeepsEncoded(s.out, e.i.write);
    EncodeAdds(s.out, Encoded(CloseMessage(s.inbox.closing.pending), e.i.key));
  }

  lemma FlushKeepsEncoded(o: Outbox, w: WriteOutcome)
    ensures FlushOut(o, w).encoded == o.encoded
  {
  }

  lemma EncodeAdds(o: Outbox, f: Encoded)
    ensures Encode(o, f).encoded == o.encoded + [f]
  {
  }

  // ---------------------------------------------------------------------
  // Deadlines
  // ---------------------------------------------------------------------

  /**
   What reaching deadline `x` at `now` does: the Ping that is due is sent and outstanding, and its
   timeout runs from its flush; a silent or idle peer is sent the notice and the stream ends.
   */
  predicate Acts(s: Stream, t: Stream, x: Deadline, now: nat, i: Input) {
    if x.at > now || (x.PingDue? && !PingIsDue(s.heartbeat, now)) then t == s
    else if x.PingDue? then
      && Writes(s, t, Encoded(PingMessage(PingPayload(i.nonce)), i.key), i.write)
      && (i.write.Flushed? ==>
            && t.results == s.results && t.state == s.state && t.inbox == s.inbox
            && t.heartbeat == PingFlushed(s.heartbeat.(outstanding := Some(OutstandingPing(PingPayload(i.nonce), None, false, false))), i.after))
      && (i.write.GivenUp? ==> |t.results| == |s.results| + 1 && s.results <= t.results
                               && IsWriteFailure(s.heartbeat, i.write, t.results[|s.results|]))
    else
      && Writes(s, t, Encoded(CloseMessage(Some(if x.PongDue? then s.config.pongNotice else s.config.idleNotice)), i.key), i.write)
      && t.state == Closed && t.results == s.results + [Failed(if x.PongDue? then PongTimeout else IdleTimeout)]
      && (t.out.shut <==> i.write.Flushed? && i.shutdownOk)
  }

  lemma PingActs(s: Stream, x: Deadline, now: nat, i: Input)
    requires x.PingDue? && x.at <= now && PingIsDue(s.heartbeat, now)
    ensures Acts(s, HandleDeadline(s, x, now, i), x, now, i)
  {
    hide FrameOctets, NextHardDeadline, NextDeadline, PingPayload, PingFlushed, PingIsDue, SendControl, Writes;
    var c, f := s.(heartbeat := IssuePing(s.heartbeat, now, i.nonce)), Encoded(PingMessage(PingPayload(i.nonce)), i.key);
    HardIsNoPing(s.heartbeat);
    ControlIsWritten(c, f, i.write);
    SameOut(s, c, HandleDeadline(s, x, now, i), f, i.write);
  }

  lemma NoticeActs(s: Stream, x: Deadline, now: nat, i: Input)
    requires !x.PingDue?
    ensures Acts(s, HandleDeadline(s, x, now, i), x, now, i)
  {
    hide FrameOctets, NextHardDeadline, NextDeadline, PingPayload, FlushOut, Encode;
    FlushWrites(s.out, Encoded(CloseMessage(Some(if x.PongDue? then s.config.pongNotice else s.config.idleNotice)), i.key), i.write);
  }

  lemma DeadlineActs(s: Stream, x: Deadline, now: nat, i: Input)
    ensures Acts(s, HandleDeadline(s, x, now, i), x, now, i)
  {
    if x.PingDue? && x.at <= now && PingIsDue(s.heartbeat, now) {
      hide HandleDeadline, Acts;
      PingActs(s, x, now, i);
    } else if !x.PingDue? {
      hide HandleDeadline, Acts;
      NoticeActs(s, x, now, i);
    } else {
      hide SendControl, Notify, PingIsDue;
    }
  }

  /** A turn with nothing to return. */
  predicate Looks(s: Stream, e: UnifiedStreams.Event) {
    e.Next? && InTime(s, e.i) && s.state != Closed && s.inbox.batch == [] && s.inbox.error.None?
  }

  predicate IsDue(s: Stream, now: nat) {
    NextDeadline(s.heartbeat).Some? && NextDeadline(s.heartbeat).value.at <= now
  }

  /** An error that waited behind its messages is reported, and ends the stream. */
  lemma ErrorIsReported(s: Stream, e: UnifiedStreams.Event)
    requires e.Next? && InTime(s, e.i) && s.state != Closed && s.inbox.batch == [] && s.inbox.error.Some?
    ensures var t := Step(s, e);
            t.state == Closed && t.results == s.results + [Failed(ParseFailure(s.inbox.error.value))] && t.out == s.out
  {
    hide HandleDeadline, ProcessBuffer, ReadMore, NextDeadline;
  }

  /** A deadline that is reached is acted on before anything is parsed or read. */
  lemma DueDeadlineActs(s: Stream, e: UnifiedStreams.Event)
    requires Looks(s, e) && IsDue(s, e.i.now)
    ensures Acts(s.(clock := e.i.after), Step(s, e), NextDeadline(s.heartbeat).value, e.i.now, e.i)
  {
    hide HandleDeadline, ProcessBuffer, ReadMore, NextDeadline, Acts;
    DeadlineActs(s.(clock := e.i.after), NextDeadline(s.heartbeat).value, e.i.now, e.i);
  }

  // ---------------------------------------------------------------------
  // Parsing and reading
  // ---------------------------------------------------------------------

  /** Otherwise what is buffered is parsed: its messages are the next batch and its error waits behind them. */
  lemma BufferIsParsed(s: Stream, e: UnifiedStreams.Event)
    requires Looks(s, e) && !IsDue(s, e.i.now)
    requires var r := Receive(s.inbox.settings, s.inbox.assembly, s.inbox.buffer); r.messages != [] || r.error.Some?
    ensures var t, r := Step(s, e), Receive(s.inbox.settings, s.inbox.assembly, s.inbox.buffer);
            && t.inbox.batch == r.messages && t.inbox.error == r.error && t.inbox.buffer == r.rest && t.inbox.assembly == r.assembly
            && t.out == s.out && t.results == s.results && t.deadline == s.deadline && t.heartbeat == AfterFragment(s, e.i, r.fragment)
            && t.state == (if r.error.Some? && s.state == Open then ReadErrorPending else s.state)
  {
    hide HandleDeadline, ReadMore, NextDeadline, Receive, HasCloseMessage, OnInbound;
  }

  /** The heartbeat after parsing: an accepted fragment is activity. */
  function AfterFragment(s: Stream, i: Input, fragment: bool): Heartbeat {
    if fragment && !s.heartbeat.stopped && (s.heartbeat.autoPing || s.heartbeat.idleTimeout != 0)
    then OnInbound(s.heartbeat, i.now, None) else s.heartbeat
  }

  /** Nothing to return, nothing due, nothing to parse: the turn reads. */
  ghost predicate Reads(s: Stream, e: UnifiedStreams.Event) {
    && Looks(s, e) && !IsDue(s, e.i.now)
    && var r := Receive(s.inbox.settings, s.inbox.assembly, s.inbox.buffer); r.messages == [] && r.error.None?
  }

  /** The stream in the middle of such a turn. */
  predicate Parsed(s: Stream, e: UnifiedStreams.Event, c: Stream)
    requires e.Next?
  {
    var r := Receive(s.inbox.settings, s.inbox.assembly, s.inbox.buffer);
    && c.state == s.state && c.out == s.out && c.results == s.results && c.deadline == s.deadline && c.config == s.config
    && c.lateRead == s.lateRead && c.lateReads == s.lateReads && c.heartbeat == AfterFragment(s, e.i, r.fragment)
    && c.inbox.buffer == r.rest && c.inbox.assembly == r.assembly && c.inbox.arrived == s.inbox.arrived && c.inbox.batch == []
    && c.inbox.settings == s.inbox.settings
  }

  lemma ParsesFirst(s: Stream, e: UnifiedStreams.Event)
    requires Reads(s, e)
    ensures var c := ProcessBuffer(s.(clock := e.i.after), e.i); Parsed(s, e, c) && Step(s, e) == ReadMore(c, e.i)
  {
    hide HandleDeadline, ReadMore, NextDeadline, Receive, HasCloseMessage, OnInbound;
  }

  /** What a read brings: octets to parse, the end of the stream, or an error. */
  predicate Brings(c: Stream, t: Stream, r: Option<UnifiedStreams.ReadResult>) {
    && t.out == c.out && t.deadline == c.deadline
    && (if r.Some? && r.value.Chunk? then
          t.state == c.state && t.results == c.results && t.inbox.buffer == c.inbox.buffer + r.value.data
          && t.inbox.arrived == c.inbox.arrived + r.value.data
        else if r.Some? && r.value.EndOfStream? then t.state == Closed && t.results == c.results && t.inbox == c.inbox
        else if r.Some? then t.state == Closed && t.results == c.results + [Failed(TransportError)] && t.inbox == c.inbox
        else t == c)
  }

  lemma ReadBrings(c: Stream, r: Option<UnifiedStreams.ReadResult>)
    requires c.state != Closed
    ensures Brings(c, OnRead(c, r), r)
  {
  }

  /**
   The read of an open stream that no deadline interrupts brings what it brings; one that a deadline
   interrupts acts on the deadline, and for a due Ping then takes what the read returns, unless
   getting it back takes too long.
   */
  lemma OpenRead(s: Stream, e: UnifiedStreams.Event) returns (c: Stream, u: Stream)
    requires Reads(s, e) && s.deadline.None?
    ensures Parsed(s, e, c)
    ensures var t, x := Step(s, e), NextDeadline(c.heartbeat);
            if x.None? || !e.i.expired then Brings(c, t, e.i.read)
            else if !x.value.PingDue? then Acts(c, t, x.value, e.i.after, e.i)
            else if e.i.recoveryExpired && (NextHardDeadline(c.heartbeat).Some? || c.heartbeat.pongTimeout != 0) then
              var limit := if NextHardDeadline(c.heartbeat).Some? then NextHardDeadline(c.heartbeat).value
                           else PongDue(SaturatingAdd(x.value.at, c.heartbeat.pongTimeout));
              Acts(c, t, limit, e.i.after, e.i)
            else Acts(c, u, x.value, e.i.after, e.i) && (if u.state == Closed then t == u else Brings(u, t, e.i.read))
  {
    hide HandleDeadline, NextDeadline, NextHardDeadline, Receive, OnRead, Acts, Brings, Step, ProcessBuffer, Parsed, OnInbound;
    ParsesFirst(s, e);
    c := ProcessBuffer(s.(clock := e.i.after), e.i);
    u := c;
    StaysUnclosed(s, e, c);
    ReadBrings(c, e.i.read);
    var x := NextDeadline(c.heartbeat);
    if x.Some? {
      u := HandleDeadline(c, x.value, e.i.after, e.i);
      DeadlineActs(c, x.value, e.i.after, e.i);
      if u.state != Closed {
        ReadBrings(u, e.i.read);
      } else {
        ClosedReadsNothing(u, e.i.read);
      }
      if RecoveryLimit(c.heartbeat, x.value).Some? {
        DeadlineActs(c, RecoveryLimit(c.heartbeat, x.value).value, e.i.after, e.i);
      }
    }
  }

  lemma StaysUnclosed(s: Stream, e: UnifiedStreams.Event, c: Stream)
    requires Reads(s, e) && Parsed(s, e, c)
    ensures c.state != Closed && c.deadline == s.deadline
  {
    hide Receive;
  }

  lemma ClosedReadsNothing(u: Stream, r: Option<UnifiedStreams.ReadResult>)
    requires u.state == Closed
    ensures OnRead(u, r) == u
  {
  }

  /**
   Under the closing budget: one read may start after the deadline and it is counted; a wait that runs
   out ends the stream, and so does a turn that begins after that one late read.
   */
  lemma ClosingRead(s: Stream, e: UnifiedStreams.Event) returns (c: Stream)
    requires Reads(s, e) && s.deadline.Some?
    ensures var t, late := Step(s, e), e.i.start >= s.deadline.value;
            if e.i.now >= s.deadline.value && s.lateRead then
              && t.state == Closed && t.results == s.results + [Failed(ConnectionClosed)] && t.out.encoded == s.out.encoded && t.out.wire == s.out.wire
              && (t.out.shut <==> s.out.shut || (s.out.pending == [] && e.i.shutdownOk)) && t.lateReads == s.lateReads
            else
              && Parsed(s, e, c.(lateRead := s.lateRead, lateReads := s.lateReads))
              && (c.lateRead <==> s.lateRead || late) && c.lateReads == s.lateReads + (if late then 1 else 0)
              && (if e.i.read.None? then t.state == Closed && t.results == s.results + [Failed(ConnectionClosed)] && t.out == s.out
                  else Brings(c, t, e.i.read))
  {
    hide HandleDeadline, NextDeadline, NextHardDeadline, Receive, OnRead, Brings, Step, ProcessBuffer, OnInbound, AfterFragment;
    ParsesFirst(s, e);
    var p := ProcessBuffer(s.(clock := e.i.after), e.i);
    StaysUnclosed(s, e, p);
    c := MarkRead(p, e.i.start >= s.deadline.value);
    ReadBrings(c, e.i.read);
  }

  // ---------------------------------------------------------------------
  // Sending, closing and flushing
  // ---------------------------------------------------------------------

  /** A message sent on an open stream is written, whatever its kind. Later sends do nothing. */
  lemma SendIsWritten(s: Stream, m: Message, encodes: bool, i: Input)
    requires InTime(s, i)
    ensures var t := Step(s, SendEvent(m, encodes, i));
            && t.results == s.results && t.inbox.batch == s.inbox.batch && t.inbox.buffer == s.inbox.buffer
            && (s.state != Open ==> t == s.(clock := i.after))
            && (s.state == Open ==>
                  && (encodes ==> Writes(s, t, Encoded(m, i.key), i.write)) && (!encodes ==> t.out == s.out)
                  && t.state == (if encodes && i.write.GivenUp? then Closed else if m.CloseMessage? then CloseSent else Open))
  {
    hide FrameOctets, SendControl, Writes, Send, NextTurn, CloseCall, Flush;
    OpenSend(s.(clock := i.after), m, encodes, i);
    if s.state == Open {
      var u := if m.CloseMessage? then BeginClosing(s.(clock := i.after, state := CloseSent), i.now) else s.(clock := i.after);
      var c := u.(inbox := NoteSent(u.inbox, m));
      ControlIsWritten(c, Encoded(m, i.key), i.write);
      SameOut(s, c, Step(s, SendEvent(m, encodes, i)), Encoded(m, i.key), i.write);
    }
  }

  /** Sending a Close, written or not, starts the closing budget and stops the heartbeat; nothing else does. */
  lemma SentCloseStartsBudget(s: Stream, m: Message, encodes: bool, i: Input)
    requires InTime(s, i) && s.state == Open
    ensures var t := Step(s, SendEvent(m, encodes, i));
            && (!m.CloseMessage? ==> t.deadline == s.deadline)
            && (m.CloseMessage? ==> t.heartbeat.stopped
                                    && t.deadline == (if s.deadline.Some? then s.deadline else Some(i.now + s.config.closeTimeout)))
  {
    hide SendControl, Send, NextTurn, CloseCall, Flush;
    OpenSend(s.(clock := i.after), m, encodes, i);
    var u := if m.CloseMessage? then BeginClosing(s.(clock := i.after, state := CloseSent), i.now) else s.(clock := i.after);
    ControlKeeps(u.(inbox := NoteSent(u.inbox, m)), Encoded(m, i.key), i.write);
  }

  lemma OpenSend(s: Stream, m: Message, encodes: bool, i: Input)
    ensures s.state != Open ==> Send(s, m, encodes, i) == s
    ensures s.state == Open ==>
              var u := if m.CloseMessage? then BeginClosing(s.(state := CloseSent), i.now) else s;
              Send(s, m, encodes, i) == if encodes then SendControl(u.(inbox := NoteSent(u.inbox, m)), Encoded(m, i.key), i.write) else u
  {
    hide FrameOctets, SendControl, Stop;
  }

  lemma ControlKeeps(s: Stream, f: Encoded, w: WriteOutcome)
    ensures var t := SendControl(s, f, w); t.deadline == s.deadline && t.config == s.config && (s.heartbeat.stopped ==> t.heartbeat.stopped)
  {
    hide FlushOut, Encode;
  }

  /** A close sends the Close and, on transports that end the send half at once, does so or gives up the stream. */
  lemma CloseIsWritten(s: Stream, reason: CloseReason, encodes: bool, i: Input)
    requires InTime(s, i) && s.state == Open
    ensures var t := Step(s, CloseEvent(reason, encodes, i));
            var u := Step(s, SendEvent(CloseMessage(Some(reason)), encodes, i));
            if encodes && i.write.Flushed? && s.config.immediateShutdown then
              t == (if i.shutdownOk then u.(out := u.out.(shut := true)) else u.(state := Closed))
            else t == u
  {
    hide Send, NextTurn, Flush, Writes;
    SendIsWritten(s, CloseMessage(Some(reason)), encodes, i);
  }

  /** A flush leaves nothing behind, or gives up the stream. */
  lemma FlushIsDone(s: Stream, i: Input)
    requires InTime(s, i) && s.state != Closed
    ensures var t := Step(s, FlushEvent(i));
            && t.results == s.results && t.inbox == s.inbox && t.out.encoded == s.out.encoded
            && t.out.wire + t.out.pending == s.out.wire + s.out.pending
            && (i.write.Flushed? ==> t.out.pending == [] && t.state == s.state)
            && (i.write.GivenUp? ==> t.state == Closed && t.out.broken)
  {
    hide NextTurn, Send, CloseCall;
    var n := if i.write.GivenUp? && i.write.accepted < |s.out.pending| then i.write.accepted else |s.out.pending|;
    assert s.out.wire + s.out.pending[..n] + s.out.pending[n..] == s.out.wire + s.out.pending;
  }

  // ---------------------------------------------------------------------
  // Pings and Pongs over runs
  // ---------------------------------------------------------------------

  function NewFrames(s: Stream, t: Stream): seq<Encoded> {
    if |s.out.encoded| <= |t.out.encoded| then t.out.encoded[|s.out.encoded|..] else []
  }

  function Pongs(es: seq<Encoded>): seq<seq<Octet>> {
    if es == [] then []
    else Pongs(es[..|es| - 1]) + (if es[|es| - 1].message.PongMessage? then [es[|es| - 1].message.data] else [])
  }

  /** The payloads of the Pongs that turns of `next` have encoded. */
  function PongsOfTurns(s: Stream, es: seq<UnifiedStreams.Event>): seq<seq<Octet>> {
    if es == [] then []
    else
      var t, e := Run(s, es[..|es| - 1]), es[|es| - 1];
      PongsOfTurns(s, es[..|es| - 1]) + (if e.Next? then Pongs(NewFrames(t, Step(t, e))) else [])
  }

  /** The payloads of the Pings that had to be answered. */
  function PingsToAnswer(s: Stream, es: seq<UnifiedStreams.Event>): seq<seq<Octet>> {
    if es == [] then []
    else
      var t, e := Run(s, es[..|es| - 1]), es[|es| - 1];
      PingsToAnswer(s, es[..|es| - 1]) + (if MustPong(t, e) then [t.inbox.batch[0].data] else [])
  }

  /** The payloads of the Pings that had to be answered and were returned. */
  function PingsReturned(s: Stream, es: seq<UnifiedStreams.Event>): seq<seq<Octet>> {
    if es == [] then []
    else
      var t, e := Run(s, es[..|es| - 1]), es[|es| - 1];
      var n := |t.results|;
      var u := Step(t, e);
      PingsReturned(s, es[..|es| - 1])
      + (if MustPong(t, e) && n < |u.results| && u.results[n].Got? && u.results[n].message.PingMessage? then [u.results[n].message.data] else [])
  }

  lemma PongsOfOne(f: Encoded)
    ensures Pongs([f]) == if f.message.PongMessage? then [f.message.data] else []
  {
    assert [f][..0] == [];
    assert Pongs([]) == [];
  }

  /** Turns that take no Ping they must answer encode no Pong. */
  lemma OtherTurnsSendNoPong(s: Stream, e: UnifiedStreams.Event)
    requires FlagOk(s) && e.Next? && !MustPong(s, e)
    ensures Pongs(NewFrames(s, Step(s, e))) == []
  {
    hide FrameOctets, OnInbound, NextHardDeadline, Step, FlagOk, MustPong;
    if !InTime(s, e.i) || s.state == Closed {
      StandsStill(s, e);
    } else if s.inbox.batch == [] {
      EmptyTurnSendsNoPong(s, e);
    } else if s.inbox.batch[0].CloseMessage? {
      CloseIsAnswered(s, e);
      var t, f := Step(s, e), Encoded(CloseMessage(s.inbox.closing.pending), e.i.key);
      if s.state != CloseSent {
        assert NewFrames(s, t) == [f];
        PongsOfOne(f);
      } else {
        assert NewFrames(s, t) == [];
      }
    } else {
      MessageIsReturned(s, e);
      assert NewFrames(s, Step(s, e)) == [];
    }
  }

  lemma StandsStill(s: Stream, e: UnifiedStreams.Event)
    requires e.Next? && (!InTime(s, e.i) || s.state == Closed)
    ensures Step(s, e).out == s.out && NewFrames(s, Step(s, e)) == []
  {
    hide HandleMessage, HandleDeadline, ProcessBuffer, ReadMore, NextDeadline;
  }

  predicate AddsNoPong(s: Stream, t: Stream) {
    || t.out.encoded == s.out.encoded
    || (|t.out.encoded| == |s.out.encoded| + 1 && s.out.encoded <= t.out.encoded && !t.out.encoded[|s.out.encoded|].message.PongMessage?)
  }

  lemma NoPongAdded(s: Stream, t: Stream)
    requires AddsNoPong(s, t)
    ensures Pongs(NewFrames(s, t)) == []
  {
    if t.out.encoded != s.out.encoded {
      assert NewFrames(s, t) == [t.out.encoded[|s.out.encoded|]];
      PongsOfOne(t.out.encoded[|s.out.encoded|]);
    }
  }

  /** A deadline brings a Ping or a Close at most. */
  lemma DeadlineSendsNoPong(s: Stream, d: Deadline, now: nat, i: Input)
    ensures AddsNoPong(s, HandleDeadline(s, d, now, i))
  {
    hide FrameOctets, HandleDeadline, PingPayload, PingFlushed, PingIsDue;
    DeadlineActs(s, d, now, i);
  }

  lemma ReadSendsNothing(s: Stream, r: Option<UnifiedStreams.ReadResult>)
    ensures OnRead(s, r).out == s.out
  {
  }

  lemma ReadMoreSendsNoPong(s: Stream, i: Input)
    ensures AddsNoPong(s, ReadMore(s, i))
  {
    hide OnRead, HandleDeadline, NextDeadline, RecoveryLimit;
    ReadSendsNothing(s, i.read);
    if s.deadline.Some? {
      ReadSendsNothing(MarkRead(s, i.start >= s.deadline.value), i.read);
    } else if NextDeadline(s.heartbeat).Some? {
      var d := NextDeadline(s.heartbeat).value;
      DeadlineSendsNoPong(s, d, i.after, i);
      ReadSendsNothing(HandleDeadline(s, d, i.after, i), i.read);
      if RecoveryLimit(s.heartbeat, d).Some? {
        DeadlineSendsNoPong(s, RecoveryLimit(s.heartbeat, d).value, i.after, i);
      }
    }
  }

  lemma EmptyTurnSendsNoPong(s: Stream, e: UnifiedStreams.Event)
    requires e.Next? && InTime(s, e.i) && s.state != Closed && s.inbox.batch == []
    ensures Pongs(NewFrames(s, Step(s, e))) == []
  {
    hide HandleDeadline, ReadMore, NextDeadline, Receive, OnFragment, HasCloseMessage, Pongs, NewFrames;
    var c, i := s.(clock := e.i.after), e.i;
    if NextDeadline(c.heartbeat).Some? {
      DeadlineSendsNoPong(c, NextDeadline(c.heartbeat).value, i.now, i);
    }
    ReadMoreSendsNoPong(ProcessBuffer(c, i), i);
    NoPongAdded(s, Step(s, e));
  }

  lemma MustPongSends(s: Stream, e: UnifiedStreams.Event)
    requires FlagOk(s) && MustPong(s, e)
    ensures Pongs(NewFrames(s, Step(s, e))) == [s.inbox.batch[0].data]
  {
    hide Step, FlagOk, FrameOctets;
    PingIsAnswered(s, e);
    var f := Encoded(PongMessage(s.inbox.batch[0].data), e.i.key);
    assert NewFrames(s, Step(s, e)) == [f];
    PongsOfOne(f);
  }

  /**
   Over every run: the Pongs that turns encode are, one to one and in order, those for the Pings
   that had to be answered. All of these Pings were returned, but for one whose Pong broke the stream.
   */
  lemma {:induction false} PongsAnswerPings(s: Stream, es: seq<UnifiedStreams.Event>)
    requires FlagOk(s)
    ensures PongsOfTurns(s, es) == PingsToAnswer(s, es)
    ensures var returned, all := PingsReturned(s, es), PingsToAnswer(s, es);
            || returned == all
            || (Run(s, es).state == Closed && Run(s, es).out.broken && all != [] && returned == all[..|all| - 1])
    decreases |es|
  {
    hide Step, FlagOk, MustPong, Pongs, NewFrames;
    if es != [] {
      var front, e := es[..|es| - 1], es[|es| - 1];
      var t := Run(s, front);
      PongsAnswerPings(s, front);
      RunKeepsFlag(s, front);
      if MustPong(t, e) {
        MustPongSends(t, e);
        PingIsAnswered(t, e);
        AnswerIsLive(t, e);
      } else {
        if t.state == Closed && t.out.broken {
          StaysBroken(t, e);
        }
        if e.Next? {
          OtherTurnsSendNoPong(t, e);
        }
      }
    }
  }

  lemma AnswerIsLive(s: Stream, e: UnifiedStreams.Event)
    requires MustPong(s, e)
    ensures s.state != Closed && e.Next?
  {
  }

  lemma StaysBroken(s: Stream, e: UnifiedStreams.Event)
    requires s.state == Closed && s.out.broken
    ensures Step(s, e).state == Closed && Step(s, e).out.broken
  {
    hide HandleMessage, HandleDeadline, ProcessBuffer, ReadMore, NextDeadline, Receive, FlushOut;
  }
}
