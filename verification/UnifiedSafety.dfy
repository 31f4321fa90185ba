/** What every run of the unified stream keeps. */
module UnifiedSafety {
  import opened Octets
  import opened Masking
  import opened Messages
  import opened Heartbeats
  import opened Outbound
  import opened Inboxes
  import opened UnifiedStreams

  // ---------------------------------------------------------------------
  // Sending side
  // ---------------------------------------------------------------------

  /** Only a broken write leaves octets behind, and only on a closed stream; a shut send half has nothing left. */
  predicate OutOk(o: Outbox, state: State) {
    && Accounts(o.wire, o.pending, o.encoded)
    && (o.pending != [] ==> o.broken)
    && (o.broken ==> state == Closed)
    && (o.shut ==> o.pending == [] && Rank(state) >= 2)
    && OnlyPongsAfterClose(o.encoded)
    && (HasClose(o.encoded) ==> Rank(state) >= 2)
  }

  predicate OutAdvances(o: Outbox, state: State, o': Outbox) {
    && o.encoded <= o'.encoded
    && o.wire <= o'.wire
    && (o.broken ==> o'.broken)
    && (state == Closed ==> o'.encoded == o.encoded)
    && (o.shut ==> o'.encoded == o.encoded && o'.wire == o.wire && o'.shut)
  }

  lemma FlushKeepsAccounts(o: Outbox, w: WriteOutcome)
    requires Accounts(o.wire, o.pending, o.encoded)
    ensures var o' := FlushOut(o, w);
            && Accounts(o'.wire, o'.pending, o'.encoded) && o'.encoded == o.encoded && o.wire <= o'.wire
            && (w.Flushed? ==> o'.pending == []) && (o.pending == [] ==> o'.pending == [] && o'.wire == o.wire)
  {
    hide Accounts;
    var n := if w.GivenUp? && w.accepted < |o.pending| then w.accepted else |o.pending|;
    AcceptKeepsAccounts(o.wire, o.pending, o.encoded, n);
  }

  /** Encode one frame on an empty write buffer and flush it. */
  lemma WriteOne(o: Outbox, e: Encoded, w: WriteOutcome)
    requires Accounts(o.wire, o.pending, o.encoded) && o.pending == []
    requires OnlyPongsAfterClose(o.encoded) && (e.message.PongMessage? || !HasClose(o.encoded))
    ensures var o' := FlushOut(Encode(o, e), w);
            && Accounts(o'.wire, o'.pending, o'.encoded) && o'.encoded == o.encoded + [e] && o.wire <= o'.wire
            && (w.Flushed? ==> o'.pending == [])
            && OnlyPongsAfterClose(o'.encoded) && (HasClose(o'.encoded) <==> HasClose(o.encoded) || e.message.CloseMessage?)
            && o'.shut == o.shut && o'.broken == (o.broken || w.GivenUp?)
  {
    hide Accounts, OnlyPongsAfterClose, HasClose, FrameOctets, FlushOut;
    StartKeepsAccounts(o.wire, o.encoded, e);
    FlushKeepsAccounts(Encode(o, e), w);
    OneMore(o.encoded, e);
    FlushFlags(Encode(o, e), w);
  }

  lemma FlushFlags(o: Outbox, w: WriteOutcome)
    ensures FlushOut(o, w).shut == o.shut && FlushOut(o, w).broken == (o.broken || w.GivenUp?)
  {
  }

  // ---------------------------------------------------------------------
  // Whole stream
  // ---------------------------------------------------------------------

  predicate TimeOk(s: Stream) {
    && (s.deadline.Some? ==> s.heartbeat.stopped)
    && (s.state == CloseSent ==> s.deadline.Some?)
    && (s.state == Closed ==> s.heartbeat.stopped)
    && s.lateReads == (if s.lateRead then 1 else 0)
    && (s.lateRead ==> s.deadline.Some? && s.clock >= s.deadline.value)
  }

  predicate Plain(r: Outcome) {
    r.Got? && !r.message.CloseMessage?
  }

  function MessagesIn(rs: seq<Outcome>): seq<Message> {
    if rs == [] then []
    else MessagesIn(rs[..|rs| - 1]) + (if rs[|rs| - 1].Got? then [rs[|rs| - 1].message] else [])
  }

  /** A Close or an error is the last result, and is only returned as the stream becomes closed. */
  predicate ResultsOk(s: Stream) {
    && (forall k :: 0 <= k < |s.results| - 1 ==> Plain(s.results[k]))
    && (s.state != Closed && s.results != [] ==> Plain(s.results[|s.results| - 1]))
    && MessagesIn(s.results) == s.inbox.delivered
  }

  predicate ParseFailed(rs: seq<Outcome>) {
    rs != [] && rs[|rs| - 1].Failed? && rs[|rs| - 1].failure.ParseFailure?
  }

  ghost predicate InOk(s: Stream) {
    && (s.state != Closed ==> InOrder(s.inbox))
    && PrefixOnly(s.inbox)
    && (s.state == Open || s.state == ReadErrorPending ==> Unanswered(s.inbox))
    && (s.state == ReadErrorPending <==> Rank(s.state) < 2 && s.inbox.error.Some?)
    && (ParseFailed(s.results) ==>
          var all := Receive(s.inbox.settings, Idle, s.inbox.arrived);
          all.error.Some? && all.messages == s.inbox.delivered)
  }

  ghost predicate Inv(s: Stream) {
    OutOk(s.out, s.state) && TimeOk(s) && ResultsOk(s) && InOk(s)
  }

  /** What a step, and so a run, never takes back. */
  predicate Advances(s: Stream, t: Stream) {
    && Rank(s.state) <= Rank(t.state)
    && (s.deadline.Some? ==> t.deadline == s.deadline)
    && s.lateReads <= t.lateReads
    && t.inbox.settings == s.inbox.settings && t.config == s.config
    && (s.heartbeat.stopped ==> t.heartbeat.stopped)
    && OutAdvances(s.out, s.state, t.out)
    && s.results <= t.results
    && (s.state == Closed ==> t.results == s.results && t.inbox == s.inbox)
  }

  /** A result is returned. */
  lemma AnswerIsOrdered(s: Stream, t: Stream, r: Outcome)
    requires ResultsOk(s) && s.state != Closed && t.results == s.results
    requires t.inbox.delivered == s.inbox.delivered + (if r.Got? then [r.message] else [])
    requires Plain(r) || t.state == Closed
    ensures ResultsOk(Answer(t, r)) && s.results <= Answer(t, r).results
    ensures ParseFailed(Answer(t, r).results) <==> r.Failed? && r.failure.ParseFailure?
  {
    var rs := s.results + [r];
    assert rs[..|rs| - 1] == s.results;
    forall k | 0 <= k < |rs| - 1 ensures Plain(rs[k]) {
      assert rs[k] == s.results[k];
    }
  }

  lemma NoParseFailureYet(s: Stream)
    requires ResultsOk(s) && s.state != Closed
    ensures !ParseFailed(s.results)
  {
  }

  lemma InboundKeepsStopped(h: Heartbeat, now: nat, p: Option<seq<Octet>>)
    ensures OnInbound(h, now, p).stopped == h.stopped
  {
  }

  // ---------------------------------------------------------------------
  // Each operation
  // ---------------------------------------------------------------------

  /** Frames that may be written now: Pongs while the send half is open, others before any Close. */
  predicate MayWrite(s: Stream, e: Encoded) {
    && s.state != Closed && !s.out.shut
    && (e.message.PongMessage? || !HasClose(s.out.encoded))
    && (e.message.CloseMessage? ==> s.state == CloseSent)
  }

  lemma SendControlIsSafe(s: Stream, e: Encoded, w: WriteOutcome)
    requires Inv(s) && MayWrite(s, e)
    ensures Inv(SendControl(s, e, w)) && Advances(s, SendControl(s, e, w))
  {
    hide Accounts, OnlyPongsAfterClose, HasClose, InOrder, PrefixOnly, Unanswered, MessagesIn, Receive, FlushOut, Encode, ParseFailed, Plain;
    WriteOne(s.out, e, w);
    NoParseFailureYet(s);
  }

  lemma DeliverIsSafe(s: Stream)
    requires Inv(s) && s.state != Closed && s.inbox.batch != [] && !s.inbox.batch[0].CloseMessage?
    ensures var t := Answer(s.(inbox := Deliver(s.inbox)), Got(s.inbox.batch[0])); Inv(t) && Advances(s, t)
  {
    hide Accounts, OnlyPongsAfterClose, HasClose, InOrder, PrefixOnly, Unanswered, MessagesIn, Receive, ResultsOk, ParseFailed, OutOk;
    DeliverInOrder(s.inbox);
    InOrderIsPrefix(s.inbox);
    if s.state != CloseSent {
      DeliverUnanswered(s.inbox);
    }
    AnswerIsOrdered(s, s.(inbox := Deliver(s.inbox)), Got(s.inbox.batch[0]));
  }

  /** The sending side after an accepted Close: answered or not, flushed and shut, or given up. */
  function CloseOut(s: Stream, i: Input): Outbox {
    var answers := s.state == Open || s.state == ReadErrorPending;
    var out := if answers then Encode(s.out, Encoded(CloseMessage(s.inbox.closing.pending), i.key)) else s.out;
    if s.out.shut then out else FinishClose(out, i.write, i.shutdownOk)
  }

  lemma CloseOutIsSafe(s: Stream, i: Input)
    requires OutOk(s.out, s.state) && s.state != Closed
    ensures OutOk(CloseOut(s, i), Closed) && OutAdvances(s.out, s.state, CloseOut(s, i))
  {
    hide Accounts, OnlyPongsAfterClose, HasClose, FlushOut, Encode;
    var e := Encoded(CloseMessage(s.inbox.closing.pending), i.key);
    if s.state == CloseSent {
      FlushKeepsAccounts(s.out, i.write);
      FlushFlags(s.out, i.write);
    } else {
      WriteOne(s.out, e, i.write);
      EncodeFlags(s.out, e);
    }
  }

  lemma HandleCloseIsSafe(s: Stream, i: Input)
    requires Inv(s) && s.state != Closed && s.inbox.batch != [] && s.inbox.batch[0].CloseMessage?
    ensures Inv(HandleClose(s, i)) && Advances(s, HandleClose(s, i))
  {
    hide OutOk, OutAdvances, InOrder, PrefixOnly, Unanswered, MessagesIn, Receive, ResultsOk, ParseFailed, FlushOut, Encode, FinishClose;
    CloseOutIsSafe(s, i);
    InOrderIsPrefix(s.inbox);
    DiscardKeepsPrefix(Deliver(s.inbox));
    var u := HandleClose(s, i);
    AnswerIsOrdered(s, u.(results := s.results), Got(s.inbox.batch[0]));
  }

  lemma EncodeFlags(o: Outbox, e: Encoded)
    ensures Encode(o, e).shut == o.shut && Encode(o, e).broken == o.broken
  {
  }

  lemma DiscardKeepsPrefix(b: Inbox)
    requires PrefixOnly(b)
    ensures PrefixOnly(Discard(b)) && Discard(b).delivered == b.delivered
  {
  }

  lemma HandleMessageIsSafe(s: Stream, i: Input)
    requires Inv(s) && s.state != Closed && s.inbox.batch != []
    ensures Inv(HandleMessage(s, i)) && Advances(s, HandleMessage(s, i))
  {
    hide Inv, SendControl, HandleClose, InOrder, PrefixOnly, Unanswered, MessagesIn, Receive, HasClose;
    var m := s.inbox.batch[0];
    if m.CloseMessage? {
      HandleCloseIsSafe(s, i);
    } else if m.PingMessage? && !s.out.shut && !s.batchHasClose && !(s.deadline.Some? && i.now >= s.deadline.value) {
      var e := Encoded(PongMessage(m.data), i.key);
      SendControlIsSafe(s, e, i.write);
      SendControlEffect(s, e, i.write);
      var t := SendControl(s, e, i.write);
      if i.write.Flushed? {
        DeliverIsSafe(t);
      } else {
        FailIsSafe(s, t, ControlFailure(s.heartbeat, i.write));
      }
    } else {
      DeliverIsSafe(s);
    }
  }

  lemma SendControlEffect(s: Stream, e: Encoded, w: WriteOutcome)
    ensures var t := SendControl(s, e, w);
            && t.inbox == s.inbox && t.results == s.results && t.state == (if w.Flushed? then s.state else Closed)
            && t.batchHasClose == s.batchHasClose && t.config == s.config
  {
  }

  /** An error other than a parse error is returned as the stream becomes closed. */
  lemma FailIsSafe(s: Stream, t: Stream, f: Failure)
    requires Inv(s) && s.state != Closed
    requires Inv(t) && Advances(s, t) && t.state == Closed && t.results == s.results && t.inbox == s.inbox
    requires !f.ParseFailure?
    ensures Inv(Answer(t, Failed(f))) && Advances(s, Answer(t, Failed(f)))
  {
    hide InOrder, PrefixOnly, Unanswered, MessagesIn, Receive, OutOk, ResultsOk, ParseFailed;
    assert s.inbox.delivered + [] == s.inbox.delivered;
    AnswerIsOrdered(s, t, Failed(f));
  }

  lemma ParseFailIsSafe(s: Stream)
    requires Inv(s) && s.state != Closed && s.inbox.batch == [] && s.inbox.error.Some?
    ensures var t := Answer(Break(s), Failed(ParseFailure(s.inbox.error.value))); Inv(t) && Advances(s, t)
  {
    hide InOrder, PrefixOnly, Unanswered, MessagesIn, Receive, ResultsOk, ParseFailed, HasClose, Accounts, OnlyPongsAfterClose;
    assert s.inbox.delivered + [] == s.inbox.delivered;
    ErrorComesLast(s.inbox);
    AnswerIsOrdered(s, Break(s), Failed(ParseFailure(s.inbox.error.value)));
  }

  lemma LiveMeansOpen(s: Stream)
    requires Inv(s) && s.inbox.error.None? && !s.heartbeat.stopped
    ensures s.state == Open && s.deadline.None? && !s.out.shut && !HasClose(s.out.encoded) && s.out.pending == [] && !s.out.broken
  {
    hide InOrder, PrefixOnly, Unanswered, MessagesIn, Receive, HasClose, Accounts, OnlyPongsAfterClose;
  }

  lemma NotifyIsSafe(s: Stream, notice: CloseReason, now: nat, i: Input, f: Failure)
    requires Inv(s) && s.inbox.error.None? && !s.heartbeat.stopped && !f.ParseFailure?
    ensures Inv(Notify(s, notice, now, i, f)) && Advances(s, Notify(s, notice, now, i, f))
  {
    hide InOrder, PrefixOnly, Unanswered, MessagesIn, Receive, HasClose, Accounts, OnlyPongsAfterClose, FlushOut, Encode, ResultsOk, ParseFailed;
    LiveMeansOpen(s);
    var e := Encoded(CloseMessage(Some(notice)), i.key);
    WriteOne(s.out, e, i.write);
    var t := Notify(s, notice, now, i, f);
    assert s.inbox.delivered + [] == s.inbox.delivered;
    AnswerIsOrdered(s, t.(results := s.results), Failed(f));
  }

  lemma HeartbeatChangeIsSafe(s: Stream, h: Heartbeat)
    requires Inv(s) && (s.heartbeat.stopped ==> h.stopped)
    ensures Inv(s.(heartbeat := h)) && Advances(s, s.(heartbeat := h))
  {
    hide InOrder, PrefixOnly, Unanswered, MessagesIn, Receive, OutOk;
  }

  lemma HandleDeadlineIsSafe(s: Stream, d: Deadline, now: nat, i: Input)
    requires Inv(s) && s.inbox.error.None? && !s.heartbeat.stopped
    ensures var t := HandleDeadline(s, d, now, i);
            Inv(t) && Advances(s, t) && t.inbox == s.inbox && (t.state != Closed ==> t.results == s.results)
  {
    hide Inv, SendControl, InOrder, PrefixOnly, Unanswered, MessagesIn, Receive, HasClose, PingPayload, IssuePing, PingFlushed,
         NextHardDeadline, NextDeadline, Stop, FlushOut, Encode, ResultsOk, ParseFailed;
    LiveMeansOpen(s);
    if d.at <= now {
      match d
      case PingDue(_) =>
        if PingIsDue(s.heartbeat, now) {
          var h := IssuePing(s.heartbeat, now, i.nonce);
          IssueKeepsStopped(s.heartbeat, now, i.nonce);
          var s' := s.(heartbeat := h);
          HeartbeatChangeIsSafe(s, h);
          var e := Encoded(PingMessage(PingPayload(i.nonce)), i.key);
          SendControlIsSafe(s', e, i.write);
          SendControlEffect(s', e, i.write);
          var t := SendControl(s', e, i.write);
          if i.write.Flushed? {
            FlushKeepsStopped(t.heartbeat, i.after);
            HeartbeatChangeIsSafe(t, PingFlushed(t.heartbeat, i.after));
          } else {
            FailIsSafe(s', t, ControlFailure(s.heartbeat, i.write));
          }
        }
      case PongDue(_) => NotifyIsSafe(s, s.config.pongNotice, now, i, PongTimeout);
      case IdleDue(_) => NotifyIsSafe(s, s.config.idleNotice, now, i, IdleTimeout);
    }
  }

  lemma IssueKeepsStopped(h: Heartbeat, now: nat, nonce: nat)
    ensures IssuePing(h, now, nonce).stopped == h.stopped
  {
  }

  lemma FlushKeepsStopped(h: Heartbeat, now: nat)
    ensures PingFlushed(h, now).stopped == h.stopped
  {
  }

  lemma ProcessBufferIsSafe(s: Stream, i: Input)
    requires Inv(s) && s.state != Closed && s.inbox.batch == [] && s.inbox.error.None?
    ensures Inv(ProcessBuffer(s, i)) && Advances(s, ProcessBuffer(s, i)) && ProcessBuffer(s, i).state != Closed
  {
    hide InOrder, PrefixOnly, Unanswered, MessagesIn, Receive, HasClose, Accounts, OnlyPongsAfterClose, OnInbound, HasCloseMessage;
    ProcessInOrder(s.inbox);
    InOrderIsPrefix(Process(s.inbox));
    ProcessKeeps(s.inbox);
    InboundKeepsStopped(s.heartbeat, i.now, None);
    NoParseFailureYet(s);
    if s.state != CloseSent {
      ProcessUnanswered(s.inbox);
    }
  }

  lemma ProcessKeeps(b: Inbox)
    ensures Process(b).delivered == b.delivered && Process(b).arrived == b.arrived && Process(b).settings == b.settings
  {
    hide Receive;
  }

  lemma BreakIsSafe(s: Stream)
    requires Inv(s) && s.state != Closed
    ensures Inv(Break(s)) && Advances(s, Break(s))
  {
    hide InOrder, PrefixOnly, Unanswered, MessagesIn, Receive, HasClose, Accounts, OnlyPongsAfterClose;
    NoParseFailureYet(s);
  }

  lemma ArriveIsSafe(s: Stream, chunk: seq<Octet>)
    requires Inv(s) && s.state != Closed && s.inbox.error.None?
    ensures var t := s.(inbox := Arrive(s.inbox, chunk)); Inv(t) && Advances(s, t)
  {
    hide InOrder, PrefixOnly, MessagesIn, Receive, OutOk;
    ArriveInOrder(s.inbox, chunk);
    InOrderIsPrefix(Arrive(s.inbox, chunk));
    NoParseFailureYet(s);
  }

  lemma OnReadIsSafe(s: Stream, r: Option<ReadResult>)
    requires Inv(s) && s.inbox.error.None?
    ensures Inv(OnRead(s, r)) && Advances(s, OnRead(s, r))
  {
    hide Inv, Receive, HasClose, Accounts, OnlyPongsAfterClose, InOrder, MessagesIn;
    if s.state == Closed || r.None? {
    } else if r.value.Chunk? {
      ArriveIsSafe(s, r.value.data);
    } else {
      BreakIsSafe(s);
      FailIsSafe(s, Break(s), TransportError);
    }
  }

  /** The clock stands at the end of the turn; a late read of an earlier turn was late already when this one began. */
  predicate Ready(s: Stream, i: Input) {
    && s.clock == i.after && i.now <= i.start <= i.after
    && (s.lateRead && s.deadline.Some? ==> s.deadline.value <= i.now)
  }

  /** The turn that starts a read under the closing budget notes whether the budget is spent. */
  lemma ClosingReadIsSafe(s: Stream, i: Input)
    requires Inv(s) && s.state != Closed && s.deadline.Some? && Ready(s, i) && !(i.now >= s.deadline.value && s.lateRead)
    ensures var t := MarkRead(s, i.start >= s.deadline.value);
            Inv(t) && Advances(s, t)
  {
    hide InOrder, PrefixOnly, Unanswered, MessagesIn, Receive, OutOk;
  }

  lemma ExpiryIsSafe(s: Stream, i: Input)
    requires Inv(s) && s.state != Closed && s.deadline.Some?
    ensures var t := s.(state := Closed, out := s.out.(shut := s.out.shut || (s.out.pending == [] && i.shutdownOk)));
            Inv(t) && Advances(s, t)
  {
    hide InOrder, PrefixOnly, Unanswered, MessagesIn, Receive, HasClose, Accounts, OnlyPongsAfterClose;
    NoParseFailureYet(s);
  }

  lemma CloseStateIsSafe(s: Stream)
    requires Inv(s) && s.state != Closed && s.deadline.Some?
    ensures Inv(s.(state := Closed)) && Advances(s, s.(state := Closed))
  {
    hide InOrder, PrefixOnly, Unanswered, MessagesIn, Receive, HasClose, Accounts, OnlyPongsAfterClose;
    NoParseFailureYet(s);
  }

  lemma ClockIsSafe(s: Stream, i: Input)
    requires Inv(s) && InTime(s, i)
    ensures var t := s.(clock := i.after); Inv(t) && Advances(s, t) && Ready(t, i)
  {
    hide InOrder, PrefixOnly, Unanswered, MessagesIn, Receive, OutOk;
  }

  lemma ReadUnderBudgetIsSafe(s: Stream, i: Input)
    requires Inv(s) && s.state != Closed && s.inbox.error.None? && s.deadline.Some? && Ready(s, i)
    requires !(i.now >= s.deadline.value && s.lateRead)
    ensures Inv(ReadMore(s, i)) && Advances(s, ReadMore(s, i))
  {
    hide Inv, OnRead, HandleDeadline, Receive, NextDeadline, RecoveryLimit;
    var t := MarkRead(s, i.start >= s.deadline.value);
    ClosingReadIsSafe(s, i);
    if i.read.None? {
      CloseStateIsSafe(t);
      FailIsSafe(t, t.(state := Closed), ConnectionClosed);
    } else {
      OnReadIsSafe(t, i.read);
      AdvancesOnwards(s, t, OnRead(t, i.read));
    }
  }

  lemma AdvancesOnwards(s: Stream, t: Stream, u: Stream)
    requires Advances(s, t) && Advances(t, u)
    ensures Advances(s, u)
  {
  }

  lemma ReadUnderHeartbeatIsSafe(s: Stream, i: Input)
    requires Inv(s) && s.state != Closed && s.inbox.error.None? && s.deadline.None? && NextDeadline(s.heartbeat).Some? && i.expired
    ensures Inv(ReadMore(s, i)) && Advances(s, ReadMore(s, i))
  {
    hide Inv, OnRead, HandleDeadline, Receive, NextDeadline, RecoveryLimit;
    LiveWhileTimed(s.heartbeat);
    var d, limit := NextDeadline(s.heartbeat).value, RecoveryLimit(s.heartbeat, NextDeadline(s.heartbeat).value);
    HandleDeadlineIsSafe(s, d, i.after, i);
    if limit.Some? {
      HandleDeadlineIsSafe(s, limit.value, i.after, i);
    }
    var t := HandleDeadline(s, d, i.after, i);
    OnReadIsSafe(t, i.read);
    AdvancesOnwards(s, t, OnRead(t, i.read));
  }

  lemma LiveWhileTimed(h: Heartbeat)
    requires NextDeadline(h).Some?
    ensures !h.stopped
  {
  }

  lemma ReadMoreIsSafe(s: Stream, i: Input)
    requires Inv(s) && s.state != Closed && s.inbox.error.None? && Ready(s, i)
    ensures Inv(ReadMore(s, i)) && Advances(s, ReadMore(s, i))
  {
    hide Inv, OnRead, HandleDeadline, Receive, NextDeadline, RecoveryLimit;
    if s.deadline.Some? && i.now >= s.deadline.value && s.lateRead {
      ExpiryIsSafe(s, i);
      FailIsSafe(s, s.(state := Closed, out := s.out.(shut := s.out.shut || (s.out.pending == [] && i.shutdownOk))), ConnectionClosed);
    } else if s.deadline.Some? {
      ReadUnderBudgetIsSafe(s, i);
    } else if NextDeadline(s.heartbeat).Some? && i.expired {
      ReadUnderHeartbeatIsSafe(s, i);
    } else {
      OnReadIsSafe(s, i.read);
    }
  }

  lemma NextTurnIsSafe(s: Stream, i: Input)
    requires Inv(s) && Ready(s, i)
    ensures Inv(NextTurn(s, i)) && Advances(s, NextTurn(s, i))
  {
    hide Inv, HandleMessage, HandleDeadline, ProcessBuffer, ReadMore, Receive, NextDeadline, OnInboundMessage;
    if s.state == Closed {
      ClosedStays(s);
    } else if s.inbox.batch != [] {
      var h := OnInboundMessage(s.heartbeat, i.now, s.inbox.batch[0]);
      NoticeKeepsStopped(s.heartbeat, i.now, s.inbox.batch[0]);
      var t := s.(heartbeat := h);
      HeartbeatChangeIsSafe(s, h);
      HandleMessageIsSafe(t, i);
      AdvancesOnwards(s, t, HandleMessage(t, i));
    } else if s.inbox.error.Some? {
      ParseFailIsSafe(s);
    } else if NextDeadline(s.heartbeat).Some? && NextDeadline(s.heartbeat).value.at <= i.now {
      LiveWhileTimed(s.heartbeat);
      HandleDeadlineIsSafe(s, NextDeadline(s.heartbeat).value, i.now, i);
    } else {
      ProcessBufferIsSafe(s, i);
      ProcessBufferEffect(s, i);
      var t := ProcessBuffer(s, i);
      if t.inbox.batch == [] && t.inbox.error.None? {
        ReadMoreIsSafe(t, i);
        AdvancesOnwards(s, t, ReadMore(t, i));
      }
    }
  }

  lemma ClosedStays(s: Stream)
    ensures Advances(s, s)
  {
  }

  lemma NoticeKeepsStopped(h: Heartbeat, now: nat, m: Message)
    ensures OnInboundMessage(h, now, m).stopped == h.stopped
  {
  }

  lemma ProcessBufferEffect(s: Stream, i: Input)
    ensures var t := ProcessBuffer(s, i); t.clock == s.clock && t.lateRead == s.lateRead && t.deadline == s.deadline
  {
    hide Receive, HasCloseMessage;
  }

  lemma BeginClosingIsSafe(s: Stream, now: nat)
    requires Inv(s) && s.state == Open
    ensures var t := BeginClosing(s.(state := CloseSent), now); Inv(t) && Advances(s, t)
  {
    hide InOrder, PrefixOnly, Unanswered, MessagesIn, Receive, HasClose, Accounts, OnlyPongsAfterClose;
    NoParseFailureYet(s);
  }

  lemma OpenMayWrite(s: Stream)
    requires Inv(s) && s.state == Open
    ensures !s.out.shut && !HasClose(s.out.encoded)
  {
    hide InOrder, PrefixOnly, Unanswered, MessagesIn, Receive, HasClose, Accounts, OnlyPongsAfterClose;
  }

  lemma NoteSentIsSafe(s: Stream, m: Message)
    requires Inv(s) && s.state != Closed && (m.CloseMessage? ==> s.state == CloseSent)
    ensures var t := s.(inbox := NoteSent(s.inbox, m)); Inv(t) && Advances(s, t)
  {
    hide InOrder, PrefixOnly, MessagesIn, Receive, OutOk;
    NoteSentInOrder(s.inbox, m);
    NoParseFailureYet(s);
  }

  lemma SendIsSafe(s: Stream, m: Message, encodes: bool, i: Input)
    requires Inv(s)
    ensures Inv(Send(s, m, encodes, i)) && Advances(s, Send(s, m, encodes, i))
  {
    hide Inv, SendControl, Receive, HasClose;
    if s.state != Open {
      ClosedStays(s);
    } else {
      OpenMayWrite(s);
      ClosedStays(s);
      var t := if m.CloseMessage? then BeginClosing(s.(state := CloseSent), i.now) else s;
      BeginClosingIsSafe(s, i.now);
      NoteSentIsSafe(t, m);
      var u := t.(inbox := NoteSent(t.inbox, m));
      AdvancesOnwards(s, t, u);
      SendControlIsSafe(u, Encoded(m, i.key), i.write);
      AdvancesOnwards(s, u, SendControl(u, Encoded(m, i.key), i.write));
    }
  }

  lemma ShutIsSafe(s: Stream)
    requires Inv(s) && s.state == CloseSent
    ensures var t := s.(out := s.out.(shut := true)); Inv(t) && Advances(s, t)
  {
    hide InOrder, PrefixOnly, Unanswered, MessagesIn, Receive, HasClose, Accounts, OnlyPongsAfterClose;
  }

  lemma CloseSentHasBudget(s: Stream)
    requires Inv(s) && s.state == CloseSent
    ensures s.deadline.Some?
  {
    hide InOrder, PrefixOnly, Unanswered, MessagesIn, Receive, HasClose, Accounts, OnlyPongsAfterClose;
  }

  lemma CloseCallIsSafe(s: Stream, reason: CloseReason, encodes: bool, i: Input)
    requires Inv(s)
    ensures Inv(CloseCall(s, reason, encodes, i)) && Advances(s, CloseCall(s, reason, encodes, i))
  {
    hide Inv, SendControl, Receive, HasClose;
    var m := CloseMessage(Some(reason));
    SendIsSafe(s, m, encodes, i);
    ClosedStays(s);
    if s.state == Open && encodes {
      var b := BeginClosing(s.(state := CloseSent), i.now);
      SendControlEffect(b.(inbox := NoteSent(b.inbox, m)), Encoded(m, i.key), i.write);
      var t := Send(s, m, encodes, i);
      if t.state != Closed {
        CloseSentHasBudget(t);
        ShutIsSafe(t);
        CloseStateIsSafe(t);
        AdvancesOnwards(s, t, t.(out := t.out.(shut := true)));
        AdvancesOnwards(s, t, t.(state := Closed));
      }
    }
  }

  lemma FlushIsSafe(s: Stream, i: Input)
    requires Inv(s)
    ensures Inv(Flush(s, i)) && Advances(s, Flush(s, i))
  {
    hide InOrder, PrefixOnly, Unanswered, MessagesIn, Receive, HasClose, Accounts, OnlyPongsAfterClose, FlushOut;
    if s.state != Closed {
      FlushKeepsAccounts(s.out, i.write);
      FlushFlags(s.out, i.write);
      NoParseFailureYet(s);
    }
  }

  lemma KernelIsSafe(s: Stream, n: nat)
    requires Inv(s) && s.out.broken && n <= |s.out.pending|
    ensures var t := s.(out := s.out.(wire := s.out.wire + s.out.pending[..n], pending := s.out.pending[n..])); Inv(t) && Advances(s, t)
  {
    hide InOrder, PrefixOnly, Unanswered, MessagesIn, Receive, HasClose, Accounts, OnlyPongsAfterClose;
    AcceptKeepsAccounts(s.out.wire, s.out.pending, s.out.encoded, n);
  }

  lemma StepIsSafe(s: Stream, e: Event)
    requires Inv(s)
    ensures Inv(Step(s, e)) && Advances(s, Step(s, e))
  {
    hide Inv, Advances, NextTurn, Send, CloseCall, Flush, Receive;
    ClosedStays(s);
    match e
    case Next(i) =>
      if InTime(s, i) {
        var t := s.(clock := i.after);
        ClockIsSafe(s, i);
        NextTurnIsSafe(t, i);
        AdvancesOnwards(s, t, NextTurn(t, i));
      }
    case SendEvent(m, encodes, i) =>
      if InTime(s, i) {
        var t := s.(clock := i.after);
        ClockIsSafe(s, i);
        SendIsSafe(t, m, encodes, i);
        AdvancesOnwards(s, t, Send(t, m, encodes, i));
      }
    case CloseEvent(reason, encodes, i) =>
      if InTime(s, i) {
        var t := s.(clock := i.after);
        ClockIsSafe(s, i);
        CloseCallIsSafe(t, reason, encodes, i);
        AdvancesOnwards(s, t, CloseCall(t, reason, encodes, i));
      }
    case FlushEvent(i) =>
      if InTime(s, i) {
        var t := s.(clock := i.after);
        ClockIsSafe(s, i);
        FlushIsSafe(t, i);
        AdvancesOnwards(s, t, Flush(t, i));
      }
    case KernelAccepts(n) =>
      if s.out.broken && n <= |s.out.pending| {
        KernelIsSafe(s, n);
      }
  }

  lemma {:induction false} RunIsSafe(s: Stream, es: seq<Event>)
    requires Inv(s)
    ensures Inv(Run(s, es)) && Advances(s, Run(s, es))
    decreases |es|
  {
    hide Inv, Advances, Step;
    if es == [] {
      ClosedStays(s);
    } else {
      var t := Run(s, es[..|es| - 1]);
      RunIsSafe(s, es[..|es| - 1]);
      StepIsSafe(t, es[|es| - 1]);
      AdvancesOnwards(s, t, Step(t, es[|es| - 1]));
    }
  }

  // ---------------------------------------------------------------------
  // Main results
  // ---------------------------------------------------------------------

  lemma NewStreamIsSafe(config: Config, heartbeat: Heartbeat, settings: Settings, leftover: seq<Octet>)
    ensures Inv(NewStream(config, heartbeat, settings, leftover))
  {
    hide Receive;
    NewIsInOrder(settings, leftover);
    InOrderIsPrefix(NewInbox(settings, leftover));
  }

  lemma {:induction false} RunSplits(s: Stream, es: seq<Event>, fs: seq<Event>)
    ensures Run(s, es + fs) == Run(Run(s, es), fs)
    decreases |fs|
  {
    hide Step;
    if fs == [] {
      assert es + fs == es;
    } else {
      var all := es + fs;
      assert all[..|all| - 1] == es + fs[..|fs| - 1];
      RunSplits(s, es, fs[..|fs| - 1]);
    }
  }

  /** Over every run: whole frames and at most one cut frame at the very end, one Close at most and only Pongs after it, nothing left to write on a live stream. */
  lemma SendingIsOrderly(config: Config, heartbeat: Heartbeat, settings: Settings, leftover: seq<Octet>, es: seq<Event>)
    ensures var s := Run(NewStream(config, heartbeat, settings, leftover), es);
            && Accounts(s.out.wire, s.out.pending, s.out.encoded)
            && (s.state != Closed ==> s.out.wire == OnWire(s.out.encoded))
            && OnlyPongsAfterClose(s.out.encoded) && Closes(s.out.encoded) <= 1
            && (s.out.broken ==> s.state == Closed)
            && s.lateReads <= 1
  {
    hide Step, InOrder, Unanswered, MessagesIn, Receive, OnlyPongsAfterClose, HasClose;
    var start := NewStream(config, heartbeat, settings, leftover);
    NewStreamIsSafe(config, heartbeat, settings, leftover);
    RunIsSafe(start, es);
    var s := Run(start, es);
    AtMostOneClose(s.out.encoded);
    assert s.out.wire + [] == s.out.wire;
  }

  /**
   Whatever follows a run: the state does not move back, the closing deadline stays, nothing is
   encoded once the stream is closed, nothing more reaches the wire once the send half is shut,
   and results are only appended, none of them on a closed stream.
   */
  lemma NothingIsTakenBack(config: Config, heartbeat: Heartbeat, settings: Settings, leftover: seq<Octet>, es: seq<Event>, fs: seq<Event>)
    ensures var start := NewStream(config, heartbeat, settings, leftover);
            Advances(Run(start, es), Run(start, es + fs))
  {
    hide Inv, Advances, Step;
    var start := NewStream(config, heartbeat, settings, leftover);
    NewStreamIsSafe(config, heartbeat, settings, leftover);
    RunIsSafe(start, es);
    RunIsSafe(Run(start, es), fs);
    RunSplits(start, es, fs);
  }

  /**
   Over every run: the messages returned are, in wire order, a prefix of those accepted from the
   octets read; a Close or an error ends the results and the stream; and a parse error is
   returned only after every message accepted before it.
   */
  lemma DeliveryIsOrderly(config: Config, heartbeat: Heartbeat, settings: Settings, leftover: seq<Octet>, es: seq<Event>)
    ensures var s := Run(NewStream(config, heartbeat, settings, leftover), es);
            var all := Receive(settings, Idle, s.inbox.arrived);
            && MessagesIn(s.results) <= all.messages
            && (forall k :: 0 <= k < |s.results| && !Plain(s.results[k]) ==> k == |s.results| - 1 && s.state == Closed)
            && (ParseFailed(s.results) ==> all.error.Some? && MessagesIn(s.results) == all.messages)
  {
    hide Step, InOrder, Unanswered, MessagesIn, Receive, OutOk, ParseFailed;
    var start := NewStream(config, heartbeat, settings, leftover);
    NewStreamIsSafe(config, heartbeat, settings, leftover);
    RunIsSafe(start, es);
  }

  lemma ClosedWritesNothing(s: Stream, e: UnifiedStreams.Event)
    requires s.state == Closed && !e.KernelAccepts?
    ensures Step(s, e).out == s.out && Step(s, e).state == Closed
  {
    hide HandleMessage, HandleDeadline, ProcessBuffer, ReadMore, NextDeadline, Receive;
  }

  lemma {:induction false} ClosedRunWritesNothing(s: Stream, fs: seq<UnifiedStreams.Event>)
    requires s.state == Closed && forall i :: 0 <= i < |fs| ==> !fs[i].KernelAccepts?
    ensures Run(s, fs).out == s.out && Run(s, fs).state == Closed
    decreases |fs|
  {
    hide Step;
    if fs != [] {
      ClosedRunWritesNothing(s, fs[..|fs| - 1]);
      ClosedWritesNothing(Run(s, fs[..|fs| - 1]), fs[|fs| - 1]);
    }
  }

  /**
   Over every run: after a write that failed or was given up, no call writes an octet. Only the
   kernel may still complete the write it was given, and that adds no frame.
   */
  lemma NothingIsWrittenAfterFailure(config: Config, heartbeat: Heartbeat, settings: Settings, leftover: seq<Octet>,
                                     es: seq<UnifiedStreams.Event>, fs: seq<UnifiedStreams.Event>)
    requires Run(NewStream(config, heartbeat, settings, leftover), es).out.broken
    ensures var s, t := Run(NewStream(config, heartbeat, settings, leftover), es), Run(NewStream(config, heartbeat, settings, leftover), es + fs);
            && t.out.encoded == s.out.encoded
            && ((forall i :: 0 <= i < |fs| ==> !fs[i].KernelAccepts?) ==> t.out == s.out)
  {
    hide Step, InOrder, Unanswered, MessagesIn, Receive, OnlyPongsAfterClose, HasClose, Accounts;
    var start := NewStream(config, heartbeat, settings, leftover);
    NewStreamIsSafe(config, heartbeat, settings, leftover);
    RunIsSafe(start, es);
    RunSplits(start, es, fs);
    RunIsSafe(Run(start, es), fs);
    if forall i :: 0 <= i < |fs| ==> !fs[i].KernelAccepts? {
      ClosedRunWritesNothing(Run(start, es), fs);
    }
  }
}
