/**
 Two unified streams joined by ordered channels: where every frame comes from, what each end
 makes of what the other sends, and the closing handshake.
 */
module Handshake {
  import opened Octets
  import opened Masking
  import opened Utf8
  import opened Messages
  import opened MessageLaws
  import opened Heartbeats
  import opened Outbound
  import opened Inboxes
  import opened UnifiedStreams
  import opened UnifiedSafety

  // ---------------------------------------------------------------------
  // Where a frame comes from
  // ---------------------------------------------------------------------

  ghost function Accepted(b: Inbox): seq<Message> {
    Receive(b.settings, Idle, b.arrived).messages
  }

  predicate PingWasDue(h: Heartbeat, at: nat) {
    !h.stopped && h.autoPing && h.outstanding.None? && SaturatingAdd(h.lastInbound, h.pingInterval) <= at
  }

  /** The Pong deadline has passed; or a due Ping could not be sent for as long as a Pong may take. */
  predicate PongWasDue(h: Heartbeat, at: nat) {
    && !h.stopped
    && (|| (h.outstanding.Some? && h.outstanding.value.deadline.Some? && h.outstanding.value.deadline.value <= at)
        || (&& h.autoPing && h.outstanding.None? && h.pongTimeout != 0
            && SaturatingAdd(SaturatingAdd(h.lastInbound, h.pingInterval), h.pongTimeout) <= at))
  }

  predicate IdleWasDue(h: Heartbeat, at: nat) {
    !h.stopped && h.idleTimeout != 0 && SaturatingAdd(h.lastInbound, h.idleTimeout) <= at
  }

  /** Sent on time: an automatic Ping that is due, or the notice of a timeout that has been reached. */
  predicate IsTimely(s: Stream, i: Input, m: Message) {
    || (m == PingMessage(PingPayload(i.nonce)) && PingWasDue(s.heartbeat, i.after))
    || (m == CloseMessage(Some(s.config.pongNotice)) && PongWasDue(s.heartbeat, i.after))
    || (m == CloseMessage(Some(s.config.idleNotice)) && IdleWasDue(s.heartbeat, i.after))
  }

  /** The answer to the next accepted message: the Pong for a Ping, or the echo of a Close before this side has closed. */
  predicate IsAnswer(s: Stream, m: Message) {
    && s.inbox.batch != []
    && var next := s.inbox.batch[0];
       || (next.PingMessage? && m == PongMessage(next.data))
       || (next.CloseMessage? && m == next && Rank(s.state) < 2)
  }

  /** A frame is what the application sends on an open stream, is due, or answers the next accepted message. */
  predicate HasOrigin(s: Stream, sent: Option<Message>, i: Input, m: Message) {
    (sent == Some(m) && s.state == Open) || IsTimely(s, i, m) || IsAnswer(s, m)
  }

  /** At most the frame `m` is added. */
  predicate AddsFrame(s: Stream, t: Stream, e: Encoded) {
    t.out.encoded == s.out.encoded || t.out.encoded == s.out.encoded + [e]
  }

  /** At most one frame is added, and it has an origin. */
  predicate Adds(s: Stream, t: Stream, sent: Option<Message>, i: Input) {
    var es, fs := s.out.encoded, t.out.encoded;
    || fs == es
    || (|fs| == |es| + 1 && fs[..|es|] == es && fs[|es|].key == i.key && HasOrigin(s, sent, i, fs[|es|].message))
  }

  lemma FrameAdds(s: Stream, t: Stream, e: Encoded, sent: Option<Message>, i: Input)
    requires AddsFrame(s, t, e) && e.key == i.key && HasOrigin(s, sent, i, e.message)
    ensures Adds(s, t, sent, i)
  {
    hide HasOrigin;
    assert (s.out.encoded + [e])[..|s.out.encoded|] == s.out.encoded;
  }

  lemma PayloadSize(n: nat, k: nat)
    ensures |ToBigEndian(n, k)| == k
  {
  }

  lemma SendControlAdds(s: Stream, e: Encoded, w: WriteOutcome)
    ensures AddsFrame(s, SendControl(s, e, w), e)
  {
  }

  lemma BatchIsAccepted(b: Inbox)
    requires InOrder(b) && b.batch != []
    ensures b.batch[0] in Accepted(b)
  {
    hide Receive;
    var all := Accepted(b);
    assert all[|b.delivered|] == b.batch[0];
  }

  lemma HandleCloseAdds(s: Stream, i: Input)
    requires Inv(s) && s.state != Closed && s.inbox.batch != [] && s.inbox.batch[0].CloseMessage?
    ensures HandleClose(s, i).out.encoded
         == if s.state == CloseSent then s.out.encoded else s.out.encoded + [Encoded(s.inbox.batch[0], i.key)]
  {
    hide InOrder, PrefixOnly, Unanswered, MessagesIn, Receive, OutOk, ResultsOk, ParseFailed;
    if s.state != CloseSent {
      AnswerIsForFirstClose(s.inbox);
    }
  }

  lemma HandleMessageAdds(s: Stream, i: Input)
    requires Inv(s) && s.state != Closed && s.inbox.batch != []
    ensures AddsFrame(s, HandleMessage(s, i), AnswerFrame(s, i)) && (!IsAnswer(s, AnswerFrame(s, i).message) ==> HandleMessage(s, i).out.encoded == s.out.encoded)
  {
    hide Inv, SendControl, HandleClose;
    var m := s.inbox.batch[0];
    if m.CloseMessage? {
      HandleCloseAdds(s, i);
    } else if m.PingMessage? {
      SendControlAdds(s, AnswerFrame(s, i), i.write);
    }
  }

  /** The frame that would answer the next message. */
  function AnswerFrame(s: Stream, i: Input): Encoded
    requires s.inbox.batch != []
  {
    var m := s.inbox.batch[0];
    Encoded(if m.PingMessage? then PongMessage(m.data) else m, i.key)
  }

  /** A deadline that stands for what its name says. */
  predicate IsJustified(h: Heartbeat, d: Deadline) {
    match d
    case PongDue(at) => PongWasDue(h, at)
    case IdleDue(at) => IdleWasDue(h, at)
    case PingDue(at) => PingWasDue(h, at)
  }

  lemma NextIsJustified(h: Heartbeat)
    requires NextDeadline(h).Some?
    ensures IsJustified(h, NextDeadline(h).value)
  {
  }

  lemma LimitIsJustified(h: Heartbeat)
    requires NextDeadline(h).Some? && NextDeadline(h).value.PingDue?
    ensures var limit := RecoveryLimit(h, NextDeadline(h).value); limit.Some? ==> IsJustified(h, limit.value)
  {
  }

  lemma HandleDeadlineAdds(s: Stream, d: Deadline, now: nat, i: Input)
    requires IsJustified(s.heartbeat, d) && now <= i.after
    ensures Adds(s, HandleDeadline(s, d, now, i), None, i)
  {
    hide SendControl, FinishClose, PingPayload, IssuePing, PingFlushed;
    if d.at <= now {
      match d
      case PingDue(_) =>
        var e := Encoded(PingMessage(PingPayload(i.nonce)), i.key);
        SendControlAdds(s.(heartbeat := IssuePing(s.heartbeat, now, i.nonce)), e, i.write);
        FrameAdds(s, HandleDeadline(s, d, now, i), e, None, i);
      case PongDue(_) =>
        NotifyAdds(s, s.config.pongNotice, now, i, PongTimeout);
        FrameAdds(s, HandleDeadline(s, d, now, i), Encoded(CloseMessage(Some(s.config.pongNotice)), i.key), None, i);
      case IdleDue(_) =>
        NotifyAdds(s, s.config.idleNotice, now, i, IdleTimeout);
        FrameAdds(s, HandleDeadline(s, d, now, i), Encoded(CloseMessage(Some(s.config.idleNotice)), i.key), None, i);
    }
  }

  lemma NotifyAdds(s: Stream, notice: CloseReason, now: nat, i: Input, f: Failure)
    ensures AddsFrame(s, Notify(s, notice, now, i, f), Encoded(CloseMessage(Some(notice)), i.key))
  {
  }

  lemma ReadMoreAdds(s: Stream, i: Input)
    ensures Adds(s, ReadMore(s, i), None, i)
  {
    hide HandleDeadline, NextDeadline, RecoveryLimit, HasOrigin, IsJustified;
    if s.deadline.None? && NextDeadline(s.heartbeat).Some? {
      var d := NextDeadline(s.heartbeat).value;
      NextIsJustified(s.heartbeat);
      HandleDeadlineAdds(s, d, i.after, i);
      if d.PingDue? && RecoveryLimit(s.heartbeat, d).Some? {
        LimitIsJustified(s.heartbeat);
        HandleDeadlineAdds(s, RecoveryLimit(s.heartbeat, d).value, i.after, i);
      }
    }
  }

  /** What is due after some activity was due without it. */
  lemma ActivityOnlyDelays(s: Stream, i: Input, now: nat, fragment: bool, m: Message)
    requires IsTimely(s.(heartbeat := OnFragment(s.heartbeat, now, fragment)), i, m)
    ensures IsTimely(s, i, m)
  {
    hide PingPayload;
  }

  /** A turn that has nothing to answer: what it adds is due, also in the light of the state before parsing. */
  lemma ParseAndReadAdds(s: Stream, i: Input)
    requires s.inbox.batch == [] && ProcessBuffer(s, i).inbox.batch == []
    ensures Adds(s, ReadMore(ProcessBuffer(s, i), i), None, i)
  {
    hide ReadMore, Process, Receive, HasCloseMessage, OnFragment, IsTimely;
    var p := ProcessBuffer(s, i);
    ReadMoreAdds(p, i);
    var es, fs := s.out.encoded, ReadMore(p, i).out.encoded;
    if fs != es {
      var fragment := Receive(s.inbox.settings, s.inbox.assembly, s.inbox.buffer).fragment;
      SameTiming(p, s.(heartbeat := p.heartbeat), i, fs[|es|].message);
      ActivityOnlyDelays(s, i, i.now, fragment, fs[|es|].message);
    }
  }

  lemma SameTiming(s: Stream, t: Stream, i: Input, m: Message)
    requires s.heartbeat == t.heartbeat && s.config == t.config
    ensures IsTimely(s, i, m) == IsTimely(t, i, m)
  {
  }

  lemma NextTurnAdds(s: Stream, i: Input)
    requires Inv(s) && i.now <= i.after
    ensures Adds(s, NextTurn(s, i), None, i)
  {
    hide HandleMessage, HandleDeadline, ReadMore, ProcessBuffer, NextDeadline, IsTimely, IsJustified, Inv, OnInboundMessage;
    if s.state == Closed {
    } else if s.inbox.batch != [] {
      var h := OnInboundMessage(s.heartbeat, i.now, s.inbox.batch[0]);
      NoticeKeepsStopped(s.heartbeat, i.now, s.inbox.batch[0]);
      HeartbeatChangeIsSafe(s, h);
      HandleMessageAdds(s.(heartbeat := h), i);
      if IsAnswer(s, AnswerFrame(s, i).message) {
        FrameAdds(s, NextTurn(s, i), AnswerFrame(s, i), None, i);
      }
    } else if s.inbox.error.Some? {
    } else if NextDeadline(s.heartbeat).Some? && NextDeadline(s.heartbeat).value.at <= i.now {
      NextIsJustified(s.heartbeat);
      HandleDeadlineAdds(s, NextDeadline(s.heartbeat).value, i.now, i);
    } else if ProcessBuffer(s, i).inbox.batch == [] && ProcessBuffer(s, i).inbox.error.None? {
      ParseAndReadAdds(s, i);
    } else {
      ProcessedOut(s, i);
    }
  }

  lemma ProcessedOut(s: Stream, i: Input)
    ensures ProcessBuffer(s, i).out == s.out
  {
    hide Receive, Process, HasCloseMessage, OnFragment;
  }

  function SentBy(e: UnifiedStreams.Event): Option<Message> {
    match e
    case SendEvent(m, _, _) => Some(m)
    case CloseEvent(reason, _, _) => Some(CloseMessage(Some(reason)))
    case _ => None
  }

  lemma SendAdds(s: Stream, m: Message, encodes: bool, i: Input)
    ensures Adds(s, Send(s, m, encodes, i), Some(m), i)
  {
    hide SendControl, IsTimely, IsAnswer;
    if s.state == Open && encodes {
      var t := if m.CloseMessage? then BeginClosing(s.(state := CloseSent), i.now) else s;
      SendControlAdds(t.(inbox := NoteSent(t.inbox, m)), Encoded(m, i.key), i.write);
      FrameAdds(s, Send(s, m, encodes, i), Encoded(m, i.key), Some(m), i);
    }
  }

  /** A step adds at most one frame, and that has an origin; the kernel adds none. */
  lemma StepAdds(s: Stream, e: UnifiedStreams.Event)
    requires Inv(s)
    ensures if e.KernelAccepts? then Step(s, e).out.encoded == s.out.encoded else Adds(s, Step(s, e), SentBy(e), e.i)
  {
    hide NextTurn, Send, HasOrigin, Inv, Ready, FlushOut;
    match e
    case Next(i) =>
      if InTime(s, i) {
        ClockIsSafe(s, i);
        NextTurnAdds(s.(clock := i.after), i);
        SameOrigin(s, i, None, NextTurn(s.(clock := i.after), i));
      }
    case SendEvent(m, encodes, i) =>
      SendAdds(s.(clock := i.after), m, encodes, i);
      SameOrigin(s, i, Some(m), Send(s.(clock := i.after), m, encodes, i));
    case CloseEvent(reason, encodes, i) =>
      var m := CloseMessage(Some(reason));
      SendAdds(s.(clock := i.after), m, encodes, i);
      SameOrigin(s, i, Some(m), Send(s.(clock := i.after), m, encodes, i));
    case FlushEvent(i) => FlushAdds(s.out, i.write);
    case KernelAccepts(n) =>
  }

  /** The clock plays no part in it. */
  lemma SameOrigin(s: Stream, i: Input, sent: Option<Message>, t: Stream)
    ensures Adds(s.(clock := i.after), t, sent, i) == Adds(s, t, sent, i)
  {
  }

  lemma FlushAdds(o: Outbox, w: WriteOutcome)
    ensures FlushOut(o, w).encoded == o.encoded
  {
  }

  /** Every frame of every run was added by one of its steps and had its origin there. */
  lemma {:induction false} EveryFrameHasOrigin(start: Stream, es: seq<UnifiedStreams.Event>, k: nat) returns (j: nat)
    requires Inv(start) && start.out.encoded == []
    requires k < |Run(start, es).out.encoded|
    ensures j < |es| && !es[j].KernelAccepts?
    ensures var before := Run(start, es[..j]);
            && k == |before.out.encoded|
            && Run(start, es).out.encoded[k].key == es[j].i.key
            && HasOrigin(before, SentBy(es[j]), es[j].i, Run(start, es).out.encoded[k].message)
    decreases |es|
  {
    hide Inv, Step, HasOrigin;
    var front, n := es[..|es| - 1], |es| - 1;
    var before := Run(start, front);
    RunIsSafe(start, front);
    StepIsSafe(before, es[n]);
    StepAdds(before, es[n]);
    if k < |before.out.encoded| {
      j := EveryFrameHasOrigin(start, front, k);
      assert front[..j] == es[..j];
    } else {
      j := n;
    }
  }

  // ---------------------------------------------------------------------
  // Replies
  // ---------------------------------------------------------------------

  /** The reply to a Close is the last frame encoded, and the Close it answers is the last result: they are the same message. */
  predicate ReplyOk(s: Stream) {
    s.replied ==>
      && s.state == Closed && s.out.encoded != [] && s.results != []
      && s.results[|s.results| - 1] == Got(s.out.encoded[|s.out.encoded| - 1].message)
      && s.out.encoded[|s.out.encoded| - 1].message.CloseMessage?
  }

  lemma DeadlineKeepsReplied(s: Stream, d: Deadline, now: nat, i: Input)
    ensures HandleDeadline(s, d, now, i).replied == s.replied
  {
    hide PingIsDue, IssuePing, PingFlushed, FlushOut;
  }

  lemma ReadMoreKeepsReplied(s: Stream, i: Input)
    ensures ReadMore(s, i).replied == s.replied
  {
    hide HandleDeadline, NextDeadline, RecoveryLimit;
    if NextDeadline(s.heartbeat).Some? {
      var d := NextDeadline(s.heartbeat).value;
      DeadlineKeepsReplied(s, d, i.after, i);
      if RecoveryLimit(s.heartbeat, d).Some? {
        DeadlineKeepsReplied(s, RecoveryLimit(s.heartbeat, d).value, i.after, i);
      }
    }
  }

  lemma HandleMessageReplies(s: Stream, i: Input)
    requires Inv(s) && ReplyOk(s) && s.state != Closed && s.inbox.batch != []
    ensures ReplyOk(HandleMessage(s, i))
  {
    hide Inv, HandleClose, SendControl, Receive;
    if s.inbox.batch[0].CloseMessage? {
      HandleCloseAdds(s, i);
      HandleCloseEffect(s, i);
    } else if s.inbox.batch[0].PingMessage? {
      SendKeepsReplied(s, Encoded(PongMessage(s.inbox.batch[0].data), i.key), i.write);
    }
  }

  lemma HandleCloseEffect(s: Stream, i: Input)
    requires s.inbox.batch != []
    ensures var t := HandleClose(s, i);
            && t.results == s.results + [Got(s.inbox.batch[0])] && t.state == Closed
            && t.replied == (s.replied || s.state == Open || s.state == ReadErrorPending)
  {
    hide FlushOut, FinishClose;
  }

  lemma SendKeepsReplied(s: Stream, e: Encoded, w: WriteOutcome)
    ensures SendControl(s, e, w).replied == s.replied
  {
  }

  lemma NextTurnReplies(s: Stream, i: Input)
    requires Inv(s) && ReplyOk(s) && s.state != Closed
    ensures ReplyOk(NextTurn(s, i))
  {
    hide HandleMessage, HandleDeadline, ReadMore, Process, NextDeadline, Inv, Receive, HasCloseMessage, OnInboundMessage;
    if s.inbox.batch != [] {
      var h := OnInboundMessage(s.heartbeat, i.now, s.inbox.batch[0]);
      NoticeKeepsStopped(s.heartbeat, i.now, s.inbox.batch[0]);
      HeartbeatChangeIsSafe(s, h);
      HandleMessageReplies(s.(heartbeat := h), i);
    } else if s.inbox.error.Some? {
    } else if NextDeadline(s.heartbeat).Some? && NextDeadline(s.heartbeat).value.at <= i.now {
      DeadlineKeepsReplied(s, NextDeadline(s.heartbeat).value, i.now, i);
    } else {
      ReadMoreKeepsReplied(ProcessBuffer(s, i), i);
    }
  }

  lemma StepReplies(s: Stream, e: UnifiedStreams.Event)
    requires Inv(s) && ReplyOk(s)
    ensures ReplyOk(Step(s, e))
  {
    hide NextTurn, Send, Inv, Receive, SendControl;
    StepIsSafe(s, e);
    if s.state == Closed {
      ClosedKeepsReplied(s, e);
    } else {
      match e
      case Next(i) =>
        if InTime(s, i) {
          ClockIsSafe(s, i);
          NextTurnReplies(s.(clock := i.after), i);
        }
      case SendEvent(m, encodes, i) => SendCallKeepsReplied(s.(clock := i.after), m, encodes, i);
      case CloseEvent(reason, encodes, i) => SendCallKeepsReplied(s.(clock := i.after), CloseMessage(Some(reason)), encodes, i);
      case FlushEvent(i) =>
      case KernelAccepts(n) =>
    }
  }

  lemma ClosedKeepsReplied(s: Stream, e: UnifiedStreams.Event)
    requires s.state == Closed
    ensures Step(s, e).replied == s.replied && Step(s, e).state == Closed
  {
    hide HandleMessage, HandleDeadline, ReadMore, ProcessBuffer, NextDeadline, Receive;
  }

  lemma SendCallKeepsReplied(s: Stream, m: Message, encodes: bool, i: Input)
    ensures Send(s, m, encodes, i).replied == s.replied
  {
  }

  // ---------------------------------------------------------------------
  // Two ends
  // ---------------------------------------------------------------------

  datatype Pair = Pair(a: Stream, b: Stream)

  datatype PairEvent = AtA(e: UnifiedStreams.Event) | AtB(e: UnifiedStreams.Event)

  /** Either end takes a step; it can only have read what the other end has put on the wire, in order. */
  function PairStep(p: Pair, pe: PairEvent): Pair {
    if pe.AtA? then
      var a := Step(p.a, pe.e);
      if a.inbox.arrived <= p.b.out.wire then p.(a := a) else p
    else
      var b := Step(p.b, pe.e);
      if b.inbox.arrived <= p.a.out.wire then p.(b := b) else p
  }

  function PairRun(p: Pair, pes: seq<PairEvent>): Pair {
    if pes == [] then p else PairStep(PairRun(p, pes[..|pes| - 1]), pes[|pes| - 1])
  }

  /** Applications keep to the sending rules and the receiver's limits, and masks go from client to server. */
  predicate Proper(peer: Settings, e: UnifiedStreams.Event) {
    && (!e.KernelAccepts? ==> e.i.key.Some? == peer.frames.expectMasked)
    && (SentBy(e).Some? ==> Sendable(peer, SentBy(e).value))
  }

  predicate ProperEvents(a: Settings, b: Settings, pes: seq<PairEvent>) {
    forall k :: 0 <= k < |pes| ==> Proper(if pes[k].AtA? then b else a, pes[k].e)
  }

  /** Every control frame fits the receiver's limit, and the timeout notices are well-formed. */
  predicate ProperConfig(config: Config, peer: Settings) {
    && peer.frames.maxFrameSize >= 125
    && Sendable(peer, CloseMessage(Some(config.pongNotice)))
    && Sendable(peer, CloseMessage(Some(config.idleNotice)))
  }

  lemma OriginIsSendable(s: Stream, own: Settings, peer: Settings, sent: Option<Message>, i: Input, m: Message)
    requires InOrder(s.inbox) && s.inbox.settings == own
    requires ProperConfig(s.config, peer) && (sent.Some? ==> Sendable(peer, sent.value))
    requires HasOrigin(s, sent, i, m)
    ensures Sendable(peer, m)
  {
    hide Receive, ValidUtf8, IsValidCloseCode, InOrder;
    DeliveredIsDeliverable(own, Idle, s.inbox.arrived);
    PayloadSize(i.nonce, 8);
    if IsAnswer(s, m) {
      BatchIsAccepted(s.inbox);
      assert Deliverable(own, s.inbox.batch[0]);
      if m.CloseMessage? {
        CloseSize(m.reason);
      }
    }
  }

  lemma CloseSize(r: Option<CloseReason>)
    ensures |EncodeClose(r)| == (if r.Some? then 2 + |r.value.reason| else 0)
  {
    if r.Some? {
      PayloadSize(r.value.code, 2);
    }
  }

  /** One end, with `own` and `peer` the limits of both ends and `heardFrom` its peer's wire. */
  ghost predicate EndOk(s: Stream, own: Settings, peer: Settings, heardFrom: seq<Octet>) {
    && Inv(s) && ReplyOk(s)
    && s.inbox.settings == own && ProperConfig(s.config, peer)
    && AllSendable(peer, s.out.encoded)
    && s.inbox.arrived <= heardFrom
  }

  lemma EndStep(s: Stream, e: UnifiedStreams.Event, own: Settings, peer: Settings, heardFrom: seq<Octet>)
    requires EndOk(s, own, peer, heardFrom) && Proper(peer, e) && Step(s, e).inbox.arrived <= heardFrom
    ensures EndOk(Step(s, e), own, peer, heardFrom) && s.out.wire <= Step(s, e).out.wire
  {
    hide Inv, ReplyOk, Step, Sendable, HasOrigin, ProperConfig, AllSendable;
    var t := Step(s, e);
    StepIsSafe(s, e);
    StepReplies(s, e);
    StepAdds(s, e);
    var es, fs := s.out.encoded, t.out.encoded;
    if fs != es {
      AddedByLive(s, t);
      OriginIsSendable(s, own, peer, SentBy(e), e.i, fs[|es|].message);
      SendableSnoc(peer, es, fs);
    }
  }

  lemma SendableSnoc(peer: Settings, es: seq<Encoded>, fs: seq<Encoded>)
    requires AllSendable(peer, es) && |fs| == |es| + 1 && es <= fs
    requires Sendable(peer, fs[|es|].message) && fs[|es|].key.Some? == peer.frames.expectMasked
    ensures AllSendable(peer, fs)
  {
    hide Sendable;
    forall k | 0 <= k < |fs| ensures Sendable(peer, fs[k].message) && fs[k].key.Some? == peer.frames.expectMasked {
      assert k < |es| ==> fs[k] == fs[..|es|][k];
    }
  }

  lemma AddedByLive(s: Stream, t: Stream)
    requires Inv(s) && Advances(s, t) && t.out.encoded != s.out.encoded
    ensures InOrder(s.inbox)
  {
    hide InOrder, PrefixOnly, Unanswered, MessagesIn, Receive, Accounts, OnlyPongsAfterClose, HasClose;
  }

  ghost predicate PairOk(p: Pair, sa: Settings, sb: Settings) {
    EndOk(p.a, sa, sb, p.b.out.wire) && EndOk(p.b, sb, sa, p.a.out.wire)
  }

  lemma HearsMore(s: Stream, own: Settings, peer: Settings, heard: seq<Octet>, more: seq<Octet>)
    requires EndOk(s, own, peer, heard) && heard <= more
    ensures EndOk(s, own, peer, more)
  {
    hide Inv, ReplyOk, AllSendable, ProperConfig;
  }

  lemma {:induction false} PairRunIsOk(p: Pair, sa: Settings, sb: Settings, pes: seq<PairEvent>)
    requires PairOk(p, sa, sb) && ProperEvents(sa, sb, pes)
    ensures PairOk(PairRun(p, pes), sa, sb)
    decreases |pes|
  {
    hide EndOk, Step, Proper;
    if pes != [] {
      var q, pe := PairRun(p, pes[..|pes| - 1]), pes[|pes| - 1];
      PairRunIsOk(p, sa, sb, pes[..|pes| - 1]);
      if PairStep(q, pe) != q {
        if pe.AtA? {
          EndStep(q.a, pe.e, sa, sb, q.b.out.wire);
          HearsMore(q.b, sb, sa, q.a.out.wire, Step(q.a, pe.e).out.wire);
        } else {
          EndStep(q.b, pe.e, sb, sa, q.a.out.wire);
          HearsMore(q.a, sa, sb, q.b.out.wire, Step(q.b, pe.e).out.wire);
        }
      }
    }
  }

  /** Two new streams, each other's peers. */
  function NewPair(ca: Config, ha: Heartbeat, sa: Settings, cb: Config, hb: Heartbeat, sb: Settings): Pair {
    Pair(NewStream(ca, ha, sa, []), NewStream(cb, hb, sb, []))
  }

  lemma NewPairIsOk(ca: Config, ha: Heartbeat, sa: Settings, cb: Config, hb: Heartbeat, sb: Settings)
    requires ProperConfig(ca, sb) && ProperConfig(cb, sa)
    ensures PairOk(NewPair(ca, ha, sa, cb, hb, sb), sa, sb)
  {
    hide Inv, ProperConfig;
    NewStreamIsSafe(ca, ha, sa, []);
    NewStreamIsSafe(cb, hb, sb, []);
  }

  /** What one end returns was encoded by the other, in the same order; and it never sees an error in it. */
  lemma Understands(s: Stream, t: Stream, ss: Settings, st: Settings)
    requires EndOk(s, ss, st, t.out.wire) && EndOk(t, st, ss, s.out.wire)
    ensures MessagesIn(s.results) <= MessagesOf(t.out.encoded) && !ParseFailed(s.results)
  {
    hide Receive, AllSendable, MessagesIn, MessagesOf, ReplyOk, ProperConfig, InOrder, Unanswered, Accounts, OnlyPongsAfterClose, HasClose;
    var rest := t.out.wire[|s.inbox.arrived|..];
    assert s.inbox.arrived + rest == t.out.wire;
    CutWireIsReceived(ss, t.out.wire, t.out.pending, t.out.encoded);
    ReceiveExtends(ss, Idle, s.inbox.arrived, rest);
  }

  predicate ReturnedClose(s: Stream) {
    exists k :: 0 <= k < |s.results| && s.results[k].Got? && s.results[k].message.CloseMessage?
  }

  lemma {:induction false} ReturnedIsIn(rs: seq<Outcome>, k: nat)
    requires k < |rs| && rs[k].Got?
    ensures rs[k].message in MessagesIn(rs)
    decreases |rs|
  {
    if k < |rs| - 1 {
      ReturnedIsIn(rs[..|rs| - 1], k);
    }
  }

  /** A returned Close was encoded by the other end, exactly once. */
  lemma CloseWasEncoded(s: Stream, t: Stream, ss: Settings, st: Settings)
    requires EndOk(s, ss, st, t.out.wire) && EndOk(t, st, ss, s.out.wire) && ReturnedClose(s)
    ensures Closes(t.out.encoded) == 1
  {
    hide AllSendable, MessagesIn, ReplyOk, ProperConfig, InOk, ResultsOk, TimeOk, Accounts, OnlyPongsAfterClose;
    Understands(s, t, ss, st);
    var k :| 0 <= k < |s.results| && s.results[k].Got? && s.results[k].message.CloseMessage?;
    ReturnedIsIn(s.results, k);
    var m := s.results[k].message;
    assert m in MessagesOf(t.out.encoded);
    var j :| 0 <= j < |t.out.encoded| && MessagesOf(t.out.encoded)[j] == m;
    assert t.out.encoded[j].message.CloseMessage?;
    NoCloseCounts(t.out.encoded);
    AtMostOneClose(t.out.encoded);
  }

  /**
   Two ends whose applications keep to the rules, over every interleaving, with Closes that may
   cross: each returns a prefix of what the other encoded and never a parse error, and if both
   return a Close then each has encoded exactly one.
   */
  lemma EndsUnderstandEachOther(ca: Config, ha: Heartbeat, sa: Settings, cb: Config, hb: Heartbeat, sb: Settings, pes: seq<PairEvent>)
    requires ProperConfig(ca, sb) && ProperConfig(cb, sa) && ProperEvents(sa, sb, pes)
    ensures var p := PairRun(NewPair(ca, ha, sa, cb, hb, sb), pes);
            && MessagesIn(p.a.results) <= MessagesOf(p.b.out.encoded) && !ParseFailed(p.a.results)
            && MessagesIn(p.b.results) <= MessagesOf(p.a.out.encoded) && !ParseFailed(p.b.results)
            && (ReturnedClose(p.a) && ReturnedClose(p.b) ==> Closes(p.a.out.encoded) == 1 && Closes(p.b.out.encoded) == 1)
  {
    hide EndOk, PairStep, ProperConfig, ProperEvents, ReturnedClose, MessagesIn, MessagesOf, ParseFailed, Closes;
    var start := NewPair(ca, ha, sa, cb, hb, sb);
    NewPairIsOk(ca, ha, sa, cb, hb, sb);
    PairRunIsOk(start, sa, sb, pes);
    var p := PairRun(start, pes);
    Understands(p.a, p.b, sa, sb);
    Understands(p.b, p.a, sb, sa);
    if ReturnedClose(p.a) && ReturnedClose(p.b) {
      CloseWasEncoded(p.a, p.b, sa, sb);
      CloseWasEncoded(p.b, p.a, sb, sa);
    }
  }

  /** The reply of `s` is its last frame and its only Close, and is, code and reason, the only Close of `t`. */
  predicate Echoes(s: Stream, t: Stream) {
    var es := s.out.encoded;
    && es != [] && es[|es| - 1].message.CloseMessage? && es[|es| - 1].message in MessagesOf(t.out.encoded)
    && Closes(t.out.encoded) == 1 && Closes(es) == 1
  }

  lemma ReplyIsEcho(s: Stream, t: Stream, ss: Settings, st: Settings)
    requires EndOk(s, ss, st, t.out.wire) && EndOk(t, st, ss, s.out.wire) && s.replied
    ensures Echoes(s, t)
  {
    hide MessagesIn, Closes, Inv, ProperConfig, AllSendable;
    var n := |s.results| - 1;
    Understands(s, t, ss, st);
    assert s.results[n].Got? && s.results[n].message.CloseMessage?;
    ReturnedIsIn(s.results, n);
    CloseWasEncoded(s, t, ss, st);
    OwnClose(s);
  }

  /** Whichever end replies to a Close echoes the one Close that the other end encoded. */
  lemma ReplyEchoesTheClose(ca: Config, ha: Heartbeat, sa: Settings, cb: Config, hb: Heartbeat, sb: Settings, pes: seq<PairEvent>)
    requires ProperConfig(ca, sb) && ProperConfig(cb, sa) && ProperEvents(sa, sb, pes)
    ensures var p := PairRun(NewPair(ca, ha, sa, cb, hb, sb), pes);
            && (p.a.replied ==> Echoes(p.a, p.b))
            && (p.b.replied ==> Echoes(p.b, p.a))
  {
    hide PairStep, ProperConfig, ProperEvents, EndOk, Echoes;
    var start := NewPair(ca, ha, sa, cb, hb, sb);
    NewPairIsOk(ca, ha, sa, cb, hb, sb);
    PairRunIsOk(start, sa, sb, pes);
    var p := PairRun(start, pes);
    if p.a.replied {
      ReplyIsEcho(p.a, p.b, sa, sb);
    }
    if p.b.replied {
      ReplyIsEcho(p.b, p.a, sb, sa);
    }
  }

  lemma OwnClose(s: Stream)
    requires Inv(s) && s.out.encoded != [] && s.out.encoded[|s.out.encoded| - 1].message.CloseMessage?
    ensures Closes(s.out.encoded) == 1
  {
    hide InOk, ResultsOk, TimeOk, Accounts, OnlyPongsAfterClose;
    NoCloseCounts(s.out.encoded);
    AtMostOneClose(s.out.encoded);
  }
}
