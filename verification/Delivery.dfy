/** An accepted Close is returned, whatever the transport does meanwhile. */
module UnifiedDelivery {
  import opened Octets
  import opened Masking
  import opened Messages
  import opened MessageLaws
  import opened Heartbeats
  import opened Outbound
  import opened Inboxes
  import opened UnifiedStreams
  import opened UnifiedSafety

  /** It is known whether there is a Close in what is left of a batch. */
  predicate FlagOk(s: Stream) {
    s.state != Closed && s.inbox.batch != [] ==>
      (s.batchHasClose <==> exists k :: 0 <= k < |s.inbox.batch| && s.inbox.batch[k].CloseMessage?)
  }

  lemma ShorterBatch(ms: seq<Message>)
    requires ms != [] && !ms[0].CloseMessage?
    ensures (exists k :: 0 <= k < |ms| && ms[k].CloseMessage?) <==> (exists k :: 0 <= k < |ms| - 1 && ms[1..][k].CloseMessage?)
  {
    if k :| 0 <= k < |ms| && ms[k].CloseMessage? {
      assert ms[1..][k - 1].CloseMessage?;
    }
  }

  lemma HandleMessageKeepsFlag(s: Stream, i: Input)
    requires FlagOk(s) && s.inbox.batch != [] && s.state != Closed
    ensures FlagOk(HandleMessage(s, i))
  {
    hide FlushOut, Encode, FinishClose;
    if !s.inbox.batch[0].CloseMessage? {
      ShorterBatch(s.inbox.batch);
    }
  }

  lemma HandleDeadlineKeepsBatch(s: Stream, d: Deadline, now: nat, i: Input)
    ensures var t := HandleDeadline(s, d, now, i); t.inbox == s.inbox && t.batchHasClose == s.batchHasClose
  {
    hide FlushOut, Encode, FinishClose, PingIsDue, IssuePing, PingFlushed;
  }

  lemma OnReadKeepsBatch(s: Stream, r: Option<UnifiedStreams.ReadResult>)
    ensures OnRead(s, r).inbox.batch == s.inbox.batch && OnRead(s, r).batchHasClose == s.batchHasClose
  {
  }

  lemma MarkKeepsBatch(s: Stream, late: bool)
    ensures MarkRead(s, late).inbox.batch == s.inbox.batch && MarkRead(s, late).batchHasClose == s.batchHasClose
  {
  }

  lemma ReadMoreKeepsBatch(s: Stream, i: Input)
    ensures ReadMore(s, i).inbox.batch == s.inbox.batch && ReadMore(s, i).batchHasClose == s.batchHasClose
  {
    hide HandleDeadline, NextDeadline, RecoveryLimit, OnRead, MarkRead;
    OnReadKeepsBatch(s, i.read);
    if s.deadline.Some? {
      var t := MarkRead(s, i.start >= s.deadline.value);
      MarkKeepsBatch(s, i.start >= s.deadline.value);
      OnReadKeepsBatch(t, i.read);
    } else if NextDeadline(s.heartbeat).Some? {
      var d := NextDeadline(s.heartbeat).value;
      HandleDeadlineKeepsBatch(s, d, i.after, i);
      OnReadKeepsBatch(HandleDeadline(s, d, i.after, i), i.read);
      if RecoveryLimit(s.heartbeat, d).Some? {
        HandleDeadlineKeepsBatch(s, RecoveryLimit(s.heartbeat, d).value, i.after, i);
      }
    }
  }

  lemma NextTurnKeepsFlag(s: Stream, i: Input)
    requires FlagOk(s)
    ensures FlagOk(NextTurn(s, i))
  {
    hide HandleMessage, HandleDeadline, ReadMore, Process, NextDeadline, Receive, OnInboundMessage;
    if s.state == Closed {
    } else if s.inbox.batch != [] {
      HandleMessageKeepsFlag(s.(heartbeat := OnInboundMessage(s.heartbeat, i.now, s.inbox.batch[0])), i);
    } else if s.inbox.error.Some? {
    } else if NextDeadline(s.heartbeat).Some? && NextDeadline(s.heartbeat).value.at <= i.now {
      HandleDeadlineKeepsBatch(s, NextDeadline(s.heartbeat).value, i.now, i);
    } else {
      ReadMoreKeepsBatch(ProcessBuffer(s, i), i);
    }
  }

  lemma SendKeepsBatch(s: Stream, m: Message, encodes: bool, i: Input)
    ensures Send(s, m, encodes, i).inbox.batch == s.inbox.batch && Send(s, m, encodes, i).batchHasClose == s.batchHasClose
    ensures s.state == Closed ==> Send(s, m, encodes, i) == s
  {
    hide FlushOut, Encode;
  }

  lemma StepKeepsFlag(s: Stream, e: UnifiedStreams.Event)
    requires FlagOk(s)
    ensures FlagOk(Step(s, e))
  {
    hide NextTurn, Send, FlushOut;
    match e
    case Next(i) => NextTurnKeepsFlag(s.(clock := i.after), i);
    case SendEvent(m, encodes, i) => SendKeepsBatch(s.(clock := i.after), m, encodes, i);
    case CloseEvent(reason, encodes, i) => SendKeepsBatch(s.(clock := i.after), CloseMessage(Some(reason)), encodes, i);
    case FlushEvent(i) =>
    case KernelAccepts(n) =>
  }

  lemma {:induction false} RunKeepsFlag(s: Stream, es: seq<UnifiedStreams.Event>)
    requires FlagOk(s)
    ensures FlagOk(Run(s, es))
    decreases |es|
  {
    hide FlagOk, Step;
    if es != [] {
      RunKeepsFlag(s, es[..|es| - 1]);
      StepKeepsFlag(Run(s, es[..|es| - 1]), es[|es| - 1]);
    }
  }

  function AllGot(ms: seq<Message>): (r: seq<Outcome>)
    ensures |r| == |ms|
  {
    if ms == [] then [] else [Got(ms[0])] + AllGot(ms[1..])
  }

  /** With a Close in the batch, a turn writes nothing before that Close, so nothing can fail. */
  lemma FirstTurn(s: Stream, i: Input)
    requires s.state != Closed && s.batchHasClose && s.inbox.batch != []
    ensures var t, m := NextTurn(s, i), s.inbox.batch[0];
            && t.results == s.results + [Got(m)]
            && (if m.CloseMessage? then t.state == Closed
                else t.state == s.state && t.batchHasClose && t.inbox.batch == s.inbox.batch[1..] && t.out == s.out)
  {
    hide FlushOut, Encode, FinishClose, OnInbound;
  }

  /** A call other than receiving that closes the stream: its write fails, or the shutdown behind a Close does. */
  predicate CallFails(s: Stream, e: UnifiedStreams.Event) {
    match e
    case Next(_) => false
    case SendEvent(m, encodes, i) => InTime(s, i) && s.state == Open && encodes && i.write.GivenUp?
    case CloseEvent(reason, encodes, i) =>
      InTime(s, i) && s.state == Open && encodes && (i.write.GivenUp? || (s.config.immediateShutdown && !i.shutdownOk))
    case FlushEvent(i) => InTime(s, i) && i.write.GivenUp?
    case KernelAccepts(_) => false
  }

  /** Other calls leave the batch alone, and close the stream exactly if they fail. */
  lemma OtherCallsKeepBatch(s: Stream, e: UnifiedStreams.Event)
    requires s.state != Closed && !e.Next?
    ensures var t := Step(s, e);
            && t.inbox.batch == s.inbox.batch && t.batchHasClose == s.batchHasClose && t.results == s.results
            && (t.state == Closed <==> CallFails(s, e))
  {
    hide Send, CloseCall, Flush, NextTurn;
    match e
    case SendEvent(m, encodes, i) => SendOutcome(s.(clock := i.after), m, encodes, i);
    case CloseEvent(reason, encodes, i) => CloseOutcome(s.(clock := i.after), reason, encodes, i);
    case FlushEvent(i) => FlushOutcome(s.(clock := i.after), i);
    case KernelAccepts(_) =>
  }

  lemma SendOutcome(s: Stream, m: Message, encodes: bool, i: Input)
    requires s.state != Closed
    ensures var t := Send(s, m, encodes, i);
            && t.inbox.batch == s.inbox.batch && t.batchHasClose == s.batchHasClose && t.results == s.results && t.config == s.config
            && (t.state == Closed <==> s.state == Open && encodes && i.write.GivenUp?)
  {
    hide SendControl, Stop;
    if s.state == Open && encodes {
      var u := if m.CloseMessage? then BeginClosing(s.(state := CloseSent), i.now) else s;
      SendControlEffect(u.(inbox := NoteSent(u.inbox, m)), Encoded(m, i.key), i.write);
    }
  }

  lemma CloseOutcome(s: Stream, reason: CloseReason, encodes: bool, i: Input)
    requires s.state != Closed
    ensures var t := CloseCall(s, reason, encodes, i);
            && t.inbox.batch == s.inbox.batch && t.batchHasClose == s.batchHasClose && t.results == s.results
            && (t.state == Closed <==>
                  s.state == Open && encodes && (i.write.GivenUp? || (s.config.immediateShutdown && !i.shutdownOk)))
  {
    hide Send;
    SendOutcome(s, CloseMessage(Some(reason)), encodes, i);
  }

  lemma FlushOutcome(s: Stream, i: Input)
    requires s.state != Closed
    ensures var t := Flush(s, i);
            && t.inbox == s.inbox && t.batchHasClose == s.batchHasClose && t.results == s.results
            && (t.state == Closed <==> i.write.GivenUp?)
  {
    hide FlushOut, Stop;
  }

  lemma ClosedIsStill(s: Stream, e: UnifiedStreams.Event)
    requires s.state == Closed
    ensures Step(s, e).state == Closed && Step(s, e).results == s.results
  {
    hide HandleMessage, HandleDeadline, ProcessBuffer, ReadMore, NextDeadline, Receive, FlushOut;
  }

  /** The turns of `next` among some events. */
  function TurnsIn(s: Stream, fs: seq<UnifiedStreams.Event>): nat
    decreases |fs|
  {
    if fs == [] then 0
    else (if fs[0].Next? && InTime(s, fs[0].i) then 1 else 0) + TurnsIn(Step(s, fs[0]), fs[1..])
  }

  /** No other call fails while the stream is not closed. */
  predicate NoCallFails(s: Stream, fs: seq<UnifiedStreams.Event>)
    decreases |fs|
  {
    fs == [] || s.state == Closed || (!CallFails(s, fs[0]) && NoCallFails(Step(s, fs[0]), fs[1..]))
  }

  function Proceed(s: Stream, fs: seq<UnifiedStreams.Event>): Stream
    decreases |fs|
  {
    if fs == [] then s else Proceed(Step(s, fs[0]), fs[1..])
  }

  lemma {:induction false} ProceedIsRun(s: Stream, fs: seq<UnifiedStreams.Event>)
    ensures Proceed(s, fs) == Run(s, fs)
    decreases |fs|
  {
    hide Step;
    if fs != [] {
      ProceedIsRun(Step(s, fs[0]), fs[1..]);
      RunSplits(s, [fs[0]], fs[1..]);
      assert fs == [fs[0]] + fs[1..];
      assert [fs[0]][..0] == [];
    }
  }

  lemma {:induction false} ClosedProceeds(s: Stream, fs: seq<UnifiedStreams.Event>)
    requires s.state == Closed
    ensures Proceed(s, fs).results == s.results && Proceed(s, fs).state == Closed
    decreases |fs|
  {
    hide Step;
    if fs != [] {
      ClosedIsStill(s, fs[0]);
      ClosedProceeds(Step(s, fs[0]), fs[1..]);
    }
  }

  lemma {:induction false} CloseIsReturnedUnlessLost(s: Stream, fs: seq<UnifiedStreams.Event>, k: nat)
    requires s.state != Closed && s.batchHasClose && k < |s.inbox.batch| && s.inbox.batch[k].CloseMessage?
    requires forall j :: 0 <= j < k ==> !s.inbox.batch[j].CloseMessage?
    requires TurnsIn(s, fs) > k
    ensures Proceed(s, fs).results == s.results + AllGot(s.inbox.batch[..k + 1]) <==> NoCallFails(s, fs)
    ensures Proceed(s, fs).state == Closed && |Proceed(s, fs).results| <= |s.results| + k + 1
    decreases |fs|
  {
    hide Step, CallFails, InTime;
    var b, e := s.inbox.batch, fs[0];
    var t := Step(s, e);
    if e.Next? && InTime(s, e.i) {
      TurnStep(s, e.i);
      NextNeverFails(s, e);
      assert b[..k + 1][0] == b[0];
      if k == 0 {
        ClosedProceeds(t, fs[1..]);
        assert b[..1][1..] == [];
      } else {
        CloseIsReturnedUnlessLost(t, fs[1..], k - 1);
        assert b[1..][..k] == b[..k + 1][1..];
        assert s.results + [Got(b[0])] + AllGot(b[1..][..k]) == s.results + ([Got(b[0])] + AllGot(b[1..][..k]));
      }
    } else if e.Next? {
      LateTurn(s, e);
      CloseIsReturnedUnlessLost(t, fs[1..], k);
    } else {
      OtherCallsKeepBatch(s, e);
      if CallFails(s, e) {
        ClosedProceeds(t, fs[1..]);
        assert |AllGot(b[..k + 1])| == k + 1;
      } else {
        CloseIsReturnedUnlessLost(t, fs[1..], k);
      }
    }
  }

  lemma NextNeverFails(s: Stream, e: UnifiedStreams.Event)
    requires e.Next?
    ensures !CallFails(s, e)
  {
  }

  lemma LateTurn(s: Stream, e: UnifiedStreams.Event)
    requires e.Next? && !InTime(s, e.i)
    ensures Step(s, e) == s && !CallFails(s, e)
  {
  }

  lemma TurnStep(s: Stream, i: Input)
    requires s.state != Closed && s.batchHasClose && s.inbox.batch != [] && InTime(s, i)
    ensures var t, m := Step(s, UnifiedStreams.Event.Next(i)), s.inbox.batch[0];
            && t.results == s.results + [Got(m)]
            && (if m.CloseMessage? then t.state == Closed
                else t.state == s.state && t.batchHasClose && t.inbox.batch == s.inbox.batch[1..])
  {
    hide NextTurn;
    FirstTurn(s.(clock := i.after), i);
  }

  /**
   In every run, once a Close is accepted at position `k` of the batch: after as many turns of
   `next`, with any other calls between them and whatever the transport does to the turns, every
   message up to the Close has been returned and the stream is closed, if and only if no other call
   failed on the way. A failed send, flush or shutdown loses the accepted Close.
   */
  lemma AcceptedCloseIsReturned(config: Config, heartbeat: Heartbeat, settings: Settings, leftover: seq<Octet>,
                                es: seq<UnifiedStreams.Event>, fs: seq<UnifiedStreams.Event>, k: nat)
    requires var s := Run(NewStream(config, heartbeat, settings, leftover), es);
             && s.state != Closed && k < |s.inbox.batch| && s.inbox.batch[k].CloseMessage?
             && (forall j :: 0 <= j < k ==> !s.inbox.batch[j].CloseMessage?)
             && TurnsIn(s, fs) > k
    ensures var start := NewStream(config, heartbeat, settings, leftover);
            var s, t := Run(start, es), Run(start, es + fs);
            t.state == Closed && (t.results == s.results + AllGot(s.inbox.batch[..k + 1]) <==> NoCallFails(s, fs))
  {
    hide Step, Run, AllGot, NoCallFails, TurnsIn;
    var start := NewStream(config, heartbeat, settings, leftover);
    RunKeepsFlag(start, es);
    var s := Run(start, es);
    assert HasCloseMessage(s.inbox.batch);
    RunSplits(start, es, fs);
    ProceedIsRun(s, fs);
    CloseIsReturnedUnlessLost(s, fs, k);
  }

  /**
   At an input: a text and a Close have arrived with the handshake, one turn accepts both, a flush
   fails, and no later call returns either of them.
   */
  lemma FailedFlushLosesTheClose(config: Config, heartbeat: Heartbeat, settings: Settings, text: Message, close: Message,
                                 masks: seq<Option<MaskKey>>, i: Input, f: Input, fs: seq<UnifiedStreams.Event>)
    requires text.TextMessage? && close.CloseMessage? && |masks| == 2 && NextDeadline(heartbeat).None?
    requires Sendable(settings, text) && Sendable(settings, close)
    requires masks[0].Some? == masks[1].Some? == settings.frames.expectMasked
    requires i.now <= i.start <= i.after <= f.now <= f.start <= f.after && f.write.GivenUp?
    ensures var start := NewStream(config, heartbeat, settings, EncodeMessages([text, close], masks));
            var s, t := Run(start, [UnifiedStreams.Event.Next(i)]), Run(start, [UnifiedStreams.Event.Next(i)] + ([FlushEvent(f)] + fs));
            && s.state == Open && s.inbox.batch == [text, close]
            && t.state == Closed && t.results == []
  {
    hide Step, Run, Sendable, EncodeMessages, Receive;
    var start := NewStream(config, heartbeat, settings, EncodeMessages([text, close], masks));
    var next, flush := UnifiedStreams.Event.Next(i), FlushEvent(f);
    EncodedMessagesAreReceived(settings, [text, close], masks);
    FirstTurnParses(start, i, [text, close]);
    RunSplits(start, [next], [flush] + fs);
    ProceedIsRun(start, [next]);
    ProceedIsRun(Run(start, [next]), [flush] + fs);
    var s := Step(start, next);
    ProceedOne(start, next);
    OtherCallsKeepBatch(s, flush);
    FlushFails(s, f);
    assert ([flush] + fs)[1..] == fs;
    ClosedProceeds(Step(s, flush), fs);
  }

  lemma ProceedOne(s: Stream, e: UnifiedStreams.Event)
    ensures Proceed(s, [e]) == Step(s, e)
  {
    hide Step;
    assert [e][1..] == [];
  }

  lemma FlushFails(s: Stream, f: Input)
    requires s.clock <= f.now <= f.start <= f.after && f.write.GivenUp?
    ensures CallFails(s, FlushEvent(f))
  {
  }

  /** A turn of an idle stream with something to parse. */
  lemma FirstTurnParses(s: Stream, i: Input, ms: seq<Message>)
    requires s.state == Open && s.inbox.batch == [] && s.inbox.error.None? && NextDeadline(s.heartbeat).None?
    requires s.clock <= i.now <= i.start <= i.after && ms != []
    requires var r := Receive(s.inbox.settings, s.inbox.assembly, s.inbox.buffer); r.messages == ms && r.error.None?
    ensures var t := Step(s, UnifiedStreams.Event.Next(i));
            t.state == Open && t.inbox.batch == ms && t.results == s.results && t.clock == i.after
  {
    hide Receive, NextDeadline, HasCloseMessage, OnFragment, ReadMore, HandleMessage, HandleDeadline;
  }
}
