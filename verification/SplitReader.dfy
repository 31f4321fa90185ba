/**
 The read half of a split stream. Every control message is handed to the writer driver through
 a bounded queue before it is returned; a call may be cancelled while it waits for room there.
 */
module SplitReading {
  import opened Octets
  import opened Messages
  import opened SplitWriting

  /** Where a call of `next` is suspended, or no call. */
  datatype Waiting = NoCall | Offering | OfferingError | OfferingEof | ReadingMore

  datatype Reader = Reader(stack: seq<Message>, parseError: bool, request: Option<Control>, cells: Shared, reported: bool,
                           call: Waiting, delivered: seq<Message>, queued: seq<Control>, parsed: seq<Message>, kept: seq<Message>,
                           discarding: bool, failed: bool)

  /**
   The reader takes over what was parsed before the split: a batch of messages, and a parse error
   behind them. `kept` is what it owes its caller: everything parsed, until a Close or a lost driver
   starts discarding.
   */
  function NewReader(cells: Shared, batch: seq<Message>, failed: bool): Reader {
    Reader(Reverse(batch), failed, None, cells, false, NoCall, [], [], batch, batch, false, false)
  }

  function NoteInbound(c: Shared, now: nat): Shared {
    c.(lastInbound := if c.lastInbound < now then now else c.lastInbound)
  }

  predicate IsControlMessage(m: Message) {
    m.PingMessage? || m.PongMessage? || m.CloseMessage?
  }

  function NewRequest(m: Message, now: nat): Control
    requires IsControlMessage(m)
  {
    match m
    case PingMessage(p) => PeerPing(p, now)
    case PongMessage(p) => Answer(p, now)
    case CloseMessage(_) => PeerClose
  }

  /** One turn of the loop: until it returns or has to wait. */
  function Turn(r: Reader, now: nat): Reader {
    if r.reported then r.(call := NoCall)
    else if !r.parseError && r.cells.status == Closed then r.(reported := true, call := NoCall)
    else if r.stack != [] then
      var top := r.stack[|r.stack| - 1];
      if !IsControlMessage(top) then
        r.(stack := r.stack[..|r.stack| - 1], delivered := r.delivered + [top], cells := NoteInbound(r.cells, now), call := NoCall)
      else if r.request.None? && top.CloseMessage? then
        r.(stack := [top], parseError := false, cells := BeginClosing(r.cells), kept := r.delivered + [top], discarding := true,
           request := Some(PeerClose), call := Offering)
      else if r.request.None? then r.(request := Some(NewRequest(top, now)), call := Offering)
      else r.(call := Offering)
    else if r.parseError then r.(call := OfferingError)
    else r.(call := ReadingMore)
  }

  /** The queue has room: the request is committed and its message returned. */
  function Commit(r: Reader): Reader
    requires r.stack != [] && r.request.Some?
  {
    var top := r.stack[|r.stack| - 1];
    r.(queued := r.queued + [r.request.value], request := None,
       stack := r.stack[..|r.stack| - 1], delivered := r.delivered + [top], call := NoCall)
  }

  /** The driver is gone: the message cannot be handed over. */
  function Lose(r: Reader, now: nat): Reader
    requires r.stack != []
  {
    var rest := r.stack[..|r.stack| - 1];
    Turn(r.(stack := rest, request := None, kept := r.delivered + Reverse(rest), discarding := true, cells := Terminate(r.cells, ConnectionClosed)), now)
  }

  /** Report the delayed parse error, after telling the driver if it can be told. */
  function ReportError(r: Reader, room: bool): Reader {
    r.(queued := if room then r.queued + [ReadError] else r.queued, cells := Terminate(r.cells, ConnectionClosed),
       parseError := false, reported := true, failed := true, call := NoCall)
  }

  /** What was parsed from newly read octets. */
  function Parsed(r: Reader, ms: seq<Message>, failed: bool, fragment: bool, now: nat): Reader {
    var cells := if failed then BeginClosing(r.cells) else if fragment then NoteInbound(r.cells, now) else r.cells;
    Turn(r.(stack := Reverse(ms), parseError := failed, cells := cells, kept := r.kept + ms, parsed := r.parsed + ms), now)
  }

  datatype Event =
    | Call(now: nat)
    | Cancel
    | Capacity(room: bool, now: nat)
    | ReadMessages(messages: seq<Message>, failed: bool, fragment: bool, now: nat)
    | ReadEof
    | ReadFails
    | DriverReports(cause: Cause, now: nat)
    // The driver changes the shared cells.
    | DriverCloses
    | DriverTerminates(cause: Cause)

  /** One step; an event that is not enabled changes nothing. */
  function Step(r: Reader, e: Event): Reader {
    match e
    case Call(now) => if r.call.NoCall? then Turn(r, now) else r
    case Cancel => r.(call := NoCall)
    case Capacity(room, now) =>
      if r.call.Offering? && r.stack != [] && r.request.Some? then (if room then Commit(r) else Lose(r, now))
      else if r.call.OfferingError? then ReportError(r, room)
      else if r.call.OfferingEof? then
        Turn(r.(queued := if room then r.queued + [Eof] else r.queued, cells := Terminate(r.cells, ConnectionClosed)), now)
      else r
    case ReadMessages(ms, failed, fragment, now) => if r.call.ReadingMore? then Parsed(r, ms, failed, fragment, now) else r
    case ReadEof => if r.call.ReadingMore? then r.(call := OfferingEof) else r
    case ReadFails => if r.call.ReadingMore? then r.(cells := Terminate(r.cells, ConnectionClosed), call := NoCall) else r
    case DriverReports(cause, now) =>
      if r.call.ReadingMore? then Turn(r.(cells := Terminate(r.cells, cause)), now) else r
    case DriverCloses => r.(cells := BeginClosing(r.cells))
    case DriverTerminates(cause) => r.(cells := Terminate(r.cells, cause))
  }

  function Run(r: Reader, es: seq<Event>): Reader
    decreases |es|
  {
    if es == [] then r else Run(Step(r, es[0]), es[1..])
  }

  // ---------------------------------------------------------------------
  // Hand-offs
  // ---------------------------------------------------------------------

  datatype Handed = HandedPing(payload: seq<Octet>) | HandedPong(payload: seq<Octet>) | HandedClose

  /** The control messages the caller received. */
  function HandedMessages(ms: seq<Message>): seq<Handed> {
    if ms == [] then []
    else
      var front := HandedMessages(ms[..|ms| - 1]);
      match ms[|ms| - 1]
      case PingMessage(p) => front + [HandedPing(p)]
      case PongMessage(p) => front + [HandedPong(p)]
      case CloseMessage(_) => front + [HandedClose]
      case _ => front
  }

  /** The hand-offs in the queue, without the notices of an error or the end of the stream. */
  function HandedRequests(q: seq<Control>): seq<Handed> {
    if q == [] then []
    else
      var front := HandedRequests(q[..|q| - 1]);
      match q[|q| - 1]
      case PeerPing(p, _) => front + [HandedPing(p)]
      case Answer(p, _) => front + [HandedPong(p)]
      case PeerClose => front + [HandedClose]
      case _ => front
  }

  predicate Corresponds(c: Control, m: Message) {
    match m
    case PingMessage(p) => c.PeerPing? && c.payload == p
    case PongMessage(p) => c.Answer? && c.payload == p
    case CloseMessage(_) => c.PeerClose?
    case _ => false
  }

  predicate HoldsClose(ms: seq<Message>) {
    exists i :: 0 <= i < |ms| && ms[i].CloseMessage?
  }

  lemma HoldsCloseStill(ms: seq<Message>, more: seq<Message>)
    requires HoldsClose(ms)
    ensures HoldsClose(ms + more)
  {
    var i :| 0 <= i < |ms| && ms[i].CloseMessage?;
    assert (ms + more)[i].CloseMessage?;
  }

  /** Messages are discarded only behind an accepted Close, or when the driver is gone. */
  ghost predicate KeepsOrder(r: Reader) {
    && r.kept == r.delivered + Reverse(r.stack)
    && IsSubsequence(r.kept, r.parsed)
    && (!r.discarding ==> r.kept == r.parsed)
    && (r.discarding ==> r.cells.status != Open && (r.cells.status == Closed || HoldsClose(r.kept)))
  }

  ghost predicate Inv(r: Reader) {
    && KeepsOrder(r)
    && HandedRequests(r.queued) == HandedMessages(r.delivered)
    && (r.request.Some? ==> r.stack != [] && Corresponds(r.request.value, r.stack[|r.stack| - 1]))
    && (r.request == Some(PeerClose) ==> |r.stack| == 1 && !r.parseError && r.cells.status != Open)
    && (r.call.Offering? ==> r.request.Some?)
    && (r.call.OfferingError? ==> r.stack == [] && r.parseError)
    && (r.call.ReadingMore? || r.call.OfferingEof? ==> r.stack == [] && !r.parseError)
    && (!r.call.NoCall? ==> !r.reported)
    && (r.failed ==> r.stack == [] && r.reported)
    && (r.cells.status == Closed <==> r.cells.terminal.Some?)
  }

  lemma DeliverTop(r: Reader)
    requires Inv(r) && r.stack != []
    ensures var rest, top := r.stack[..|r.stack| - 1], r.stack[|r.stack| - 1];
            r.kept == r.delivered + [top] + Reverse(rest)
  {
    hide IsSubsequence, HoldsClose;
    ReverseLast(r.stack);
  }

  /** An accepted Close: what is behind it is discarded. */
  lemma CloseKeepsOrder(r: Reader, t: Reader)
    requires KeepsOrder(r) && r.stack != [] && r.stack[|r.stack| - 1].CloseMessage?
    requires t.delivered == r.delivered && t.parsed == r.parsed && t.discarding && t.cells.status != Open
    requires t.stack == [r.stack[|r.stack| - 1]] && t.kept == r.delivered + t.stack
    ensures KeepsOrder(t)
  {
    hide IsSubsequence;
    ReverseLast(r.stack);
    ReverseOne(t.stack[0]);
    SubsequencePrefix(r.kept, |r.delivered| + 1, r.parsed);
    assert t.kept == r.kept[..|r.delivered| + 1];
    assert t.kept[|r.delivered|].CloseMessage?;
  }

  /** A message that cannot be handed over is lost with the driver. */
  lemma LossKeepsOrder(r: Reader, t: Reader)
    requires KeepsOrder(r) && r.stack != []
    requires t.delivered == r.delivered && t.parsed == r.parsed && t.discarding && t.cells.status == Closed
    requires t.stack == r.stack[..|r.stack| - 1] && t.kept == r.delivered + Reverse(t.stack)
    ensures KeepsOrder(t)
  {
    hide IsSubsequence, HoldsClose;
    ReverseLast(r.stack);
    SubsequenceWithout(r.kept, |r.delivered|, r.parsed);
    WithoutOne(r.delivered, r.stack[|r.stack| - 1], Reverse(t.stack));
  }

  lemma WithoutOne(a: seq<Message>, m: Message, b: seq<Message>)
    ensures var all := a + ([m] + b); all[..|a|] + all[|a| + 1..] == a + b
  {
  }

  lemma ParsingKeepsOrder(r: Reader, ms: seq<Message>, t: Reader)
    requires KeepsOrder(r) && r.stack == []
    requires t.delivered == r.delivered && t.parsed == r.parsed + ms && t.discarding == r.discarding
    requires t.stack == Reverse(ms) && t.kept == r.kept + ms
    requires r.cells.status != Open ==> t.cells.status == r.cells.status
    ensures KeepsOrder(t)
  {
    hide IsSubsequence, HoldsClose;
    ReverseTwice(ms);
    ReverseNothing<Message>();
    SubsequenceAppend(r.kept, r.parsed, ms);
    if HoldsClose(r.kept) {
      HoldsCloseStill(r.kept, ms);
    }
  }

  lemma TurnKeepsInv(r: Reader, now: nat)
    requires Inv(r.(call := NoCall))
    ensures Inv(Turn(r, now))
  {
    hide Reverse, HandedRequests, HandedMessages, IsSubsequence, HoldsClose;
    if r.stack != [] {
      DeliverTop(r.(call := NoCall));
      var top := r.stack[|r.stack| - 1];
      if !IsControlMessage(top) {
        DataIsNotHanded(r.delivered, top);
      }
      if top.CloseMessage? && Turn(r, now).discarding && !r.reported && r.request.None? && (r.parseError || r.cells.status != Closed) {
        CloseKeepsOrder(r, Turn(r, now));
      }
    }
  }

  lemma DataIsNotHanded(ms: seq<Message>, m: Message)
    requires !IsControlMessage(m)
    ensures HandedMessages(ms + [m]) == HandedMessages(ms)
  {
    assert (ms + [m])[..|ms|] == ms;
  }

  lemma HandOver(ms: seq<Message>, m: Message, q: seq<Control>, c: Control)
    requires Corresponds(c, m) && HandedRequests(q) == HandedMessages(ms)
    ensures HandedRequests(q + [c]) == HandedMessages(ms + [m])
  {
    assert (ms + [m])[..|ms|] == ms && (q + [c])[..|q|] == q;
  }

  lemma Notice(q: seq<Control>, c: Control)
    requires c.ReadError? || c.Eof?
    ensures HandedRequests(q + [c]) == HandedRequests(q)
  {
    assert (q + [c])[..|q|] == q;
  }

  lemma CommitKeepsInv(r: Reader)
    requires Inv(r) && r.call.Offering?
    ensures Inv(Commit(r))
  {
    hide Reverse, HandedRequests, HandedMessages, IsSubsequence, HoldsClose;
    DeliverTop(r);
    HandOver(r.delivered, r.stack[|r.stack| - 1], r.queued, r.request.value);
  }

  lemma CapacityKeepsInv(r: Reader, room: bool, now: nat)
    requires Inv(r)
    ensures Inv(Step(r, Capacity(room, now)))
  {
    hide Reverse, HandedRequests, HandedMessages, IsSubsequence, HoldsClose, Turn;
    Notice(r.queued, ReadError);
    Notice(r.queued, Eof);
    if r.call.Offering? && room {
      CommitKeepsInv(r);
    } else if r.call.Offering? {
      var rest := r.stack[..|r.stack| - 1];
      var t := r.(stack := rest, request := None, kept := r.delivered + Reverse(rest), discarding := true,
                  cells := Terminate(r.cells, ConnectionClosed));
      LossKeepsOrder(r, t.(call := NoCall));
      TurnKeepsInv(t, now);
    } else if r.call.OfferingEof? {
      TurnKeepsInv(r.(queued := if room then r.queued + [Eof] else r.queued, cells := Terminate(r.cells, ConnectionClosed)), now);
    }
  }

  lemma StepKeepsInv(r: Reader, e: Event)
    requires Inv(r)
    ensures Inv(Step(r, e))
  {
    hide Reverse, HandedRequests, HandedMessages, IsSubsequence, HoldsClose, Turn;
    Notice(r.queued, ReadError);
    Notice(r.queued, Eof);
    match e
    case Call(now) => TurnKeepsInv(r, now);
    case Capacity(room, now) =>
      CapacityKeepsInv(r, room, now);
    case ReadMessages(ms, failed, fragment, now) =>
      if r.call.ReadingMore? {
        var cells := if failed then BeginClosing(r.cells) else if fragment then NoteInbound(r.cells, now) else r.cells;
        var t := r.(stack := Reverse(ms), parseError := failed, cells := cells, kept := r.kept + ms, parsed := r.parsed + ms);
        ParsingKeepsOrder(r, ms, t.(call := NoCall));
        TurnKeepsInv(t, now);
      }
    case DriverReports(cause, now) => TurnKeepsInv(r.(cells := Terminate(r.cells, cause)), now);
    case _ =>
  }

  lemma {:induction false} RunKeepsInv(r: Reader, es: seq<Event>)
    requires Inv(r)
    ensures Inv(Run(r, es))
    decreases |es|
  {
    hide Inv, Step;
    if es != [] {
      StepKeepsInv(r, es[0]);
      RunKeepsInv(Step(r, es[0]), es[1..]);
    }
  }

  /**
   For every schedule: each control message returned has exactly one request in the queue, in the
   same order; messages are returned in parse order, each once; none is left out unless a Close was
   accepted or the driver was lost; and without that a parse error is reported only after
   everything parsed before it.
   */
  lemma HandOffIsExactlyOnce(cells: Shared, batch: seq<Message>, failed: bool, es: seq<Event>)
    requires cells.status == Closed <==> cells.terminal.Some?
    ensures var r := Run(NewReader(cells, batch, failed), es);
            && HandedRequests(r.queued) == HandedMessages(r.delivered)
            && IsSubsequence(r.delivered, r.parsed)
            && r.kept == r.delivered + Reverse(r.stack)
            && (!r.discarding ==> r.kept == r.parsed && r.delivered <= r.parsed)
            && (r.discarding ==> r.cells.status == Closed || HoldsClose(r.kept))
            && (r.failed && !r.discarding ==> r.delivered == r.parsed)
  {
    hide IsSubsequence, HoldsClose, HandedRequests, HandedMessages;
    NewReaderIsFine(cells, batch, failed);
    RunKeepsInv(NewReader(cells, batch, failed), es);
    var r := Run(NewReader(cells, batch, failed), es);
    SubsequencePrefix(r.kept, |r.delivered|, r.parsed);
    assert r.kept[..|r.delivered|] == r.delivered;
    ReverseNothing<Message>();
  }

  lemma NewReaderIsFine(cells: Shared, batch: seq<Message>, failed: bool)
    requires cells.status == Closed <==> cells.terminal.Some?
    ensures Inv(NewReader(cells, batch, failed))
  {
    hide Reverse, IsSubsequence;
    SubsequenceOfItself(batch);
    ReverseTwice(batch);
    assert [] + batch == batch;
  }

  lemma {:induction false} RunSplits(r: Reader, es: seq<Event>, fs: seq<Event>)
    ensures Run(r, es + fs) == Run(Run(r, es), fs)
    decreases |es|
  {
    hide Step;
    if es == [] {
      assert es + fs == fs;
    } else {
      assert (es + fs)[0] == es[0] && (es + fs)[1..] == es[1..] + fs;
      RunSplits(Step(r, es[0]), es[1..], fs);
    }
  }

  predicate DriverOnly(es: seq<Event>) {
    forall i :: 0 <= i < |es| ==> es[i].DriverCloses? || es[i].DriverTerminates?
  }

  /** The driver's steps do not depend on whether a call is waiting. */
  lemma {:induction false} DriverIgnoresCalls(r: Reader, ds: seq<Event>)
    requires DriverOnly(ds)
    ensures Run(r.(call := NoCall), ds) == Run(r, ds).(call := NoCall)
    ensures Run(r, ds).call == r.call && Run(r, ds).reported == r.reported && Run(r, ds).parseError == r.parseError
    decreases |ds|
  {
    hide Turn, Commit, Lose, ReportError, Parsed;
    if ds != [] {
      DriverIgnoresCalls(Step(r, ds[0]), ds[1..]);
    }
  }

  /**
   Cancelling a call that waits for room and calling again later, whatever the driver does in
   between, leaves everything as if the call had gone on waiting, if and only if the connection is
   not by then terminated without a parse error to report; and so nothing that follows differs.
   */
  lemma CancelledWaitsAreInvisible(cells: Shared, batch: seq<Message>, failed: bool, es: seq<Event>, ds: seq<Event>, now: nat,
                                   fs: seq<Event>)
    requires cells.status == Closed <==> cells.terminal.Some?
    requires var r := Run(NewReader(cells, batch, failed), es); r.call.Offering? || r.call.OfferingError?
    requires DriverOnly(ds)
    ensures var start := NewReader(cells, batch, failed);
            var q := Run(start, es + ds);
            && (Run(start, es + ([Cancel] + ds + [Call(now)])) == q <==> q.parseError || q.cells.status != Closed)
            && (q.parseError || q.cells.status != Closed ==>
                  Run(start, es + ([Cancel] + ds + [Call(now)]) + fs) == Run(start, es + ds + fs))
  {
    hide Run, Inv, DriverOnly;
    var start, back := NewReader(cells, batch, failed), [Cancel] + ds + [Call(now)];
    NewReaderIsFine(cells, batch, failed);
    RunKeepsInv(start, es);
    RunKeepsInv(start, es + ds);
    var r := Run(start, es);
    RunSplits(start, es, ds);
    RunSplits(start, es, back);
    RunSplits(start, es + ds, fs);
    RunSplits(start, es + back, fs);
    CancelAndCall(r, ds, now);
    DriverIgnoresCalls(r, ds);
    CallAgain(Run(r, ds), now);
  }

  lemma CancelAndCall(r: Reader, ds: seq<Event>, now: nat)
    requires DriverOnly(ds)
    ensures Run(r, [Cancel] + ds + [Call(now)]) == Step(Run(r, ds).(call := NoCall), Call(now))
  {
    hide Turn, Commit, Lose, ReportError, Parsed;
    RunSplits(r, [Cancel] + ds, [Call(now)]);
    RunSplits(r, [Cancel], ds);
    DriverIgnoresCalls(r, ds);
    OneStep(r, Cancel);
    OneStep(Run(r, [Cancel] + ds), Call(now));
  }

  lemma OneStep(r: Reader, e: Event)
    ensures Run(r, [e]) == Step(r, e)
  {
    hide Step;
    assert [e][1..] == [];
  }

  /** A repeated call waits exactly as the cancelled one did. */
  lemma CallAgain(q: Reader, now: nat)
    requires Inv(q) && (q.call.Offering? || q.call.OfferingError?)
    ensures Step(q.(call := NoCall), Call(now)) == q <==> q.parseError || q.cells.status != Closed
  {
    hide Reverse, HandedMessages, HandedRequests, KeepsOrder;
  }
}
