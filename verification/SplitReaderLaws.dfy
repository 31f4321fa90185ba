/**
 What the read half must do: every call returns the next message, hands a control message over and
 then returns it, reports what ended the connection, or reads.
 */
module SplitReaderLaws {
  import opened Octets
  import opened Messages
  import opened SplitWriting
  import R = SplitReading

  /** A call begins, and there is still something to say to the caller. */
  predicate Calls(r: R.Reader) {
    r.call.NoCall? && !r.reported && (r.parseError || r.cells.status != Closed)
  }

  predicate IsControl(m: Message) {
    m.PingMessage? || m.PongMessage? || m.CloseMessage?
  }

  function Top(r: R.Reader): Message
    requires r.stack != []
  {
    r.stack[|r.stack| - 1]
  }

  /** The next message is returned. */
  predicate Returns(r: R.Reader, t: R.Reader)
    requires r.stack != []
  {
    t.delivered == r.delivered + [Top(r)] && t.stack == r.stack[..|r.stack| - 1] && t.call.NoCall? && t.parseError == r.parseError
  }

  // ---------------------------------------------------------------------
  // Calls
  // ---------------------------------------------------------------------

  /** Data is returned at once, and noted as activity. */
  lemma DataIsReturned(r: R.Reader, now: nat)
    requires Calls(r) && r.stack != [] && !IsControl(Top(r))
    ensures var t := R.Step(r, R.Call(now));
            && Returns(r, t) && t.queued == r.queued && t.request == r.request
            && t.cells.lastInbound >= now && t.cells.lastInbound >= r.cells.lastInbound
            && t.cells == r.cells.(lastInbound := t.cells.lastInbound)
  {
  }

  /** A Ping or Pong is first offered to the driver, with its payload and the time it was met; an offer made before stands. */
  lemma ControlIsOffered(r: R.Reader, now: nat)
    requires Calls(r) && r.stack != [] && (Top(r).PingMessage? || Top(r).PongMessage?)
    ensures var t := R.Step(r, R.Call(now));
            && t == r.(request := t.request, call := R.Offering)
            && t.request == (if r.request.Some? then r.request
                             else if Top(r).PingMessage? then Some(PeerPing(Top(r).data, now)) else Some(Answer(Top(r).data, now)))
  {
  }

  /** A Close starts closing; what was behind it, an error included, is dropped. */
  lemma CloseIsOffered(r: R.Reader, now: nat)
    requires Calls(r) && r.stack != [] && Top(r).CloseMessage? && r.request.None?
    ensures var t := R.Step(r, R.Call(now));
            && t.stack == [Top(r)] && !t.parseError && t.request == Some(PeerClose) && t.call.Offering?
            && t.cells == r.cells.(status := if r.cells.status == Open then Closing else r.cells.status)
            && t.delivered == r.delivered && t.queued == r.queued
  {
  }

  /** Once the driver has room, the request is queued and its message returned; without a driver the message is lost and the connection over. */
  lemma OfferIsSettled(r: R.Reader, now: nat)
    requires r.call.Offering? && r.stack != [] && r.request.Some?
    ensures var t := R.Step(r, R.Capacity(true, now));
            Returns(r, t) && t.queued == r.queued + [r.request.value] && t.request.None? && t.cells == r.cells
    ensures var t := R.Step(r, R.Capacity(false, now));
            && t.cells.status == Closed && t.queued == r.queued
            && (r.cells.status != Closed ==> t.cells.terminal == Some(ConnectionClosed))
            && (!r.parseError ==> t.delivered == r.delivered && t.reported && t.call.NoCall?)
  {
    hide Reverse;
  }

  /** With nothing to return: an error is reported once the driver has been told, if it can be told. */
  lemma ErrorIsReported(r: R.Reader, room: bool, now: nat, later: nat)
    requires Calls(r) && r.stack == [] && r.parseError
    ensures var t := R.Step(R.Step(r, R.Call(now)), R.Capacity(room, later));
            && t.failed && t.reported && !t.parseError && t.call.NoCall? && t.delivered == r.delivered
            && t.queued == r.queued + (if room then [ReadError] else []) && t.cells.status == Closed
  {
  }

  /** A connection that ended is reported once, and every later call returns nothing. */
  lemma EndIsReported(r: R.Reader, now: nat)
    requires r.call.NoCall? && (r.reported || (!r.parseError && r.cells.status == Closed))
    ensures R.Step(r, R.Call(now)) == r.(reported := true)
  {
  }

  /** Otherwise the call reads: what is parsed is then returned as if it had been there, the end of the stream is told to the driver. */
  lemma ReadingGoesOn(r: R.Reader, now: nat)
    requires Calls(r) && r.stack == [] && !r.parseError
    ensures R.Step(r, R.Call(now)) == r.(call := R.ReadingMore)
  {
  }

  lemma ReadIsReturned(r: R.Reader, ms: seq<Message>, failed: bool, fragment: bool, now: nat)
    requires r.call.ReadingMore?
    ensures var cells := if failed && r.cells.status == Open then r.cells.(status := Closing)
                         else if !failed && fragment && r.cells.lastInbound < now then r.cells.(lastInbound := now) else r.cells;
            var q := r.(stack := Reverse(ms), parseError := failed, cells := cells, call := R.NoCall, kept := r.kept + ms, parsed := r.parsed + ms);
            R.Step(r, R.ReadMessages(ms, failed, fragment, now)) == R.Step(q, R.Call(now))
  {
    hide Reverse;
  }

  lemma EndOfStreamIsTold(r: R.Reader, room: bool, now: nat)
    requires r.call.ReadingMore? && !r.reported && !r.parseError
    ensures var t := R.Step(R.Step(r, R.ReadEof), R.Capacity(room, now));
            && t.queued == r.queued + (if room then [Eof] else []) && t.cells.status == Closed && t.reported && t.call.NoCall?
            && t.delivered == r.delivered
    ensures R.Step(r, R.ReadFails).cells.status == Closed && R.Step(r, R.ReadFails).call.NoCall?
  {
  }

  /** A driver that ends while the reader waits for octets ends the call with its cause. */
  lemma DriverEndsTheWait(r: R.Reader, cause: Cause, now: nat)
    requires r.call.ReadingMore? && !r.reported && !r.parseError && r.cells.status != Closed
    ensures var t := R.Step(r, R.DriverReports(cause, now));
            t == r.(cells := r.cells.(status := Closed, terminal := Some(cause)), reported := true, call := R.NoCall)
  {
  }

  // ---------------------------------------------------------------------
  // A whole batch
  // ---------------------------------------------------------------------

  /** One call for each message, each offer accepted. */
  function Serve(ms: seq<Message>, now: nat): seq<R.Event> {
    if ms == [] then [] else ServeOne(ms[0], now) + Serve(ms[1..], now)
  }

  /** The steps for one message. */
  function ServeOne(m: Message, now: nat): seq<R.Event> {
    [R.Call(now)] + (if IsControl(m) then [R.Capacity(true, now)] else [])
  }

  predicate NoClose(ms: seq<Message>) {
    forall i :: 0 <= i < |ms| ==> !ms[i].CloseMessage?
  }

  lemma OneIsReturned(r: R.Reader, m: Message, rest: seq<Message>, now: nat) returns (t: R.Reader)
    requires Calls(r) && r.request.None? && r.stack == Reverse([m] + rest)
    ensures t == R.Run(r, ServeOne(m, now))
    ensures t.delivered == r.delivered + [m] && t.stack == (if m.CloseMessage? then [] else Reverse(rest)) && t.request.None? && t.call.NoCall?
    ensures t.parseError == (r.parseError && !m.CloseMessage?) && t.reported == r.reported && t.parsed == r.parsed
    ensures t.cells.status == (if m.CloseMessage? && r.cells.status == Open then Closing else r.cells.status)
    ensures t.queued == r.queued + (match m
                                    case PingMessage(p) => [PeerPing(p, now)]
                                    case PongMessage(p) => [Answer(p, now)]
                                    case CloseMessage(_) => [PeerClose]
                                    case _ => [])
  {
    hide Reverse;
    ReverseFirst(m, rest);
    var c := R.Step(r, R.Call(now));
    R.OneStep(r, R.Call(now));
    t := c;
    if IsControl(m) {
      t := R.Step(c, R.Capacity(true, now));
      R.RunSplits(r, [R.Call(now)], [R.Capacity(true, now)]);
      R.OneStep(c, R.Capacity(true, now));
    } else {
      assert [R.Call(now)] + [] == [R.Call(now)];
    }
  }

  lemma ReverseFirst(m: Message, rest: seq<Message>)
    ensures Reverse([m] + rest) == Reverse(rest) + [m]
  {
    assert ([m] + rest)[1..] == rest;
  }

  lemma ServeFirst(r: R.Reader, ms: seq<Message>, now: nat)
    requires ms != []
    ensures R.Run(r, Serve(ms, now)) == R.Run(R.Run(r, ServeOne(ms[0], now)), Serve(ms[1..], now))
  {
    hide R.Run, ServeOne;
    R.RunSplits(r, ServeOne(ms[0], now), Serve(ms[1..], now));
  }

  /**
   Messages before any Close are returned to the last one and in order, each control message with
   its request queued; the reader then goes on with the rest.
   */
  lemma {:induction false} BatchIsReturned(r: R.Reader, ms: seq<Message>, rest: seq<Message>, now: nat)
    requires Calls(r) && r.request.None? && NoClose(ms) && r.stack == Reverse(ms + rest)
    ensures var t := R.Run(r, Serve(ms, now));
            && t.delivered == r.delivered + ms && t.stack == Reverse(rest) && Calls(t) && t.request.None?
            && t.parseError == r.parseError && t.cells.status == r.cells.status && |t.queued| == |r.queued| + Controls(ms)
    decreases |ms|
  {
    if ms == [] {
      assert ms + rest == rest;
      assert r.delivered + ms == r.delivered;
    } else {
      hide R.Run, Reverse, Serve, ServeOne;
      var m, more := ms[0], ms[1..];
      FirstOfBatch(r.delivered, ms, rest);
      var t := OneIsReturned(r, m, more + rest, now);
      BatchIsReturned(t, more, rest, now);
      ServeFirst(r, ms, now);
    }
  }

  lemma FirstOfBatch(delivered: seq<Message>, ms: seq<Message>, rest: seq<Message>)
    requires ms != []
    ensures ms + rest == [ms[0]] + (ms[1..] + rest) && delivered + [ms[0]] + ms[1..] == delivered + ms
  {
  }

  function Controls(ms: seq<Message>): nat {
    if ms == [] then 0 else (if IsControl(ms[0]) then 1 else 0) + Controls(ms[1..])
  }

  /** With a Close, everything up to the Close is returned and everything behind it, an error included, is dropped. */
  lemma BatchIsReturnedUpToClose(r: R.Reader, front: seq<Message>, close: Message, rest: seq<Message>, now: nat)
    requires Calls(r) && r.request.None? && NoClose(front) && close.CloseMessage? && r.stack == Reverse(front + ([close] + rest))
    ensures var t := R.Run(r, Serve(front + [close], now));
            && t.delivered == r.delivered + (front + [close]) && t.stack == [] && !t.parseError && t.cells.status != Open
            && t.call.NoCall? && t.queued != [] && t.queued[|t.queued| - 1] == PeerClose
  {
    hide Reverse, R.Run, Serve;
    BatchIsReturned(r, front, [close] + rest, now);
    var t := OneIsReturned(R.Run(r, Serve(front, now)), close, rest, now);
    ServeSplits(front, [close], now);
    ServeClose(close, now);
    R.RunSplits(r, Serve(front, now), Serve([close], now));
    assert r.delivered + front + [close] == r.delivered + (front + [close]);
  }

  lemma ServeClose(m: Message, now: nat)
    requires m.CloseMessage?
    ensures Serve([m], now) == ServeOne(m, now)
  {
    assert [m][1..] == [];
    assert Serve([], now) == [];
    assert ServeOne(m, now) + [] == ServeOne(m, now);
  }

  lemma Regroup(a: seq<R.Event>, b: seq<R.Event>, c: seq<R.Event>)
    ensures a + (b + c) == a + b + c
  {
  }

  lemma {:induction false} ServeSplits(a: seq<Message>, b: seq<Message>, now: nat)
    ensures Serve(a + b, now) == Serve(a, now) + Serve(b, now)
    decreases |a|
  {
    if a == [] {
      assert a + b == b;
    } else {
      hide ServeOne;
      assert (a + b)[0] == a[0] && (a + b)[1..] == a[1..] + b;
      ServeSplits(a[1..], b, now);
      Regroup(ServeOne(a[0], now), Serve(a[1..], now), Serve(b, now));
    }
  }
}
