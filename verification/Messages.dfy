/**
 Messages: the reference semantics of a received byte stream. Frames are reassembled as in
 section 5.4 of RFC 6455 with control frames kept in place, text is checked as a whole,
 and an unfinished text frame is refused as soon as its text is hopeless (section 8.1).
 */
module Messages {
  import opened Octets
  import opened FrameFormat
  import opened Utf8

  datatype CloseReason = CloseReason(code: nat, reason: seq<Octet>)

  datatype Message =
    | TextMessage(data: seq<Octet>)
    | BinaryMessage(data: seq<Octet>)
    | PingMessage(data: seq<Octet>)
    | PongMessage(data: seq<Octet>)
    | CloseMessage(reason: Option<CloseReason>)

  datatype ProtocolError =
    | BadFrame(frameError: FrameError)
    | ExpectedContinuation
    | UnexpectedContinuation
    | MessageTooLarge
    | InvalidUtf8
    | InvalidCloseCode(code: nat)
    | InvalidClosePayload

  /** Opcode and octets of the message whose fragments are being collected. */
  datatype Assembly = Assembly(opcode: Option<OpCode>, data: seq<Octet>)

  const Idle := Assembly(None, [])

  /** `checkText`: the call validates text (a typed call on a validating connection). */
  datatype Settings = Settings(frames: ParserConfig, maxMessageSize: nat, checkText: bool)

  predicate IsValidCloseCode(code: nat) {
    1000 <= code <= 1003 || 1007 <= code <= 1014 || 3000 <= code <= 4999
  }

  datatype Result<T> = Good(value: T) | Bad(error: ProtocolError)

  function DecodeClose(payload: seq<Octet>): Result<Option<CloseReason>> {
    if payload == [] then Good(None)
    else if |payload| == 1 then Bad(InvalidClosePayload)
    else
      var code := FromBigEndian(payload[..2]);
      if !IsValidCloseCode(code) then Bad(InvalidCloseCode(code))
      else if !ValidUtf8(payload[2..]) then Bad(InvalidUtf8)
      else Good(Some(CloseReason(code, payload[2..])))
  }

  function EncodeClose(reason: Option<CloseReason>): seq<Octet> {
    if reason.None? then [] else ToBigEndian(reason.value.code, 2) + reason.value.reason
  }

  function DataMessage(op: OpCode, data: seq<Octet>): Message {
    if op == Text then TextMessage(data) else BinaryMessage(data)
  }

  /** The message a frame completes, if any, and the assembly afterwards. */
  datatype Taken = Taken(message: Option<Message>, assembly: Assembly)

  /** A data message as collected up to one of its frames, the last one or not. */
  function TakeData(s: Settings, op: OpCode, all: seq<Octet>, fin: bool): Result<Taken> {
    if |all| > s.maxMessageSize then Bad(MessageTooLarge)
    else if s.checkText && op == Text && (if fin then !ValidUtf8(all) else Remainder(all).None?) then Bad(InvalidUtf8)
    else if fin then Good(Taken(Some(DataMessage(op, all)), Idle))
    else Good(Taken(None, Assembly(Some(op), all)))
  }

  function TakeFrame(s: Settings, a: Assembly, f: Frame): Result<Taken> {
    match f.header.opcode
    case Text | Binary =>
      if a.opcode.Some? then Bad(ExpectedContinuation)
      else TakeData(s, f.header.opcode, f.payload, f.header.fin)
    case Continuation =>
      if a.opcode.None? then Bad(UnexpectedContinuation)
      else TakeData(s, a.opcode.value, a.data + f.payload, f.header.fin)
    case Ping => Good(Taken(Some(PingMessage(f.payload)), a))
    case Pong => Good(Taken(Some(PongMessage(f.payload)), a))
    case Close =>
      match DecodeClose(f.payload)
      case Bad(e) => Bad(e)
      case Good(reason) => Good(Taken(Some(CloseMessage(reason)), a))
  }

  /** The text received so far of a message whose current, uncompressed frame is incomplete but has begun. */
  function PartialText(s: Settings, a: Assembly, w: seq<Octet>): Option<seq<Octet>> {
    match ReadHeader(s.frames, w)
    case HeaderPending => None
    case HeaderRejected(_) => None
    case HeaderKnown(h, n) =>
      if h.rsv1 || |w| <= n then None
      else PartialTextOf(h, a, Transmitted(h, 0, w[n..]))
  }

  function PartialTextOf(h: Header, a: Assembly, received: seq<Octet>): Option<seq<Octet>> {
    if h.opcode == Text && a.opcode.None? then Some(received)
    else if h.opcode == Continuation && a.opcode == Some(Text) then Some(a.data + received)
    else None
  }

  predicate HopelessPartialText(s: Settings, a: Assembly, w: seq<Octet>) {
    s.checkText && PartialText(s, a, w).Some? && Remainder(PartialText(s, a, w).value).None?
  }

  /** Messages in wire order, the first error, whether a non-final data frame was accepted, and what is left. */
  datatype Received = Received(messages: seq<Message>, error: Option<ProtocolError>, fragment: bool,
                               assembly: Assembly, rest: seq<Octet>)

  /** One frame of the stream: the end of what can be done now, or the frame's message and what is left. */
  datatype Pass = End(error: Option<ProtocolError>) | Next(message: Option<Message>, assembly: Assembly, rest: seq<Octet>)

  function OnePass(s: Settings, a: Assembly, w: seq<Octet>): (r: Pass)
    ensures r.Next? ==> |r.rest| < |w|
  {
    match ReadFrame(s.frames, w)
    case NeedMore => End(if HopelessPartialText(s, a, w) then Some(InvalidUtf8) else None)
    case Rejected(e) => End(Some(BadFrame(e)))
    case Accepted(f, n) =>
      ReadFrameIsEncoded(s.frames, w);
      match TakeFrame(s, a, f)
      case Bad(e) => End(Some(e))
      case Good(t) => Next(t.message, t.assembly, w[n..])
  }

  function Receive(s: Settings, a: Assembly, w: seq<Octet>): Received
    decreases |w|
  {
    match OnePass(s, a, w)
    case End(error) => Received([], error, false, a, w)
    case Next(m, a', rest) => Prepend(m, Receive(s, a', rest))
  }

  function Prepend(m: Option<Message>, r: Received): Received {
    if m.Some? then r.(messages := [m.value] + r.messages) else r.(fragment := true)
  }

  // ---------------------------------------------------------------------
  // Cutting the stream differently
  // ---------------------------------------------------------------------

  lemma HeaderSettledByNow(s: Settings, w: seq<Octet>, more: seq<Octet>)
    requires ReadFrame(s.frames, w).NeedMore? && ReadHeader(s.frames, w).HeaderKnown?
    ensures ReadHeader(s.frames, w + more) == ReadHeader(s.frames, w)
  {
    ReadHeaderStable(s.frames, w, more);
  }

  /** A hopeless partial text keeps being refused, whatever follows. */
  lemma HopelessTextStays(s: Settings, a: Assembly, w: seq<Octet>, more: seq<Octet>)
    requires ReadFrame(s.frames, w).NeedMore? && HopelessPartialText(s, a, w)
    ensures var r := Receive(s, a, w + more); r.messages == [] && r.error.Some?
  {
    hide ReadHeader, Transmitted, Remainder;
    var w' := w + more;
    HeaderSettledByNow(s, w, more);
    var HeaderKnown(h, n) := ReadHeader(s.frames, w);
    var got := Transmitted(h, 0, w[n..]);
    if ReadFrame(s.frames, w').NeedMore? {
      var all := Transmitted(h, 0, w'[n..]);
      assert w'[n..] == w[n..] + more;
      TransmittedPrefix(h, w[n..], more);
      HopelessExtends(PartialText(s, a, w).value, all[|got|..]);
      assert all == got + all[|got|..];
      assert a.data + all == a.data + got + all[|got|..];
    } else {
      var f := ReadFrame(s.frames, w').frame;
      var tail := w'[|w|..n + h.payloadLen];
      assert w'[n..n + h.payloadLen] == w[n..] + tail;
      TransmittedPrefix(h, w[n..], tail);
      var rest := f.payload[|got|..];
      assert f.payload == got + rest;
      HopelessExtends(PartialText(s, a, w).value, rest);
      assert a.data + f.payload == a.data + got + rest;
      TakeHopeless(s, a, f);
    }
  }

  lemma TransmittedPrefix(h: Header, a: seq<Octet>, b: seq<Octet>)
    ensures |a| <= |Transmitted(h, 0, a + b)| && Transmitted(h, 0, a + b)[..|a|] == Transmitted(h, 0, a)
  {
  }

  lemma HopelessExtends(t: seq<Octet>, more: seq<Octet>)
    requires Remainder(t).None?
    ensures Remainder(t + more).None?
  {
    RemainderAppend(t, more);
  }

  lemma TakeHopeless(s: Settings, a: Assembly, f: Frame)
    requires s.checkText
    requires PartialTextOf(f.header, a, f.payload).Some?
    requires Remainder(PartialTextOf(f.header, a, f.payload).value).None?
    ensures TakeFrame(s, a, f).Bad?
  {
    ValidMeansNoRemainder(PartialTextOf(f.header, a, f.payload).value);
  }

  /**
   Receiving is compositional: what is left after an error-free call, with the next octets
   appended, continues exactly as if everything had been there at once; and an error found
   early stands, with the same messages before it.
   */
  lemma {:induction false} ReceiveExtends(s: Settings, a: Assembly, w: seq<Octet>, more: seq<Octet>)
    ensures var r, all := Receive(s, a, w), Receive(s, a, w + more);
            if r.error.Some? then all.messages == r.messages && all.error.Some?
            else var later := Receive(s, r.assembly, r.rest + more);
                 all == later.(messages := r.messages + later.messages, fragment := r.fragment || later.fragment)
    decreases |w|
  {
    hide ReadFrame, TakeFrame, HopelessPartialText;
    var r := Receive(s, a, w);
    match ReadFrame(s.frames, w)
    case NeedMore =>
      if r.error.Some? {
        HopelessTextStays(s, a, w, more);
      } else {
        var later := Receive(s, a, w + more);
        assert [] + later.messages == later.messages;
      }
    case Rejected(e) =>
      ReadFrameStable(s.frames, w, more);
    case Accepted(f, n) =>
      ReadFrameStable(s.frames, w, more);
      ReadFrameIsEncoded(s.frames, w);
      assert (w + more)[n..] == w[n..] + more;
      if TakeFrame(s, a, f).Good? {
        var t := TakeFrame(s, a, f).value;
        ReceiveExtends(s, t.assembly, w[n..], more);
        if r.error.None? {
          var later := Receive(s, r.assembly, r.rest + more);
          PrependConcat(t.message, Receive(s, t.assembly, w[n..]), later);
        }
      }
  }

  lemma PrependConcat(m: Option<Message>, r: Received, later: Received)
    ensures var whole := later.(messages := r.messages + later.messages, fragment := r.fragment || later.fragment);
            var p := Prepend(m, r);
            Prepend(m, whole) == later.(messages := p.messages + later.messages, fragment := p.fragment || later.fragment)
  {
    if m.Some? {
      assert [m.value] + (r.messages + later.messages) == [m.value] + r.messages + later.messages;
    }
  }

  /** One call per chunk, until the first error. */
  function ReceiveChunks(s: Settings, a: Assembly, w: seq<Octet>, chunks: seq<seq<Octet>>): Received
    decreases |chunks|
  {
    if chunks == [] then Received([], None, false, a, w)
    else
      var first := Receive(s, a, w + chunks[0]);
      if first.error.Some? then first
      else
        var later := ReceiveChunks(s, first.assembly, first.rest, chunks[1..]);
        later.(messages := first.messages + later.messages, fragment := first.fragment || later.fragment)
  }

  /** Nothing has been received yet that a call has not already dealt with. */
  predicate Settled(s: Settings, a: Assembly, w: seq<Octet>) {
    Receive(s, a, w) == Received([], None, false, a, w)
  }

  lemma {:induction false} ReceiveSettles(s: Settings, a: Assembly, w: seq<Octet>)
    requires Receive(s, a, w).error.None?
    ensures var r := Receive(s, a, w); Settled(s, r.assembly, r.rest)
    decreases |w|
  {
    hide ReadFrame, TakeFrame, HopelessPartialText;
    if ReadFrame(s.frames, w).Accepted? {
      var Accepted(f, n) := ReadFrame(s.frames, w);
      ReadFrameIsEncoded(s.frames, w);
      ReceiveSettles(s, TakeFrame(s, a, f).value.assembly, w[n..]);
    }
  }

  /** The messages before the first error, and whether there is one, depend on the octets alone. */
  lemma {:induction false} ChunksDoNotMatter(s: Settings, a: Assembly, w: seq<Octet>, chunks: seq<seq<Octet>>)
    requires Settled(s, a, w)
    ensures var r, all := ReceiveChunks(s, a, w, chunks), Receive(s, a, w + Concat(chunks));
            r.messages == all.messages && (r.error.Some? <==> all.error.Some?)
            && (r.error.None? ==> r == all)
    decreases |chunks|
  {
    hide Receive;
    if chunks == [] {
      assert w + Concat(chunks) == w;
    } else {
      var first := Receive(s, a, w + chunks[0]);
      ReceiveExtends(s, a, w + chunks[0], Concat(chunks[1..]));
      assert w + Concat(chunks) == w + chunks[0] + Concat(chunks[1..]);
      if first.error.None? {
        ReceiveSettles(s, a, w + chunks[0]);
        ChunksDoNotMatter(s, first.assembly, first.rest, chunks[1..]);
      }
    }
  }

  // ---------------------------------------------------------------------
  // What is delivered
  // ---------------------------------------------------------------------

  predicate Deliverable(s: Settings, m: Message) {
    match m
    case TextMessage(b) => |b| <= s.maxMessageSize && (s.checkText ==> ValidUtf8(b))
    case BinaryMessage(b) => |b| <= s.maxMessageSize
    case PingMessage(b) => |b| <= SmallLimit
    case PongMessage(b) => |b| <= SmallLimit
    case CloseMessage(r) => r.Some? ==> IsValidCloseCode(r.value.code) && ValidUtf8(r.value.reason) && |r.value.reason| <= SmallLimit - 2
  }

  lemma {:induction false} DeliveredIsDeliverable(s: Settings, a: Assembly, w: seq<Octet>)
    ensures forall m :: m in Receive(s, a, w).messages ==> Deliverable(s, m)
    decreases |w|
  {
    hide ReadFrame, TakeFrame, Deliverable, Acceptable;
    if ReadFrame(s.frames, w).Accepted? {
      var Accepted(f, n) := ReadFrame(s.frames, w);
      ReadFrameIsEncoded(s.frames, w);
      if TakeFrame(s, a, f).Good? {
        TakenIsDeliverable(s, a, f);
        DeliveredIsDeliverable(s, TakeFrame(s, a, f).value.assembly, w[n..]);
      }
    }
  }

  lemma TakenIsDeliverable(s: Settings, a: Assembly, f: Frame)
    requires Acceptable(s.frames, f) && TakeFrame(s, a, f).Good?
    ensures var m := TakeFrame(s, a, f).value.message; m.Some? ==> Deliverable(s, m.value)
  {
    hide ValidUtf8, Remainder;
  }

  /** An unfinished text is refused exactly when no continuation could make it valid. */
  lemma TextIsRefusedWhenHopeless(s: Settings, a: Assembly, w: seq<Octet>)
    requires ReadFrame(s.frames, w).NeedMore? && s.checkText
    ensures Receive(s, a, w).error == Some(InvalidUtf8)
       <==> PartialText(s, a, w).Some? && !Extendable(PartialText(s, a, w).value)
  {
    if PartialText(s, a, w).Some? {
      ExtendableMeansRemainder(PartialText(s, a, w).value);
    }
  }
}
