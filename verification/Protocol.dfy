/**
 The message protocol: reassembly with incremental text validation, the close state, and
 encoding. Every receiving method is proved against the reference semantics of Messages.dfy.
 */
module ProtocolHandling {
  import opened Octets
  import opened Masking
  import opened FrameFormat
  import opened FrameParsing
  import opened FrameEncoding
  import opened Utf8
  import opened Messages
  import opened MessageLaws
  import PM = ParserModel
  import Chunked = ChunkedParsing

  datatype Role = Client | Server

  datatype State = Open | CloseSent | CloseReceived | Closed

  /** Close state and the reason of the Close that a response answers. */
  datatype Closing = Closing(state: State, pending: Option<CloseReason>)

  function OnPeerClose(c: Closing, reason: Option<CloseReason>): Closing {
    match c.state
    case Open => Closing(CloseReceived, reason)
    case CloseSent => Closing(Closed, c.pending)
    case _ => c
  }

  function AfterSending(c: Closing, m: Message): Closing {
    if m.CloseMessage? && c.state == Open then c.(state := CloseSent) else c
  }

  function AfterMessage(c: Closing, m: Message): Closing {
    if m.CloseMessage? then OnPeerClose(c, m.reason) else c
  }

  function AfterMessages(c: Closing, ms: seq<Message>): Closing {
    if ms == [] then c else AfterMessage(AfterMessages(c, ms[..|ms| - 1]), ms[|ms| - 1])
  }

  /** The first Close received in the open state is the one that is answered. */
  lemma {:induction false} FirstCloseIsAnswered(c: Closing, ms: seq<Message>, i: nat)
    requires c.state == Open && i < |ms| && ms[i].CloseMessage?
    requires forall j :: 0 <= j < i ==> !ms[j].CloseMessage?
    ensures AfterMessages(c, ms) == Closing(CloseReceived, ms[i].reason)
    decreases |ms|
  {
    var front := ms[..|ms| - 1];
    if i < |front| {
      FirstCloseIsAnswered(c, front, i);
    } else {
      NoCloseNoChange(c, front);
    }
  }

  lemma {:induction false} NoCloseNoChange(c: Closing, ms: seq<Message>)
    requires forall j :: 0 <= j < |ms| ==> !ms[j].CloseMessage?
    ensures AfterMessages(c, ms) == c
    decreases |ms|
  {
    if ms != [] {
      NoCloseNoChange(c, ms[..|ms| - 1]);
    }
  }

  /** Text received so far and the validator's carry agree. */
  ghost predicate Fed(h: Header, a: Assembly, received: seq<Octet>, held: seq<Octet>) {
    && !h.rsv1
    && PartialTextOf(h, a, received).Some?
    && Remainder(PartialTextOf(h, a, received).value) == Some(held)
  }

  class Protocol {
    const validateTextUtf8: bool
    const role: Role
    const maxMessageSize: nat
    const parser: FrameParser
    const utf8: Utf8Stream
    var state: State
    var fragmentBuf: seq<Octet>
    var fragmentOpcode: Option<OpCode>
    var fragmentValidatedLen: nat
    var pendingClose: Option<CloseReason>
    var partialChecked: nat

    constructor (role: Role, maxFrameSize: nat, maxMessageSize: nat, validateTextUtf8: bool)
      ensures FragmentsOk() && utf8.Valid()
      ensures fresh(parser) && fresh(utf8) && fresh(parser.headerBuf) && fresh(utf8.carry)
      ensures parser.headerBuf.Length == 14 && parser.headerLen <= 14
      ensures this.role == role && this.maxMessageSize == maxMessageSize && this.validateTextUtf8 == validateTextUtf8
      ensures parser.State() == PM.Fresh(ParserConfig(maxFrameSize, role == Server, false)) && partialChecked == 0
      ensures Collected() == Idle && CloseView() == Closing(Open, None)
    {
      this.role, this.maxMessageSize, this.validateTextUtf8 := role, maxMessageSize, validateTextUtf8;
      parser := new FrameParser(maxFrameSize, role == Server, false);
      utf8 := new Utf8Stream();
      state, pendingClose := Open, None;
      fragmentBuf, fragmentOpcode, fragmentValidatedLen, partialChecked := [], None, 0, 0;
    }

    ghost function Collected(): Assembly
      reads this`fragmentOpcode, this`fragmentBuf
    {
      if fragmentOpcode.None? then Idle else Assembly(fragmentOpcode, fragmentBuf)
    }

    ghost function CloseView(): Closing
      reads this
    {
      Closing(state, pendingClose)
    }

    ghost function Rules(typed: bool): Settings
      reads parser
    {
      Settings(parser.Config(), maxMessageSize, typed && validateTextUtf8)
    }

    ghost predicate FragmentsOk()
      reads this`fragmentOpcode, this`fragmentBuf, this`fragmentValidatedLen
    {
      && fragmentOpcode in {None, Some(Text), Some(Binary)}
      && parser.headerBuf != utf8.carry
      && (fragmentOpcode == Some(Text) ==>
            fragmentValidatedLen <= |fragmentBuf| && Remainder(fragmentBuf[..fragmentValidatedLen]) == Some([]))
    }

    /** Octets of the incomplete frame that the validator has already seen. */
    ghost predicate PartialOk(buf: ByteBuffer)
      reads this`fragmentOpcode, this`fragmentBuf, this`partialChecked, parser, parser.headerBuf, utf8, utf8.carry, buf
    {
      partialChecked > 0 ==>
        && parser.phase == PM.AtPayload && parser.header.Some?
        && partialChecked <= parser.payloadReady <= |buf.data|
        && Fed(parser.header.value, Collected(), buf.data[..partialChecked], utf8.Held())
    }

    ghost predicate Inv(buf: ByteBuffer)
      reads this`fragmentOpcode, this`fragmentBuf, this`fragmentValidatedLen, this`partialChecked, parser, parser.headerBuf, utf8, utf8.carry, buf
    {
      && parser.Ok(buf) && utf8.Valid() && FragmentsOk() && PartialOk(buf)
      && (buf.data == [] ==> ReadFrame(parser.Config(), parser.Unread(buf)).NeedMore?)
    }

    /** The validator's state fits a frame of which `prevalidated` payload octets were seen early. */
    ghost predicate PrevalidatedOk(f: Frame, prevalidated: nat)
      reads this, utf8, utf8.carry
    {
      prevalidated > 0 ==> prevalidated <= |f.payload| && Fed(f.header, Collected(), f.payload[..prevalidated], utf8.Held())
    }

    // -------------------------------------------------------------------
    // Text validation
    // -------------------------------------------------------------------

    /** Seed the validator with the collected fragments, from the part not yet validated. */
    method ResumeFragments() returns (ok: bool)
      requires FragmentsOk() && fragmentOpcode == Some(Text) && utf8.Valid()
      modifies utf8, utf8.carry
      ensures ok <==> Remainder(fragmentBuf).Some?
      ensures ok ==> utf8.Valid() && utf8.Held() == Remainder(fragmentBuf).value
    {
      hide Remainder;
      var suffix := fragmentBuf[fragmentValidatedLen..];
      RemainderAppend(fragmentBuf[..fragmentValidatedLen], suffix);
      assert fragmentBuf == fragmentBuf[..fragmentValidatedLen] + suffix;
      assert [] + suffix == suffix;
      ok := utf8.Resume(suffix);
    }

    /** Feed the rest of a text that is already fed up to `seen`. */
    method PushRest(ghost seen: seq<Octet>, rest: seq<Octet>) returns (ok: bool)
      requires utf8.Valid() && Remainder(seen) == Some(utf8.Held())
      modifies utf8, utf8.carry
      ensures ok <==> Remainder(seen + rest).Some?
      ensures ok ==> utf8.Valid() && utf8.Held() == Remainder(seen + rest).value
    {
      hide Remainder;
      RemainderAppend(seen, rest);
      ok := utf8.Push(rest);
    }

    /** Octets before the validator's carry are valid text. */
    lemma ValidatedPrefix(all: seq<Octet>)
      requires Remainder(all) == Some(utf8.Held()) && utf8.carryLen <= utf8.carry.Length
      ensures utf8.Pending() <= |all| && Remainder(all[..|all| - utf8.Pending()]) == Some([])
    {
      BeforeRemainderIsValid(all);
      ValidMeansNoRemainder(all[..|all| - utf8.Pending()]);
    }

    // -------------------------------------------------------------------
    // Frames
    // -------------------------------------------------------------------

    method HandleClose(f: Frame) returns (r: Result<Option<Message>>)
      requires f.header.opcode == Close
      modifies this`state, this`pendingClose
      ensures r == (match DecodeClose(f.payload) case Bad(e) => Bad(e) case Good(reason) => Good(Some(CloseMessage(reason))))
      ensures CloseView() == (if r.Good? then AfterMessage(old(CloseView()), r.value.value) else old(CloseView()))
    {
      hide ValidUtf8;
      var reason: Option<CloseReason> := None;
      if |f.payload| >= 2 {
        var code := FromBigEndian(f.payload[..2]);
        if !IsValidCloseCode(code) {
          return Bad(InvalidCloseCode(code));
        }
        if |f.payload| > 2 {
          if !ValidUtf8(f.payload[2..]) {
            return Bad(InvalidUtf8);
          }
        } else {
          EmptyTextIsValid();
          assert f.payload[2..] == [];
        }
        reason := Some(CloseReason(code, f.payload[2..]));
      } else if f.payload != [] {
        return Bad(InvalidClosePayload);
      }
      if state == Open {
        state := CloseReceived;
        pendingClose := reason;
      } else if state == CloseSent {
        state := Closed;
      }
      r := Good(Some(CloseMessage(reason)));
    }

    /** A complete Text or Binary message in one frame. */
    method HandleCompleteData(op: OpCode, payload: seq<Octet>, prevalidated: nat, ghost f: Frame) returns (r: Result<Message>)
      requires op == Text || op == Binary
      requires f.header.opcode == op && f.header.fin && f.payload == payload
      requires FragmentsOk() && utf8.Valid()
      requires op == Text && validateTextUtf8 ==> PrevalidatedOk(f, prevalidated)
      modifies utf8, utf8.carry
      ensures match TakeFrame(Rules(true), Collected(), f)
              case Bad(e) => r == Bad(e)
              case Good(t) => t.message.Some? && r == Good(t.message.value) && t.assembly == Collected()
      ensures r.Good? ==> utf8.Valid()
    {
      hide Remainder, ValidUtf8;
      if fragmentOpcode.Some? {
        return Bad(ExpectedContinuation);
      }
      if |payload| > maxMessageSize {
        return Bad(MessageTooLarge);
      }
      if op == Text {
        if validateTextUtf8 {
          var valid: bool;
          if prevalidated == 0 {
            valid := ValidUtf8(payload);
          } else {
            var rest := payload[prevalidated..];
            assert payload[..prevalidated] + rest == payload;
            ValidMeansNoRemainder(payload);
            valid := PushRest(payload[..prevalidated], rest);
            valid := valid && utf8.Finish();
          }
          if !valid {
            return Bad(InvalidUtf8);
          }
        }
        return Good(TextMessage(payload));
      }
      r := Good(BinaryMessage(payload));
    }

    method StartFragment(op: OpCode, payload: seq<Octet>, prevalidated: nat, ghost f: Frame) returns (error: Option<ProtocolError>)
      requires op == Text || op == Binary
      requires f.header.opcode == op && !f.header.fin && f.payload == payload
      requires FragmentsOk() && utf8.Valid() && fragmentOpcode.None?
      requires op == Text ==> validateTextUtf8 && PrevalidatedOk(f, prevalidated)
      modifies this`fragmentOpcode, this`fragmentBuf, this`fragmentValidatedLen, utf8, utf8.carry
      ensures match TakeFrame(Rules(true), old(Collected()), f)
              case Bad(e) => error == Some(e)
              case Good(t) => error.None? && t.message.None? && t.assembly == Collected()
      ensures error.None? ==> FragmentsOk() && utf8.Valid()
    {
      hide Remainder;
      if |payload| > maxMessageSize {
        return Some(MessageTooLarge);
      }
      if op == Text {
        if prevalidated == 0 {
          utf8.Reset();
          EmptyHasNoRemainder();
        }
        var rest := payload[prevalidated..];
        assert payload[..prevalidated] + rest == payload;
        var ok := PushRest(payload[..prevalidated], rest);
        if !ok {
          return Some(InvalidUtf8);
        }
        ValidatedPrefix(payload);
      }
      fragmentOpcode := Some(op);
      fragmentBuf := payload;
      fragmentValidatedLen := if op == Text then |payload| - utf8.Pending() else 0;
      error := None;
    }

    method StartRawFragment(op: OpCode, payload: seq<Octet>) returns (error: Option<ProtocolError>)
      requires op == Text || op == Binary
      requires FragmentsOk() && fragmentOpcode.None?
      modifies this`fragmentOpcode, this`fragmentBuf, this`fragmentValidatedLen
      ensures error == (if |payload| > maxMessageSize then Some(MessageTooLarge) else None)
      ensures error.None? ==> FragmentsOk() && Collected() == Assembly(Some(op), payload)
    {
      if |payload| > maxMessageSize {
        return Some(MessageTooLarge);
      }
      fragmentOpcode, fragmentValidatedLen, fragmentBuf := Some(op), 0, payload;
      EmptyHasNoRemainder();
      assert fragmentBuf[..0] == [];
      error := None;
    }

    /** Text or Binary without validation. */
    method HandleRawData(f: Frame) returns (r: Result<Option<Message>>)
      requires f.header.opcode == Text || f.header.opcode == Binary
      requires FragmentsOk()
      modifies this`fragmentOpcode, this`fragmentBuf, this`fragmentValidatedLen
      ensures match TakeFrame(Rules(false), old(Collected()), f)
              case Bad(e) => r == Bad(e)
              case Good(t) => r == Good(t.message) && t.assembly == Collected()
      ensures r.Good? ==> FragmentsOk()
    {
      hide Remainder;
      if fragmentOpcode.Some? {
        return Bad(ExpectedContinuation);
      }
      if f.header.fin {
        if |f.payload| > maxMessageSize {
          return Bad(MessageTooLarge);
        }
        return Good(Some(if f.header.opcode == Text then TextMessage(f.payload) else BinaryMessage(f.payload)));
      }
      var error := StartRawFragment(f.header.opcode, f.payload);
      if error.Some? {
        return Bad(error.value);
      }
      r := Good(None);
    }

    method HandleRawContinuation(f: Frame) returns (r: Result<Option<Message>>)
      requires f.header.opcode == Continuation && FragmentsOk()
      modifies this`fragmentOpcode, this`fragmentBuf
      ensures match TakeFrame(Rules(false), old(Collected()), f)
              case Bad(e) => r == Bad(e)
              case Good(t) => r == Good(t.message) && t.assembly == Collected()
      ensures r.Good? ==> FragmentsOk()
    {
      hide Remainder;
      if fragmentOpcode.None? {
        return Bad(UnexpectedContinuation);
      }
      var op := fragmentOpcode.value;
      if |fragmentBuf| + |f.payload| > maxMessageSize {
        return Bad(MessageTooLarge);
      }
      ghost var before := fragmentBuf;
      fragmentBuf := fragmentBuf + f.payload;
      assert fragmentOpcode == Some(Text) ==> fragmentBuf[..fragmentValidatedLen] == before[..fragmentValidatedLen];
      if !f.header.fin {
        return Good(None);
      }
      fragmentOpcode := None;
      var data := fragmentBuf;
      fragmentBuf := [];
      r := Good(Some(DataMessage(op, data)));
    }

    method HandleContinuation(f: Frame, prevalidated: nat) returns (r: Result<Option<Message>>)
      requires f.header.opcode == Continuation && FragmentsOk() && utf8.Valid() && validateTextUtf8
      requires PrevalidatedOk(f, prevalidated)
      modifies this`fragmentOpcode, this`fragmentBuf, this`fragmentValidatedLen, utf8, utf8.carry
      ensures match TakeFrame(Rules(true), old(Collected()), f)
              case Bad(e) => r == Bad(e)
              case Good(t) => r == Good(t.message) && t.assembly == Collected()
      ensures r.Good? ==> FragmentsOk() && utf8.Valid()
    {
      hide Remainder, ValidUtf8;
      if fragmentOpcode.None? {
        return Bad(UnexpectedContinuation);
      }
      var op := fragmentOpcode.value;
      if |fragmentBuf| + |f.payload| > maxMessageSize {
        return Bad(MessageTooLarge);
      }
      ghost var all := fragmentBuf + f.payload;
      if op == Text {
        ValidMeansNoRemainder(all);
        var ok := FeedContinuation(f, prevalidated);
        if !ok {
          return Bad(InvalidUtf8);
        }
        ValidatedPrefix(all);
      }
      fragmentBuf := fragmentBuf + f.payload;
      if !f.header.fin {
        if op == Text {
          fragmentValidatedLen := |fragmentBuf| - utf8.Pending();
        }
        return Good(None);
      }
      fragmentOpcode := None;
      var data := fragmentBuf;
      fragmentBuf := [];
      if op == Text && !utf8.Finish() {
        return Bad(InvalidUtf8);
      }
      r := Good(Some(DataMessage(op, data)));
    }

    /** Bring the validator up to the end of a text continuation frame. */
    method FeedContinuation(f: Frame, prevalidated: nat) returns (ok: bool)
      requires f.header.opcode == Continuation && FragmentsOk() && utf8.Valid() && fragmentOpcode == Some(Text)
      requires PrevalidatedOk(f, prevalidated)
      modifies utf8, utf8.carry
      ensures ok <==> Remainder(fragmentBuf + f.payload).Some?
      ensures ok ==> utf8.Valid() && Remainder(fragmentBuf + f.payload) == Some(utf8.Held())
    {
      hide Remainder;
      if prevalidated == 0 {
        ok := ResumeFragments();
        if !ok {
          HopelessExtends(fragmentBuf, f.payload);
          return;
        }
        assert fragmentBuf + f.payload[..0] == fragmentBuf;
      }
      var rest := f.payload[prevalidated..];
      assert fragmentBuf + f.payload[..prevalidated] + rest == fragmentBuf + f.payload;
      ok := PushRest(fragmentBuf + f.payload[..prevalidated], rest);
    }

    method HandleText(f: Frame, prevalidated: nat) returns (r: Result<Option<Message>>)
      requires f.header.opcode == Text && FragmentsOk() && utf8.Valid()
      requires validateTextUtf8 ==> PrevalidatedOk(f, prevalidated)
      modifies this`fragmentOpcode, this`fragmentBuf, this`fragmentValidatedLen, utf8, utf8.carry
      ensures match TakeFrame(Rules(true), old(Collected()), f)
              case Bad(e) => r == Bad(e)
              case Good(t) => r == Good(t.message) && t.assembly == Collected()
      ensures r.Good? ==> FragmentsOk() && utf8.Valid()
    {
      hide Remainder, ValidUtf8;
      if f.header.fin {
        var done := HandleCompleteData(Text, f.payload, prevalidated, f);
        return if done.Good? then Good(Some(done.value)) else Bad(done.error);
      }
      if !validateTextUtf8 {
        r := HandleRawData(f);
        return;
      }
      if fragmentOpcode.Some? {
        return Bad(ExpectedContinuation);
      }
      var error := StartFragment(Text, f.payload, prevalidated, f);
      r := if error.Some? then Bad(error.value) else Good(None);
    }

    method HandleBinary(f: Frame) returns (r: Result<Option<Message>>)
      requires f.header.opcode == Binary && FragmentsOk() && utf8.Valid()
      modifies this`fragmentOpcode, this`fragmentBuf, this`fragmentValidatedLen, utf8, utf8.carry
      ensures match TakeFrame(Rules(true), old(Collected()), f)
              case Bad(e) => r == Bad(e)
              case Good(t) => r == Good(t.message) && t.assembly == Collected()
      ensures r.Good? ==> FragmentsOk() && utf8.Valid()
    {
      hide Remainder, ValidUtf8;
      if f.header.fin {
        var done := HandleCompleteData(Binary, f.payload, 0, f);
        return if done.Good? then Good(Some(done.value)) else Bad(done.error);
      }
      if fragmentOpcode.Some? {
        return Bad(ExpectedContinuation);
      }
      var error := StartFragment(Binary, f.payload, 0, f);
      r := if error.Some? then Bad(error.value) else Good(None);
    }

    /** One frame of a typed call, of which `prevalidated` payload octets were validated early. */
    method HandleFrame(f: Frame, prevalidated: nat) returns (r: Result<Option<Message>>)
      requires FragmentsOk() && utf8.Valid()
      requires validateTextUtf8 ==> PrevalidatedOk(f, prevalidated)
      modifies this`fragmentOpcode, this`fragmentBuf, this`fragmentValidatedLen, this`state, this`pendingClose, utf8, utf8.carry
      ensures match TakeFrame(Rules(true), old(Collected()), f)
              case Bad(e) => r == Bad(e)
              case Good(t) => r == Good(t.message) && t.assembly == Collected()
      ensures r.Good? ==> FragmentsOk() && utf8.Valid()
      ensures CloseView() == (if r.Good? && r.value.Some? then AfterMessage(old(CloseView()), r.value.value) else old(CloseView()))
    {
      hide Remainder, ValidUtf8, DecodeClose;
      match f.header.opcode {
        case Continuation =>
          if !validateTextUtf8 {
            r := HandleRawContinuation(f);
          } else {
            r := HandleContinuation(f, prevalidated);
          }
        case Text => r := HandleText(f, prevalidated);
        case Binary => r := HandleBinary(f);
        case Close => r := HandleClose(f);
        case Ping => r := Good(Some(PingMessage(f.payload)));
        case Pong => r := Good(Some(PongMessage(f.payload)));
      }
    }

    /** One frame of a raw call: no text validation. */
    method HandleRawFrame(f: Frame) returns (r: Result<Option<Message>>)
      requires FragmentsOk()
      modifies this`fragmentOpcode, this`fragmentBuf, this`fragmentValidatedLen, this`state, this`pendingClose
      ensures match TakeFrame(Rules(false), old(Collected()), f)
              case Bad(e) => r == Bad(e)
              case Good(t) => r == Good(t.message) && t.assembly == Collected()
      ensures r.Good? ==> FragmentsOk()
      ensures CloseView() == (if r.Good? && r.value.Some? then AfterMessage(old(CloseView()), r.value.value) else old(CloseView()))
    {
      hide Remainder, ValidUtf8, DecodeClose;
      match f.header.opcode {
        case Continuation => r := HandleRawContinuation(f);
        case Text => r := HandleRawData(f);
        case Binary => r := HandleRawData(f);
        case Close => r := HandleClose(f);
        case Ping => r := Good(Some(PingMessage(f.payload)));
        case Pong => r := Good(Some(PongMessage(f.payload)));
      }
    }

    // -------------------------------------------------------------------
    // Receiving
    // -------------------------------------------------------------------

    /** More octets from the transport. */
    method Arrive(buf: ByteBuffer, chunk: seq<Octet>)
      requires Inv(buf)
      modifies buf
      ensures Inv(buf) && parser.Unread(buf) == old(parser.Unread(buf)) + chunk
    {
      hide PM.Valid, PM.Raw, ReadFrame, Fed;
      Chunked.ArrivalExtendsRaw(parser.State(), buf.data, chunk);
      assert chunk == [] ==> buf.data + chunk == buf.data;
      ghost var before := buf.data;
      buf.data := buf.data + chunk;
      assert partialChecked > 0 ==> buf.data[..partialChecked] == before[..partialChecked];
    }

    /** The buffer is exposed up to its end and the reader waits: what a parse call that needs more leaves behind. */
    ghost predicate Waiting(buf: ByteBuffer)
      reads this, parser, parser.headerBuf, utf8, utf8.carry, buf
    {
      && parser.Ok(buf) && utf8.Valid() && FragmentsOk() && PartialOk(buf)
      && ReadFrame(parser.Config(), parser.Unread(buf)).NeedMore?
      && (parser.phase == PM.AtPayload ==> parser.header.Some? && parser.payloadReady == |buf.data|)
      && (parser.phase != PM.AtPayload ==> ReadHeader(parser.Config(), parser.Unread(buf)).HeaderPending?)
    }

    /** Validate the received prefix of an incomplete text frame. */
    method PrevalidatePartialText(buf: ByteBuffer) returns (error: Option<ProtocolError>)
      requires Waiting(buf)
      modifies this`partialChecked, utf8, utf8.carry
      ensures parser.Unread(buf) == old(parser.Unread(buf))
      ensures error == (if HopelessPartialText(Rules(true), Collected(), parser.Unread(buf)) then Some(InvalidUtf8) else None)
      ensures error.None? ==> Waiting(buf)
    {
      hide Remainder, ReadFrame, ReadHeader, PM.Valid, PM.Raw, Transmitted;
      if !validateTextUtf8 {
        return None;
      }
      var pending := parser.Pending();
      if pending.None? {
        return None;
      }
      var p := pending.value;
      PM.ExposedPayload(parser.State(), buf.data);
      if p.rsv1 {
        return None;
      }
      assert buf.data[..|buf.data|] == buf.data;
      if p.ready <= partialChecked {
        return None;
      }
      var isText := if p.opcode == Text then fragmentOpcode.None?
                    else p.opcode == Continuation && fragmentOpcode == Some(Text);
      if !isText {
        return None;
      }
      error := FeedPartial(buf, p);
    }

    method FeedPartial(buf: ByteBuffer, p: PendingPayload) returns (error: Option<ProtocolError>)
      requires utf8.Valid() && FragmentsOk() && PartialOk(buf)
      requires parser.Pending() == Some(p) && !p.rsv1 && partialChecked < p.ready == |buf.data|
      requires if p.opcode == Text then fragmentOpcode.None? else p.opcode == Continuation && fragmentOpcode == Some(Text)
      modifies this`partialChecked, utf8, utf8.carry
      ensures PartialTextOf(parser.header.value, Collected(), buf.data).Some?
      ensures var text := PartialTextOf(parser.header.value, Collected(), buf.data).value;
              error == (if Remainder(text).None? then Some(InvalidUtf8) else None)
      ensures error.None? ==> utf8.Valid() && PartialOk(buf)
    {
      hide Remainder, FragmentsOk;
      ghost var base := if p.opcode == Text then [] else fragmentBuf;
      var seeded := ContinueValidator(buf, p);
      if !seeded {
        HopelessExtends(fragmentBuf, buf.data);
        return Some(InvalidUtf8);
      }
      assert base == [] ==> base + buf.data[..partialChecked] == buf.data[..partialChecked];
      var ready := p.ready;
      var rest := buf.data[partialChecked..ready];
      Rejoin(base, buf.data, partialChecked);
      assert base == [] ==> base + buf.data == buf.data;
      var ok := PushRest(base + buf.data[..partialChecked], rest);
      if !ok {
        return Some(InvalidUtf8);
      }
      partialChecked := ready;
      assert buf.data[..ready] == buf.data;
      error := None;
    }

    /** Bring the validator to where the text received before was left. */
    method ContinueValidator(buf: ByteBuffer, p: PendingPayload) returns (ok: bool)
      requires utf8.Valid() && FragmentsOk() && PartialOk(buf)
      requires parser.Pending() == Some(p) && !p.rsv1 && partialChecked < p.ready == |buf.data|
      requires if p.opcode == Text then fragmentOpcode.None? else p.opcode == Continuation && fragmentOpcode == Some(Text)
      modifies utf8, utf8.carry
      ensures !ok ==> p.opcode == Continuation && Remainder(fragmentBuf).None?
      ensures ok ==>
                && utf8.Valid()
                && Remainder((if p.opcode == Text then [] else fragmentBuf) + buf.data[..partialChecked]) == Some(utf8.Held())
    {
      hide Remainder, FragmentsOk;
      ok := true;
      ghost var base := if p.opcode == Text then [] else fragmentBuf;
      if partialChecked == 0 {
        ok := SeedValidator(p.opcode == Continuation);
        assert base + buf.data[..0] == base;
      } else {
        assert base == [] ==> base + buf.data[..partialChecked] == buf.data[..partialChecked];
      }
    }

    /** Start the validator on a new text, or on the fragments collected so far. */
    method SeedValidator(continuing: bool) returns (ok: bool)
      requires utf8.Valid() && FragmentsOk() && (continuing ==> fragmentOpcode == Some(Text))
      modifies utf8, utf8.carry
      ensures ok <==> !continuing || Remainder(fragmentBuf).Some?
      ensures ok ==> utf8.Valid() && Remainder(if continuing then fragmentBuf else []) == Some(utf8.Held())
    {
      hide Remainder;
      if continuing {
        ok := ResumeFragments();
      } else {
        utf8.Reset();
        EmptyHasNoRemainder();
        ok := true;
      }
    }

    method CallParser(buf: ByteBuffer, afterMiss: bool) returns (r: PM.Outcome)
      requires parser.Ok(buf)
      modifies parser, parser.headerBuf, buf
      ensures parser.Ok(buf)
      ensures PM.Parsed(parser.State(), buf.data, r) == PM.ParseSlow(old(parser.State()), old(buf.data))
      ensures PM.Refines(old(parser.Config()), old(parser.Unread(buf)), PM.Parsed(parser.State(), buf.data, r))
    {
      if afterMiss {
        r := parser.ParseAfterCompleteDataMiss(buf);
      } else {
        r := parser.Parse(buf);
      }
    }

    /**
     One parse call. A frame comes with the number of its octets that were validated early;
     otherwise the parser waits, or the stream is bad.
     */
    method ParseNext(buf: ByteBuffer, afterMiss: bool) returns (r: PM.Outcome, prevalidated: nat)
      requires Inv(buf)
      modifies this`partialChecked, parser, parser.headerBuf, buf
      ensures parser.Config() == old(parser.Config())
      ensures match ReadFrame(parser.Config(), old(parser.Unread(buf)))
              case NeedMore => r == PM.More && Waiting(buf) && parser.Unread(buf) == old(parser.Unread(buf))
              case Rejected(e) => r == PM.Failed(e)
              case Accepted(f, n) => r == PM.Got(f) && Inv(buf) && n <= |old(parser.Unread(buf))| && partialChecked == 0
                                     && parser.Unread(buf) == old(parser.Unread(buf))[n..] && PrevalidatedOk(f, prevalidated)
    {
      hide ReadFrame, ReadHeader, PM.Valid, PM.Raw, PM.ParseSlow, Fed;
      assert parser.headerBuf != utf8.carry;
      hide FragmentsOk;
      ghost var p0, buf0 := parser.State(), buf.data;
      r := CallParser(buf, afterMiss);
      prevalidated := partialChecked;
      match r {
        case More =>
          PM.WaitingExposesPayload(p0, buf0);
          assert partialChecked > 0 ==> buf.data[..p0.ready][..partialChecked] == buf0[..p0.ready][..partialChecked];
          assert partialChecked > 0 ==> buf.data[..partialChecked] == buf0[..partialChecked];
        case Failed(_) =>
        case Got(f) =>
          if prevalidated > 0 {
            PM.CompletionKeepsPrefix(p0, buf0);
            assert f.payload[..p0.ready][..prevalidated] == buf0[..p0.ready][..prevalidated];
            assert f.payload[..prevalidated] == buf0[..prevalidated];
          }
          partialChecked := 0;
          Chunked.FreshStandsOnBuffer(p0.cfg, buf.data);
          NothingNeedsMore(p0.cfg);
      }
    }

    lemma WaitingIsInv(buf: ByteBuffer)
      requires Waiting(buf)
      ensures Inv(buf)
    {
    }

    /** With nothing buffered there is nothing to do. */
    lemma EmptyReceives(buf: ByteBuffer, s: Settings)
      requires Inv(buf) && buf.data == [] && s.frames == parser.Config()
      ensures Receive(s, Collected(), parser.Unread(buf)) == Received([], None, false, Collected(), parser.Unread(buf))
    {
      hide ReadFrame, ReadHeader, PM.Valid, PM.Raw, Remainder;
      PM.EmptyBufferHasNoPayload(parser.State());
    }

    /** Handle a frame that the parser has just returned. */
    method AcceptFrame(buf: ByteBuffer, f: Frame, prevalidated: nat) returns (r: Result<Option<Message>>)
      requires Inv(buf) && partialChecked == 0 && PrevalidatedOk(f, prevalidated)
      modifies this`fragmentOpcode, this`fragmentBuf, this`fragmentValidatedLen, this`state, this`pendingClose, utf8, utf8.carry
      ensures match TakeFrame(Rules(true), old(Collected()), f)
              case Bad(e) => r == Bad(e)
              case Good(t) => r == Good(t.message) && t.assembly == Collected() && Inv(buf)
                              && parser.Unread(buf) == old(parser.Unread(buf))
      ensures CloseView() == (if r.Good? && r.value.Some? then AfterMessage(old(CloseView()), r.value.value) else old(CloseView()))
    {
      hide ReadFrame, PM.Valid, PM.Raw, TakeFrame, PrevalidatedOk, FragmentsOk;
      r := HandleFrame(f, prevalidated);
    }

    /**
     One pass of a typed call after the complete-data path missed, or with it included.
     The result is the message a frame completes, or none for a fragment, or the end.
     */
    method StepTyped(buf: ByteBuffer, afterMiss: bool) returns (step: Step)
      requires Inv(buf)
      modifies this, parser, parser.headerBuf, utf8, utf8.carry, buf
      ensures parser.Config() == old(parser.Config())
      ensures StepFits(Rules(true), old(Collected()), old(parser.Unread(buf)), step, Collected(), parser.Unread(buf))
      ensures step.Item? || step.error.None? ==> Inv(buf)
      ensures CloseView() == (if step.Item? && step.message.Some? then AfterMessage(old(CloseView()), step.message.value)
                              else old(CloseView()))
    {
      hide ReadFrame, TakeFrame, Waiting, Inv, PrevalidatedOk, HopelessPartialText, FragmentsOk, PM.Raw;
      ghost var a, w := Collected(), parser.Unread(buf);
      var r, prevalidated := ParseNext(buf, afterMiss);
      match r {
        case Failed(e) =>
          step := Stop(Some(BadFrame(e)));
        case More =>
          var error := PrevalidatePartialText(buf);
          if error.None? {
            WaitingIsInv(buf);
          }
          step := Stop(error);
        case Got(f) =>
          ReadFrameIsEncoded(parser.Config(), w);
          var taken := AcceptFrame(buf, f, prevalidated);
          step := if taken.Bad? then Stop(Some(taken.error)) else Item(taken.value);
      }
    }

    /** A typed call: every message the buffered octets complete, in wire order, up to the first error. */
    method ProcessInto(buf: ByteBuffer) returns (messages: seq<Message>, fragment: bool, error: Option<ProtocolError>)
      requires Inv(buf)
      modifies this, parser, parser.headerBuf, utf8, utf8.carry, buf
      ensures parser.Config() == old(parser.Config())
      ensures var r := Receive(Rules(true), old(Collected()), old(parser.Unread(buf)));
              && messages == r.messages && fragment == r.fragment && error == r.error
              && (error.None? ==> Inv(buf) && Collected() == r.assembly && parser.Unread(buf) == r.rest)
      ensures CloseView() == AfterMessages(old(CloseView()), messages)
    {
      hide Inv, OnePass, PM.Raw, Receive;
      ghost var s, a0, w0 := Rules(true), Collected(), parser.Unread(buf);
      messages, fragment := [], false;
      while |buf.data| > 0
        invariant Inv(buf) && Rules(true) == s
        invariant Receive(s, a0, w0) == Continued(messages, fragment, Receive(s, Collected(), parser.Unread(buf)))
        invariant CloseView() == AfterMessages(old(CloseView()), messages)
        decreases |parser.Unread(buf)|
      {
        ContinueRun(s, Collected(), parser.Unread(buf), messages, fragment);
        var step := StepTyped(buf, false);
        if step.Stop? {
          return messages, fragment, step.error;
        }
        if step.message.Some? {
          messages := messages + [step.message.value];
          assert messages[..|messages| - 1] + [step.message.value] == messages;
        } else {
          fragment := true;
        }
      }
      EmptyReceives(buf, s);
      assert messages + [] == messages;
      error := None;
    }

    /** A complete final Text or Binary frame, taken without building a frame. */
    method StepCompleteData(buf: ByteBuffer) returns (step: Option<Step>)
      requires Inv(buf)
      modifies this`partialChecked, utf8, utf8.carry, buf
      ensures step.None? ==> Inv(buf) && parser.Unread(buf) == old(parser.Unread(buf))
      ensures step.Some? ==>
                StepFits(Rules(true), old(Collected()), old(parser.Unread(buf)), step.value, Collected(), parser.Unread(buf))
      ensures step.Some? ==> if step.value.Item? then Inv(buf) && step.value.message.Some? && !step.value.message.value.CloseMessage?
                             else step.value.error.Some?
    {
      hide ReadFrame, TakeFrame, PM.Raw, PM.TryCompleteData, Remainder, PM.Valid;
      ghost var w := parser.Unread(buf);
      var hit := parser.TryParseCompleteUnmaskedData(buf);
      if hit.None? {
        return None;
      }
      var (op, payload) := hit.value;
      ghost var f := Frame(PM.CompleteDataHeader(op, |payload|), payload);
      CompleteDataOpCode(parser.State(), old(buf.data));
      var prevalidated := partialChecked;
      partialChecked := 0;
      ReadFrameIsEncoded(parser.Config(), w);
      Chunked.FreshStandsOnBuffer(parser.Config(), buf.data);
      NothingNeedsMore(parser.Config());
      var r := HandleCompleteData(op, payload, prevalidated, f);
      if r.Bad? {
        return Some(Stop(Some(r.error)));
      }
      CompleteDataIsData(Rules(true), Collected(), f);
      step := Some(Item(Some(r.value)));
    }

    /** A typed call that stops at the first message. */
    method ProcessNext(buf: ByteBuffer) returns (message: Option<Message>, fragment: bool, error: Option<ProtocolError>)
      requires Inv(buf)
      modifies this, parser, parser.headerBuf, utf8, utf8.carry, buf
      ensures parser.Config() == old(parser.Config())
      ensures var r := ReceiveOne(Rules(true), old(Collected()), old(parser.Unread(buf)));
              && message == r.message && fragment == r.fragment && error == r.error
              && (error.None? ==> Inv(buf) && Collected() == r.assembly && parser.Unread(buf) == r.rest)
      ensures CloseView() == (if message.Some? then AfterMessage(old(CloseView()), message.value) else old(CloseView()))
    {
      hide Inv, OnePass, PM.Raw, ReceiveOne, Receive;
      ghost var s, a0, w0 := Rules(true), Collected(), parser.Unread(buf);
      fragment := false;
      while |buf.data| > 0
        invariant Inv(buf) && Rules(true) == s
        invariant var r := ReceiveOne(s, Collected(), parser.Unread(buf));
                  ReceiveOne(s, a0, w0) == r.(fragment := fragment || r.fragment)
        invariant CloseView() == old(CloseView())
        decreases |parser.Unread(buf)|
      {
        OneFromPass(s, Collected(), parser.Unread(buf));
        var complete := StepCompleteData(buf);
        if complete.Some? {
          return if complete.value.Item? then complete.value.message else None, fragment,
                 if complete.value.Item? then None else complete.value.error;
        }
        var step := StepTyped(buf, true);
        if step.Stop? {
          return None, fragment, step.error;
        }
        if step.message.Some? {
          return step.message, fragment, None;
        }
        fragment := true;
      }
      EmptyReceives(buf, s);
      NothingToReceive(s, Collected(), parser.Unread(buf));
      message, error := None, None;
    }

    /** A raw call: the same without text validation; a frame it completes resets the early check. */
    method ProcessRawInto(buf: ByteBuffer) returns (messages: seq<Message>, error: Option<ProtocolError>)
      requires Inv(buf)
      modifies this, parser, parser.headerBuf, buf
      ensures parser.Config() == old(parser.Config())
      ensures var r := Receive(Rules(false), old(Collected()), old(parser.Unread(buf)));
              && messages == r.messages && error == r.error
              && (error.None? ==> Inv(buf) && Collected() == r.assembly && parser.Unread(buf) == r.rest)
      ensures CloseView() == AfterMessages(old(CloseView()), messages)
    {
      hide Inv, OnePass, PM.Raw, Receive;
      ghost var s, a0, w0, fragment := Rules(false), Collected(), parser.Unread(buf), false;
      messages := [];
      while |buf.data| > 0
        invariant Inv(buf) && Rules(false) == s
        invariant Receive(s, a0, w0) == Continued(messages, fragment, Receive(s, Collected(), parser.Unread(buf)))
        invariant CloseView() == AfterMessages(old(CloseView()), messages)
        decreases |parser.Unread(buf)|
      {
        ContinueRun(s, Collected(), parser.Unread(buf), messages, fragment);
        var step := StepRaw(buf);
        if step.Stop? {
          return messages, step.error;
        }
        if step.message.Some? {
          messages := messages + [step.message.value];
          assert messages[..|messages| - 1] + [step.message.value] == messages;
        } else {
          fragment := true;
        }
      }
      EmptyReceives(buf, s);
      assert messages + [] == messages;
      error := None;
    }

    method StepRaw(buf: ByteBuffer) returns (step: Step)
      requires Inv(buf)
      modifies this, parser, parser.headerBuf, buf
      ensures parser.Config() == old(parser.Config())
      ensures StepFits(Rules(false), old(Collected()), old(parser.Unread(buf)), step, Collected(), parser.Unread(buf))
      ensures step.Item? || step.error.None? ==> Inv(buf)
      ensures CloseView() == (if step.Item? && step.message.Some? then AfterMessage(old(CloseView()), step.message.value)
                              else old(CloseView()))
    {
      hide ReadFrame, TakeFrame, Waiting, Inv, PrevalidatedOk, PartialText, FragmentsOk, PM.Raw;
      ghost var w := parser.Unread(buf);
      var r, _ := ParseNext(buf, false);
      match r {
        case Failed(e) =>
          step := Stop(Some(BadFrame(e)));
        case More =>
          WaitingIsInv(buf);
          step := Stop(None);
        case Got(f) =>
          ReadFrameIsEncoded(parser.Config(), w);
          var taken := AcceptRawFrame(buf, f);
          step := if taken.Bad? then Stop(Some(taken.error)) else Item(taken.value);
      }
    }

    method AcceptRawFrame(buf: ByteBuffer, f: Frame) returns (r: Result<Option<Message>>)
      requires Inv(buf) && partialChecked == 0
      modifies this`fragmentOpcode, this`fragmentBuf, this`fragmentValidatedLen, this`state, this`pendingClose
      ensures match TakeFrame(Rules(false), old(Collected()), f)
              case Bad(e) => r == Bad(e)
              case Good(t) => r == Good(t.message) && t.assembly == Collected() && Inv(buf)
                              && parser.Unread(buf) == old(parser.Unread(buf))
      ensures CloseView() == (if r.Good? && r.value.Some? then AfterMessage(old(CloseView()), r.value.value) else old(CloseView()))
    {
      hide ReadFrame, PM.Valid, PM.Raw, TakeFrame, FragmentsOk;
      r := HandleRawFrame(f);
    }

    // -------------------------------------------------------------------
    // Sending
    // -------------------------------------------------------------------

    /** Clients mask with a fresh key, servers do not mask. */
    function Key(freshKey: MaskKey): Option<MaskKey> {
      if role == Client then Some(freshKey) else None
    }

    method EncodeMessageInto(msg: Message, out: ByteBuffer, freshKey: MaskKey, big: bool)
      modifies this`state, out
      ensures out.data == old(out.data) + EncodeFrame(MessageFrame(msg, Key(freshKey)))
      ensures CloseView() == AfterSending(old(CloseView()), msg)
    {
      hide EncodeFrame;
      var mask := Key(freshKey);
      match msg {
        case TextMessage(b) => EncodeFrameWithRsv(out, Text, b, true, mask, false, big);
        case BinaryMessage(b) => EncodeFrameWithRsv(out, Binary, b, true, mask, false, big);
        case PingMessage(b) => EncodeFrameWithRsv(out, Ping, b, true, mask, false, big);
        case PongMessage(b) => EncodeFrameWithRsv(out, Pong, b, true, mask, false, big);
        case CloseMessage(reason) =>
          if state == Open {
            state := CloseSent;
          }
          EncodeFrameWithRsv(out, Close, EncodeClose(reason), true, mask, false, big);
      }
    }

    method EncodePong(data: seq<Octet>, out: ByteBuffer, freshKey: MaskKey, big: bool)
      modifies out
      ensures out.data == old(out.data) + EncodeFrame(MessageFrame(PongMessage(data), Key(freshKey)))
    {
      hide EncodeFrame;
      EncodeFrameWithRsv(out, Pong, data, true, Key(freshKey), false, big);
    }

    /** Answer the Close that was received first; the handshake is then complete. */
    method EncodeCloseResponse(out: ByteBuffer, freshKey: MaskKey, big: bool)
      modifies this`state, out
      ensures out.data == old(out.data) + EncodeFrame(MessageFrame(CloseMessage(pendingClose), Key(freshKey)))
      ensures state == (if old(state) == CloseReceived then Closed else old(state))
    {
      hide EncodeFrame;
      EncodeFrameWithRsv(out, Close, EncodeClose(pendingClose), true, Key(freshKey), false, big);
      if state == CloseReceived {
        state := Closed;
      }
    }
  }

  /** One pass through the receive loop. */
  datatype Step = Stop(error: Option<ProtocolError>) | Item(message: Option<Message>)

  /** The pass agrees with the reference on the unread octets `w`, and leaves `a'` and `w'`. */
  ghost predicate StepFits(s: Settings, a: Assembly, w: seq<Octet>, step: Step, a': Assembly, w': seq<Octet>) {
    match step
    case Stop(error) => OnePass(s, a, w) == End(error) && (error.None? ==> a' == a && w' == w)
    case Item(m) => OnePass(s, a, w) == Next(m, a', w')
  }

  lemma OneFromPass(s: Settings, a: Assembly, w: seq<Octet>)
    ensures var p, r := OnePass(s, a, w), ReceiveOne(s, a, w);
            && (p.End? ==> r == ReceivedOne(None, p.error, false, a, w))
            && (p.Next? && p.message.Some? ==> r == ReceivedOne(p.message, None, false, p.assembly, p.rest))
            && (p.Next? && p.message.None? ==> r == ReceiveOne(s, p.assembly, p.rest).(fragment := true))
  {
  }

  lemma NothingToReceive(s: Settings, a: Assembly, w: seq<Octet>)
    requires Receive(s, a, w) == Received([], None, false, a, w)
    ensures ReceiveOne(s, a, w) == ReceivedOne(None, None, false, a, w)
  {
    hide OnePass;
  }

  /** A run so far, and what is still to come. */
  function Continued(messages: seq<Message>, fragment: bool, later: Received): Received {
    later.(messages := messages + later.messages, fragment := fragment || later.fragment)
  }

  /** Absorbing one more pass into a run. */
  lemma ContinueRun(s: Settings, a: Assembly, w: seq<Octet>, messages: seq<Message>, fragment: bool)
    ensures var p := OnePass(s, a, w);
            Continued(messages, fragment, Receive(s, a, w)) ==
            if p.End? then Received(messages, p.error, fragment, a, w)
            else Continued(if p.message.Some? then messages + [p.message.value] else messages, fragment || p.message.None?,
                           Receive(s, p.assembly, p.rest))
  {
    hide OnePass;
    var p := OnePass(s, a, w);
    if p.End? {
      assert messages + [] == messages;
    } else if p.message.Some? {
      var later := Receive(s, p.assembly, p.rest);
      assert messages + ([p.message.value] + later.messages) == messages + [p.message.value] + later.messages;
    }
  }

  lemma CompleteDataOpCode(p: PM.Parser, buf: seq<Octet>)
    ensures PM.TryCompleteData(p, buf).Some? ==>
              p.phase == PM.AtHeader && PM.TryCompleteData(p, buf).value.0 in {Text, Binary}
  {
  }

  lemma CompleteDataIsData(s: Settings, a: Assembly, f: Frame)
    requires TakeFrame(s, a, f).Good? && (f.header.opcode == Text || f.header.opcode == Binary)
    ensures TakeFrame(s, a, f).value.message.Some? ==> !TakeFrame(s, a, f).value.message.value.CloseMessage?
  {
  }

  lemma NothingNeedsMore(cfg: ParserConfig)
    ensures ReadFrame(cfg, []).NeedMore?
  {
  }

  lemma Rejoin(base: seq<Octet>, data: seq<Octet>, n: nat)
    requires n <= |data|
    ensures base + data[..n] + data[n..] == base + data && data[n..|data|] == data[n..]
  {
    assert data[..n] + data[n..] == data;
  }

  lemma EmptyTextIsValid()
    ensures ValidUtf8([])
  {
  }

  lemma EmptyHasNoRemainder()
    ensures Remainder([]) == Some([])
  {
  }

  lemma FreshProtocolReceives(p: Protocol, buf: ByteBuffer)
    requires p.FragmentsOk() && p.utf8.Valid() && p.partialChecked == 0 && buf.data == []
    requires p.parser.headerBuf.Length == 14 && p.parser.headerLen <= 14
    requires p.parser.State() == PM.Fresh(p.parser.Config())
    ensures p.Inv(buf) && p.parser.Unread(buf) == []
  {
    Chunked.FreshStandsOnBuffer(p.parser.Config(), []);
    NothingNeedsMore(p.parser.Config());
  }

  lemma NextChunk(s: Settings, a: Assembly, w: seq<Octet>, chunks: seq<seq<Octet>>, i: nat, messages: seq<Message>, fragment: bool)
    requires i < |chunks|
    ensures var first := Receive(s, a, w + chunks[i]);
            Continued(messages, fragment, ReceiveChunks(s, a, w, chunks[i..])) ==
            if first.error.Some? then Continued(messages, fragment, first)
            else Continued(messages + first.messages, fragment || first.fragment,
                           ReceiveChunks(s, first.assembly, first.rest, chunks[i + 1..]))
  {
    hide Receive;
    assert chunks[i..][0] == chunks[i] && chunks[i..][1..] == chunks[i + 1..];
    var first := Receive(s, a, w + chunks[i]);
    if first.error.None? {
      var later := ReceiveChunks(s, first.assembly, first.rest, chunks[i + 1..]);
      assert messages + (first.messages + later.messages) == messages + first.messages + later.messages;
    }
  }

  lemma NoMoreChunks(s: Settings, a: Assembly, w: seq<Octet>, chunks: seq<seq<Octet>>, messages: seq<Message>, fragment: bool)
    requires chunks == []
    ensures Continued(messages, fragment, ReceiveChunks(s, a, w, chunks)) == Received(messages, None, fragment, a, w)
  {
    assert messages + [] == messages;
  }

  /** One chunk arrives and is processed. */
  method ReceiveChunk(p: Protocol, buf: ByteBuffer, chunk: seq<Octet>)
    returns (messages: seq<Message>, fragment: bool, error: Option<ProtocolError>)
    requires p.Inv(buf)
    modifies p, p.parser, p.parser.headerBuf, p.utf8, p.utf8.carry, buf
    ensures p.Rules(true) == old(p.Rules(true))
    ensures var r := Receive(p.Rules(true), old(p.Collected()), old(p.parser.Unread(buf)) + chunk);
            && messages == r.messages && fragment == r.fragment && error == r.error
            && (error.None? ==> p.Inv(buf) && p.Collected() == r.assembly && p.parser.Unread(buf) == r.rest)
  {
    hide Receive, PM.Raw, Protocol.Inv;
    p.Arrive(buf, chunk);
    messages, fragment, error := p.ProcessInto(buf);
  }

  /** A connection that receives a stream in chunks, with one typed call per chunk. */
  method ReceiveStream(role: Role, maxFrameSize: nat, maxMessageSize: nat, validate: bool, chunks: seq<seq<Octet>>)
    returns (messages: seq<Message>, error: Option<ProtocolError>)
    ensures var s := Settings(ParserConfig(maxFrameSize, role == Server, false), maxMessageSize, validate);
            var whole := Receive(s, Idle, Concat(chunks));
            messages == whole.messages && (error.Some? <==> whole.error.Some?)
  {
    hide Receive, PM.Raw, ReadFrame, Protocol.Inv, ReceiveChunks, Concat;
    var p := new Protocol(role, maxFrameSize, maxMessageSize, validate);
    var buf := new ByteBuffer([]);
    ghost var s := p.Rules(true);
    FreshProtocolReceives(p, buf);
    EmptyStream(s);
    ChunksDoNotMatter(s, Idle, [], chunks);
    assert [] + Concat(chunks) == Concat(chunks);
    ghost var total := ReceiveChunks(s, Idle, [], chunks);
    var fragment := false;
    messages := [];
    var i := 0;
    while i < |chunks|
      invariant i <= |chunks|
      invariant fresh(p) && fresh(p.parser) && fresh(p.parser.headerBuf) && fresh(p.utf8) && fresh(p.utf8.carry) && fresh(buf)
      invariant p.Inv(buf) && p.Rules(true) == s
      invariant total == Continued(messages, fragment, ReceiveChunks(s, p.Collected(), p.parser.Unread(buf), chunks[i..]))
    {
      NextChunk(s, p.Collected(), p.parser.Unread(buf), chunks, i, messages, fragment);
      var more, flag, bad := ReceiveChunk(p, buf, chunks[i]);
      messages, fragment := messages + more, fragment || flag;
      if bad.Some? {
        hide Protocol.Collected;
        return messages, bad;
      }
      i := i + 1;
    }
    NoMoreChunks(s, p.Collected(), p.parser.Unread(buf), chunks[i..], messages, fragment);
    error := None;
  }
}
