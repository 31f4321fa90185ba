/**
 The unified stream as an object: it owns the protocol object, the heartbeat and its buffers, and
 is proved to take exactly the steps of the machine in UnifiedStream.dfy.
 */
module StreamObjects {
  import opened Octets
  import opened Masking
  import opened FrameFormat
  import opened Messages
  import opened MessageLaws
  import opened Heartbeats
  import opened Outbound
  import opened Inboxes
  import opened UnifiedStreams
  import opened UnifiedSafety
  import P = ProtocolHandling
  import PM = ParserModel

  /** The transport: what it has accepted so far. */
  class Transport {
    var wire: seq<Octet>

    constructor ()
      ensures wire == []
    {
      wire := [];
    }

    /** Write a buffer; a failed write keeps what was not accepted, one that is given up loses its buffer. */
    method WriteAll(buf: ByteBuffer, w: WriteOutcome)
      modifies this, buf
      ensures wire == old(wire) + OctetsTaken(old(buf.data), w)
      ensures w.Flushed? ==> buf.data == []
    {
      wire := wire + OctetsTaken(buf.data, w);
      if w.Flushed? || w.timeout {
        buf.data := [];
      } else {
        buf.data := buf.data[|OctetsTaken(buf.data, w)|..];
      }
    }
  }

  /** The octets of a write that the transport accepts. */
  function OctetsTaken(data: seq<Octet>, w: WriteOutcome): seq<Octet> {
    if w.GivenUp? && w.accepted < |data| then data[..w.accepted] else data
  }

  lemma FlushTakes(o: Outbox, w: WriteOutcome)
    ensures FlushOut(o, w).wire == o.wire + OctetsTaken(o.pending, w)
    ensures w.Flushed? ==> FlushOut(o, w).pending == []
    ensures FlushOut(o, w).broken == (o.broken || w.GivenUp?) && FlushOut(o, w).shut == o.shut
  {
  }

  class UnifiedStream {
    const config: Config
    const protocol: P.Protocol
    const heartbeat: HeartbeatTimer
    const readBuf: ByteBuffer
    const writeBuf: ByteBuffer
    const transport: Transport
    var state: State
    var closingDeadline: Option<nat>
    var postExpiryRead: bool
    var batchHasClose: bool
    var writeShutdown: bool
    // Accepted messages, next one last.
    var pendingMessages: seq<Message>
    var pendingParseError: Option<ProtocolError>
    ghost var model: Stream

    /** Protocol and read buffer stand for the unread octets. */
    ghost predicate Reading(b: Inbox)
      reads protocol, protocol.parser, protocol.parser.headerBuf, protocol.utf8, protocol.utf8.carry, readBuf
    {
      && protocol.Inv(readBuf)
      && protocol.Rules(true) == b.settings
      && protocol.Collected() == b.assembly
      && protocol.parser.Unread(readBuf) == b.buffer
    }

    /** The receiving side stands for the inbox, except for a message just taken off the stack. */
    ghost predicate Live(b: Inbox, hasClose: bool, popped: seq<Message>)
      reads this`pendingMessages, this`pendingParseError, this`batchHasClose
      reads protocol, protocol.parser, protocol.parser.headerBuf, protocol.utf8, protocol.utf8.carry, readBuf
    {
      && b.batch == popped + Reverse(pendingMessages)
      && b.error == pendingParseError
      && (b.batch != [] ==> batchHasClose == hasClose)
      && protocol.CloseView() == b.closing
      && (pendingParseError.None? ==> Reading(b))
    }

    /** Closing budget and sending side, with `extra` octets encoded beyond what `o` has. */
    ghost predicate Sending(deadline: Option<nat>, lateRead: bool, o: Outbox, extra: seq<Octet>)
      reads this`closingDeadline, this`postExpiryRead, this`writeShutdown, writeBuf, transport
    {
      && deadline == closingDeadline && lateRead == postExpiryRead
      && o.shut == writeShutdown && o.wire == transport.wire
      && (!o.broken ==> writeBuf.data == o.pending + extra)
    }

    /** The fields stand for the model, with `extra` octets encoded that the model still lacks. */
    ghost predicate Ties(popped: seq<Message>, extra: seq<Octet>)
      reads this, protocol, protocol.parser, protocol.parser.headerBuf, protocol.utf8, protocol.utf8.carry, heartbeat, readBuf, writeBuf, transport
    {
      && readBuf != writeBuf
      && model.config == config && model.state == state
      && model.heartbeat == heartbeat.View()
      && Sending(model.deadline, model.lateRead, model.out, extra)
      && (state != Closed ==> Live(model.inbox, model.batchHasClose, popped))
    }

    ghost predicate Valid()
      reads this, protocol, protocol.parser, protocol.parser.headerBuf, protocol.utf8, protocol.utf8.carry, heartbeat, readBuf, writeBuf, transport
    {
      Ties([], []) && Inv(model)
    }

    /** A stream over a new protocol object whose buffer holds what was left over from the handshake. */
    constructor (config: Config, protocol: P.Protocol, heartbeat: HeartbeatTimer, readBuf: ByteBuffer, writeBuf: ByteBuffer,
                 transport: Transport)
      requires readBuf != writeBuf && writeBuf.data == [] && transport.wire == []
      requires protocol.Inv(readBuf) && protocol.Collected() == Idle && protocol.CloseView() == P.Closing(P.Open, None)
      ensures Valid()
      ensures this.config == config && this.protocol == protocol && this.heartbeat == heartbeat
              && this.readBuf == readBuf && this.writeBuf == writeBuf && this.transport == transport
      ensures model == NewStream(config, heartbeat.View(), protocol.Rules(true), protocol.parser.Unread(readBuf))
    {
      hide Inv, P.Protocol.Inv, Receive, PM.Raw;
      this.config, this.protocol, this.heartbeat := config, protocol, heartbeat;
      this.readBuf, this.writeBuf, this.transport := readBuf, writeBuf, transport;
      state, closingDeadline, postExpiryRead, batchHasClose, writeShutdown := Open, None, false, false, false;
      pendingMessages, pendingParseError := [], None;
      model := NewStream(config, heartbeat.View(), protocol.Rules(true), protocol.parser.Unread(readBuf));
      new;
      NewStreamIsSafe(config, heartbeat.View(), protocol.Rules(true), protocol.parser.Unread(readBuf));
      ReverseNothing<Message>();
    }

    // -------------------------------------------------------------------
    // Sending side
    // -------------------------------------------------------------------

    /** Flush the frame just encoded. */
    method Transmit(ghost popped: seq<Message>, ghost e: Encoded, w: WriteOutcome)
      requires Ties(popped, FrameOctets(e)) && model.out.pending == [] && !model.out.broken && state != Closed
      modifies this`state, this`model, heartbeat, writeBuf, transport
      ensures Ties(popped, []) && model == SendControl(old(model), e, w)
    {
      hide FrameOctets, Live, FlushOut, OctetsTaken;
      FlushTakes(Encode(model.out, e), w);
      assert [] + FrameOctets(e) == FrameOctets(e);
      transport.WriteAll(writeBuf, w);
      if w.GivenUp? {
        state := Closed;
        heartbeat.Halt();
      }
      model := SendControl(model, e, w);
    }

    /** Start the closing budget, once, and stop the heartbeat. */
    method BeginClosing(now: nat)
      modifies this`closingDeadline, heartbeat
      ensures heartbeat.View() == Stop(old(heartbeat.View()))
      ensures closingDeadline == if old(closingDeadline).Some? then old(closingDeadline) else Some(now + config.closeTimeout)
    {
      heartbeat.Halt();
      if closingDeadline.None? {
        closingDeadline := Some(now + config.closeTimeout);
      }
    }

    /** Nothing that follows a Close is read. */
    method EndReceiving(now: nat)
      modifies this`closingDeadline, this`pendingMessages, this`pendingParseError, heartbeat, readBuf
      ensures heartbeat.View() == Stop(old(heartbeat.View()))
      ensures closingDeadline == if old(closingDeadline).Some? then old(closingDeadline) else Some(now + config.closeTimeout)
      ensures pendingMessages == [] && pendingParseError == None && readBuf.data == []
    {
      BeginClosing(now);
      pendingMessages, pendingParseError, readBuf.data := [], None, [];
    }

    /** Flush and shut the send half; `o` is the sending side as encoded. */
    method FinishClose(ghost o: Outbox, i: Input)
      requires writeBuf.data == o.pending && transport.wire == o.wire
      modifies this`writeShutdown, writeBuf, transport
      ensures SameOut(UnifiedStreams.FinishClose(o, i.write, i.shutdownOk))
    {
      hide FlushOut, OctetsTaken;
      FlushTakes(o, i.write);
      transport.WriteAll(writeBuf, i.write);
      writeShutdown := i.write.Flushed? && i.shutdownOk;
    }

    ghost predicate SameOut(o: Outbox)
      reads this`writeShutdown, writeBuf, transport
    {
      && o.shut == writeShutdown && o.wire == transport.wire
      && (!o.broken ==> writeBuf.data == o.pending)
    }

    // -------------------------------------------------------------------
    // Receiving
    // -------------------------------------------------------------------

    /** Answer the Ping just taken off the stack. */
    method SendPong(msg: Message, i: Input, freshKey: MaskKey, big: bool)
      requires Ties([msg], []) && Inv(model) && state != Closed && msg.PingMessage? && i.key == protocol.Key(freshKey)
      modifies this`state, this`model, heartbeat, writeBuf, transport
      ensures Ties([msg], []) && model == SendControl(old(model), Encoded(PongMessage(msg.data), i.key), i.write)
    {
      hide Inv, Live, EncodeFrame, SendControl;
      LiveOut(model);
      protocol.EncodePong(msg.data, writeBuf, freshKey, big);
      Transmit([msg], Encoded(PongMessage(msg.data), i.key), i.write);
    }

    /** Handle a message taken off the stack. */
    method HandleIncomingMessage(msg: Message, i: Input, freshKey: MaskKey, big: bool) returns (r: Outcome)
      requires Ties([msg], []) && Inv(model) && state != Closed && i.key == protocol.Key(freshKey)
      modifies this, protocol`state, heartbeat, readBuf, writeBuf, transport
      ensures Ties([], []) && model == HandleMessage(old(model), i) && model.results == old(model).results + [r]
    {
      hide Inv, Live, Sending, SendControl, ControlFailure, UnifiedStreams.HandleClose, Deliver;
      SendingFields(model.deadline, model.lateRead, model.out, []);
      Delivered(msg);
      if msg.CloseMessage? {
        r := HandlePeerClose(msg, i, freshKey, big);
        return;
      }
      if msg.PingMessage? && !writeShutdown && !batchHasClose && !(closingDeadline.Some? && i.now >= closingDeadline.value) {
        var failure := ControlFailure(heartbeat.View(), i.write);
        SendControlEffect(model, Encoded(PongMessage(msg.data), i.key), i.write);
        SendPong(msg, i, freshKey, big);
        if i.write.GivenUp? {
          model := Answer(model, Failed(failure));
          return Failed(failure);
        }
      }
      r := GiveMessage(msg);
    }

    /** Return the message just taken off the stack to the caller. */
    method GiveMessage(msg: Message) returns (r: Outcome)
      requires Ties([msg], []) && state != Closed
      modifies this`model
      ensures Ties([], []) && model == Answer(old(model).(inbox := Deliver(old(model).inbox)), r) && r == Got(msg)
    {
      hide Live, Sending, Deliver;
      Delivered(msg);
      model := Answer(model.(inbox := Deliver(model.inbox)), Got(msg));
      r := Got(msg);
    }

    lemma Delivered(msg: Message)
      requires Live(model.inbox, model.batchHasClose, [msg])
      ensures protocol.pendingClose == model.inbox.closing.pending
      ensures model.inbox.batch != [] && model.inbox.batch[0] == msg && (batchHasClose == model.batchHasClose)
      ensures Live(Deliver(model.inbox), model.batchHasClose, [])
    {
    }

    /** An accepted Close: answer it unless this side has closed, and finish. */
    method HandlePeerClose(msg: Message, i: Input, freshKey: MaskKey, big: bool) returns (r: Outcome)
      requires Ties([msg], []) && Inv(model) && state != Closed && msg.CloseMessage? && i.key == protocol.Key(freshKey)
      modifies this, protocol`state, heartbeat, readBuf, writeBuf, transport
      ensures Ties([], []) && model == HandleClose(old(model), i)
      ensures r == Got(msg) && model.results == old(model).results + [r]
    {
      hide Inv, Live, HandleClose, CloseOut, Stop, FrameOctets, Deliver;
      LiveOut(model);
      Delivered(msg);
      ClosedFields(model, i);
      ghost var next := HandleClose(model, i);
      EndReceiving(i.now);
      FinishAfterClose(i, freshKey, big);
      state := Closed;
      model := next;
      r := Got(msg);
    }

    /** Encode the answer to an accepted Close if there is to be one, flush and shut. */
    method FinishAfterClose(i: Input, freshKey: MaskKey, big: bool)
      requires readBuf != writeBuf && i.key == protocol.Key(freshKey)
      requires model.state == state && model.out.shut == writeShutdown && transport.wire == model.out.wire
      requires writeBuf.data == model.out.pending == [] && (writeShutdown ==> state == CloseSent) && state != Closed
      requires protocol.pendingClose == model.inbox.closing.pending
      modifies protocol`state, this`writeShutdown, writeBuf, transport
      ensures SameOut(CloseOut(model, i))
    {
      hide EncodeFrame, UnifiedStreams.FinishClose;
      ghost var o := model.out;
      if state == Open || state == ReadErrorPending {
        protocol.EncodeCloseResponse(writeBuf, freshKey, big);
        o := Encode(o, Encoded(CloseMessage(protocol.pendingClose), i.key));
      }
      if !writeShutdown {
        FinishClose(o, i);
      }
    }

    /** Best-effort Close to a peer that is given up. */
    method GiveUp(notice: CloseReason, now: nat, i: Input, freshKey: MaskKey, big: bool, failure: Failure) returns (r: Failure)
      requires Ties([], []) && Inv(model) && model.inbox.error.None? && !heartbeat.stopped && i.key == protocol.Key(freshKey)
      modifies this, protocol`state, heartbeat, writeBuf, transport
      ensures Ties([], []) && model == Notify(old(model), notice, now, i, failure) && r == failure
    {
      hide Inv, Live, Notify, EncodeFrame;
      LiveMeansOpen(model);
      NotifyFields(model, notice, now, i, failure);
      BeginClosing(now);
      state := CloseSent;
      protocol.EncodeMessageInto(CloseMessage(Some(notice)), writeBuf, freshKey, big);
      FinishClose(Encode(model.out, Encoded(CloseMessage(Some(notice)), i.key)), i);
      state := Closed;
      model := Notify(model, notice, now, i, failure);
      r := failure;
    }

    /** Send the automatic Ping that is due. */
    method SendPing(payload: seq<Octet>, i: Input, freshKey: MaskKey, big: bool) returns (sent: bool)
      requires Ties([], []) && Inv(model) && model.inbox.error.None? && !heartbeat.stopped && i.key == protocol.Key(freshKey)
      modifies this`state, this`model, protocol`state, heartbeat, writeBuf, transport
      ensures Ties([], []) && model == SendControl(old(model), Encoded(PingMessage(payload), i.key), i.write)
      ensures sent == i.write.Flushed?
    {
      hide Inv, Live, Sending, FrameOctets, SendControl;
      LiveMeansOpen(model);
      NoteSentInOrder(model.inbox, PingMessage(payload));
      Buffer(PingMessage(payload), freshKey, big);
      Transmit([], Encoded(PingMessage(payload), i.key), i.write);
      sent := i.write.Flushed?;
    }

    /** Send the automatic Ping if it is due, and start waiting for the answer. */
    method IssueDuePing(ghost d: Deadline, now: nat, i: Input, freshKey: MaskKey, big: bool) returns (r: Option<Failure>)
      requires Ties([], []) && Inv(model) && model.inbox.error.None? && !heartbeat.stopped && i.key == protocol.Key(freshKey)
      requires d.PingDue? && d.at <= now
      modifies this, protocol`state, heartbeat, writeBuf, transport
      ensures Ties([], []) && model == UnifiedStreams.HandleDeadline(old(model), d, now, i)
      ensures model.results == old(model).results + if r.Some? then [Failed(r.value)] else []
      ensures r.Some? <==> state == Closed
    {
      hide Inv, Live, Sending, Notify, SendControl, ControlFailure, PingPayload, PingIsDue, IssuePing, PingFlushed;
      LiveMeansOpen(model);
      var failure := ControlFailure(heartbeat.View(), i.write);
      IssueKeepsStopped(model.heartbeat, now, i.nonce);
      HeartbeatChangeIsSafe(model, IssuePing(model.heartbeat, now, i.nonce));
      var payload := heartbeat.Due(now, i.nonce);
      if payload.None? {
        NothingIssued(model.heartbeat, now, i.nonce);
        return None;
      }
      model := model.(heartbeat := heartbeat.View());
      SendControlEffect(model, Encoded(PingMessage(payload.value), i.key), i.write);
      var sent := SendPing(payload.value, i, freshKey, big);
      if !sent {
        model := Answer(model, Failed(failure));
        return Some(failure);
      }
      heartbeat.Flushed(i.after);
      model := model.(heartbeat := heartbeat.View());
      r := None;
    }

    /** Act on a deadline that has been reached. */
    method HandleDeadline(d: Deadline, now: nat, i: Input, freshKey: MaskKey, big: bool) returns (r: Option<Failure>)
      requires Ties([], []) && Inv(model) && model.inbox.error.None? && !heartbeat.stopped && i.key == protocol.Key(freshKey)
      modifies this, protocol`state, heartbeat, writeBuf, transport
      ensures Ties([], []) && model == UnifiedStreams.HandleDeadline(old(model), d, now, i)
      ensures model.results == old(model).results + if r.Some? then [Failed(r.value)] else []
      ensures r.Some? <==> state == Closed
    {
      hide Inv, Live, Sending, Notify, SendControl, ControlFailure, PingPayload, PingIsDue, IssuePing, PingFlushed;
      LiveMeansOpen(model);
      if d.at > now {
        return None;
      }
      match d {
        case PingDue(_) =>
          r := IssueDuePing(d, now, i, freshKey, big);
        case PongDue(_) =>
          NotifyFields(model, config.pongNotice, now, i, PongTimeout);
          var f := GiveUp(config.pongNotice, now, i, freshKey, big, PongTimeout);
          r := Some(f);
        case IdleDue(_) =>
          NotifyFields(model, config.idleNotice, now, i, IdleTimeout);
          var f := GiveUp(config.idleNotice, now, i, freshKey, big, IdleTimeout);
          r := Some(f);
      }
    }

    lemma EmptyBatch(b: Inbox, hasClose: bool)
      requires Live(b, hasClose, []) && b.batch == [] && b.error.None? && |readBuf.data| == 0
      ensures Live(Process(b), HasCloseMessage(Process(b).batch), [])
      ensures !Receive(b.settings, b.assembly, b.buffer).fragment
    {
      hide Receive, P.Protocol.Inv, PM.Raw, HasCloseMessage, P.AfterMessages;
      NoMessages(protocol.CloseView());
      protocol.EmptyReceives(readBuf, protocol.Rules(true));
    }

    /** Parse what is buffered into a new batch. */
    method ParseBatch(ghost b: Inbox, ghost hasClose: bool) returns (fragment: bool)
      requires Live(b, hasClose, []) && b.batch == [] && b.error.None?
      modifies this`pendingMessages, this`pendingParseError, this`batchHasClose
      modifies protocol, protocol.parser, protocol.parser.headerBuf, protocol.utf8, protocol.utf8.carry, readBuf
      ensures Live(Process(b), HasCloseMessage(Process(b).batch), [])
      ensures fragment == Receive(b.settings, b.assembly, b.buffer).fragment
    {
      hide Receive, P.Protocol.Inv, PM.Raw, HasCloseMessage, P.AfterMessages, P.Protocol.CloseView, P.Protocol.Collected;
      if |readBuf.data| == 0 {
        EmptyBatch(b, hasClose);
        return false;
      }
      var messages, error;
      messages, fragment, error := protocol.ProcessInto(readBuf);
      batchHasClose := HasCloseMessage(messages);
      pendingMessages, pendingParseError := Reverse(messages), error;
      ReverseTwice(messages);
    }

    /** Parse what is buffered; a data fragment counts as activity. */
    method ParseAndNote(ghost b: Inbox, ghost hasClose: bool, now: nat)
      requires Live(b, hasClose, []) && b.batch == [] && b.error.None?
      modifies this`pendingMessages, this`pendingParseError, this`batchHasClose, heartbeat
      modifies protocol, protocol.parser, protocol.parser.headerBuf, protocol.utf8, protocol.utf8.carry, readBuf
      ensures Live(Process(b), HasCloseMessage(Process(b).batch), [])
      ensures heartbeat.View() == OnFragment(old(heartbeat.View()), now, Receive(b.settings, b.assembly, b.buffer).fragment)
    {
      hide Receive, Live, HasCloseMessage, Process, OnFragment;
      var fragment := ParseBatch(b, hasClose);
      NoteFragment(fragment, now);
    }

    /** Refresh the batch; an error waits behind the messages accepted before it. */
    method ProcessReadBuf(i: Input)
      requires Ties([], []) && state != Closed && model.inbox.batch == [] && model.inbox.error.None?
      modifies this, protocol, protocol.parser, protocol.parser.headerBuf, protocol.utf8, protocol.utf8.carry, heartbeat, readBuf
      ensures Ties([], []) && model == ProcessBuffer(old(model), i)
    {
      hide Receive, Live, Sending, HasCloseMessage, Process, OnFragment, ProcessBuffer;
      ProcessedFields(model, i);
      ghost var next := ProcessBuffer(model, i);
      ParseAndNote(model.inbox, model.batchHasClose, i.now);
      ErrorIsPending(Process(model.inbox), HasCloseMessage(Process(model.inbox).batch));
      if pendingParseError.Some? && state == Open {
        state := ReadErrorPending;
      }
      model := next;
    }

    method NoteFragment(fragment: bool, now: nat)
      modifies heartbeat
      ensures heartbeat.View() == OnFragment(old(heartbeat.View()), now, fragment)
    {
      if fragment && heartbeat.Tracks() {
        var _ := heartbeat.Receive(now, None);
      }
    }

    lemma ErrorIsPending(b: Inbox, hasClose: bool)
      requires Live(b, hasClose, [])
      ensures pendingParseError == b.error && (pendingMessages == [] <==> b.batch == [])
    {
      if pendingMessages != [] {
        ReverseLast(pendingMessages);
      }
    }

    /** Octets arrive. */
    method Append(ghost b: Inbox, ghost hasClose: bool, data: seq<Octet>)
      requires Live(b, hasClose, []) && b.error.None?
      modifies readBuf
      ensures Live(Inboxes.Arrive(b, data), hasClose, [])
    {
      hide P.Protocol.Inv, PM.Raw;
      protocol.Arrive(readBuf, data);
    }

    /** Take the result of a read. */
    method TakeRead(read: Option<UnifiedStreams.ReadResult>) returns (r: TurnResult)
      requires Ties([], []) && state != Closed && model.inbox.error.None?
      modifies this`state, this`model, heartbeat, readBuf
      ensures Ties([], []) && model == OnRead(old(model), read) && r.Fits(old(model), model)
      ensures r.Again? <==> state != Closed
    {
      hide Live, Sending, Arrive;
      if read.None? {
        return Again;
      }
      match read.value {
        case Chunk(data) =>
          Append(model.inbox, model.batchHasClose, data);
          r := Again;
        case EndOfStream =>
          heartbeat.Halt();
          state := Closed;
          r := Ended;
        case ReadError =>
          heartbeat.Halt();
          state := Closed;
          r := Returned(Failed(TransportError));
      }
      model := OnRead(model, read);
    }

    /** The closing budget is spent and the late read was made: give up. */
    method Expire(i: Input) returns (r: TurnResult)
      requires Ties([], []) && Inv(model) && state != Closed && model.deadline.Some?
      requires i.now >= model.deadline.value && model.lateRead
      modifies this`state, this`writeShutdown, this`model
      ensures Ties([], []) && model == ReadMore(old(model), i) && r.Fits(old(model), model)
      ensures r == Returned(Failed(ConnectionClosed)) && state == Closed
    {
      hide Inv, Live;
      LiveOut(model);
      state := Closed;
      if !writeShutdown && writeBuf.data == [] {
        writeShutdown := i.shutdownOk;
      }
      model := ReadMore(model, i);
      r := Returned(Failed(ConnectionClosed));
    }

    method NoteRead(late: bool)
      requires Ties([], []) && state != Closed
      modifies this`postExpiryRead, this`model
      ensures Ties([], []) && model == MarkRead(old(model), late)
    {
      hide Live;
      if late {
        postExpiryRead := true;
      }
      model := MarkRead(model, late);
    }

    /** Read under the closing budget; a read that starts after it is noted. */
    method ReadUnderBudget(i: Input) returns (r: TurnResult)
      requires Ties([], []) && state != Closed && model.inbox.error.None? && model.deadline.Some?
      requires !(i.now >= model.deadline.value && model.lateRead)
      modifies this`state, this`postExpiryRead, this`model, heartbeat, readBuf
      ensures Ties([], []) && model == ReadMore(old(model), i) && r.Fits(old(model), model)
      ensures r.Again? <==> state != Closed
    {
      hide Live, Sending, OnRead, MarkRead, NextDeadline, UnifiedStreams.HandleDeadline, RecoveryLimit;
      MarkedFields(model, i.start >= model.deadline.value);
      SendingFields(model.deadline, model.lateRead, model.out, []);
      NoteRead(i.start >= closingDeadline.value);
      if i.read.None? {
        // A read that was given up must not be resumed.
        state := Closed;
        model := Answer(model.(state := Closed), Failed(ConnectionClosed));
        return Returned(Failed(ConnectionClosed));
      }
      r := TakeRead(i.read);
    }

    lemma SendingFields(deadline: Option<nat>, lateRead: bool, o: Outbox, extra: seq<Octet>)
      requires Sending(deadline, lateRead, o, extra)
      ensures closingDeadline == deadline && postExpiryRead == lateRead && writeShutdown == o.shut
    {
    }

    /** Read until the next heartbeat deadline, which comes first. */
    method ReadUntilDeadline(d: Deadline, i: Input, freshKey: MaskKey, big: bool) returns (r: TurnResult)
      requires Ties([], []) && Inv(model) && state != Closed && model.inbox.error.None? && !heartbeat.stopped
      requires NextDeadline(model.heartbeat) == Some(d) && i.expired && i.key == protocol.Key(freshKey)
      modifies this, protocol`state, heartbeat, readBuf, writeBuf, transport
      ensures Ties([], []) && model == ReadMore(old(model), i) && r.Fits(old(model), model)
      ensures r.Again? <==> state != Closed
    {
      hide Inv, Live, Sending, OnRead, UnifiedStreams.HandleDeadline, NextDeadline, RecoveryLimit;
      LiveMeansOpen(model);
      var limit := RecoveryLimit(heartbeat.View(), d);
      var hard := d.PingDue? && i.recoveryExpired && limit.Some?;
      var reached := if hard then limit.value else d;
      HandleDeadlineIsSafe(model, reached, i.after, i);
      var failure := HandleDeadline(reached, i.after, i, freshKey, big);
      if failure.Some? {
        OnReadClosed(model, i.read);
        return Returned(Failed(failure.value));
      }
      if hard || !d.PingDue? {
        return Again;
      }
      r := TakeRead(i.read);
    }

    /** Read more: under the closing budget, under the heartbeat, or without a bound. */
    method ReadSome(i: Input, freshKey: MaskKey, big: bool) returns (r: TurnResult)
      requires Ties([], []) && Inv(model) && state != Closed && model.inbox.error.None? && i.key == protocol.Key(freshKey)
      modifies this, protocol`state, heartbeat, readBuf, writeBuf, transport
      ensures Ties([], []) && model == ReadMore(old(model), i) && r.Fits(old(model), model)
    {
      hide Inv, Live, Sending, OnRead, MarkRead, UnifiedStreams.HandleDeadline, NextDeadline, RecoveryLimit;
      SendingFields(model.deadline, model.lateRead, model.out, []);
      var next := NextDeadline(heartbeat.View());
      if closingDeadline.Some? && i.now >= closingDeadline.value && postExpiryRead {
        r := Expire(i);
      } else if closingDeadline.Some? {
        r := ReadUnderBudget(i);
      } else if next.Some? && i.expired {
        LiveWhileTimed(model.heartbeat);
        r := ReadUntilDeadline(next.value, i, freshKey, big);
      } else {
        r := TakeRead(i.read);
      }
    }

    method Pop(ghost b: Inbox, ghost hasClose: bool) returns (msg: Message)
      requires Live(b, hasClose, []) && pendingMessages != []
      modifies this`pendingMessages
      ensures Live(b, hasClose, [msg]) && b.batch != [] && b.batch[0] == msg
    {
      hide P.Protocol.Inv, PM.Raw;
      var n := |pendingMessages| - 1;
      ReverseLast(pendingMessages);
      msg := pendingMessages[n];
      pendingMessages := pendingMessages[..n];
    }

    method NoteMessage(msg: Message, now: nat)
      modifies heartbeat
      ensures heartbeat.View() == OnInboundMessage(old(heartbeat.View()), now, msg)
    {
      if heartbeat.Tracks() {
        var _ := heartbeat.Receive(now, if msg.PongMessage? then Some(msg.data) else None);
      }
    }

    /** Take the next message off the stack; it counts as activity. */
    method TakeMessage(i: Input, freshKey: MaskKey, big: bool) returns (r: Outcome)
      requires Ties([], []) && Inv(model) && state != Closed && pendingMessages != [] && i.key == protocol.Key(freshKey)
      requires model.inbox.batch != []
      modifies this, protocol`state, heartbeat, readBuf, writeBuf, transport
      ensures Ties([], []) && model.results == old(model).results + [r]
      ensures var s := old(model);
              model == HandleMessage(s.(heartbeat := OnInboundMessage(s.heartbeat, i.now, s.inbox.batch[0])), i)
    {
      hide Inv, Live, Sending, HandleMessage, OnInboundMessage;
      var msg := Pop(model.inbox, model.batchHasClose);
      NoticeKeepsStopped(model.heartbeat, i.now, msg);
      HeartbeatChangeIsSafe(model, OnInboundMessage(model.heartbeat, i.now, msg));
      NoteMessage(msg, i.now);
      model := model.(heartbeat := heartbeat.View());
      r := HandleIncomingMessage(msg, i, freshKey, big);
    }

    /** Report the parse error that was held back. */
    method ReportParseError() returns (r: Outcome)
      requires Ties([], []) && state != Closed && model.inbox.error.Some?
      modifies this`state, this`model, this`pendingParseError, heartbeat
      ensures Ties([], []) && model == Answer(Break(old(model)), r) && r == Failed(ParseFailure(old(model).inbox.error.value))
    {
      hide Live, Sending;
      ErrorIsPending(model.inbox, model.batchHasClose);
      var error := pendingParseError.value;
      pendingParseError := None;
      heartbeat.Halt();
      state := Closed;
      r := Failed(ParseFailure(error));
      model := Answer(Break(model), r);
    }

    /** One turn of `next`. */
    method Turn(i: Input, freshKey: MaskKey, big: bool) returns (r: TurnResult)
      requires Valid() && InTime(model, i) && i.key == protocol.Key(freshKey)
      modifies this, protocol, protocol.parser, protocol.parser.headerBuf, protocol.utf8, protocol.utf8.carry, heartbeat, readBuf, writeBuf, transport
      ensures Valid() && model == Step(old(model), UnifiedStreams.Event.Next(i)) && r.Fits(old(model), model)
    {
      hide Inv, Live, Sending, HandleMessage, UnifiedStreams.HandleDeadline, ProcessBuffer, ReadMore, NextDeadline, OnInboundMessage, Ready;
      ClockIsSafe(model, i);
      model := model.(clock := i.after);
      NextTurnIsSafe(model, i);
      r := TakeTurn(i, freshKey, big);
    }

    method TakeTurn(i: Input, freshKey: MaskKey, big: bool) returns (r: TurnResult)
      requires Ties([], []) && Inv(model) && i.key == protocol.Key(freshKey)
      modifies this, protocol, protocol.parser, protocol.parser.headerBuf, protocol.utf8, protocol.utf8.carry, heartbeat, readBuf, writeBuf, transport
      ensures Ties([], []) && model == NextTurn(old(model), i) && r.Fits(old(model), model)
    {
      hide Inv, Live, Sending, HandleMessage, UnifiedStreams.HandleDeadline, ProcessBuffer, ReadMore, NextDeadline, OnInboundMessage;
      if state == Closed {
        return Ended;
      }
      ErrorIsPending(model.inbox, model.batchHasClose);
      if pendingMessages != [] {
        var outcome := TakeMessage(i, freshKey, big);
        return Returned(outcome);
      }
      if pendingParseError.Some? {
        var outcome := ReportParseError();
        return Returned(outcome);
      }
      var next := NextDeadline(heartbeat.View());
      if next.Some? && next.value.at <= i.now {
        LiveWhileTimed(model.heartbeat);
        var failure := HandleDeadline(next.value, i.now, i, freshKey, big);
        return if failure.Some? then Returned(Failed(failure.value)) else Again;
      }
      r := ParseOrRead(i, freshKey, big);
    }

    method ParseOrRead(i: Input, freshKey: MaskKey, big: bool) returns (r: TurnResult)
      requires Ties([], []) && Inv(model) && i.key == protocol.Key(freshKey)
      requires state != Closed && model.inbox.batch == [] && model.inbox.error.None?
      modifies this, protocol, protocol.parser, protocol.parser.headerBuf, protocol.utf8, protocol.utf8.carry, heartbeat, readBuf, writeBuf, transport
      ensures Ties([], []) && r.Fits(old(model), model)
      ensures var t := ProcessBuffer(old(model), i);
              model == if t.inbox.batch != [] || t.inbox.error.Some? then t else ReadMore(t, i)
    {
      hide Inv, Live, Sending, ProcessBuffer, ReadMore;
      ProcessBufferIsSafe(model, i);
      ProcessedResults(model, i);
      ProcessReadBuf(i);
      ErrorIsPending(model.inbox, model.batchHasClose);
      if pendingMessages != [] || pendingParseError.Some? {
        return Again;
      }
      r := ReadSome(i, freshKey, big);
    }

    // -------------------------------------------------------------------
    // The calls
    // -------------------------------------------------------------------

    /** Receive: turn after turn, until one returns or ends the stream, or the inputs are used up. */
    method Next(inputs: seq<Input>, keys: seq<MaskKey>, big: bool) returns (r: TurnResult, used: nat)
      requires Valid() && |keys| == |inputs| && Ascending(model.clock, inputs)
      requires forall k :: 0 <= k < |inputs| ==> inputs[k].key == protocol.Key(keys[k])
      modifies this, protocol, protocol.parser, protocol.parser.headerBuf, protocol.utf8, protocol.utf8.carry, heartbeat, readBuf, writeBuf, transport
      ensures Valid() && used <= |inputs| && (r.Again? ==> used == |inputs|)
      ensures model == Run(old(model), Calls(inputs[..used])) && r.Fits(old(model), model)
    {
      hide Inv, Live, Sending, Step, Run;
      RunNothing(model, inputs);
      assert inputs != [] ==> Follows(model.clock, inputs, 0);
      r, used := Again, 0;
      while used < |inputs| && r.Again?
        invariant Valid() && used <= |inputs|
        invariant used < |inputs| && r.Again? ==> InTime(model, inputs[used])
        invariant model == Run(old(model), Calls(inputs[..used])) && r.Fits(old(model), model)
      {
        ClockFollows(model, inputs[used]);
        RunOne(old(model), inputs, used);
        assert used + 1 < |inputs| ==> Follows(old(model.clock), inputs, used + 1);
        r := Turn(inputs[used], keys[used], big);
        used := used + 1;
      }
    }

    /** Encode a message behind what is buffered. */
    method EncodeMessage(ghost b: Inbox, ghost hasClose: bool, msg: Message, freshKey: MaskKey, big: bool)
      requires Live(b, hasClose, []) && readBuf != writeBuf
      modifies protocol`state, writeBuf
      ensures Live(NoteSent(b, msg), hasClose, [])
      ensures writeBuf.data == old(writeBuf.data) + FrameOctets(Encoded(msg, protocol.Key(freshKey)))
    {
      hide EncodeFrame, PM.Raw, P.Protocol.Inv;
      protocol.EncodeMessageInto(msg, writeBuf, freshKey, big);
    }

    /** Send a message on an open stream; a Close starts the closing budget. */
    method Send(msg: Message, i: Input, freshKey: MaskKey, big: bool) returns (ok: bool)
      requires Valid() && InTime(model, i) && i.key == protocol.Key(freshKey)
      modifies this, protocol, protocol.parser, protocol.parser.headerBuf, protocol.utf8, protocol.utf8.carry, heartbeat, readBuf, writeBuf, transport
      ensures Valid() && model == Step(old(model), SendEvent(msg, true, i))
      ensures ok <==> old(state) == Open && i.write.Flushed?
    {
      hide Inv, Live, Sending, UnifiedStreams.Send, Ready;
      ClockIsSafe(model, i);
      model := model.(clock := i.after);
      SendIsSafe(model, msg, true, i);
      ok := SendMessage(msg, i, freshKey, big);
    }

    method SendMessage(msg: Message, i: Input, freshKey: MaskKey, big: bool) returns (ok: bool)
      requires Ties([], []) && Inv(model) && i.key == protocol.Key(freshKey)
      modifies this`state, this`closingDeadline, this`model, protocol`state, heartbeat, writeBuf, transport
      ensures Ties([], []) && model == UnifiedStreams.Send(old(model), msg, true, i)
      ensures ok <==> old(state) == Open && i.write.Flushed?
      ensures ok ==> state == if msg.CloseMessage? then CloseSent else Open
    {
      hide Inv, Live, Sending, FrameOctets, SendControl, UnifiedStreams.BeginClosing;
      if state != Open {
        return false;
      }
      LiveOut(model);
      ClosingFields(model.(state := CloseSent), i.now);
      if msg.CloseMessage? {
        StartClosing(i.now);
      }
      Buffer(msg, freshKey, big);
      SendControlEffect(model, Encoded(msg, i.key), i.write);
      Transmit([], Encoded(msg, i.key), i.write);
      ok := i.write.Flushed?;
    }

    method StartClosing(now: nat)
      requires Ties([], []) && state == Open
      modifies this`state, this`closingDeadline, this`model, heartbeat
      ensures Ties([], []) && model == UnifiedStreams.BeginClosing(old(model).(state := CloseSent), now)
    {
      hide Live;
      state := CloseSent;
      BeginClosing(now);
      model := UnifiedStreams.BeginClosing(model.(state := CloseSent), now);
    }

    /** Encode a message into the empty write buffer. */
    method Buffer(msg: Message, freshKey: MaskKey, big: bool)
      requires Ties([], []) && state != Closed && model.out.pending == [] && !model.out.broken
      modifies this`model, protocol`state, writeBuf
      ensures Ties([], FrameOctets(Encoded(msg, protocol.Key(freshKey)))) && model == old(model).(inbox := NoteSent(old(model).inbox, msg))
    {
      hide Live, FrameOctets, NoteSent;
      EncodeMessage(model.inbox, model.batchHasClose, msg, freshKey, big);
      model := model.(inbox := NoteSent(model.inbox, msg));
    }

    /** Send a Close; where configured, end the send half at once. */
    method Close(reason: CloseReason, i: Input, freshKey: MaskKey, big: bool) returns (ok: bool)
      requires Valid() && InTime(model, i) && i.key == protocol.Key(freshKey)
      modifies this, protocol, protocol.parser, protocol.parser.headerBuf, protocol.utf8, protocol.utf8.carry, heartbeat, readBuf, writeBuf, transport
      ensures Valid() && model == Step(old(model), CloseEvent(reason, true, i))
      ensures ok <==> old(state) != Open || (i.write.Flushed? && (config.immediateShutdown ==> i.shutdownOk))
    {
      hide Inv, Live, Sending, CloseCall, Ready;
      ClockIsSafe(model, i);
      model := model.(clock := i.after);
      CloseCallIsSafe(model, reason, true, i);
      ok := CloseOpen(reason, i, freshKey, big);
    }

    method CloseOpen(reason: CloseReason, i: Input, freshKey: MaskKey, big: bool) returns (ok: bool)
      requires Ties([], []) && Inv(model) && i.key == protocol.Key(freshKey)
      modifies this`state, this`closingDeadline, this`writeShutdown, this`model, protocol`state, heartbeat, writeBuf, transport
      ensures Ties([], []) && model == CloseCall(old(model), reason, true, i)
      ensures ok <==> old(state) != Open || (i.write.Flushed? && (config.immediateShutdown ==> i.shutdownOk))
    {
      hide Inv, Live, UnifiedStreams.Send;
      if state != Open {
        return true;
      }
      SendEnds(model, CloseMessage(Some(reason)), i);
      ok := SendMessage(CloseMessage(Some(reason)), i, freshKey, big);
      if ok && config.immediateShutdown {
        if i.shutdownOk {
          writeShutdown := true;
          model := model.(out := model.out.(shut := true));
        } else {
          state := Closed;
          model := model.(state := Closed);
          ok := false;
        }
      }
    }

    /** Flush what is buffered; a failure closes the stream. */
    method Flush(i: Input) returns (ok: bool)
      requires Valid() && InTime(model, i)
      modifies this`state, this`model, heartbeat, writeBuf, transport
      ensures Valid() && model == Step(old(model), FlushEvent(i))
      ensures ok <==> old(state) != Closed && i.write.Flushed?
    {
      hide Inv, Live, Sending, Ready, UnifiedStreams.Flush;
      ClockIsSafe(model, i);
      model := model.(clock := i.after);
      FlushIsSafe(model, i);
      ok := FlushBuffer(i);
    }

    method FlushBuffer(i: Input) returns (ok: bool)
      requires Ties([], []) && Inv(model)
      modifies this`state, this`model, heartbeat, writeBuf, transport
      ensures Ties([], []) && model == UnifiedStreams.Flush(old(model), i)
      ensures ok <==> old(state) != Closed && i.write.Flushed?
    {
      hide Inv, Live, FlushOut, OctetsTaken;
      if state == Closed {
        return false;
      }
      LiveOut(model);
      FlushTakes(model.out, i.write);
      transport.WriteAll(writeBuf, i.write);
      if i.write.GivenUp? {
        state := Closed;
        heartbeat.Halt();
      }
      model := UnifiedStreams.Flush(model, i);
      ok := i.write.Flushed?;
    }
  }

  lemma ClosingFields(s: Stream, now: nat)
    ensures var t := BeginClosing(s, now); t.state == s.state && t.out == s.out && t.inbox == s.inbox
  {
  }

  lemma SendEnds(s: Stream, m: Message, i: Input)
    requires s.state == Open && m.CloseMessage?
    ensures Send(s, m, true, i).state == if i.write.Flushed? then CloseSent else Closed
  {
    hide FlushOut, Encode, Stop;
  }

  /** A turn of `next` goes on, ends the stream, or returns. */
  datatype TurnResult = Again | Ended | Returned(outcome: Outcome) {
    predicate Fits(s: Stream, t: Stream) {
      && t.results == (if Returned? then s.results + [outcome] else s.results)
      && (Ended? ==> t.state == Closed)
    }
  }

  lemma OnReadClosed(s: Stream, r: Option<UnifiedStreams.ReadResult>)
    requires s.state == Closed
    ensures OnRead(s, r) == s
  {
  }

  lemma MarkedFields(s: Stream, late: bool)
    ensures var t := MarkRead(s, late); t.results == s.results && t.inbox == s.inbox && t.state == s.state
  {
  }

  lemma ProcessedResults(s: Stream, i: Input)
    ensures ProcessBuffer(s, i).results == s.results
  {
    hide Receive, Process, HasCloseMessage, OnFragment;
  }

  lemma ProcessedFields(s: Stream, i: Input)
    ensures var t, b := ProcessBuffer(s, i), Process(s.inbox);
            && t.config == s.config && t.deadline == s.deadline && t.lateRead == s.lateRead && t.out == s.out
            && t.inbox == b && t.batchHasClose == HasCloseMessage(b.batch)
            && t.heartbeat == OnFragment(s.heartbeat, i.now, Receive(s.inbox.settings, s.inbox.assembly, s.inbox.buffer).fragment)
            && t.state == (if b.error.Some? && s.state == Open then ReadErrorPending else s.state)
  {
    hide Receive, Process, HasCloseMessage, OnFragment;
  }

  lemma NoMessages(c: P.Closing)
    ensures P.AfterMessages(c, []) == c && !HasCloseMessage([])
  {
  }

  /** Clock readings never run backwards. */
  predicate Ascending(clock: nat, inputs: seq<Input>) {
    forall k :: 0 <= k < |inputs| ==> Follows(clock, inputs, k)
  }

  predicate Follows(clock: nat, inputs: seq<Input>, k: nat)
    requires k < |inputs|
  {
    (if k == 0 then clock else inputs[k - 1].after) <= inputs[k].now <= inputs[k].start <= inputs[k].after
  }

  function Calls(inputs: seq<Input>): seq<UnifiedStreams.Event> {
    seq(|inputs|, k requires 0 <= k < |inputs| => UnifiedStreams.Event.Next(inputs[k]))
  }

  lemma RunNothing(s: Stream, inputs: seq<Input>)
    ensures Run(s, Calls(inputs[..0])) == s
  {
  }

  lemma RunOne(s: Stream, inputs: seq<Input>, n: nat)
    requires n < |inputs|
    ensures Run(s, Calls(inputs[..n + 1])) == Step(Run(s, Calls(inputs[..n])), UnifiedStreams.Event.Next(inputs[n]))
  {
    hide Step;
    assert Calls(inputs[..n + 1])[..n] == Calls(inputs[..n]);
  }

  lemma ClockFollows(s: Stream, i: Input)
    requires InTime(s, i)
    ensures Step(s, UnifiedStreams.Event.Next(i)).clock == i.after
  {
    hide HandleMessage, HandleDeadline, ProcessBuffer, ReadMore, NextDeadline, OnInboundMessage;
    var t := s.(clock := i.after);
    if t.state != Closed {
      if t.inbox.batch != [] {
        MessageKeepsClock(t.(heartbeat := OnInboundMessage(t.heartbeat, i.now, t.inbox.batch[0])), i);
      } else {
        if NextDeadline(t.heartbeat).Some? {
          DeadlineKeepsClock(t, NextDeadline(t.heartbeat).value, i.now, i);
        }
        ProcessKeepsClock(t, i);
        ReadKeepsClock(ProcessBuffer(t, i), i);
      }
    }
  }

  lemma MessageKeepsClock(s: Stream, i: Input)
    requires s.inbox.batch != []
    ensures HandleMessage(s, i).clock == s.clock
  {
    hide FlushOut, Encode, FinishClose, Stop;
  }

  lemma DeadlineKeepsClock(s: Stream, d: Deadline, now: nat, i: Input)
    ensures HandleDeadline(s, d, now, i).clock == s.clock
  {
    hide FlushOut, Encode, FinishClose, Stop, PingIsDue, IssuePing, PingFlushed;
  }

  lemma ProcessKeepsClock(s: Stream, i: Input)
    ensures ProcessBuffer(s, i).clock == s.clock
  {
    hide Receive, Process, HasCloseMessage, OnFragment;
  }

  lemma ReadKeepsClock(s: Stream, i: Input)
    ensures ReadMore(s, i).clock == s.clock
  {
    hide HandleDeadline, NextDeadline, RecoveryLimit;
    if NextDeadline(s.heartbeat).Some? {
      var d := NextDeadline(s.heartbeat).value;
      DeadlineKeepsClock(s, d, i.after, i);
      if RecoveryLimit(s.heartbeat, d).Some? {
        DeadlineKeepsClock(s, RecoveryLimit(s.heartbeat, d).value, i.after, i);
      }
    }
  }

  lemma NothingIssued(h: Heartbeat, now: nat, nonce: nat)
    requires !PingIsDue(h, now)
    ensures IssuePing(h, now, nonce) == h
  {
  }

  lemma ClosedFields(s: Stream, i: Input)
    requires s.inbox.batch != []
    ensures var t := HandleClose(s, i);
            && t.config == s.config && t.state == Closed && t.lateRead == s.lateRead
            && t.deadline == BeginClosing(s, i.now).deadline && t.heartbeat == Stop(s.heartbeat)
            && t.out == CloseOut(s, i)
            && t.results == s.results + [Got(s.inbox.batch[0])]
  {
    hide FrameOctets, FinishClose, Encode;
  }

  lemma NotifyFields(s: Stream, notice: CloseReason, now: nat, i: Input, f: Failure)
    ensures var t := Notify(s, notice, now, i, f);
            && t.config == s.config && t.state == Closed && t.lateRead == s.lateRead
            && t.deadline == BeginClosing(s, now).deadline && t.heartbeat == Stop(s.heartbeat)
            && t.out == FinishClose(Encode(s.out, Encoded(CloseMessage(Some(notice)), i.key)), i.write, i.shutdownOk)
            && t.results == s.results + [Failed(f)]
  {
    hide FrameOctets, FinishClose, Encode;
  }

  /** On a live stream the write buffer is empty. */
  lemma LiveOut(s: Stream)
    requires Inv(s) && s.state != Closed
    ensures s.out.pending == [] && !s.out.broken && (s.out.shut ==> s.state == CloseSent)
  {
    hide InOrder, PrefixOnly, Unanswered, MessagesIn, Receive, HasClose, Accounts, OnlyPongsAfterClose;
  }

  /** A stream as made after the handshake, with what was left over from it already read. */
  method NewUnifiedStream(config: Config, role: P.Role, maxFrameSize: nat, maxMessageSize: nat, validate: bool,
                          heartbeat: HeartbeatTimer, leftover: seq<Octet>) returns (s: UnifiedStream)
    ensures fresh(s) && s.Valid() && s.heartbeat == heartbeat
    ensures s.model == NewStream(config, heartbeat.View(),
                                 Settings(ParserConfig(maxFrameSize, role == P.Server, false), maxMessageSize, validate), leftover)
  {
    hide P.Protocol.Inv, Inv, PM.Raw, Receive;
    var protocol := new P.Protocol(role, maxFrameSize, maxMessageSize, validate);
    var readBuf := new ByteBuffer([]);
    P.FreshProtocolReceives(protocol, readBuf);
    protocol.Arrive(readBuf, leftover);
    assert [] + leftover == leftover;
    var writeBuf := new ByteBuffer([]);
    var transport := new Transport();
    s := new UnifiedStream(config, protocol, heartbeat, readBuf, writeBuf, transport);
  }
}
