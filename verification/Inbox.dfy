/**
 The receiving side of a stream: octets read but not yet parsed, messages parsed but not yet
 returned, and a parse error held back behind them.
 */
module Inboxes {
  import opened Octets
  import opened Messages
  import P = ProtocolHandling

  datatype Inbox = Inbox(settings: Settings, assembly: Assembly, buffer: seq<Octet>, batch: seq<Message>, error: Option<ProtocolError>,
                         closing: P.Closing, arrived: seq<Octet>, delivered: seq<Message>)

  function NewInbox(settings: Settings, leftover: seq<Octet>): Inbox {
    Inbox(settings, Idle, leftover, [], None, P.Closing(P.Open, None), leftover, [])
  }

  function Arrive(b: Inbox, chunk: seq<Octet>): Inbox {
    b.(buffer := b.buffer + chunk, arrived := b.arrived + chunk)
  }

  /** Parse what has been read. */
  function Process(b: Inbox): Inbox {
    var r := Receive(b.settings, b.assembly, b.buffer);
    b.(assembly := r.assembly, buffer := r.rest, batch := r.messages, error := r.error,
       closing := P.AfterMessages(b.closing, r.messages))
  }

  /** Return the next message. */
  function Deliver(b: Inbox): Inbox
    requires b.batch != []
  {
    b.(batch := b.batch[1..], delivered := b.delivered + [b.batch[0]])
  }

  /** An accepted Close discards everything behind it. */
  function Discard(b: Inbox): Inbox {
    b.(batch := [], error := None, buffer := [])
  }

  /** A Close that is sent is noted in the close state. */
  function NoteSent(b: Inbox, m: Message): Inbox {
    b.(closing := P.AfterSending(b.closing, m))
  }

  /** The stream `all` is `got`, then what is still to come in `later`. */
  predicate Continues(all: Received, got: seq<Message>, later: Received) {
    && all.messages == got + later.messages
    && all.error.Some? == later.error.Some?
    && (all.error.None? ==> all.assembly == later.assembly && all.rest == later.rest)
  }

  /** What has arrived is what was returned, then the batch, then what the unread octets hold. */
  ghost predicate InOrder(b: Inbox) {
    var all := Receive(b.settings, Idle, b.arrived);
    if b.error.Some? then all.error.Some? && all.messages == b.delivered + b.batch
    else Continues(all, b.delivered + b.batch, Receive(b.settings, b.assembly, b.buffer))
  }

  /** What was returned is a prefix of what arrived. */
  ghost predicate PrefixOnly(b: Inbox) {
    b.delivered <= Receive(b.settings, Idle, b.arrived).messages
  }

  lemma InOrderIsPrefix(b: Inbox)
    requires InOrder(b)
    ensures PrefixOnly(b)
    ensures b.batch != [] ==> PrefixOnly(Deliver(b))
  {
    hide Receive;
    if b.batch != [] {
      assert [b.batch[0]] + b.batch[1..] == b.batch;
    }
  }

  lemma NewIsInOrder(settings: Settings, leftover: seq<Octet>)
    ensures InOrder(NewInbox(settings, leftover))
  {
    hide Receive;
    var r := Receive(settings, Idle, leftover);
    assert [] + [] + r.messages == r.messages;
  }

  lemma DeliverInOrder(b: Inbox)
    requires InOrder(b) && b.batch != []
    ensures InOrder(Deliver(b))
  {
    hide Receive;
    assert b.delivered + [b.batch[0]] + b.batch[1..] == b.delivered + b.batch;
  }

  lemma ArriveInOrder(b: Inbox, chunk: seq<Octet>)
    requires InOrder(b) && b.error.None?
    ensures InOrder(Arrive(b, chunk))
  {
    hide Receive;
    ReceiveExtends(b.settings, Idle, b.arrived, chunk);
    ReceiveExtends(b.settings, b.assembly, b.buffer, chunk);
  }

  lemma ProcessInOrder(b: Inbox)
    requires InOrder(b) && b.error.None? && b.batch == []
    ensures InOrder(Process(b))
  {
    hide Receive;
    var r := Receive(b.settings, b.assembly, b.buffer);
    assert b.delivered + [] == b.delivered;
    if r.error.None? {
      ReceiveSettles(b.settings, b.assembly, b.buffer);
      assert Process(b).batch + [] == Process(b).batch;
    }
  }

  lemma NoteSentInOrder(b: Inbox, m: Message)
    ensures InOrder(b) ==> InOrder(NoteSent(b, m))
    ensures PrefixOnly(b) ==> PrefixOnly(NoteSent(b, m))
    ensures !m.CloseMessage? ==> NoteSent(b, m) == b
  {
    hide Receive;
  }

  /** A parse error is only ever held back once everything before it is in the batch. */
  lemma ErrorComesLast(b: Inbox)
    requires InOrder(b) && b.error.Some? && b.batch == []
    ensures var all := Receive(b.settings, Idle, b.arrived); all.error.Some? && all.messages == b.delivered
  {
    assert b.delivered + [] == b.delivered;
  }

  // ---------------------------------------------------------------------
  // The reason of the Close to answer
  // ---------------------------------------------------------------------

  lemma {:induction false} AfterConcat(c: P.Closing, ms: seq<Message>, ns: seq<Message>)
    ensures P.AfterMessages(c, ms + ns) == P.AfterMessages(P.AfterMessages(c, ms), ns)
    decreases |ns|
  {
    if ns == [] {
      assert ms + ns == ms;
    } else {
      var all := ms + ns;
      assert all[..|all| - 1] == ms + ns[..|ns| - 1];
      AfterConcat(c, ms, ns[..|ns| - 1]);
    }
  }

  /** While this side has not closed, the protocol's close state is that of the messages parsed. */
  ghost predicate Unanswered(b: Inbox) {
    && b.closing == P.AfterMessages(P.Closing(P.Open, None), b.delivered + b.batch)
    && forall i :: 0 <= i < |b.delivered| ==> !b.delivered[i].CloseMessage?
  }

  lemma ProcessUnanswered(b: Inbox)
    requires Unanswered(b) && b.batch == []
    ensures Unanswered(Process(b))
  {
    hide Receive;
    assert b.delivered + [] == b.delivered;
    AfterConcat(P.Closing(P.Open, None), b.delivered, Process(b).batch);
  }

  lemma DeliverUnanswered(b: Inbox)
    requires Unanswered(b) && b.batch != [] && !b.batch[0].CloseMessage?
    ensures Unanswered(Deliver(b))
  {
    assert b.delivered + [b.batch[0]] + b.batch[1..] == b.delivered + b.batch;
  }

  /** The first Close to be returned is the one that is answered. */
  lemma AnswerIsForFirstClose(b: Inbox)
    requires Unanswered(b) && b.batch != [] && b.batch[0].CloseMessage?
    ensures b.closing.pending == b.batch[0].reason
  {
    var ms := b.delivered + b.batch;
    assert ms[|b.delivered|] == b.batch[0];
    assert forall j :: 0 <= j < |b.delivered| ==> ms[j] == b.delivered[j];
    P.FirstCloseIsAnswered(P.Closing(P.Open, None), ms, |b.delivered|);
  }
}
