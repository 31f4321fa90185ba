/**
 What a writer has put on the wire: messages it has encoded, one frame each, the last of which
 may be cut. The peer's receiver understands every such wire.
 */
module Outbound {
  import opened Octets
  import opened Masking
  import opened FrameFormat
  import opened Messages
  import opened MessageLaws

  /** A message encoded for sending, with the masking key drawn for its frame. */
  datatype Encoded = Encoded(message: Message, key: Option<MaskKey>)

  function FrameOctets(e: Encoded): seq<Octet> {
    EncodeFrame(MessageFrame(e.message, e.key))
  }

  function OnWire(es: seq<Encoded>): seq<Octet> {
    if es == [] then [] else OnWire(es[..|es| - 1]) + FrameOctets(es[|es| - 1])
  }

  function MessagesOf(es: seq<Encoded>): seq<Message> {
    seq(|es|, i requires 0 <= i < |es| => es[i].message)
  }

  /** `pending` is what the transport has not yet accepted; it is part of the last frame only. */
  predicate Accounts(wire: seq<Octet>, pending: seq<Octet>, es: seq<Encoded>) {
    && wire + pending == OnWire(es)
    && |pending| <= (if es == [] then 0 else |FrameOctets(es[|es| - 1])|)
  }

  lemma StartKeepsAccounts(wire: seq<Octet>, es: seq<Encoded>, e: Encoded)
    requires Accounts(wire, [], es)
    ensures Accounts(wire, FrameOctets(e), es + [e])
  {
    assert (es + [e])[..|es|] == es;
    assert wire + [] == wire;
  }

  lemma AcceptKeepsAccounts(wire: seq<Octet>, pending: seq<Octet>, es: seq<Encoded>, n: nat)
    requires Accounts(wire, pending, es) && n <= |pending|
    ensures Accounts(wire + pending[..n], pending[n..], es)
  {
    assert wire + pending[..n] + pending[n..] == wire + pending;
  }

  /** The wire is every frame but the last in full, then a prefix of the last frame. */
  lemma WholeFramesThenOneCut(wire: seq<Octet>, pending: seq<Octet>, es: seq<Encoded>)
    requires Accounts(wire, pending, es) && es != []
    ensures var whole, last := OnWire(es[..|es| - 1]), FrameOctets(es[|es| - 1]);
            |whole| <= |wire| && wire == whole + last[..|wire| - |whole|]
  {
    var whole, last := OnWire(es[..|es| - 1]), FrameOctets(es[|es| - 1]);
    assert wire == (whole + last)[..|wire|];
  }

  ghost predicate AllSendable(s: Settings, es: seq<Encoded>) {
    forall i :: 0 <= i < |es| ==> Sendable(s, es[i].message) && es[i].key.Some? == s.frames.expectMasked
  }

  lemma {:induction false} WireIsReceived(s: Settings, es: seq<Encoded>)
    requires AllSendable(s, es)
    ensures Receive(s, Idle, OnWire(es)) == Received(MessagesOf(es), None, false, Idle, [])
    decreases |es|
  {
    hide Receive, Sendable, EncodeFrame;
    if es == [] {
      EmptyStream(s);
    } else {
      var front, last := es[..|es| - 1], es[|es| - 1];
      WireIsReceived(s, front);
      ReceiveExtends(s, Idle, OnWire(front), FrameOctets(last));
      EncodedMessagesAreReceived(s, [last.message], [last.key]);
      assert EncodeMessages([last.message], [last.key]) == FrameOctets(last);
      assert [] + FrameOctets(last) == FrameOctets(last);
      assert MessagesOf(front) + [last.message] == MessagesOf(es);
    }
  }

  /** A peer that has received a cut wire has all its whole messages and no error. */
  lemma CutWireIsReceived(s: Settings, wire: seq<Octet>, pending: seq<Octet>, es: seq<Encoded>)
    requires AllSendable(s, es) && Accounts(wire, pending, es)
    ensures var r := Receive(s, Idle, wire);
            && r.error.None?
            && r.messages <= MessagesOf(es)
            && |es| <= |r.messages| + 1
            && (pending == [] ==> r.messages == MessagesOf(es))
  {
    hide Receive, Sendable, EncodeFrame, OnWire;
    WireIsReceived(s, es);
    ReceiveExtends(s, Idle, wire, pending);
    if pending == [] {
      assert wire + pending == wire;
    }
    if es != [] {
      var front := es[..|es| - 1];
      var done := FrontIsOnWire(wire, pending, es);
      WireIsReceived(s, front);
      ReceiveExtends(s, Idle, OnWire(front), done);
    }
  }

  lemma FrontIsOnWire(wire: seq<Octet>, pending: seq<Octet>, es: seq<Encoded>) returns (done: seq<Octet>)
    requires Accounts(wire, pending, es) && es != []
    ensures wire == OnWire(es[..|es| - 1]) + done
  {
    WholeFramesThenOneCut(wire, pending, es);
    var whole, last := OnWire(es[..|es| - 1]), FrameOctets(es[|es| - 1]);
    done := last[..|wire| - |whole|];
  }

  // ---------------------------------------------------------------------
  // Closes
  // ---------------------------------------------------------------------

  /** Nothing but Pongs is encoded after a Close: so at most one Close, and no data or automatic Ping behind it. */
  predicate OnlyPongsAfterClose(es: seq<Encoded>) {
    forall i, j :: 0 <= i < j < |es| && es[i].message.CloseMessage? ==> es[j].message.PongMessage?
  }

  predicate HasClose(es: seq<Encoded>) {
    exists i :: 0 <= i < |es| && es[i].message.CloseMessage?
  }

  lemma OneMore(es: seq<Encoded>, e: Encoded)
    requires OnlyPongsAfterClose(es) && (e.message.PongMessage? || !HasClose(es))
    ensures OnlyPongsAfterClose(es + [e])
    ensures HasClose(es + [e]) <==> HasClose(es) || e.message.CloseMessage?
  {
    var all := es + [e];
    forall i, j | 0 <= i < j < |all| && all[i].message.CloseMessage? ensures all[j].message.PongMessage? {
      assert all[i] == es[i];
      assert j < |es| ==> all[j] == es[j];
    }
    if HasClose(es) {
      var i :| 0 <= i < |es| && es[i].message.CloseMessage?;
      assert all[i] == es[i];
    }
    if HasClose(all) && !e.message.CloseMessage? {
      var i :| 0 <= i < |all| && all[i].message.CloseMessage?;
      assert all[i] == es[i];
    }
    assert all[|es|] == e;
  }

  function Closes(es: seq<Encoded>): nat {
    if es == [] then 0
    else Closes(es[..|es| - 1]) + (if es[|es| - 1].message.CloseMessage? then 1 else 0)
  }

  lemma {:induction false} NoCloseCounts(es: seq<Encoded>)
    ensures Closes(es) == 0 <==> !HasClose(es)
    decreases |es|
  {
    if es != [] {
      var front := es[..|es| - 1];
      NoCloseCounts(front);
      if HasClose(front) {
        var i :| 0 <= i < |front| && front[i].message.CloseMessage?;
        assert es[i] == front[i];
      }
      if HasClose(es) && !es[|es| - 1].message.CloseMessage? {
        var i :| 0 <= i < |es| && es[i].message.CloseMessage?;
        assert es[i] == front[i];
      }
    }
  }

  lemma {:induction false} AtMostOneClose(es: seq<Encoded>)
    requires OnlyPongsAfterClose(es)
    ensures Closes(es) <= 1
    decreases |es|
  {
    if es != [] {
      var front := es[..|es| - 1];
      forall i, j | 0 <= i < j < |front| && front[i].message.CloseMessage? ensures front[j].message.PongMessage? {
        assert front[i] == es[i] && front[j] == es[j];
      }
      AtMostOneClose(front);
      NoCloseCounts(front);
    }
  }
}
