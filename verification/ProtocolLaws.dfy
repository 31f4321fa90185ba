/** Roles, the close state over any traffic, and the first deadlines of a connection. */
module ProtocolLaws {
  import opened Octets
  import opened Masking
  import opened FrameFormat
  import opened Messages
  import opened MessageLaws
  import opened Heartbeats
  import opened WireFormat
  import P = ProtocolHandling

  /** What one end sends is received by an end in the other role: clients mask and servers expect it, servers do not and clients refuse it. */
  lemma OtherRoleReceives(p: P.Protocol, m: Message, freshKey: MaskKey, maxFrameSize: nat, maxMessageSize: nat, check: bool)
    requires var s := Settings(ParserConfig(maxFrameSize, p.role == P.Client, false), maxMessageSize, check); Sendable(s, m)
    ensures var s := Settings(ParserConfig(maxFrameSize, p.role == P.Client, false), maxMessageSize, check);
            Receive(s, Idle, EncodeFrame(MessageFrame(m, p.Key(freshKey)))) == Received([m], None, false, Idle, [])
    ensures p.role == P.Client ==> p.Key(freshKey) == Some(freshKey)
  {
    hide Receive, EncodeFrame, Sendable;
    var s := Settings(ParserConfig(maxFrameSize, p.role == P.Client, false), maxMessageSize, check);
    EncodedMessagesAreReceived(s, [m], [p.Key(freshKey)]);
    OneEncoded(m, p.Key(freshKey));
  }

  lemma OneEncoded(m: Message, mask: Option<MaskKey>)
    ensures EncodeMessages([m], [mask]) == EncodeFrame(MessageFrame(m, mask))
  {
    hide EncodeFrame;
    assert [m][1..] == [] && [mask][1..] == [];
    assert EncodeMessages([], []) == [];
  }

  // ---------------------------------------------------------------------
  // The close state
  // ---------------------------------------------------------------------

  datatype Traffic = Sent(m: Message) | Got(m: Message)

  function ClosingAfter(es: seq<Traffic>): P.Closing {
    if es == [] then P.Closing(P.Open, None)
    else
      var c, e := ClosingAfter(es[..|es| - 1]), es[|es| - 1];
      if e.Sent? then P.AfterSending(c, e.m) else P.AfterMessage(c, e.m)
  }

  /** The first Close among some traffic. */
  function FirstClose(es: seq<Traffic>): (r: Option<nat>)
    ensures r.Some? ==> r.value < |es| && es[r.value].m.CloseMessage? && forall j :: 0 <= j < r.value ==> !es[j].m.CloseMessage?
    ensures r.None? ==> forall j :: 0 <= j < |es| ==> !es[j].m.CloseMessage?
  {
    if es == [] then None
    else
      var r := FirstClose(es[..|es| - 1]);
      if r.Some? then r else if es[|es| - 1].m.CloseMessage? then Some(|es| - 1) else None
  }

  predicate GotClose(es: seq<Traffic>) {
    exists i :: 0 <= i < |es| && es[i].Got? && es[i].m.CloseMessage?
  }

  /**
   Whatever was sent and received, in any order: the state follows from the first Close and, if this
   side sent it, from whether the peer sent one too. The reason kept is that of a Close received first.
   */
  lemma {:induction false} CloseStateByTraffic(es: seq<Traffic>)
    ensures ClosingAfter(es) ==
            var first := FirstClose(es);
            if first.None? then P.Closing(P.Open, None)
            else if es[first.value].Got? then P.Closing(P.CloseReceived, es[first.value].m.reason)
            else P.Closing(if GotClose(es) then P.Closed else P.CloseSent, None)
    decreases |es|
  {
    if es != [] {
      var front := es[..|es| - 1];
      CloseStateByTraffic(front);
      if GotClose(front) {
        var i :| 0 <= i < |front| && front[i].Got? && front[i].m.CloseMessage?;
        assert es[i] == front[i];
      }
    }
  }

  // ---------------------------------------------------------------------
  // Deadlines in seconds
  // ---------------------------------------------------------------------

  /** `seconds` after `now`, in milliseconds, up to the largest number of 64 bits. */
  predicate IsAfter(at: nat, now: nat, seconds: nat) {
    at == (if now + 1000 * seconds <= 0xFFFF_FFFF_FFFF_FFFF then now + 1000 * seconds else 0xFFFF_FFFF_FFFF_FFFF)
  }

  /** A new heartbeat first waits for the idle timeout or the Ping interval, whichever is configured and shorter, in seconds. */
  lemma FirstDeadline(autoPing: bool, interval: nat, idle: nat, pong: nat, now: nat)
    ensures var next := NextDeadline(NewHeartbeat(autoPing, interval, idle, pong, now));
            if autoPing && interval != 0 && (idle == 0 || (interval < idle && now + 1000 * interval < 0xFFFF_FFFF_FFFF_FFFF)) then
              next.Some? && next.value.PingDue? && IsAfter(next.value.at, now, interval)
            else if idle != 0 then next.Some? && next.value.IdleDue? && IsAfter(next.value.at, now, idle)
            else next.None?
  {
  }

  /** A flushed Ping is to be answered within the Pong timeout, in seconds. */
  lemma PongDeadline(autoPing: bool, interval: nat, idle: nat, pong: nat, now: nat, payload: seq<Octet>, flushed: nat)
    requires pong != 0
    ensures var h := NewHeartbeat(autoPing, interval, idle, pong, now).(outstanding := Some(OutstandingPing(payload, None, false, false)));
            var p := PingFlushed(h, flushed).outstanding;
            p.Some? && p.value.deadline.Some? && IsAfter(p.value.deadline.value, flushed, pong)
  {
  }

  /** A Ping carries its number, in eight octets, most significant first. */
  lemma PingCarriesNumber(nonce: nat)
    requires nonce <= 0xFFFF_FFFF_FFFF_FFFF
    ensures var p := PingPayload(nonce);
            |p| == 8 && Eight(p, 0) == nonce
  {
    hide ToBigEndian, FromBigEndian;
    Pow256Values();
    BigEndianRoundTrip(nonce, 8);
    EightOctets(PingPayload(nonce));
  }
}
