/**
 The heartbeat: automatic Pings, their Pong deadlines and the idle timeout, as a timed state
 machine, with its guarantees over every run. Times are milliseconds in 64 bits.
 */
module Heartbeats {
  import opened Octets
  import opened Utf8

  const MaxTime := 0xFFFF_FFFF_FFFF_FFFF

  function SaturatingAdd(a: nat, b: nat): (r: nat) {
    if a + b > MaxTime then MaxTime else a + b
  }

  datatype Deadline = PongDue(at: nat) | IdleDue(at: nat) | PingDue(at: nat)

  datatype OutstandingPing = OutstandingPing(payload: seq<Octet>, deadline: Option<nat>, flushed: bool, acknowledged: bool)

  datatype Heartbeat = Heartbeat(autoPing: bool, pingInterval: nat, idleTimeout: nat, pongTimeout: nat,
                                 lastInbound: nat, outstanding: Option<OutstandingPing>, stopped: bool)

  /** Timeouts are configured in seconds; a zero interval turns automatic Pings off. */
  function NewHeartbeat(autoPing: bool, intervalSec: nat, idleSec: nat, pongSec: nat, now: nat): Heartbeat {
    Heartbeat(autoPing && intervalSec != 0, intervalSec * 1000, idleSec * 1000, pongSec * 1000, now, None, false)
  }

  function IdleDeadline(h: Heartbeat): Option<nat> {
    if h.idleTimeout != 0 then Some(SaturatingAdd(h.lastInbound, h.idleTimeout)) else None
  }

  /** Earliest deadline that must end the connection. */
  function NextHardDeadline(h: Heartbeat): Option<Deadline> {
    if h.stopped then None
    else
      var pong := if h.outstanding.Some? then h.outstanding.value.deadline else None;
      var idle := IdleDeadline(h);
      if pong.Some? && idle.Some? && idle.value < pong.value then Some(IdleDue(idle.value))
      else if pong.Some? then Some(PongDue(pong.value))
      else if idle.Some? then Some(IdleDue(idle.value))
      else None
  }

  function NextDeadline(h: Heartbeat): Option<Deadline> {
    if h.stopped then None
    else if h.outstanding.Some? && h.outstanding.value.deadline.Some? then NextHardDeadline(h)
    else
      var idle := IdleDeadline(h);
      var ping := if h.autoPing && h.outstanding.None? then Some(SaturatingAdd(h.lastInbound, h.pingInterval)) else None;
      if idle.Some? && ping.Some? then
        if idle.value <= ping.value then Some(IdleDue(idle.value)) else Some(PingDue(ping.value))
      else if idle.Some? then Some(IdleDue(idle.value))
      else if ping.Some? then Some(PingDue(ping.value))
      else None
  }

  /** Payload of the Ping with the given process-wide nonce. */
  function PingPayload(nonce: nat): seq<Octet> {
    ToBigEndian(nonce, 8)
  }

  function PingIsDue(h: Heartbeat, now: nat): bool {
    var d := NextDeadline(h);
    d.Some? && d.value.PingDue? && d.value.at <= now
  }

  /** Issue a Ping if one is due. */
  function IssuePing(h: Heartbeat, now: nat, nonce: nat): Heartbeat {
    if PingIsDue(h, now) then h.(outstanding := Some(OutstandingPing(PingPayload(nonce), None, false, false))) else h
  }

  function PingFlushed(h: Heartbeat, now: nat): Heartbeat {
    if h.outstanding.None? || h.outstanding.value.flushed then h
    else if h.outstanding.value.acknowledged then h.(outstanding := None)
    else
      var deadline := if h.pongTimeout != 0 then Some(SaturatingAdd(now, h.pongTimeout)) else None;
      h.(outstanding := Some(h.outstanding.value.(flushed := true, deadline := deadline)))
  }

  /** The inbound Pong answers the outstanding, flushed Ping in time. */
  predicate Matches(h: Heartbeat, now: nat, pong: Option<seq<Octet>>) {
    && !h.stopped && h.outstanding.Some?
    && pong == Some(h.outstanding.value.payload)
    && h.outstanding.value.flushed
    && (h.outstanding.value.deadline.Some? ==> now < h.outstanding.value.deadline.value)
  }

  function OnInbound(h: Heartbeat, now: nat, pong: Option<seq<Octet>>): Heartbeat {
    if h.stopped then h
    else
      var h' := h.(lastInbound := if h.lastInbound < now then now else h.lastInbound);
      if Matches(h, now, pong) then h'.(outstanding := None)
      else if h.outstanding.Some? && pong == Some(h.outstanding.value.payload) && !h.outstanding.value.flushed then
        h'.(outstanding := Some(h.outstanding.value.(acknowledged := true)))
      else h'
  }

  function Stop(h: Heartbeat): Heartbeat {
    h.(stopped := true, outstanding := None)
  }

  /** A Pong at `now` comes after the Ping was sent and before its deadline, if it has one. */
  predicate IsInTime(p: OutstandingPing, now: nat) {
    p.flushed && (p.deadline.None? || now < p.deadline.value)
  }

  // ---------------------------------------------------------------------
  // What each step does
  // ---------------------------------------------------------------------

  /**
   Traffic clears the outstanding Ping if and only if it is the Pong with its payload, in time. The
   Pong of a Ping that is not sent yet is remembered; anything else leaves the Ping alone. Activity
   is noted in every case.
   */
  lemma TimelyPongClears(h: Heartbeat, now: nat, pong: Option<seq<Octet>>)
    requires !h.stopped
    ensures var t, p := OnInbound(h, now, pong), h.outstanding;
            && t == h.(lastInbound := t.lastInbound, outstanding := t.outstanding)
            && t.lastInbound >= h.lastInbound && t.lastInbound >= now && (t.lastInbound == h.lastInbound || t.lastInbound == now)
            && (p.None? ==> t.outstanding.None?)
            && (p.Some? ==> (t.outstanding.None? <==> pong == Some(p.value.payload) && IsInTime(p.value, now)))
            && (p.Some? && t.outstanding.Some? ==>
                  && t.outstanding.value.payload == p.value.payload && t.outstanding.value.deadline == p.value.deadline
                  && t.outstanding.value.flushed == p.value.flushed
                  && (t.outstanding.value.acknowledged <==> p.value.acknowledged || (pong == Some(p.value.payload) && !p.value.flushed)))
  {
  }

  /**
   A Ping is issued exactly if Pings are on, none is outstanding, the interval since the last traffic
   has passed, and the idle timeout does not come first; it then waits for its flush.
   */
  lemma DuePingIsIssued(h: Heartbeat, now: nat, nonce: nat)
    ensures var t := IssuePing(h, now, nonce);
            if !h.stopped && h.autoPing && h.outstanding.None? && now >= SaturatingAdd(h.lastInbound, h.pingInterval)
               && (h.idleTimeout != 0 ==> SaturatingAdd(h.lastInbound, h.idleTimeout) > SaturatingAdd(h.lastInbound, h.pingInterval))
            then t == h.(outstanding := t.outstanding) && t.outstanding == Some(OutstandingPing(PingPayload(nonce), None, false, false))
            else t == h
  {
  }

  /** The Pong timeout starts with the flush, unless the Pong was faster. */
  lemma FlushStartsTimeout(h: Heartbeat, now: nat)
    ensures var t, p := PingFlushed(h, now), h.outstanding;
            && t == h.(outstanding := t.outstanding)
            && (p.None? || p.value.flushed ==> t == h)
            && (p.Some? && !p.value.flushed && p.value.acknowledged ==> t.outstanding.None?)
            && (p.Some? && !p.value.flushed && !p.value.acknowledged ==>
                  && t.outstanding.Some? && t.outstanding.value.payload == p.value.payload
                  && t.outstanding.value.flushed && !t.outstanding.value.acknowledged
                  && (t.outstanding.value.deadline.Some? <==> h.pongTimeout != 0)
                  && (h.pongTimeout != 0 && now + h.pongTimeout <= MaxTime ==> t.outstanding.value.deadline == Some(now + h.pongTimeout)))
  {
  }

  // ---------------------------------------------------------------------
  // The reported deadline
  // ---------------------------------------------------------------------

  /** The deadlines that are in force. */
  ghost predicate Active(h: Heartbeat, d: Deadline) {
    !h.stopped &&
    match d
    case PongDue(at) => h.outstanding.Some? && h.outstanding.value.deadline == Some(at)
    case IdleDue(at) => h.idleTimeout != 0 && at == SaturatingAdd(h.lastInbound, h.idleTimeout)
    case PingDue(at) => h.autoPing && h.outstanding.None? && at == SaturatingAdd(h.lastInbound, h.pingInterval)
  }

  function Precedence(d: Deadline): nat {
    match d
    case PongDue(_) => 0
    case IdleDue(_) => 1
    case PingDue(_) => 2
  }

  ghost predicate Before(d: Deadline, e: Deadline) {
    d.at < e.at || (d.at == e.at && Precedence(d) <= Precedence(e))
  }

  /** The reported deadline is the first active one, Pong before Idle before Ping at the same time; none if none is active. */
  lemma NextDeadlineIsFirst(h: Heartbeat, d: Deadline)
    ensures NextDeadline(h) == Some(d) <==> Active(h, d) && forall e :: Active(h, e) ==> Before(d, e)
    ensures NextDeadline(h).None? <==> forall e :: !Active(h, e)
  {
    var n := NextDeadline(h);
    if n.Some? {
      assert Active(h, n.value);
      forall e | Active(h, e) ensures Before(n.value, e) {}
      if Active(h, d) && forall e :: Active(h, e) ==> Before(d, e) {
        assert Before(d, n.value) && Before(n.value, d);
      }
    } else {
      forall e ensures !Active(h, e) {}
    }
  }

  // ---------------------------------------------------------------------
  // Every run
  // ---------------------------------------------------------------------

  datatype Signal =
    | PollPing(now: nat, nonce: nat)
    | FlushDone(now: nat)
    | InboundAt(now: nat, pong: Option<seq<Octet>>)
    | StopEvent

  function Apply(h: Heartbeat, e: Signal): Heartbeat {
    match e
    case PollPing(now, nonce) => IssuePing(h, now, nonce)
    case FlushDone(now) => PingFlushed(h, now)
    case InboundAt(now, pong) => OnInbound(h, now, pong)
    case StopEvent => Stop(h)
  }

  /** What an observer notes: Pings issued, and Pongs that answered the outstanding Ping in time. */
  datatype Note = Issued(payload: seq<Octet>) | Answered(payload: seq<Octet>)

  function Noted(h: Heartbeat, e: Signal): seq<Note> {
    match e
    case PollPing(now, nonce) => if PingIsDue(h, now) then [Issued(PingPayload(nonce))] else []
    case InboundAt(now, pong) =>
      if h.stopped || h.outstanding.None? || pong != Some(h.outstanding.value.payload) then []
      else if IsInTime(h.outstanding.value, now) || (!h.outstanding.value.flushed && !h.outstanding.value.acknowledged)
      then [Answered(pong.value)] else []
    case _ => []
  }

  function ApplyAll(h: Heartbeat, es: seq<Signal>): Heartbeat {
    if es == [] then h else Apply(ApplyAll(h, es[..|es| - 1]), es[|es| - 1])
  }

  function Notes(h: Heartbeat, es: seq<Signal>): seq<Note> {
    if es == [] then []
    else
      var before := es[..|es| - 1];
      Notes(h, before) + Noted(ApplyAll(h, before), es[|es| - 1])
  }

  /** Issued and Answered alternate, with equal payloads in each pair. */
  predicate Alternates(notes: seq<Note>) {
    forall i :: 0 <= i < |notes| ==> InTurn(notes, i)
  }

  predicate InTurn(notes: seq<Note>, i: nat)
    requires i < |notes|
  {
    if i % 2 == 0 then notes[i].Issued?
    else notes[i].Answered? && notes[i].payload == notes[i - 1].payload
  }

  /** The Ping at the end of the notes that still waits for its answer. */
  predicate OpenPing(notes: seq<Note>) {
    |notes| % 2 == 1
  }

  predicate PingOk(p: OutstandingPing) {
    && (p.flushed ==> !p.acknowledged)
    && (p.deadline.Some? ==> p.flushed)
  }

  lemma AppendNote(notes: seq<Note>, n: Note)
    requires Alternates(notes)
    requires if OpenPing(notes) then n.Answered? && n.payload == notes[|notes| - 1].payload else n.Issued?
    ensures Alternates(notes + [n])
  {
    var all := notes + [n];
    forall i | 0 <= i < |all| ensures InTurn(all, i) {
      assert i < |notes| ==> InTurn(notes, i);
    }
  }

  /** Notes and state agree: a Ping is outstanding and unanswered exactly if the notes end with it. */
  predicate Agree(h: Heartbeat, notes: seq<Note>) {
    && Alternates(notes)
    && (h.outstanding.Some? ==> PingOk(h.outstanding.value))
    && (!h.stopped ==> (OpenPing(notes) <==> h.outstanding.Some? && !h.outstanding.value.acknowledged))
    && (OpenPing(notes) && !h.stopped ==> notes[|notes| - 1].payload == h.outstanding.value.payload)
  }

  lemma AgreeStep(h: Heartbeat, notes: seq<Note>, e: Signal)
    requires Agree(h, notes)
    ensures Agree(Apply(h, e), notes + Noted(h, e))
  {
    var noted := Noted(h, e);
    assert notes + [] == notes;
    if noted != [] {
      assert noted == [noted[0]];
      AppendNote(notes, noted[0]);
    }
  }

  /**
   Over every run at most one Ping waits for its answer, and a new one is issued only after the
   exact payload of the one before was answered in time.
   */
  lemma {:induction false} PingsAlternateWithAnswers(h: Heartbeat, es: seq<Signal>)
    requires h.outstanding.None?
    ensures Agree(ApplyAll(h, es), Notes(h, es))
    decreases |es|
  {
    if es != [] {
      var before := es[..|es| - 1];
      PingsAlternateWithAnswers(h, before);
      AgreeStep(ApplyAll(h, before), Notes(h, before), es[|es| - 1]);
    }
  }

  /** Nothing but a flush gives a Ping its deadline, and nothing moves it. */
  lemma OnlyFlushSetsDeadline(h: Heartbeat, e: Signal)
    requires h.outstanding.Some? ==> PingOk(h.outstanding.value)
    ensures var before, after := h.outstanding, Apply(h, e).outstanding;
            after.Some? && after.value.deadline.Some? ==>
              before.Some? && before.value.payload == after.value.payload
              && if before.value.flushed then after == before
                 else e.FlushDone? && after.value.deadline == Some(SaturatingAdd(e.now, h.pongTimeout)) && h.pongTimeout != 0
  {
  }

  // ---------------------------------------------------------------------
  // A peer that answers
  // ---------------------------------------------------------------------

  function SignalTime(e: Signal): nat {
    if e.StopEvent? then 0 else e.now
  }

  /** Times do not run backwards. */
  predicate TimesAscend(es: seq<Signal>) {
    forall i, j :: 0 <= i < j < |es| && !es[i].StopEvent? && !es[j].StopEvent? ==> SignalTime(es[i]) <= SignalTime(es[j])
  }

  predicate HasDeadline(h: Heartbeat) {
    h.outstanding.Some? && h.outstanding.value.deadline.Some?
  }

  /** Event `j` is the Pong of the Ping outstanding in `h`, before its deadline. */
  predicate AnswersInTime(h: Heartbeat, e: Signal)
    requires HasDeadline(h)
  {
    e.InboundAt? && e.pong == Some(h.outstanding.value.payload) && e.now < h.outstanding.value.deadline.value
  }

  /** Every Ping whose flush starts a deadline is answered before it. */
  ghost predicate Responsive(h: Heartbeat, es: seq<Signal>) {
    forall k :: 0 <= k < |es| && es[k].FlushDone? && HasDeadline(ApplyAll(h, es[..k + 1])) ==>
      AnsweredLater(h, es, k)
  }

  ghost predicate AnsweredLater(h: Heartbeat, es: seq<Signal>, k: nat)
    requires k < |es| && HasDeadline(ApplyAll(h, es[..k + 1]))
  {
    exists j :: k < j < |es| && AnswersInTime(ApplyAll(h, es[..k + 1]), es[j])
  }

  lemma {:induction false} OutstandingIsOk(h: Heartbeat, es: seq<Signal>)
    requires h.outstanding.None?
    ensures ApplyAll(h, es).outstanding.Some? ==> PingOk(ApplyAll(h, es).outstanding.value) && !ApplyAll(h, es).stopped
    decreases |es|
  {
    hide PingPayload;
    if es != [] {
      OutstandingIsOk(h, es[..|es| - 1]);
    }
  }

  lemma OneSignalMore(h: Heartbeat, es: seq<Signal>, i: nat)
    requires i < |es|
    ensures ApplyAll(h, es[..i + 1]) == Apply(ApplyAll(h, es[..i]), es[i])
  {
    assert es[..i + 1][..i] == es[..i];
  }

  /** The flush that set the deadline of the outstanding Ping, which has been outstanding since. */
  lemma {:induction false} DeadlineWasSet(h: Heartbeat, es: seq<Signal>, i: nat) returns (k: nat)
    requires h.outstanding.None? && i <= |es| && HasDeadline(ApplyAll(h, es[..i]))
    ensures k < i && es[k].FlushDone?
    ensures forall m :: k < m <= i ==> ApplyAll(h, es[..m]).outstanding == ApplyAll(h, es[..i]).outstanding
    decreases i
  {
    hide ApplyAll, Apply;
    NothingApplied(h, es);
    OneSignalMore(h, es, i - 1);
    OutstandingIsOk(h, es[..i - 1]);
    var before := ApplyAll(h, es[..i - 1]);
    OnlyFlushSetsDeadline(before, es[i - 1]);
    if before.outstanding.value.flushed {
      k := DeadlineWasSet(h, es, i - 1);
    } else {
      k := i - 1;
    }
  }

  lemma NothingApplied(h: Heartbeat, es: seq<Signal>)
    ensures ApplyAll(h, es[..0]) == h
  {
  }

  /** In a run in which the peer answers each Ping in time, no Pong deadline is ever reached. */
  lemma AnsweredPingsNeverTimeOut(h: Heartbeat, es: seq<Signal>, i: nat, at: nat)
    requires h.outstanding.None? && TimesAscend(es) && Responsive(h, es)
    requires i < |es| && !es[i].StopEvent? && Active(ApplyAll(h, es[..i]), PongDue(at))
    ensures SignalTime(es[i]) < at
  {
    hide ApplyAll, Apply, OnInbound, AnswersInTime, TimesAscend, AnsweredLater, PingOk;
    var k := DeadlineWasSet(h, es, i);
    assert HasDeadline(ApplyAll(h, es[..k + 1]));
    var j := AnswerOf(h, es, k);
    SameAnswer(ApplyAll(h, es[..k + 1]), ApplyAll(h, es[..i]), es[j]);
    if j < i {
      SameAnswer(ApplyAll(h, es[..k + 1]), ApplyAll(h, es[..j]), es[j]);
      AnswerIsTaken(h, es, j);
    } else {
      LaterSignal(es, i, j);
    }
  }

  lemma AnswerOf(h: Heartbeat, es: seq<Signal>, k: nat) returns (j: nat)
    requires k < |es| && HasDeadline(ApplyAll(h, es[..k + 1])) && AnsweredLater(h, es, k)
    ensures k < j < |es| && AnswersInTime(ApplyAll(h, es[..k + 1]), es[j])
  {
    j :| k < j < |es| && AnswersInTime(ApplyAll(h, es[..k + 1]), es[j]);
  }

  lemma SameAnswer(h: Heartbeat, h': Heartbeat, e: Signal)
    requires HasDeadline(h) && h'.outstanding == h.outstanding && AnswersInTime(h, e)
    ensures AnswersInTime(h', e) && e.InboundAt? && e.now < h'.outstanding.value.deadline.value
  {
  }

  lemma LaterSignal(es: seq<Signal>, i: nat, j: nat)
    requires TimesAscend(es) && i <= j < |es| && !es[i].StopEvent? && !es[j].StopEvent?
    ensures SignalTime(es[i]) <= SignalTime(es[j])
  {
  }

  lemma AnswerIsTaken(h: Heartbeat, es: seq<Signal>, j: nat)
    requires h.outstanding.None? && j < |es| && HasDeadline(ApplyAll(h, es[..j])) && AnswersInTime(ApplyAll(h, es[..j]), es[j])
    ensures ApplyAll(h, es[..j + 1]).outstanding.None?
  {
    hide ApplyAll;
    OneSignalMore(h, es, j);
    OutstandingIsOk(h, es[..j]);
    TimelyPongClears(ApplyAll(h, es[..j]), es[j].now, es[j].pong);
  }

  /** A stale, foreign or late Pong leaves the outstanding Ping as it is; only inactivity restarts. */
  lemma StaleAndLatePongsDoNotClear(h: Heartbeat, now: nat, pong: Option<seq<Octet>>)
    requires h.outstanding.Some?
    requires pong != Some(h.outstanding.value.payload)
          || (h.outstanding.value.flushed && h.outstanding.value.deadline.Some? && now >= h.outstanding.value.deadline.value)
    ensures OnInbound(h, now, pong).outstanding == h.outstanding
  {
  }

  /** A Pong that overtakes the flush of its Ping is honoured there: the Ping gets no deadline at all. */
  lemma EarlyPongIsHonoured(h: Heartbeat, now: nat, es: seq<Signal>, flushAt: nat)
    requires !h.stopped && h.outstanding.Some? && !h.outstanding.value.flushed
    requires forall i :: 0 <= i < |es| ==> es[i].InboundAt? || es[i].PollPing?
    ensures var answered := OnInbound(h, now, Some(h.outstanding.value.payload));
            PingFlushed(ApplyAll(answered, es), flushAt).outstanding.None?
  {
    var answered := OnInbound(h, now, Some(h.outstanding.value.payload));
    StaysAnswered(answered, es);
  }

  lemma {:induction false} StaysAnswered(h: Heartbeat, es: seq<Signal>)
    requires !h.stopped && h.outstanding.Some? && !h.outstanding.value.flushed && h.outstanding.value.acknowledged
    requires forall i :: 0 <= i < |es| ==> es[i].InboundAt? || es[i].PollPing?
    ensures ApplyAll(h, es).outstanding == h.outstanding && !ApplyAll(h, es).stopped
    decreases |es|
  {
    if es != [] {
      StaysAnswered(h, es[..|es| - 1]);
    }
  }

  /** Stopping is permanent and silent. */
  lemma {:induction false} StopIsPermanent(h: Heartbeat, es: seq<Signal>)
    ensures ApplyAll(Stop(h), es) == Stop(h) && NextDeadline(Stop(h)).None? && NextHardDeadline(Stop(h)).None?
    decreases |es|
  {
    if es != [] {
      StopIsPermanent(h, es[..|es| - 1]);
    }
  }

  /** Distinct nonces give distinct payloads, so an earlier Ping's Pong never answers a later Ping. */
  lemma NoncesDiffer(m: nat, n: nat)
    requires m < Pow256(8) && n < Pow256(8) && m != n
    ensures PingPayload(m) != PingPayload(n)
  {
    BigEndianRoundTrip(m, 8);
    BigEndianRoundTrip(n, 8);
  }

  // ---------------------------------------------------------------------
  // Detection of a silent peer
  // ---------------------------------------------------------------------

  /** A driver that is never late: traffic arrives before the next deadline, and every deadline is acted on when it is reached. */
  datatype PromptEvent = Traffic(now: nat, pong: Option<seq<Octet>>) | Act(nonce: nat)

  predicate Enabled(h: Heartbeat, e: PromptEvent) {
    match e
    case Traffic(now, _) => NextDeadline(h).Some? ==> now < NextDeadline(h).value.at
    case Act(_) => NextDeadline(h).Some? && NextDeadline(h).value.PingDue?
  }

  /** Acting on a due Ping issues it and flushes it at once. */
  function PromptStep(h: Heartbeat, e: PromptEvent): Heartbeat
    requires Enabled(h, e)
  {
    match e
    case Traffic(now, pong) => OnInbound(h, now, pong)
    case Act(nonce) =>
      var at := NextDeadline(h).value.at;
      PingFlushed(IssuePing(h, at, nonce), at)
  }

  ghost predicate PromptRun(h: Heartbeat, es: seq<PromptEvent>, h': Heartbeat)
    decreases |es|
  {
    if es == [] then h == h'
    else Enabled(h, es[0]) && PromptRun(PromptStep(h, es[0]), es[1..], h')
  }

  /** Time by which a peer that has gone silent is given up. */
  predicate GivesUpInTime(h: Heartbeat) {
    && h.autoPing && h.pongTimeout != 0 && !h.stopped
    && (h.outstanding.Some? ==> h.outstanding.value.flushed && h.outstanding.value.deadline.Some?
                                && h.outstanding.value.deadline.value <= h.lastInbound + h.pingInterval + h.pongTimeout)
  }

  lemma {:induction false} PromptRunsGiveUpInTime(h: Heartbeat, es: seq<PromptEvent>, h': Heartbeat)
    requires GivesUpInTime(h) && PromptRun(h, es, h')
    ensures GivesUpInTime(h')
    decreases |es|
  {
    if es != [] {
      PromptRunsGiveUpInTime(PromptStep(h, es[0]), es[1..], h');
    }
  }

  /** When the driver gives up if no more traffic arrives: at the next deadline, or at the one after the Ping. */
  function GiveUpTime(h: Heartbeat, nonce: nat): Option<nat> {
    var d := NextDeadline(h);
    if d.None? then None
    else if !d.value.PingDue? then Some(d.value.at)
    else
      var e := NextDeadline(PromptStep(h, Act(nonce)));
      if e.Some? && !e.value.PingDue? then Some(e.value.at) else None
  }

  lemma ActingStartsPongTimeout(h: Heartbeat, nonce: nat)
    requires GivesUpInTime(h) && Enabled(h, Act(nonce))
    ensures var h' := PromptStep(h, Act(nonce));
            && GivesUpInTime(h') && h'.outstanding.Some?
            && h'.lastInbound == h.lastInbound && h'.pingInterval == h.pingInterval && h'.pongTimeout == h.pongTimeout
  {
    hide PingPayload;
  }

  lemma WaitingForPongEndsInTime(h: Heartbeat)
    requires GivesUpInTime(h) && h.outstanding.Some?
    ensures var d := NextDeadline(h);
            d.Some? && !d.value.PingDue? && d.value.at <= h.lastInbound + h.pingInterval + h.pongTimeout
  {
  }

  lemma GivingUpTakesTwoSteps(h: Heartbeat, nonce: nat)
    requires GivesUpInTime(h)
    ensures GiveUpTime(h, nonce).Some?
    ensures GiveUpTime(h, nonce).value <= h.lastInbound + h.pingInterval + h.pongTimeout
  {
    hide PromptStep;
    if h.outstanding.Some? {
      WaitingForPongEndsInTime(h);
    } else if Enabled(h, Act(nonce)) {
      ActingStartsPongTimeout(h, nonce);
      WaitingForPongEndsInTime(PromptStep(h, Act(nonce)));
    }
  }

  /** From every state of every prompt run, a silent peer is given up within one Ping interval and one Pong timeout of its last octet. */
  lemma SilentPeerIsGivenUp(h: Heartbeat, es: seq<PromptEvent>, h': Heartbeat, nonce: nat)
    requires GivesUpInTime(h) && PromptRun(h, es, h')
    ensures GiveUpTime(h', nonce).Some?
    ensures GiveUpTime(h', nonce).value <= h'.lastInbound + h'.pingInterval + h'.pongTimeout
  {
    hide PromptStep, PromptRun, GivesUpInTime;
    PromptRunsGiveUpInTime(h, es, h');
    GivingUpTakesTwoSteps(h', nonce);
  }

  // ---------------------------------------------------------------------
  // The object
  // ---------------------------------------------------------------------

  class HeartbeatTimer {
    const autoPing: bool
    const pingInterval: nat
    const idleTimeout: nat
    const pongTimeout: nat
    var lastInbound: nat
    var outstanding: Option<OutstandingPing>
    var stopped: bool

    constructor (autoPing: bool, intervalSec: nat, idleSec: nat, pongSec: nat, now: nat)
      ensures View() == NewHeartbeat(autoPing, intervalSec, idleSec, pongSec, now)
    {
      this.autoPing := autoPing && intervalSec != 0;
      pingInterval, idleTimeout, pongTimeout := intervalSec * 1000, idleSec * 1000, pongSec * 1000;
      lastInbound, outstanding, stopped := now, None, false;
    }

    function View(): Heartbeat
      reads this
    {
      Heartbeat(autoPing, pingInterval, idleTimeout, pongTimeout, lastInbound, outstanding, stopped)
    }

    /** Whether inbound activity matters at all. */
    predicate Tracks()
      reads this
    {
      !stopped && (autoPing || idleTimeout != 0)
    }

    method Due(now: nat, nonce: nat) returns (payload: Option<seq<Octet>>)
      modifies this`outstanding
      ensures View() == IssuePing(old(View()), now, nonce)
      ensures payload == (if PingIsDue(old(View()), now) then Some(PingPayload(nonce)) else None)
    {
      var next := NextDeadline(View());
      if next.None? || !next.value.PingDue? || next.value.at > now {
        return None;
      }
      payload := Some(PingPayload(nonce));
      outstanding := Some(OutstandingPing(payload.value, None, false, false));
    }

    method Flushed(now: nat)
      modifies this`outstanding
      ensures View() == PingFlushed(old(View()), now)
    {
      if outstanding.Some? && !outstanding.value.flushed {
        if outstanding.value.acknowledged {
          outstanding := None;
          return;
        }
        var deadline := if pongTimeout != 0 then Some(SaturatingAdd(now, pongTimeout)) else None;
        outstanding := Some(outstanding.value.(flushed := true, deadline := deadline));
      }
    }

    method Receive(now: nat, pong: Option<seq<Octet>>) returns (matched: bool)
      modifies this`lastInbound, this`outstanding
      ensures View() == OnInbound(old(View()), now, pong)
      ensures matched <==> !old(stopped) && old(outstanding).Some? && pong == Some(old(outstanding).value.payload)
                           && IsInTime(old(outstanding).value, now)
    {
      if stopped {
        return false;
      }
      lastInbound := if lastInbound < now then now else lastInbound;
      matched := false;
      if outstanding.Some? {
        var ping := outstanding.value;
        var same := pong == Some(ping.payload);
        if same && !ping.flushed {
          outstanding := Some(ping.(acknowledged := true));
        }
        matched := same && ping.flushed && (ping.deadline.None? || now < ping.deadline.value);
      }
      if matched {
        outstanding := None;
      }
    }

    method Halt()
      modifies this`outstanding, this`stopped
      ensures View() == Stop(old(View()))
    {
      stopped, outstanding := true, None;
    }
  }

  // ---------------------------------------------------------------------
  // Close reasons
  // ---------------------------------------------------------------------

  const MaxReasonOctets := 123

  /** An index that does not cut a character of valid text. */
  predicate IsBoundary(s: seq<Octet>, i: nat) {
    i == |s| || (i < |s| && !IsTail(s[i]))
  }

  lemma CharacterTails(c: seq<Octet>, i: nat)
    requires IsCharacter(c) && 0 < i < |c|
    ensures IsTail(c[i])
  {
  }

  lemma {:induction false} BoundaryPrefixIsValid(s: seq<Octet>, i: nat)
    requires ValidUtf8(s) && i <= |s| && IsBoundary(s, i)
    ensures ValidUtf8(s[..i])
    decreases |s|
  {
    hide ValidUtf8, IsCharacter, IncompletePrefixMayBeValid;
    var front := s[..i];
    ValidMeansNoRemainder(s);
    ValidMeansNoRemainder(front);
    if front != [] {
      var n := SequenceWidth(s[0]);
      if i < n && n <= |s| {
        CharacterTails(s[..n], i);
      } else if n <= i {
        ValidMeansNoRemainder(s[n..]);
        BoundaryPrefixIsValid(s[n..], i - n);
        ValidMeansNoRemainder(front[n..]);
        assert front[..n] == s[..n];
        assert front[n..] == s[n..][..i - n];
      }
    }
  }

  /** The longest prefix of at most 123 octets that does not cut a character. */
  method BoundedCloseReason(reason: seq<Octet>) returns (r: seq<Octet>)
    requires ValidUtf8(reason)
    ensures |r| <= MaxReasonOctets && r <= reason && ValidUtf8(r)
    ensures forall i :: |r| < i <= MaxReasonOctets && i <= |reason| ==> !IsBoundary(reason, i)
  {
    hide ValidUtf8;
    if |reason| <= MaxReasonOctets {
      return reason;
    }
    FirstOctetIsLead(reason);
    var end := MaxReasonOctets;
    while IsTail(reason[end])
      invariant 0 <= end <= MaxReasonOctets
      invariant forall i :: end < i <= MaxReasonOctets ==> !IsBoundary(reason, i)
      decreases end
    {
      end := end - 1;
    }
    BoundaryPrefixIsValid(reason, end);
    r := reason[..end];
  }

  lemma FirstOctetIsLead(s: seq<Octet>)
    requires ValidUtf8(s) && s != []
    ensures !IsTail(s[0])
  {
    ValidMeansNoRemainder(s);
  }
}
