/**
 The fragmentation rules of section 5.4 of RFC 6455, by position in the stream: which frames are in
 place, what has been collected before each, which message each completes, and with which error the
 first frame that breaks a rule is refused.
 */
module FrameOrder {
  import opened Octets
  import opened FrameFormat
  import opened Utf8
  import opened Messages
  import opened MessageLaws
  import opened ChunkedParsing
  import opened WireFormat

  predicate StartsMessage(f: Frame) {
    f.header.opcode == Text || f.header.opcode == Binary
  }

  predicate CarriesData(f: Frame) {
    StartsMessage(f) || f.header.opcode == Continuation
  }

  /** The last data frame before position `i`. */
  function LastData(frames: seq<Frame>, i: nat): (r: Option<nat>)
    requires i <= |frames|
    ensures r.Some? ==> r.value < i && CarriesData(frames[r.value]) && forall j :: r.value < j < i ==> !CarriesData(frames[j])
    ensures r.None? ==> forall j :: 0 <= j < i ==> !CarriesData(frames[j])
  {
    if i == 0 then None else if CarriesData(frames[i - 1]) then Some(i - 1) else LastData(frames, i - 1)
  }

  /** A message is open: the last data frame was not final, or there was none and one was open at the start. */
  predicate IsOpen(a: Assembly, frames: seq<Frame>, i: nat)
    requires i <= |frames|
  {
    if LastData(frames, i).Some? then !frames[LastData(frames, i).value].header.fin else a.opcode.Some?
  }

  predicate InPlace(a: Assembly, frames: seq<Frame>, i: nat)
    requires i < |frames|
  {
    && (frames[i].header.opcode == Continuation ==> IsOpen(a, frames, i))
    && (StartsMessage(frames[i]) ==> !IsOpen(a, frames, i))
  }

  /** Whether the message that continues at `i` is text: the last frame that started one says so, or the start. */
  predicate IsText(a: Assembly, frames: seq<Frame>, i: nat)
    requires i <= |frames|
  {
    if i == 0 then a.opcode == Some(Text)
    else if StartsMessage(frames[i - 1]) then frames[i - 1].header.opcode == Text
    else IsText(a, frames, i - 1)
  }

  /** The payloads since the last frame that started a message, or since the start. */
  function Collected(a: Assembly, frames: seq<Frame>, i: nat): seq<Octet>
    requires i <= |frames|
  {
    if i == 0 then a.data
    else if StartsMessage(frames[i - 1]) then frames[i - 1].payload
    else if frames[i - 1].header.opcode == Continuation then Collected(a, frames, i - 1) + frames[i - 1].payload
    else Collected(a, frames, i - 1)
  }

  /** The first rule that frame `i` breaks. */
  ghost function Objection(s: Settings, a: Assembly, frames: seq<Frame>, i: nat): Option<ProtocolError>
    requires i < |frames|
  {
    var f, all, text := frames[i], Collected(a, frames, i + 1), IsText(a, frames, i + 1);
    if f.header.opcode == Continuation && !IsOpen(a, frames, i) then Some(UnexpectedContinuation)
    else if StartsMessage(f) && IsOpen(a, frames, i) then Some(ExpectedContinuation)
    else if CarriesData(f) then
      if |all| > s.maxMessageSize then Some(MessageTooLarge)
      else if s.checkText && text && (if f.header.fin then !ValidUtf8(all) else !Extendable(all)) then Some(InvalidUtf8)
      else None
    else if f.header.opcode == Close then CloseObjection(f.payload)
    else None
  }

  /** The message that frame `i` completes. */
  function Completed(a: Assembly, frames: seq<Frame>, i: nat): seq<Message>
    requires i < |frames|
  {
    var f, all := frames[i], Collected(a, frames, i + 1);
    match f.header.opcode
    case Ping => [PingMessage(f.payload)]
    case Pong => [PongMessage(f.payload)]
    case Close => [CloseMessage(CloseContent(f.payload))]
    case _ => if !f.header.fin then [] else if IsText(a, frames, i + 1) then [TextMessage(all)] else [BinaryMessage(all)]
  }

  function CompletedBefore(a: Assembly, frames: seq<Frame>, n: nat): seq<Message>
    requires n <= |frames|
  {
    if n == 0 then [] else CompletedBefore(a, frames, n - 1) + Completed(a, frames, n - 1)
  }

  // ---------------------------------------------------------------------
  // Close frames (sections 5.5.1 and 7.4 of RFC 6455)
  // ---------------------------------------------------------------------

  /** Codes that an endpoint may send: not the reserved ones, and none outside the registered and private ranges. */
  predicate MayBeSent(code: nat) {
    1000 <= code < 5000 && code != 1004 && code != 1005 && code != 1006 && !(1015 <= code < 3000)
  }

  function CloseObjection(p: seq<Octet>): Option<ProtocolError> {
    if p == [] then None
    else if |p| == 1 then Some(InvalidClosePayload)
    else if !MayBeSent(Two(p[0], p[1])) then Some(InvalidCloseCode(Two(p[0], p[1])))
    else if !ValidUtf8(p[2..]) then Some(InvalidUtf8)
    else None
  }

  /** Code, most significant octet first, and text. */
  function CloseContent(p: seq<Octet>): Option<CloseReason> {
    if |p| < 2 then None else Some(CloseReason(Two(p[0], p[1]), p[2..]))
  }

  lemma CloseByOctets(p: seq<Octet>)
    ensures DecodeClose(p) == if CloseObjection(p).Some? then Bad(CloseObjection(p).value) else Good(CloseContent(p))
  {
    hide FromBigEndian, ValidUtf8;
    if |p| >= 2 {
      TwoOctets(p[..2]);
    }
  }

  // ---------------------------------------------------------------------
  // Receiving follows the rules
  // ---------------------------------------------------------------------

  /** What has been collected when frame `i` comes. */
  function Before(a: Assembly, frames: seq<Frame>, i: nat): Assembly
    requires i <= |frames|
  {
    if LastData(frames, i).None? then a
    else if IsOpen(a, frames, i) then Assembly(Some(if IsText(a, frames, i) then Text else KindBefore(a, frames, i)), Collected(a, frames, i))
    else Idle
  }

  function KindBefore(a: Assembly, frames: seq<Frame>, i: nat): OpCode
    requires i <= |frames|
  {
    if i == 0 then if a.opcode.Some? then a.opcode.value else Binary
    else if StartsMessage(frames[i - 1]) then frames[i - 1].header.opcode
    else KindBefore(a, frames, i - 1)
  }

  lemma {:induction false} KindIsText(a: Assembly, frames: seq<Frame>, i: nat)
    requires i <= |frames|
    ensures IsText(a, frames, i) <==> KindBefore(a, frames, i) == Text
    decreases i
  {
    if i > 0 && !StartsMessage(frames[i - 1]) {
      KindIsText(a, frames, i - 1);
    }
  }

  lemma {:induction false} UntilFirstData(a: Assembly, frames: seq<Frame>, i: nat)
    requires i <= |frames| && LastData(frames, i).None?
    ensures Collected(a, frames, i) == a.data && (IsText(a, frames, i) <==> a.opcode == Some(Text))
    ensures a.opcode.Some? ==> KindBefore(a, frames, i) == a.opcode.value
    decreases i
  {
    if i > 0 {
      UntilFirstData(a, frames, i - 1);
    }
  }

  /** What frame `i` should do, and does. */
  ghost predicate IsTaken(s: Settings, a: Assembly, frames: seq<Frame>, i: nat, r: Result<Taken>)
    requires i < |frames|
  {
    var o := Objection(s, a, frames, i);
    if o.Some? then r == Bad(o.value)
    else r.Good? && r.value.assembly == Before(a, frames, i + 1)
         && Completed(a, frames, i) == if r.value.message.Some? then [r.value.message.value] else []
  }

  lemma ControlIsTakenInPlace(s: Settings, a: Assembly, frames: seq<Frame>, i: nat)
    requires i < |frames| && !CarriesData(frames[i])
    ensures IsTaken(s, a, frames, i, TakeFrame(s, Before(a, frames, i), frames[i]))
  {
    hide DecodeClose, CloseObjection, CloseContent;
    CloseByOctets(frames[i].payload);
  }

  lemma DataIsTakenInPlace(s: Settings, a: Assembly, frames: seq<Frame>, i: nat)
    requires i < |frames| && CarriesData(frames[i])
    requires if StartsMessage(frames[i]) then !IsOpen(a, frames, i) else IsOpen(a, frames, i)
    ensures var op, all := KindBefore(a, frames, i + 1), Collected(a, frames, i + 1);
            IsTaken(s, a, frames, i, TakeData(s, op, all, frames[i].header.fin))
  {
    hide ValidUtf8, Extendable, Remainder;
    KindIsText(a, frames, i + 1);
    ExtendableMeansRemainder(Collected(a, frames, i + 1));
  }

  /** One frame: refused for the first rule it breaks, or completing what it should. */
  lemma FrameIsTaken(s: Settings, a: Assembly, frames: seq<Frame>, i: nat)
    requires i < |frames|
    ensures IsTaken(s, a, frames, i, TakeFrame(s, Before(a, frames, i), frames[i]))
  {
    if !CarriesData(frames[i]) {
      hide IsTaken;
      ControlIsTakenInPlace(s, a, frames, i);
    } else if if StartsMessage(frames[i]) then !IsOpen(a, frames, i) else IsOpen(a, frames, i) {
      hide IsTaken, TakeData;
      DataIsTakenInPlace(s, a, frames, i);
      OpenAssembly(a, frames, i);
    } else {
      hide Before, Completed;
      OpenAssembly(a, frames, i);
    }
  }

  /** The assembly before frame `i` is open exactly if a message is, and then of its kind and data. */
  lemma OpenAssembly(a: Assembly, frames: seq<Frame>, i: nat)
    requires i <= |frames|
    ensures Before(a, frames, i).opcode.Some? <==> IsOpen(a, frames, i)
    ensures IsOpen(a, frames, i) ==>
              Before(a, frames, i).opcode == Some(KindBefore(a, frames, i)) && Before(a, frames, i).data == Collected(a, frames, i)
  {
    KindIsText(a, frames, i);
    if LastData(frames, i).None? {
      UntilFirstData(a, frames, i);
    }
  }

  lemma {:induction false} ReassembledByPosition(s: Settings, a: Assembly, frames: seq<Frame>, n: nat)
    requires n <= |frames| && forall i :: 0 <= i < n ==> Objection(s, a, frames, i).None?
    ensures var r, later := Reassemble(s, a, frames), Reassemble(s, Before(a, frames, n), frames[n..]);
            r == later.(messages := CompletedBefore(a, frames, n) + later.messages)
    decreases n
  {
    hide Objection, Before, Completed, Reassemble;
    var rest := Reassemble(s, Before(a, frames, n), frames[n..]);
    if n == 0 {
      StartsAsGiven(a, frames);
      assert frames[0..] == frames && [] + rest.messages == rest.messages;
    } else {
      ReassembledByPosition(s, a, frames, n - 1);
      OneIsReassembled(s, a, frames, n - 1);
      var front, done := CompletedBefore(a, frames, n - 1), Completed(a, frames, n - 1);
      assert front + (done + rest.messages) == front + done + rest.messages;
    }
  }

  lemma OneIsReassembled(s: Settings, a: Assembly, frames: seq<Frame>, n: nat)
    requires n < |frames| && Objection(s, a, frames, n).None?
    ensures var later := Reassemble(s, Before(a, frames, n + 1), frames[n + 1..]);
            Reassemble(s, Before(a, frames, n), frames[n..]) == later.(messages := Completed(a, frames, n) + later.messages)
  {
    hide Objection, Before, Completed, TakeFrame;
    FrameIsTaken(s, a, frames, n);
    assert frames[n..][0] == frames[n] && frames[n..][1..] == frames[n + 1..];
    var later := Reassemble(s, Before(a, frames, n + 1), frames[n + 1..]);
    assert [] + later.messages == later.messages;
  }

  lemma StartsAsGiven(a: Assembly, frames: seq<Frame>)
    ensures Before(a, frames, 0) == a
  {
  }

  /**
   Over every stream and from every assembly: while no frame breaks a rule, the messages are those
   its frames complete; the first frame that breaks one ends the stream with exactly that objection,
   behind the messages of the frames before it.
   */
  lemma ReceivedByPosition(s: Settings, a: Assembly, w: seq<Octet>, n: nat)
    requires n <= |ReadAll(s.frames, w).frames|
    requires forall i :: 0 <= i < n ==> Objection(s, a, ReadAll(s.frames, w).frames, i).None?
    ensures var r, frames := Receive(s, a, w), ReadAll(s.frames, w).frames;
            if n == |frames| then r.messages == CompletedBefore(a, frames, n)
            else Objection(s, a, frames, n).Some? ==>
                   r.messages == CompletedBefore(a, frames, n) && r.error == Objection(s, a, frames, n)
    ensures var r, all := Receive(s, a, w), ReadAll(s.frames, w);
            n == |all.frames| && all.error.Some? ==> r.error == Some(BadFrame(all.error.value))
  {
    hide Receive, ReadAll, Objection, Before, Completed, CompletedBefore, HopelessPartialText;
    var frames := ReadAll(s.frames, w).frames;
    ReceiveIsReassembly(s, a, w);
    ReassembledByPosition(s, a, frames, n);
    var later := Reassemble(s, Before(a, frames, n), frames[n..]);
    if n < |frames| {
      FrameIsTaken(s, a, frames, n);
      assert frames[n..][0] == frames[n];
    } else {
      assert frames[n..] == [];
    }
    var done := CompletedBefore(a, frames, n);
    assert done + [] == done;
  }

  /** In a stream without an error every continuation is within a message, and every message starts outside one. */
  lemma {:induction false} NoErrorMeansInPlace(s: Settings, a: Assembly, w: seq<Octet>, i: nat)
    requires Receive(s, a, w).error.None? && i < |ReadAll(s.frames, w).frames|
    ensures Objection(s, a, ReadAll(s.frames, w).frames, i).None? && InPlace(a, ReadAll(s.frames, w).frames, i)
    decreases i
  {
    hide Receive, ReadAll;
    var frames := ReadAll(s.frames, w).frames;
    forall j | 0 <= j < i ensures Objection(s, a, frames, j).None? {
      NoErrorMeansInPlace(s, a, w, j);
    }
    ReceivedByPosition(s, a, w, i);
  }

  // ---------------------------------------------------------------------
  // Fragments
  // ---------------------------------------------------------------------

  /** Some frame is accepted that completes nothing. */
  predicate TakesFragment(s: Settings, a: Assembly, frames: seq<Frame>)
    decreases |frames|
  {
    frames != [] && TakeFrame(s, a, frames[0]).Good?
    && (TakeFrame(s, a, frames[0]).value.message.None? || TakesFragment(s, TakeFrame(s, a, frames[0]).value.assembly, frames[1..]))
  }

  lemma {:induction false} FragmentIsTaken(s: Settings, a: Assembly, w: seq<Octet>)
    ensures Receive(s, a, w).fragment <==> TakesFragment(s, a, ReadAll(s.frames, w).frames)
    decreases |w|
  {
    hide ReadFrame, TakeFrame, HopelessPartialText;
    if ReadFrame(s.frames, w).Accepted? {
      var Accepted(f, n) := ReadFrame(s.frames, w);
      ReadFrameIsEncoded(s.frames, w);
      var frames := ReadAll(s.frames, w).frames;
      assert frames[0] == f && frames[1..] == ReadAll(s.frames, w[n..]).frames;
      if TakeFrame(s, a, f).Good? {
        FragmentIsTaken(s, TakeFrame(s, a, f).value.assembly, w[n..]);
      }
    }
  }

  /** A fragment of a message: data that is not final. */
  predicate IsFragment(f: Frame) {
    CarriesData(f) && !f.header.fin
  }

  /** From position `n` on, a fragment that is in order, as is everything between. */
  ghost predicate HasFragment(s: Settings, a: Assembly, frames: seq<Frame>, n: nat) {
    exists i :: n <= i < |frames| && IsFragment(frames[i]) && forall j :: n <= j <= i ==> Objection(s, a, frames, j).None?
  }

  lemma {:induction false} FragmentByPosition(s: Settings, a: Assembly, frames: seq<Frame>, n: nat)
    requires n <= |frames|
    ensures TakesFragment(s, Before(a, frames, n), frames[n..]) <==> HasFragment(s, a, frames, n)
    decreases |frames| - n
  {
    hide Objection, Before, TakeFrame;
    if n < |frames| {
      FrameIsTaken(s, a, frames, n);
      FragmentByPosition(s, a, frames, n + 1);
      assert frames[n..][0] == frames[n] && frames[n..][1..] == frames[n + 1..];
      if Objection(s, a, frames, n).None? {
        if HasFragment(s, a, frames, n + 1) {
          var i :| n + 1 <= i < |frames| && IsFragment(frames[i]) && forall j :: n + 1 <= j <= i ==> Objection(s, a, frames, j).None?;
          assert forall j :: n <= j <= i ==> Objection(s, a, frames, j).None?;
        }
      }
    }
  }

  /** A call reports a fragment exactly if one was accepted: in place, in size and in text, as everything before it. */
  lemma FragmentIsReported(s: Settings, a: Assembly, w: seq<Octet>)
    ensures Receive(s, a, w).fragment <==> HasFragment(s, a, ReadAll(s.frames, w).frames, 0)
  {
    hide Receive, ReadAll, Before, TakesFragment, HasFragment;
    var frames := ReadAll(s.frames, w).frames;
    FragmentIsTaken(s, a, w);
    FragmentByPosition(s, a, frames, 0);
    StartsAsGiven(a, frames);
    assert frames[0..] == frames;
  }
}
