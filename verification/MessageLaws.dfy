/** Laws of the reference semantics: reassembly, one-message-at-a-time reading, text checking, round trips. */
module MessageLaws {
  import opened Octets
  import opened Masking
  import opened FrameFormat
  import opened ChunkedParsing
  import opened Utf8
  import opened Messages

  // ---------------------------------------------------------------------
  // Reading frames first and reassembling afterwards
  // ---------------------------------------------------------------------

  datatype Reassembled = Reassembled(messages: seq<Message>, error: Option<ProtocolError>, assembly: Assembly)

  function Reassemble(s: Settings, a: Assembly, frames: seq<Frame>): Reassembled
    decreases |frames|
  {
    if frames == [] then Reassembled([], None, a)
    else
      match TakeFrame(s, a, frames[0])
      case Bad(e) => Reassembled([], Some(e), a)
      case Good(t) =>
        var later := Reassemble(s, t.assembly, frames[1..]);
        if t.message.Some? then later.(messages := [t.message.value] + later.messages) else later
  }

  /** Receiving is reassembly of the frames on the wire; a later frame error or hopeless text comes after it. */
  lemma {:induction false} ReceiveIsReassembly(s: Settings, a: Assembly, w: seq<Octet>)
    ensures var r, frames := Receive(s, a, w), ReadAll(s.frames, w);
            var m := Reassemble(s, a, frames.frames);
            && r.messages == m.messages
            && r.error == (if m.error.Some? then m.error
                           else if frames.error.Some? then Some(BadFrame(frames.error.value))
                           else if HopelessPartialText(s, m.assembly, frames.rest) then Some(InvalidUtf8)
                           else None)
            && (r.error.None? ==> r.assembly == m.assembly && r.rest == frames.rest)
    decreases |w|
  {
    hide ReadFrame, TakeFrame, HopelessPartialText;
    if ReadFrame(s.frames, w).Accepted? {
      var Accepted(f, n) := ReadFrame(s.frames, w);
      ReadFrameIsEncoded(s.frames, w);
      var frames := ReadAll(s.frames, w);
      assert frames.frames[0] == f && frames.frames[1..] == ReadAll(s.frames, w[n..]).frames;
      if TakeFrame(s, a, f).Good? {
        ReceiveIsReassembly(s, TakeFrame(s, a, f).value.assembly, w[n..]);
      }
    }
  }

  // ---------------------------------------------------------------------
  // Fragmented messages with control frames in between
  // ---------------------------------------------------------------------

  /** One fragment, and the control frames sent right after it. */
  datatype Piece = Piece(data: seq<Octet>, controls: seq<Frame>)

  predicate IsGoodControl(f: Frame) {
    || f.header.opcode == Ping
    || f.header.opcode == Pong
    || (f.header.opcode == Close && DecodeClose(f.payload).Good?)
  }

  function ControlMessage(f: Frame): Message
    requires IsGoodControl(f)
  {
    match f.header.opcode
    case Ping => PingMessage(f.payload)
    case Pong => PongMessage(f.payload)
    case _ => CloseMessage(DecodeClose(f.payload).value)
  }

  predicate GoodPieces(pieces: seq<Piece>) {
    forall i, j :: 0 <= i < |pieces| && 0 <= j < |pieces[i].controls| ==> IsGoodControl(pieces[i].controls[j])
  }

  predicate GoodControls(controls: seq<Frame>) {
    forall j :: 0 <= j < |controls| ==> IsGoodControl(controls[j])
  }

  function DataFrame(op: OpCode, data: seq<Octet>, fin: bool): Frame {
    Frame(Header(fin, false, false, false, op, false, |data|, None), data)
  }

  /** First fragment with opcode `op`, the rest continuations; controls follow their fragment, the last fragment is final. */
  function FragmentFrames(op: OpCode, pieces: seq<Piece>): seq<Frame>
    decreases |pieces|
  {
    if pieces == [] then []
    else if |pieces| == 1 then [DataFrame(op, pieces[0].data, true)]
    else [DataFrame(op, pieces[0].data, false)] + pieces[0].controls + FragmentFrames(Continuation, pieces[1..])
  }

  function WholeData(pieces: seq<Piece>): seq<Octet> {
    if pieces == [] then [] else pieces[0].data + WholeData(pieces[1..])
  }

  /** Every control that precedes the final fragment, in order. */
  function ControlMessages(pieces: seq<Piece>): seq<Message>
    requires GoodPieces(pieces)
  {
    if |pieces| <= 1 then []
    else
      assert forall j :: 0 <= j < |pieces[0].controls| ==> IsGoodControl(pieces[0].controls[j]);
      ControlsOf(pieces[0].controls) + ControlMessages(pieces[1..])
  }

  function ControlsOf(controls: seq<Frame>): seq<Message>
    requires GoodControls(controls)
  {
    seq(|controls|, i requires 0 <= i < |controls| => ControlMessage(controls[i]))
  }

  lemma ControlIsTaken(s: Settings, a: Assembly, f: Frame)
    requires IsGoodControl(f)
    ensures TakeFrame(s, a, f) == Good(Taken(Some(ControlMessage(f)), a))
  {
  }

  lemma {:induction false} ControlsPassThrough(s: Settings, a: Assembly, controls: seq<Frame>, rest: seq<Frame>)
    requires GoodControls(controls)
    ensures var r, later := Reassemble(s, a, controls + rest), Reassemble(s, a, rest);
            r == later.(messages := ControlsOf(controls) + later.messages)
    decreases |controls|
  {
    hide DecodeClose, TakeFrame, ControlMessage, IsGoodControl;
    if controls == [] {
      assert controls + rest == rest;
    } else {
      assert IsGoodControl(controls[0]);
      ControlIsTaken(s, a, controls[0]);
      var frames := controls + rest;
      assert frames[0] == controls[0] && frames[1..] == controls[1..] + rest;
      ControlsPassThrough(s, a, controls[1..], rest);
    }
  }

  /** The checks a whole data message must pass. */
  predicate GoodData(s: Settings, op: OpCode, data: seq<Octet>) {
    |data| <= s.maxMessageSize && (s.checkText && op == Text ==> ValidUtf8(data))
  }

  lemma PrefixOfGoodData(s: Settings, op: OpCode, data: seq<Octet>, more: seq<Octet>)
    requires GoodData(s, op, data + more)
    ensures TakeData(s, op, data, false) == Good(Taken(None, Assembly(Some(op), data)))
  {
    ValidMeansNoRemainder(data + more);
    RemainderAppend(data, more);
  }

  /** However a message is fragmented, and whatever control frames are put between, it arrives whole and in place. */
  lemma {:induction false} FragmentsAreReassembled(s: Settings, a: Assembly, op: OpCode, first: OpCode, pieces: seq<Piece>)
    requires pieces != [] && GoodPieces(pieces)
    requires op == Text || op == Binary
    requires if first == Continuation then a.opcode == Some(op) else first == op && a == Idle
    requires GoodData(s, op, a.data + WholeData(pieces))
    ensures Reassemble(s, a, FragmentFrames(first, pieces))
         == Reassembled(ControlMessages(pieces) + [DataMessage(op, a.data + WholeData(pieces))], None, Idle)
    decreases |pieces|
  {
    hide GoodData, TakeFrame, DataFrame;
    var data := a.data + pieces[0].data;
    assert a.data + WholeData(pieces) == data + WholeData(pieces[1..]);
    if |pieces| == 1 {
      assert data + WholeData(pieces[1..]) == data;
      FinalFrame(s, a, op, first, pieces[0].data);
    } else {
      hide WholeData, ControlMessages, FragmentFrames, Reassemble, GoodPieces;
      var b := Assembly(Some(op), data);
      ControlsOfFirst(pieces);
      FirstPiece(s, a, op, first, pieces);
      FragmentsAreReassembled(s, b, op, Continuation, pieces[1..]);
    }
  }

  /** A first piece is collected, and the controls behind it are returned. */
  lemma FirstPiece(s: Settings, a: Assembly, op: OpCode, first: OpCode, pieces: seq<Piece>)
    requires |pieces| > 1 && GoodPieces(pieces) && GoodPieces(pieces[1..])
    requires op == Text || op == Binary
    requires if first == Continuation then a.opcode == Some(op) else first == op && a == Idle
    requires GoodData(s, op, a.data + pieces[0].data + WholeData(pieces[1..]))
    ensures GoodControls(pieces[0].controls) && ControlMessages(pieces) == ControlsOf(pieces[0].controls) + ControlMessages(pieces[1..])
    ensures var later := Reassemble(s, Assembly(Some(op), a.data + pieces[0].data), FragmentFrames(Continuation, pieces[1..]));
            Reassemble(s, a, FragmentFrames(first, pieces)) == later.(messages := ControlsOf(pieces[0].controls) + later.messages)
  {
    hide GoodData, TakeFrame, DataFrame, Reassemble, ControlsOf, IsGoodControl;
    var b := Assembly(Some(op), a.data + pieces[0].data);
    var controls, rest := pieces[0].controls, FragmentFrames(Continuation, pieces[1..]);
    ControlsOfFirst(pieces);
    EarlierFrame(s, a, op, first, pieces[0].data, WholeData(pieces[1..]));
    SilentFrame(s, a, DataFrame(first, pieces[0].data, false), b, controls + rest);
    assert FragmentFrames(first, pieces) == [DataFrame(first, pieces[0].data, false)] + (controls + rest);
    ControlsPassThrough(s, b, controls, rest);
  }

  lemma ControlsOfFirst(pieces: seq<Piece>)
    requires pieces != [] && GoodPieces(pieces)
    ensures GoodControls(pieces[0].controls) && GoodPieces(pieces[1..])
  {
  }

  /** A frame that completes no message only changes the assembly. */
  lemma SilentFrame(s: Settings, a: Assembly, f: Frame, b: Assembly, rest: seq<Frame>)
    requires TakeFrame(s, a, f) == Good(Taken(None, b))
    ensures Reassemble(s, a, [f] + rest) == Reassemble(s, b, rest)
  {
    hide TakeFrame;
    assert ([f] + rest)[1..] == rest;
  }

  /** Any fragment but the last is collected. */
  lemma EarlierFrame(s: Settings, a: Assembly, op: OpCode, first: OpCode, data: seq<Octet>, more: seq<Octet>)
    requires op == Text || op == Binary
    requires if first == Continuation then a.opcode == Some(op) else first == op && a == Idle
    requires GoodData(s, op, a.data + data + more)
    ensures TakeFrame(s, a, DataFrame(first, data, false)) == Good(Taken(None, Assembly(Some(op), a.data + data)))
  {
    hide GoodData, TakeData;
    PrefixOfGoodData(s, op, a.data + data, more);
    if first != Continuation {
      assert a.data + data == data;
    }
  }

  lemma FinalFrame(s: Settings, a: Assembly, op: OpCode, first: OpCode, data: seq<Octet>)
    requires op == Text || op == Binary
    requires if first == Continuation then a.opcode == Some(op) else first == op && a == Idle
    requires GoodData(s, op, a.data + data)
    ensures Reassemble(s, a, [DataFrame(first, data, true)]) == Reassembled([DataMessage(op, a.data + data)], None, Idle)
  {
    hide ValidUtf8;
    var f := DataFrame(first, data, true);
    if first != Continuation {
      assert a.data + data == data;
    }
    assert TakeFrame(s, a, f) == Good(Taken(Some(DataMessage(op, a.data + data)), Idle));
    assert [f][1..] == [];
  }

  // ---------------------------------------------------------------------
  // One message per call
  // ---------------------------------------------------------------------

  datatype ReceivedOne = ReceivedOne(message: Option<Message>, error: Option<ProtocolError>, fragment: bool,
                                     assembly: Assembly, rest: seq<Octet>)

  /** Stop at the first message. */
  function ReceiveOne(s: Settings, a: Assembly, w: seq<Octet>): (r: ReceivedOne)
    ensures r.message.Some? ==> |r.rest| < |w|
    decreases |w|
  {
    match OnePass(s, a, w)
    case End(error) => ReceivedOne(None, error, false, a, w)
    case Next(m, a', rest) =>
      if m.Some? then ReceivedOne(m, None, false, a', rest)
      else ReceiveOne(s, a', rest).(fragment := true)
  }

  /** Repeat until no message is returned. */
  function ReceiveOneByOne(s: Settings, a: Assembly, w: seq<Octet>): Received
    decreases |w|
  {
    var one := ReceiveOne(s, a, w);
    if one.message.None? then Received([], one.error, one.fragment, one.assembly, one.rest)
    else
      var later := ReceiveOneByOne(s, one.assembly, one.rest);
      later.(messages := [one.message.value] + later.messages, fragment := one.fragment || later.fragment)
  }

  /** Same messages, same error, same overall fragment flag, same remaining state. */
  lemma {:induction false} OneByOneIsAllAtOnce(s: Settings, a: Assembly, w: seq<Octet>)
    ensures ReceiveOneByOne(s, a, w) == Receive(s, a, w)
    decreases |w|
  {
    hide OnePass;
    if OnePass(s, a, w).Next? {
      OneByOneIsAllAtOnce(s, OnePass(s, a, w).assembly, OnePass(s, a, w).rest);
    }
  }

  // ---------------------------------------------------------------------
  // What checking text changes
  // ---------------------------------------------------------------------

  predicate TextsValid(messages: seq<Message>) {
    forall m :: m in messages && m.TextMessage? ==> ValidUtf8(m.data)
  }

  /** The text still being received can become valid. */
  predicate OpenTextOk(s: Settings, a: Assembly, w: seq<Octet>) {
    && (a.opcode == Some(Text) ==> Remainder(a.data).Some?)
    && (PartialText(s, a, w).Some? ==> Remainder(PartialText(s, a, w).value).Some?)
  }

  function Unchecked(s: Settings): Settings {
    s.(checkText := false)
  }

  /** No call can turn a hopeless open text into an accepted one, and unchecked calls only postpone the failure. */
  lemma {:induction false} HopelessAssembly(s: Settings, a: Assembly, w: seq<Octet>)
    requires !s.checkText && a.opcode == Some(Text) && Remainder(a.data).None?
    ensures var r := Receive(s, a, w);
            r.error.None? ==> !TextsValid(r.messages) || !OpenTextOk(s, r.assembly, r.rest)
    decreases |w|
  {
    hide ReadFrame, ValidUtf8, Remainder, DecodeClose;
    if ReadFrame(s.frames, w).Accepted? {
      var Accepted(f, n) := ReadFrame(s.frames, w);
      ReadFrameIsEncoded(s.frames, w);
      var r := Receive(s, a, w);
      if TakeFrame(s, a, f).Good? {
        var t := TakeFrame(s, a, f).value;
        var all := a.data + f.payload;
        HopelessExtends(a.data, f.payload);
        if t.message == Some(TextMessage(all)) {
          ValidMeansNoRemainder(all);
          assert r.messages[0] == TextMessage(all);
        } else {
          HopelessAssembly(s, t.assembly, w[n..]);
          var later := Receive(s, t.assembly, w[n..]);
          assert r == Prepend(t.message, later);
          TextsValidOfPrepend(t.message, later);
        }
      }
    }
  }

  lemma TextsValidOfPrepend(m: Option<Message>, later: Received)
    ensures TextsValid(Prepend(m, later).messages)
       <==> TextsValid(later.messages) && (m.Some? && m.value.TextMessage? ==> ValidUtf8(m.value.data))
  {
    hide ValidUtf8;
    var r := Prepend(m, later);
    forall x | x in later.messages ensures x in r.messages {
      var i :| 0 <= i < |later.messages| && later.messages[i] == x;
      assert r.messages[if m.Some? then i + 1 else i] == x;
    }
    if m.Some? {
      assert r.messages[0] == m.value;
    }
  }

  predicate NoContinuation(frames: seq<Frame>) {
    forall i :: 0 <= i < |frames| ==> frames[i].header.opcode != Continuation
  }

  /** The call sees nothing of the open text: no continuation frame arrives whole, and none has payload waiting. */
  predicate SeesNoneOfText(s: Settings, a: Assembly, w: seq<Octet>) {
    && a.opcode == Some(Text)
    && NoContinuation(ReadAll(s.frames, w).frames)
    && PartialText(s, a, ReadAll(s.frames, w).rest).None?
  }

  lemma NoContinuationFrom(f: Frame, rest: seq<Frame>)
    ensures NoContinuation([f] + rest) <==> f.header.opcode != Continuation && NoContinuation(rest)
  {
    var all := [f] + rest;
    assert all[0] == f;
    assert forall i :: 0 <= i < |rest| ==> all[i + 1] == rest[i];
  }

  /** Without an error, unread octets are those behind the last frame; and a text that is left alone stays as it is. */
  lemma {:induction false} TextLeftAlone(s: Settings, a: Assembly, w: seq<Octet>)
    requires Receive(s, a, w).error.None?
    ensures Receive(s, a, w).rest == ReadAll(s.frames, w).rest
    ensures a.opcode == Some(Text) && NoContinuation(ReadAll(s.frames, w).frames) ==> Receive(s, a, w).assembly == a
    decreases |w|
  {
    hide ReadFrame, ValidUtf8, Remainder, PartialText, DecodeClose, NoContinuation;
    if ReadFrame(s.frames, w).Accepted? {
      var Accepted(f, n) := ReadFrame(s.frames, w);
      ReadFrameIsEncoded(s.frames, w);
      NoContinuationFrom(f, ReadAll(s.frames, w[n..]).frames);
      TextLeftAlone(s, TakeFrame(s, a, f).value.assembly, w[n..]);
    }
  }

  /** A text that raw calls have left hopeless is refused by the first checking call that sees any of it, and by no other. */
  lemma {:induction false} HopelessTextIsRefusedWhenSeen(s: Settings, a: Assembly, w: seq<Octet>)
    requires s.checkText && a.opcode == Some(Text) && Remainder(a.data).None?
    ensures var c, u := Receive(s, a, w), Receive(Unchecked(s), a, w);
            && (c.error.None? <==> u.error.None? && TextsValid(u.messages) && SeesNoneOfText(s, a, w))
            && (u.error.None? && TextsValid(u.messages) ==> OpenTextOk(s, u.assembly, u.rest) == false)
    decreases |w|
  {
    hide ReadFrame, ValidUtf8, Remainder, PartialText, DecodeClose, NoContinuation;
    var u := Unchecked(s);
    SamePartialText(s, a, w);
    PartialOfHopeless(s, a, w);
    if ReadFrame(s.frames, w).Accepted? {
      var Accepted(f, n) := ReadFrame(s.frames, w);
      ReadFrameIsEncoded(s.frames, w);
      NoContinuationFrom(f, ReadAll(s.frames, w[n..]).frames);
      if TakeFrame(u, a, f).Good? {
        var t := TakeFrame(u, a, f).value;
        var later := Receive(u, t.assembly, w[n..]);
        TextsValidOfPrepend(t.message, later);
        CheckedTake(s, a, f);
        SamePartialText(s, later.assembly, later.rest);
        HopelessExtends(a.data, f.payload);
        ValidMeansNoRemainder(a.data + f.payload);
        if f.header.opcode == Continuation {
          if t.message.None? {
            HopelessAssembly(u, t.assembly, w[n..]);
          }
        } else {
          HopelessTextIsRefusedWhenSeen(s, a, w[n..]);
        }
      } else {
        UncheckedRefusalStands(s, a, f);
      }
    } else {
      NothingRead(s, a, w);
    }
  }

  lemma PartialOfHopeless(s: Settings, a: Assembly, w: seq<Octet>)
    requires a.opcode == Some(Text) && Remainder(a.data).None?
    ensures PartialText(s, a, w).Some? ==> Remainder(PartialText(s, a, w).value).None?
  {
    hide Remainder, ReadHeader;
    if PartialText(s, a, w).Some? {
      var HeaderKnown(h, n) := ReadHeader(s.frames, w);
      HopelessExtends(a.data, Transmitted(h, 0, w[n..]));
    }
  }

  lemma NothingRead(s: Settings, a: Assembly, w: seq<Octet>)
    requires !ReadFrame(s.frames, w).Accepted?
    ensures ReadAll(s.frames, w).frames == [] && ReadAll(s.frames, w).rest == w && NoContinuation([])
  {
  }

  /**
   With checking on, a call is accepted if and only if it is accepted without checking, every text
   message it returns is valid, and the text then open can become valid or is one that the call saw
   nothing of; and then nothing differs.
   */
  lemma CheckedMeansValid(s: Settings, a: Assembly, w: seq<Octet>)
    requires s.checkText
    ensures var c, u := Receive(s, a, w), Receive(Unchecked(s), a, w);
            && (c.error.None? <==>
                  u.error.None? && TextsValid(u.messages) && (OpenTextOk(s, u.assembly, u.rest) || SeesNoneOfText(s, a, w)))
            && (c.error.None? ==> c == u)
  {
    hide Receive, ReadAll, NoContinuation, Remainder, PartialText;
    CheckingOnlyRefuses(s, a, w);
    if a.opcode == Some(Text) && Remainder(a.data).None? {
      HopelessTextIsRefusedWhenSeen(s, a, w);
    } else {
      CheckedFromGoodText(s, a, w);
      if Receive(Unchecked(s), a, w).error.None? {
        TextLeftAlone(Unchecked(s), a, w);
      }
    }
  }

  lemma {:induction false} CheckedFromGoodText(s: Settings, a: Assembly, w: seq<Octet>)
    requires s.checkText
    requires a.opcode == Some(Text) ==> Remainder(a.data).Some?
    ensures var c, u := Receive(s, a, w), Receive(Unchecked(s), a, w);
            c.error.None? <==> u.error.None? && TextsValid(u.messages) && OpenTextOk(s, u.assembly, u.rest)
    decreases |w|
  {
    hide ReadFrame, ValidUtf8, Remainder, PartialText, DecodeClose;
    var u := Unchecked(s);
    SamePartialText(s, a, w);
    if ReadFrame(s.frames, w).Accepted? {
      var Accepted(f, n) := ReadFrame(s.frames, w);
      ReadFrameIsEncoded(s.frames, w);
      if TakeFrame(u, a, f).Good? {
        var t := TakeFrame(u, a, f).value;
        var later := Receive(u, t.assembly, w[n..]);
        TextsValidOfPrepend(t.message, later);
        CheckedTake(s, a, f);
        if TakeFrame(s, a, f).Good? {
          CheckedFromGoodText(s, t.assembly, w[n..]);
        } else if t.message.None? {
          HopelessAssembly(u, t.assembly, w[n..]);
          SamePartialText(s, later.assembly, later.rest);
        }
      } else {
        UncheckedRefusalStands(s, a, f);
      }
    }
  }

  lemma SamePartialText(s: Settings, a: Assembly, w: seq<Octet>)
    ensures PartialText(Unchecked(s), a, w) == PartialText(s, a, w)
    ensures OpenTextOk(Unchecked(s), a, w) == OpenTextOk(s, a, w)
  {
  }

  lemma UncheckedRefusalStands(s: Settings, a: Assembly, f: Frame)
    requires TakeFrame(Unchecked(s), a, f).Bad?
    ensures TakeFrame(s, a, f) == TakeFrame(Unchecked(s), a, f)
  {
  }

  /** A frame that only the text check refuses completes an invalid text or opens a hopeless one. */
  lemma CheckedTake(s: Settings, a: Assembly, f: Frame)
    requires s.checkText && TakeFrame(Unchecked(s), a, f).Good?
    ensures var t := TakeFrame(Unchecked(s), a, f).value;
            if TakeFrame(s, a, f).Good? then
              && TakeFrame(s, a, f).value == t
              && (t.message.Some? && t.message.value.TextMessage? ==> ValidUtf8(t.message.value.data))
              && (t.assembly.opcode == Some(Text) ==> Remainder(t.assembly.data).Some? || t.assembly == a)
            else if t.message.Some? then t.message.value.TextMessage? && !ValidUtf8(t.message.value.data)
            else t.assembly.opcode == Some(Text) && Remainder(t.assembly.data).None?
  {
    hide ValidUtf8, Remainder, DecodeClose;
  }

  /** Checking text never changes what is received; it can only end the stream earlier. */
  lemma {:induction false} CheckingOnlyRefuses(s: Settings, a: Assembly, w: seq<Octet>)
    ensures var c, u := Receive(s, a, w), Receive(Unchecked(s), a, w);
            c.messages <= u.messages && (c.error.None? ==> c == u)
    decreases |w|
  {
    hide ReadFrame, TakeFrame, PartialText;
    var u := Unchecked(s);
    if ReadFrame(s.frames, w).Accepted? {
      var Accepted(f, n) := ReadFrame(s.frames, w);
      ReadFrameIsEncoded(s.frames, w);
      SameWhenGood(s, a, f);
      if TakeFrame(s, a, f).Good? {
        CheckingOnlyRefuses(s, TakeFrame(s, a, f).value.assembly, w[n..]);
      }
    }
  }

  lemma SameWhenGood(s: Settings, a: Assembly, f: Frame)
    ensures TakeFrame(s, a, f).Good? ==> TakeFrame(Unchecked(s), a, f) == TakeFrame(s, a, f)
  {
    hide ValidUtf8, Remainder, DecodeClose;
  }

  /** A call of the receiver: the octets that arrived before it, and whether it checks text. */
  datatype Call = Call(chunk: seq<Octet>, typed: bool)

  function Arrivals(calls: seq<Call>): seq<Octet> {
    if calls == [] then [] else calls[0].chunk + Arrivals(calls[1..])
  }

  /** Typed and raw calls in any order, until the first error. */
  function ReceiveCalls(s: Settings, a: Assembly, w: seq<Octet>, calls: seq<Call>): Received
    decreases |calls|
  {
    if calls == [] then Received([], None, false, a, w)
    else
      var first := Receive(if calls[0].typed then s else Unchecked(s), a, w + calls[0].chunk);
      if first.error.Some? then first
      else
        var later := ReceiveCalls(s, first.assembly, first.rest, calls[1..]);
        later.(messages := first.messages + later.messages, fragment := first.fragment || later.fragment)
  }

  /** However typed and raw calls alternate, an error-free run receives the stream's messages, and any run a prefix of them. */
  lemma {:induction false} MixedCallsReceiveTheStream(s: Settings, a: Assembly, w: seq<Octet>, calls: seq<Call>)
    requires Settled(Unchecked(s), a, w)
    ensures var r, u := ReceiveCalls(s, a, w, calls), Receive(Unchecked(s), a, w + Arrivals(calls));
            r.messages <= u.messages && (r.error.None? ==> r == u)
    decreases |calls|
  {
    hide Receive;
    var u := Unchecked(s);
    if calls == [] {
      assert w + Arrivals(calls) == w;
    } else {
      var w1, rest := w + calls[0].chunk, Arrivals(calls[1..]);
      var first := Receive(if calls[0].typed then s else u, a, w1);
      CheckingOnlyRefuses(s, a, w1);
      ReceiveExtends(u, a, w1, rest);
      assert w + Arrivals(calls) == w1 + rest;
      if first.error.None? {
        assert first == Receive(u, a, w1);
        ReceiveSettles(u, a, w1);
        MixedCallsReceiveTheStream(s, first.assembly, first.rest, calls[1..]);
      }
    }
  }

  /** What every call must find for the run to go on, in terms of the unchecked stream alone. */
  predicate CallsAcceptable(s: Settings, a: Assembly, w: seq<Octet>, calls: seq<Call>)
    decreases |calls|
  {
    calls == [] ||
    var w1 := w + calls[0].chunk;
    var u := Receive(Unchecked(s), a, w1);
    && u.error.None?
    && (s.checkText && calls[0].typed ==>
          TextsValid(u.messages) && (OpenTextOk(s, u.assembly, u.rest) || SeesNoneOfText(s, a, w1)))
    && CallsAcceptable(s, u.assembly, u.rest, calls[1..])
  }

  /** Exactly when a run of typed and raw calls fails. */
  lemma {:induction false} MixedRunFailsExactly(s: Settings, a: Assembly, w: seq<Octet>, calls: seq<Call>)
    ensures ReceiveCalls(s, a, w, calls).error.None? <==> CallsAcceptable(s, a, w, calls)
    decreases |calls|
  {
    hide Receive, TextsValid, OpenTextOk, SeesNoneOfText;
    if calls != [] {
      var w1 := w + calls[0].chunk;
      var first := Receive(if calls[0].typed then s else Unchecked(s), a, w1);
      CheckingOnlyRefuses(s, a, w1);
      if s.checkText {
        CheckedMeansValid(s, a, w1);
      } else {
        assert Unchecked(s) == s;
      }
      if first.error.None? {
        MixedRunFailsExactly(s, first.assembly, first.rest, calls[1..]);
      }
    }
  }

  /** The messages that the typed calls of a run return. */
  function TypedMessages(s: Settings, a: Assembly, w: seq<Octet>, calls: seq<Call>): seq<Message>
    decreases |calls|
  {
    if calls == [] then []
    else
      var first := Receive(if calls[0].typed then s else Unchecked(s), a, w + calls[0].chunk);
      (if calls[0].typed then first.messages else [])
      + (if first.error.Some? then [] else TypedMessages(s, first.assembly, first.rest, calls[1..]))
  }

  /** Every text that a typed call returns is valid, whatever raw calls have taken of it before. */
  lemma {:induction false} TypedCallsReturnValidText(s: Settings, a: Assembly, w: seq<Octet>, calls: seq<Call>)
    requires s.checkText
    ensures TextsValid(TypedMessages(s, a, w, calls))
    decreases |calls|
  {
    hide Receive, ValidUtf8;
    if calls != [] {
      var first := Receive(if calls[0].typed then s else Unchecked(s), a, w + calls[0].chunk);
      DeliveredIsDeliverable(s, a, w + calls[0].chunk);
      if first.error.None? {
        TypedCallsReturnValidText(s, first.assembly, first.rest, calls[1..]);
      }
    }
  }

  /** A run over a stream whose texts are valid, and whose open text can become valid, never fails, however the calls are mixed. */
  lemma GoodTextNeverFails(s: Settings, a: Assembly, w: seq<Octet>, calls: seq<Call>)
    requires s.checkText
    requires var u := Receive(Unchecked(s), a, w + Arrivals(calls));
             u.error.None? && TextsValid(u.messages) && OpenTextOk(s, u.assembly, u.rest)
    ensures ReceiveCalls(s, a, w, calls).error.None?
  {
    hide Receive, TextsValid, OpenTextOk, SeesNoneOfText, ReceiveCalls;
    CheckedMeansValid(s, a, w + Arrivals(calls));
    CheckedStreamNeverFails(s, a, w, calls);
  }

  lemma {:induction false} CheckedStreamNeverFails(s: Settings, a: Assembly, w: seq<Octet>, calls: seq<Call>)
    requires Receive(s, a, w + Arrivals(calls)).error.None?
    ensures ReceiveCalls(s, a, w, calls).error.None?
    decreases |calls|
  {
    hide Receive;
    if calls != [] {
      var w1, rest := w + calls[0].chunk, Arrivals(calls[1..]);
      assert w + Arrivals(calls) == w1 + rest;
      ReceiveExtends(s, a, w1, rest);
      CheckingOnlyRefuses(s, a, w1);
      var r := Receive(s, a, w1);
      CheckedStreamNeverFails(s, r.assembly, r.rest, calls[1..]);
    }
  }

  function PingFrame(data: seq<Octet>): Frame {
    Frame(Header(true, false, false, false, Ping, false, |data|, None), data)
  }

  /**
   A checking call need not fail although what was received can no longer become valid: a raw call
   takes the first fragment of a text, any hopeless one, and a typed call then receives only a Ping.
   */
  lemma HopelessTextCanPassUnseen(s: Settings, data: seq<Octet>, ping: seq<Octet>)
    requires s.checkText && Remainder(data).None? && |ping| <= SmallLimit
    requires Acceptable(s.frames, DataFrame(Text, data, false)) && Acceptable(s.frames, PingFrame(ping)) && |data| <= s.maxMessageSize
    ensures var calls := [Call(EncodeFrame(DataFrame(Text, data, false)), false), Call(EncodeFrame(PingFrame(ping)), true)];
            ReceiveCalls(s, Idle, [], calls) == Received([PingMessage(ping)], None, true, Assembly(Some(Text), data), [])
    ensures !Extendable(data)
  {
    hide EncodeFrame, Receive, Acceptable, Extendable, Remainder;
    var a := Assembly(Some(Text), data);
    ExtendableMeansRemainder(data);
    OneFrame(Unchecked(s), Idle, DataFrame(Text, data, false));
    OneFrame(s, a, PingFrame(ping));
    NothingMore(Unchecked(s), a);
    NothingMore(s, a);
    TwoCalls(s, EncodeFrame(DataFrame(Text, data, false)), EncodeFrame(PingFrame(ping)));
    assert [] + EncodeFrame(PingFrame(ping)) == EncodeFrame(PingFrame(ping));
  }

  /** In particular with the octet 0xFF. */
  lemma HopelessOctetCanPassUnseen()
    ensures var s := Settings(ParserConfig(125, false, false), 125, true);
            var calls := [Call(EncodeFrame(DataFrame(Text, [0xFF], false)), false), Call(EncodeFrame(PingFrame([])), true)];
            ReceiveCalls(s, Idle, [], calls).error.None? && !Extendable([0xFF])
  {
    hide EncodeFrame, Receive, ReceiveCalls, Extendable;
    var s := Settings(ParserConfig(125, false, false), 125, true);
    HopelessTextCanPassUnseen(s, [0xFF], []);
  }

  lemma TwoCalls(s: Settings, x: seq<Octet>, y: seq<Octet>)
    requires Receive(Unchecked(s), Idle, x).error.None?
    ensures var first := Receive(Unchecked(s), Idle, x);
            var second := Receive(s, first.assembly, first.rest + y);
            ReceiveCalls(s, Idle, [], [Call(x, false), Call(y, true)])
            == second.(messages := first.messages + second.messages, fragment := first.fragment || second.fragment)
  {
    hide Receive;
    var calls := [Call(x, false), Call(y, true)];
    var first := Receive(Unchecked(s), Idle, x);
    var second := Receive(s, first.assembly, first.rest + y);
    var rest := [Call(y, true)];
    assert [] + x == x && calls[1..] == rest && rest[1..] == [];
    assert second.messages + [] == second.messages;
    assert ReceiveCalls(s, second.assembly, second.rest, rest[1..]) == Received([], None, false, second.assembly, second.rest);
    assert ReceiveCalls(s, first.assembly, first.rest, rest) == second;
  }

  lemma OneFrame(s: Settings, a: Assembly, f: Frame)
    requires Acceptable(s.frames, f) && TakeFrame(s, a, f).Good?
    ensures Receive(s, a, EncodeFrame(f)) == Prepend(TakeFrame(s, a, f).value.message, Receive(s, TakeFrame(s, a, f).value.assembly, []))
  {
    hide TakeFrame, Acceptable, EncodeFrame, ReadFrame;
    EncodedFrameIsRead(s.frames, f, []);
    assert EncodeFrame(f) + [] == EncodeFrame(f);
    assert EncodeFrame(f)[|EncodeFrame(f)|..] == [];
  }

  lemma NothingMore(s: Settings, a: Assembly)
    ensures Receive(s, a, []) == Received([], None, false, a, [])
  {
  }

  // ---------------------------------------------------------------------
  // Round trip of messages
  // ---------------------------------------------------------------------

  function MessageOpCode(m: Message): OpCode {
    match m
    case TextMessage(_) => Text
    case BinaryMessage(_) => Binary
    case PingMessage(_) => Ping
    case PongMessage(_) => Pong
    case CloseMessage(_) => Close
  }

  function MessagePayload(m: Message): seq<Octet> {
    if m.CloseMessage? then EncodeClose(m.reason) else m.data
  }

  /** The single final frame that carries a message, masked by clients only. */
  function MessageFrame(m: Message, mask: Option<MaskKey>): Frame {
    var p := MessagePayload(m);
    Frame(Header(true, false, false, false, MessageOpCode(m), mask.Some?, |p|, mask), p)
  }

  /** What callers must keep to when sending, and what the receiver's limits admit. */
  predicate Sendable(s: Settings, m: Message) {
    && |MessagePayload(m)| <= s.frames.maxFrameSize
    && |MessagePayload(m)| < TopBit
    && match m
       case TextMessage(b) => ValidUtf8(b) && |b| <= s.maxMessageSize
       case BinaryMessage(b) => |b| <= s.maxMessageSize
       case PingMessage(b) => |b| <= 125
       case PongMessage(b) => |b| <= 125
       case CloseMessage(r) => r.Some? ==> IsValidCloseCode(r.value.code) && ValidUtf8(r.value.reason) && |r.value.reason| <= 123
  }

  lemma CloseRoundTrip(r: Option<CloseReason>)
    requires r.Some? ==> IsValidCloseCode(r.value.code) && ValidUtf8(r.value.reason)
    ensures DecodeClose(EncodeClose(r)) == Good(r)
  {
    if r.Some? {
      var p := EncodeClose(r);
      Pow256Values();
      BigEndianRoundTrip(r.value.code, 2);
      assert p[..2] == ToBigEndian(r.value.code, 2) && p[2..] == r.value.reason;
    }
  }

  lemma MessageFrameIsTaken(s: Settings, m: Message, mask: Option<MaskKey>)
    requires Sendable(s, m) && mask.Some? == s.frames.expectMasked
    ensures Acceptable(s.frames, MessageFrame(m, mask))
    ensures TakeFrame(s, Idle, MessageFrame(m, mask)) == Good(Taken(Some(m), Idle))
  {
    if m.CloseMessage? {
      CloseRoundTrip(m.reason);
    }
  }

  function EncodeMessages(ms: seq<Message>, masks: seq<Option<MaskKey>>): seq<Octet>
    requires |ms| == |masks|
  {
    if ms == [] then [] else EncodeFrame(MessageFrame(ms[0], masks[0])) + EncodeMessages(ms[1..], masks[1..])
  }

  lemma {:induction false} EncodedMessagesAreReceived(s: Settings, ms: seq<Message>, masks: seq<Option<MaskKey>>)
    requires |ms| == |masks|
    requires forall i :: 0 <= i < |ms| ==> Sendable(s, ms[i]) && masks[i].Some? == s.frames.expectMasked
    ensures Receive(s, Idle, EncodeMessages(ms, masks)) == Received(ms, None, false, Idle, [])
  {
    hide ReadFrame, TakeFrame, EncodeFrame, Sendable, Acceptable;
    if ms == [] {
      EmptyStream(s);
    } else {
      var f := MessageFrame(ms[0], masks[0]);
      var w, rest := EncodeMessages(ms, masks), EncodeMessages(ms[1..], masks[1..]);
      MessageFrameIsTaken(s, ms[0], masks[0]);
      EncodedFrameIsRead(s.frames, f, rest);
      assert w[|EncodeFrame(f)|..] == rest;
      EncodedMessagesAreReceived(s, ms[1..], masks[1..]);
      assert [ms[0]] + ms[1..] == ms;
    }
  }

  lemma EmptyStream(s: Settings)
    ensures Receive(s, Idle, []) == Received([], None, false, Idle, [])
  {
  }

  /** Any list of well-formed messages, encoded in one role and cut anywhere, is received whole in the other. */
  lemma MessagesSurviveCutting(s: Settings, ms: seq<Message>, masks: seq<Option<MaskKey>>, chunks: seq<seq<Octet>>)
    requires |ms| == |masks|
    requires forall i :: 0 <= i < |ms| ==> Sendable(s, ms[i]) && masks[i].Some? == s.frames.expectMasked
    requires Concat(chunks) == EncodeMessages(ms, masks)
    ensures ReceiveChunks(s, Idle, [], chunks) == Received(ms, None, false, Idle, [])
  {
    hide Receive, ReceiveChunks, EncodeMessages, Sendable, Concat;
    EmptyStream(s);
    ChunksDoNotMatter(s, Idle, [], chunks);
    assert [] + Concat(chunks) == Concat(chunks);
    EncodedMessagesAreReceived(s, ms, masks);
  }
}
