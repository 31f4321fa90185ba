/**
 The protocol with permessage-deflate: messages are compressed into frames by one end, cut anywhere
 on the way, and reassembled and decompressed by the other.
 */
module CompressedMessages {
  import opened Octets
  import opened Masking
  import opened FrameFormat
  import opened Utf8
  import opened Messages
  import opened MessageLaws
  import opened DeflateFormat
  import opened Compressing
  import PM = ParserModel
  import C = ChunkedParsing

  datatype Failure = ProtocolFailure(error: ProtocolError) | CompressionFailure

  /** Decoder, fragments collected so far, and whether they are of a compressed message. */
  datatype Receiver = Receiver(decoder: Decoder, assembly: Assembly, compressed: bool)

  datatype Outcome = Refused(failure: Failure) | Taking(message: Option<Message>, receiver: Receiver)

  /**
   A whole data message, as its octets and the compression bit of its first frame say. Of a message
   that is both too large and damaged, the size is reported.
   */
  function Complete(c: Codec, s: Settings, r: Receiver, op: OpCode, all: seq<Octet>, compressed: bool): Outcome {
    var d := r.decoder;
    var data := if compressed then Yield(c, d.window, Base(d), all) else all;
    if |data| > s.maxMessageSize then Refused(ProtocolFailure(MessageTooLarge))
    else if compressed && IsDamaged(c, d.window, Base(d), all) then Refused(CompressionFailure)
    else if op == Text && s.checkText && !ValidUtf8(data) then Refused(ProtocolFailure(InvalidUtf8))
    else Taking(Some(DataMessage(op, data)), Receiver(if compressed then Decompress(c, d, Deflated(all)).1 else d, Idle, false))
  }

  function TakeFirst(c: Codec, s: Settings, r: Receiver, f: Frame): Outcome {
    var op := f.header.opcode;
    if r.assembly.opcode.Some? then Refused(ProtocolFailure(ExpectedContinuation))
    else if f.header.fin then Complete(c, s, r, op, f.payload, f.header.rsv1)
    else if |f.payload| > s.maxMessageSize then Refused(ProtocolFailure(MessageTooLarge))
    else if op == Text && s.checkText && !f.header.rsv1 && Remainder(f.payload).None? then Refused(ProtocolFailure(InvalidUtf8))
    else Taking(None, r.(assembly := Assembly(Some(op), f.payload), compressed := f.header.rsv1))
  }

  function TakeContinuation(c: Codec, s: Settings, r: Receiver, f: Frame): Outcome {
    var all := r.assembly.data + f.payload;
    if r.assembly.opcode.None? then Refused(ProtocolFailure(UnexpectedContinuation))
    else if |all| > s.maxMessageSize then Refused(ProtocolFailure(MessageTooLarge))
    else if f.header.fin then Complete(c, s, r, r.assembly.opcode.value, all, r.compressed)
    else Taking(None, r.(assembly := r.assembly.(data := all)))
  }

  function TakeCompressed(c: Codec, s: Settings, r: Receiver, f: Frame): Outcome {
    match f.header.opcode
    case Text | Binary => TakeFirst(c, s, r, f)
    case Continuation => TakeContinuation(c, s, r, f)
    case _ =>
      match TakeFrame(s, r.assembly, f)
      case Bad(e) => Refused(ProtocolFailure(e))
      case Good(t) => Taking(t.message, r)
  }

  datatype Reassembly = Reassembly(messages: seq<Message>, failure: Option<Failure>, receiver: Receiver)

  function TakeAll(c: Codec, s: Settings, r: Receiver, frames: seq<Frame>): Reassembly
    decreases |frames|
  {
    if frames == [] then Reassembly([], None, r)
    else
      match TakeCompressed(c, s, r, frames[0])
      case Refused(failure) => Reassembly([], Some(failure), r)
      case Taking(m, r') =>
        var later := TakeAll(c, s, r', frames[1..]);
        later.(messages := (if m.Some? then [m.value] else []) + later.messages)
  }

  // ---------------------------------------------------------------------
  // Sending
  // ---------------------------------------------------------------------

  /** A message to send, its masking key, and how often the codec repeats a flush marker for it. */
  datatype Outgoing = Outgoing(message: Message, mask: Option<MaskKey>, marks: nat)

  predicate IsData(m: Message) {
    m.TextMessage? || m.BinaryMessage?
  }

  function WireFrame(m: Message, w: Wire, mask: Option<MaskKey>): Frame
    requires IsData(m)
  {
    Frame(Header(true, w.Deflated?, false, false, MessageOpCode(m), mask.Some?, |w.data|, mask), w.data)
  }

  /** Control messages are never compressed. */
  function EncodeOne(c: Codec, e: Encoder, o: Outgoing): (Frame, Encoder) {
    if IsData(o.message) then
      var (w, e') := Compress(c, e, o.message.data, o.marks);
      (WireFrame(o.message, w, o.mask), e')
    else (MessageFrame(o.message, o.mask), e)
  }

  function EncodeList(c: Codec, e: Encoder, os: seq<Outgoing>): (frames: seq<Frame>)
    ensures |frames| == |os|
    decreases |os|
  {
    if os == [] then []
    else
      var (f, e') := EncodeOne(c, e, os[0]);
      [f] + EncodeList(c, e', os[1..])
  }

  function MessagesOfAll(os: seq<Outgoing>): (ms: seq<Message>)
    ensures |ms| == |os|
  {
    if os == [] then [] else [os[0].message] + MessagesOfAll(os[1..])
  }

  /** What callers must keep to when sending, and what the receiver's message limit admits; frames may be of any size. */
  predicate Allowed(s: Settings, o: Outgoing) {
    && o.mask.Some? == s.frames.expectMasked
    && match o.message
       case TextMessage(b) => ValidUtf8(b) && |b| <= s.maxMessageSize
       case BinaryMessage(b) => |b| <= s.maxMessageSize
       case PingMessage(b) => |b| <= 125
       case PongMessage(b) => |b| <= 125
       case CloseMessage(r) => r.Some? ==> IsValidCloseCode(r.value.code) && ValidUtf8(r.value.reason) && |r.value.reason| <= 123
  }

  /** With takeover and without a threshold, no data message may be empty, except the first of a new encoder. */
  predicate SafeOrder(e: Encoder, os: seq<Outgoing>) {
    e.threshold > 0 || e.noTakeover || forall i :: 0 <= i < |os| && IsData(os[i].message) ==> os[i].message.data != [] || IsFirst(e, os, i)
  }

  predicate IsFirst(e: Encoder, os: seq<Outgoing>, i: nat)
    requires i < |os|
  {
    !e.flushed && forall j :: 0 <= j < i ==> !IsData(os[j].message)
  }

  /** The frames that are within the limit, up to the first that is not. */
  function Fitting(limit: nat, frames: seq<Frame>): (n: nat)
    ensures n <= |frames|
  {
    if frames == [] || |frames[0].payload| > limit then 0 else 1 + Fitting(limit, frames[1..])
  }

  // ---------------------------------------------------------------------
  // What is sent is received
  // ---------------------------------------------------------------------

  /** A frame as sent is acceptable but for its size. */
  lemma FrameIsProper(c: Codec, e: Encoder, s: Settings, o: Outgoing)
    requires Allowed(s, o) && s.frames.allowRsv1 && |EncodeOne(c, e, o).0.payload| < TopBit
    ensures var f := EncodeOne(c, e, o).0;
            && |f.payload| == f.header.payloadLen && Acceptable(PM.Unlimited(s.frames, f.header), f)
            && (|f.payload| <= s.frames.maxFrameSize ==> Acceptable(s.frames, f))
  {
    hide Compress, ValidUtf8;
  }

  /** A frame above the limit is refused from its header on. */
  lemma LargeFrameIsRefused(cfg: ParserConfig, f: Frame, rest: seq<Octet>)
    requires Acceptable(PM.Unlimited(cfg, f.header), f) && |f.payload| > cfg.maxFrameSize
    ensures ReadFrame(cfg, EncodeFrame(f) + rest) == Rejected(FrameTooLarge)
  {
    hide EncodeHeader, AcceptableHeader, ReadLength;
    var h, w := f.header, EncodeFrame(f) + rest;
    assert w == EncodeHeader(h) + (Transmitted(h, 0, f.payload) + rest);
    EncodedHeaderIsRead(PM.Unlimited(cfg, h), h, Transmitted(h, 0, f.payload) + rest);
    PM.LimitOnlyMatters(cfg, h, w);
  }

  lemma {:induction false} FramesAreReadUpToLimit(cfg: ParserConfig, frames: seq<Frame>)
    requires forall i :: 0 <= i < |frames| ==>
               Acceptable(PM.Unlimited(cfg, frames[i].header), frames[i]) && (|frames[i].payload| <= cfg.maxFrameSize ==> Acceptable(cfg, frames[i]))
    ensures var r, n := C.ReadAll(cfg, C.EncodeAll(frames)), Fitting(cfg.maxFrameSize, frames);
            r.frames == frames[..n] && r.error == if n == |frames| then None else Some(FrameTooLarge)
    decreases |frames|
  {
    hide ReadFrame, EncodeFrame, Acceptable;
    if frames == [] {
      C.EncodedFramesAreRead(cfg, []);
    } else {
      var w, f, rest := C.EncodeAll(frames), frames[0], C.EncodeAll(frames[1..]);
      if |f.payload| > cfg.maxFrameSize {
        LargeFrameIsRefused(cfg, f, rest);
      } else {
        EncodedFrameIsRead(cfg, f, rest);
        assert w[|EncodeFrame(f)|..] == rest;
        FramesAreReadUpToLimit(cfg, frames[1..]);
        var n := Fitting(cfg.maxFrameSize, frames[1..]);
        assert [f] + frames[1..][..n] == frames[..n + 1];
      }
    }
  }

  /** One message: its frame is taken for it, and the histories agree again. */
  lemma OneIsTaken(c: Codec, e: Encoder, s: Settings, r: Receiver, o: Outgoing)
    requires IsCodec(c) && Agree(c, e, r.decoder) && r.assembly == Idle && !r.compressed && Allowed(s, o)
    requires IsData(o.message) ==> IsSafeToSend(e, o.message.data)
    ensures var (f, e') := EncodeOne(c, e, o);
            var t := TakeCompressed(c, s, r, f);
            t.Taking? && t.message == Some(o.message) && Agree(c, e', t.receiver.decoder) && t.receiver.assembly == Idle && !t.receiver.compressed
  {
    hide IsCodec, Agree, Compress, ValidUtf8;
    if IsData(o.message) {
      DataIsTaken(c, e, s, r, o);
    } else if o.message.CloseMessage? {
      CloseRoundTrip(o.message.reason);
    }
  }

  lemma DataIsTaken(c: Codec, e: Encoder, s: Settings, r: Receiver, o: Outgoing)
    requires IsCodec(c) && Agree(c, e, r.decoder) && r.assembly == Idle && !r.compressed && Allowed(s, o)
    requires IsData(o.message) && IsSafeToSend(e, o.message.data)
    ensures var (f, e') := EncodeOne(c, e, o);
            var t := TakeCompressed(c, s, r, f);
            t.Taking? && t.message == Some(o.message) && Agree(c, e', t.receiver.decoder) && t.receiver.assembly == Idle && !t.receiver.compressed
  {
    hide IsCodec, Agree, Compress, ValidUtf8, IsDamaged, Yield, Decompress;
    var w := Compress(c, e, o.message.data, o.marks).0;
    OneMessage(c, e, r.decoder, o.message.data, o.marks);
    if w.Deflated? {
      MessageIsWhole(c, e, r.decoder, o.message.data, o.marks);
    } else {
      RawArrives(c, r.decoder, w);
    }
  }

  lemma {:induction false} FittingAreTaken(c: Codec, e: Encoder, s: Settings, r: Receiver, os: seq<Outgoing>, n: nat)
    requires IsCodec(c) && Agree(c, e, r.decoder) && r.assembly == Idle && !r.compressed && SafeOrder(e, os)
    requires forall i :: 0 <= i < |os| ==> Allowed(s, os[i])
    requires n <= |os|
    ensures var t := TakeAll(c, s, r, EncodeList(c, e, os)[..n]);
            t.messages == MessagesOfAll(os)[..n] && t.failure.None?
    decreases |os|
  {
    hide IsCodec, Agree, EncodeOne, TakeCompressed, Allowed;
    if n > 0 {
      var (f, e') := EncodeOne(c, e, os[0]);
      var frames, rest := EncodeList(c, e, os), EncodeList(c, e', os[1..]);
      OneIsTaken(c, e, s, r, os[0]);
      var t := TakeCompressed(c, s, r, f);
      StillSafe(c, e, os);
      FittingAreTaken(c, e', s, t.receiver, os[1..], n - 1);
      assert frames[..n][0] == f && frames[..n][1..] == rest[..n - 1];
      assert MessagesOfAll(os)[..n] == [os[0].message] + MessagesOfAll(os[1..])[..n - 1];
    }
  }

  lemma StillSafe(c: Codec, e: Encoder, os: seq<Outgoing>)
    requires os != [] && SafeOrder(e, os)
    ensures SafeOrder(EncodeOne(c, e, os[0]).1, os[1..])
  {
    hide Compress;
    var e' := EncodeOne(c, e, os[0]).1;
    if IsData(os[0].message) {
      SameKind(c, e, os[0].message.data, os[0].marks);
    }
    if e.threshold == 0 && !e.noTakeover {
      forall i | 0 <= i < |os[1..]| && IsData(os[1..][i].message) ensures os[1..][i].message.data != [] || IsFirst(e', os[1..], i) {
        assert os[1..][i] == os[i + 1];
        if IsFirst(e, os, i + 1) {
          assert forall j :: 0 <= j < i ==> os[1..][j] == os[j + 1];
        }
      }
    }
  }

  lemma {:induction false} ListIsProper(c: Codec, e: Encoder, s: Settings, os: seq<Outgoing>)
    requires s.frames.allowRsv1 && forall i :: 0 <= i < |os| ==> Allowed(s, os[i])
    requires forall i :: 0 <= i < |EncodeList(c, e, os)| ==> |EncodeList(c, e, os)[i].payload| < TopBit
    ensures forall i :: 0 <= i < |EncodeList(c, e, os)| ==>
              var f := EncodeList(c, e, os)[i];
              && Acceptable(PM.Unlimited(s.frames, f.header), f)
              && (|f.payload| <= s.frames.maxFrameSize ==> Acceptable(s.frames, f))
    decreases |os|
  {
    hide EncodeOne, Allowed, Acceptable;
    if os != [] {
      var (f, e') := EncodeOne(c, e, os[0]);
      var frames, rest := EncodeList(c, e, os), EncodeList(c, e', os[1..]);
      assert frames[0] == f && frames[1..] == rest;
      FrameIsProper(c, e, s, os[0]);
      forall i | 0 <= i < |rest| ensures |rest[i].payload| < TopBit {
        assert rest[i] == frames[i + 1];
      }
      ListIsProper(c, e', s, os[1..]);
      assert forall i :: 0 < i < |frames| ==> frames[i] == rest[i - 1];
    }
  }

  /**
   Any list of messages, compressed and encoded in one role and cut anywhere, in the other: received
   whole if and only if every body, compressed or not, is within the receiver's frame limit; and
   otherwise everything before the first larger one is received, which is refused for its size.
   */
  lemma CompressedMessagesSurviveCutting(c: Codec, e: Encoder, s: Settings, d: Decoder, os: seq<Outgoing>, chunks: seq<seq<Octet>>)
    requires IsCodec(c) && Agree(c, e, d) && SafeOrder(e, os) && s.frames.allowRsv1
    requires forall i :: 0 <= i < |os| ==> Allowed(s, os[i])
    requires forall i :: 0 <= i < |EncodeList(c, e, os)| ==> |EncodeList(c, e, os)[i].payload| < TopBit
    requires Concat(chunks) == C.EncodeAll(EncodeList(c, e, os))
    ensures var frames := EncodeList(c, e, os);
            var n, read := Fitting(s.frames.maxFrameSize, frames), C.Feed(PM.Fresh(s.frames), [], chunks);
            var t := TakeAll(c, s, Receiver(d, Idle, false), read.frames);
            && t.messages == MessagesOfAll(os)[..n] && t.failure.None?
            && read.error == if n == |os| then None else Some(FrameTooLarge)
    ensures var frames := EncodeList(c, e, os);
            Fitting(s.frames.maxFrameSize, frames) == |frames| <==>
              forall i :: 0 <= i < |frames| ==> |frames[i].payload| <= s.frames.maxFrameSize
  {
    hide IsCodec, Agree, EncodeList, TakeAll, Concat, Allowed, Fitting, Acceptable;
    var frames := EncodeList(c, e, os);
    ListIsProper(c, e, s, os);
    C.ChunkingIsIrrelevant(s.frames, chunks);
    FramesAreReadUpToLimit(s.frames, frames);
    FittingAreTaken(c, e, s, Receiver(d, Idle, false), os, Fitting(s.frames.maxFrameSize, frames));
    AllFit(s.frames.maxFrameSize, frames);
  }

  lemma {:induction false} AllFit(limit: nat, frames: seq<Frame>)
    ensures Fitting(limit, frames) == |frames| <==> forall i :: 0 <= i < |frames| ==> |frames[i].payload| <= limit
    decreases |frames|
  {
    if frames != [] {
      AllFit(limit, frames[1..]);
      assert forall i :: 0 < i < |frames| ==> frames[i] == frames[1..][i - 1];
    }
  }

  /** An encoder that keeps no history never sends more than it was given. */
  lemma NoTakeoverNeverGrows(c: Codec, e: Encoder, data: seq<Octet>, marks: nat)
    requires e.noTakeover
    ensures |Compress(c, e, data, marks).0.data| <= |data|
  {
  }

  /** With takeover a message of exactly the frame limit can be refused: storing makes it larger. */
  lemma LargestMessageCanBeRefused(s: Settings, window: nat, threshold: nat, o: Outgoing)
    requires IsData(o.message) && |o.message.data| == s.frames.maxFrameSize > 0 && threshold <= |o.message.data|
    ensures var frames := EncodeList(StoringCodec(), Encoder([], false, false, threshold, window), [o]);
            Fitting(s.frames.maxFrameSize, frames) == 0 && |frames| == 1
  {
    hide Store;
    var c, e := StoringCodec(), Encoder([], false, false, threshold, window);
    StoreEndsWithTrailer(o.message.data);
    MarkersEndWithTrailer(Store(o.message.data), o.marks);
  }

  // ---------------------------------------------------------------------
  // Fragments from a peer that sends them
  // ---------------------------------------------------------------------

  /** The frames of a fragmented message; only the first has the compression bit. */
  function PieceFrames(op: OpCode, rsv1: bool, pieces: seq<Piece>): seq<Frame>
    decreases |pieces|
  {
    if pieces == [] then []
    else
      var f := Frame(Header(|pieces| == 1, rsv1, false, false, op, false, |pieces[0].data|, None), pieces[0].data);
      [f] + (if |pieces| == 1 then [] else pieces[0].controls + PieceFrames(Continuation, false, pieces[1..]))
  }

  /** What a completed message adds to what was taken before it. */
  function Finished(before: seq<Message>, o: Outcome, r: Receiver): Reassembly {
    match o
    case Refused(failure) => Reassembly(before, Some(failure), r)
    case Taking(m, r') => Reassembly(before + (if m.Some? then [m.value] else []), None, r')
  }

  predicate SameResult(a: Reassembly, b: Reassembly) {
    a.messages == b.messages && a.failure == b.failure && (a.failure.None? ==> a.receiver == b.receiver)
  }

  /**
   However a compressed or plain message is fragmented, and whatever control frames are put between:
   the controls are returned in place, and then what the whole message completes to.
   */
  lemma {:induction false} FragmentsAreCompleted(c: Codec, s: Settings, r: Receiver, op: OpCode, first: OpCode, rsv1: bool, pieces: seq<Piece>)
    requires pieces != [] && GoodPieces(pieces) && (op == Text || op == Binary)
    requires if first == Continuation then r.assembly.opcode == Some(op) && !rsv1 else first == op && r.assembly == Idle
    requires |r.assembly.data + WholeData(pieces)| <= s.maxMessageSize
    requires |pieces| > 1 && first == Text && s.checkText && !rsv1 ==> Remainder(pieces[0].data).Some?
    ensures var all, compressed := r.assembly.data + WholeData(pieces), if first == Continuation then r.compressed else rsv1;
            SameResult(TakeAll(c, s, r, PieceFrames(first, rsv1, pieces)),
                       Finished(ControlMessages(pieces), Complete(c, s, r, op, all, compressed), r))
    decreases |pieces|
  {
    hide Complete, Remainder, GoodPieces, WholeData, PieceFrames, TakeAll;
    var compressed, data := if first == Continuation then r.compressed else rsv1, r.assembly.data + pieces[0].data;
    WholeFromFirst(r.assembly.data, pieces);
    if |pieces| == 1 {
      LastPiece(c, s, r, op, first, rsv1, pieces);
    } else {
      hide ControlMessages;
      var r' := r.(assembly := Assembly(Some(op), data), compressed := compressed);
      ControlsOfFirst(pieces);
      FirstPieceIsTaken(c, s, r, op, first, rsv1, pieces);
      FragmentsAreCompleted(c, s, r', op, Continuation, false, pieces[1..]);
      DecoderDecides(c, s, r, r', op, data + WholeData(pieces[1..]), compressed);
      FinishedLater(ControlsOf(pieces[0].controls), ControlMessages(pieces[1..]),
                    Complete(c, s, r, op, data + WholeData(pieces[1..]), compressed), r, r');
    }
  }

  lemma WholeFromFirst(data: seq<Octet>, pieces: seq<Piece>)
    requires pieces != []
    ensures data + WholeData(pieces) == data + pieces[0].data + WholeData(pieces[1..])
    ensures |pieces| == 1 ==> WholeData(pieces) == pieces[0].data
  {
    var first, rest := pieces[0].data, WholeData(pieces[1..]);
    assert WholeData(pieces) == first + rest;
    if |pieces| == 1 {
      assert pieces[1..] == [] && rest == [];
      assert first + [] == first;
    }
    hide WholeData;
    Regroup(data, first, rest);
  }

  lemma Regroup(a: seq<Octet>, b: seq<Octet>, d: seq<Octet>)
    ensures a + (b + d) == a + b + d
  {
  }

  lemma FinishedLater(a: seq<Message>, b: seq<Message>, o: Outcome, r: Receiver, r': Receiver)
    ensures var f := Finished(b, o, r'); SameResult(f.(messages := a + f.messages), Finished(a + b, o, r))
  {
    if o.Taking? && o.message.Some? {
      assert a + (b + [o.message.value]) == a + b + [o.message.value];
    }
  }

  lemma DecoderDecides(c: Codec, s: Settings, r: Receiver, r': Receiver, op: OpCode, all: seq<Octet>, compressed: bool)
    requires r.decoder == r'.decoder
    ensures Complete(c, s, r, op, all, compressed) == Complete(c, s, r', op, all, compressed)
  {
  }

  lemma LastPiece(c: Codec, s: Settings, r: Receiver, op: OpCode, first: OpCode, rsv1: bool, pieces: seq<Piece>)
    requires |pieces| == 1 && GoodPieces(pieces) && (op == Text || op == Binary)
    requires if first == Continuation then r.assembly.opcode == Some(op) && !rsv1 else first == op && r.assembly == Idle
    requires |r.assembly.data + pieces[0].data| <= s.maxMessageSize
    ensures var all, compressed := r.assembly.data + pieces[0].data, if first == Continuation then r.compressed else rsv1;
            SameResult(TakeAll(c, s, r, PieceFrames(first, rsv1, pieces)), Finished([], Complete(c, s, r, op, all, compressed), r))
  {
    hide Complete;
    var frames := PieceFrames(first, rsv1, pieces);
    if first != Continuation {
      assert r.assembly.data + pieces[0].data == pieces[0].data;
    }
    assert frames[1..] == [];
  }

  lemma FirstPieceIsTaken(c: Codec, s: Settings, r: Receiver, op: OpCode, first: OpCode, rsv1: bool, pieces: seq<Piece>)
    requires |pieces| > 1 && GoodPieces(pieces) && GoodPieces(pieces[1..]) && (op == Text || op == Binary)
    requires if first == Continuation then r.assembly.opcode == Some(op) && !rsv1 else first == op && r.assembly == Idle
    requires |r.assembly.data + pieces[0].data| <= s.maxMessageSize
    requires first == Text && s.checkText && !rsv1 ==> Remainder(pieces[0].data).Some?
    ensures GoodControls(pieces[0].controls) && ControlMessages(pieces) == ControlsOf(pieces[0].controls) + ControlMessages(pieces[1..])
    ensures var r' := r.(assembly := Assembly(Some(op), r.assembly.data + pieces[0].data),
                         compressed := if first == Continuation then r.compressed else rsv1);
            var later := TakeAll(c, s, r', PieceFrames(Continuation, false, pieces[1..]));
            TakeAll(c, s, r, PieceFrames(first, rsv1, pieces)) == later.(messages := ControlsOf(pieces[0].controls) + later.messages)
  {
    hide Complete, Remainder, ControlsOf, IsGoodControl;
    var frames, rest := PieceFrames(first, rsv1, pieces), PieceFrames(Continuation, false, pieces[1..]);
    ControlsOfFirst(pieces);
    if first != Continuation {
      assert r.assembly.data + pieces[0].data == pieces[0].data;
    }
    assert frames[1..] == pieces[0].controls + rest;
    ControlsAreTaken(c, s, TakeCompressed(c, s, r, frames[0]).receiver, pieces[0].controls, rest);
  }

  lemma {:induction false} ControlsAreTaken(c: Codec, s: Settings, r: Receiver, controls: seq<Frame>, rest: seq<Frame>)
    requires GoodControls(controls)
    ensures var later := TakeAll(c, s, r, rest);
            TakeAll(c, s, r, controls + rest) == later.(messages := ControlsOf(controls) + later.messages)
    decreases |controls|
  {
    hide TakeCompressed, ControlMessage, IsGoodControl;
    if controls == [] {
      assert controls + rest == rest;
    } else {
      var all := controls + rest;
      assert IsGoodControl(controls[0]);
      ControlPasses(c, s, r, controls[0]);
      assert all[0] == controls[0] && all[1..] == controls[1..] + rest;
      ControlsAreTaken(c, s, r, controls[1..], rest);
      assert ControlsOf(controls) == [ControlMessage(controls[0])] + ControlsOf(controls[1..]);
    }
  }

  lemma ControlPasses(c: Codec, s: Settings, r: Receiver, f: Frame)
    requires IsGoodControl(f)
    ensures TakeCompressed(c, s, r, f) == Taking(Some(ControlMessage(f)), r)
  {
    hide ControlMessage, TakeFrame, TakeFirst, TakeContinuation;
    ControlIsTaken(s, r.assembly, f);
  }
}
