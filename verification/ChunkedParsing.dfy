/**
 Whole streams: parsing a byte stream in arbitrary chunks gives the frames and the
 first error of reading it at once, and encoded frames survive any cutting.
 */
module ChunkedParsing {
  import opened Octets
  import opened FrameFormat
  import opened ParserModel

  // ---------------------------------------------------------------------
  // Reading a whole stream
  // ---------------------------------------------------------------------

  /** Frames in wire order, the first error if any, and the octets after the last frame. */
  datatype Reading = Reading(frames: seq<Frame>, error: Option<FrameError>, rest: seq<Octet>)

  function ReadAll(cfg: ParserConfig, w: seq<Octet>): Reading
    decreases |w|
  {
    match ReadFrame(cfg, w)
    case NeedMore => Reading([], None, w)
    case Rejected(e) => Reading([], Some(e), w)
    case Accepted(f, n) =>
      ReadFrameIsEncoded(cfg, w);
      var later := ReadAll(cfg, w[n..]);
      later.(frames := [f] + later.frames)
  }

  lemma {:induction false} ReadAllExtends(cfg: ParserConfig, w: seq<Octet>, more: seq<Octet>)
    ensures var a, b := ReadAll(cfg, w), ReadAll(cfg, w + more);
            if a.error.Some? then b.frames == a.frames && b.error == a.error
            else var c := ReadAll(cfg, a.rest + more);
                 b == c.(frames := a.frames + c.frames)
    decreases |w|
  {
    hide ReadFrame, EncodeFrame, Acceptable;
    match ReadFrame(cfg, w)
    case NeedMore =>
      assert ReadAll(cfg, w).frames + ReadAll(cfg, w + more).frames == ReadAll(cfg, w + more).frames;
    case Rejected(e) =>
      ReadFrameStable(cfg, w, more);
    case Accepted(f, n) =>
      ReadFrameStable(cfg, w, more);
      ReadFrameIsEncoded(cfg, w);
      assert (w + more)[n..] == w[n..] + more;
      ReadAllExtends(cfg, w[n..], more);
      var a := ReadAll(cfg, w);
      if a.error.None? {
        var c := ReadAll(cfg, a.rest + more);
        assert [f] + (ReadAll(cfg, w[n..]).frames + c.frames) == a.frames + c.frames;
      }
  }

  function EncodeAll(frames: seq<Frame>): seq<Octet> {
    if frames == [] then [] else EncodeFrame(frames[0]) + EncodeAll(frames[1..])
  }

  lemma {:induction false} EncodedFramesAreRead(cfg: ParserConfig, frames: seq<Frame>)
    requires forall i :: 0 <= i < |frames| ==> Acceptable(cfg, frames[i])
    ensures ReadAll(cfg, EncodeAll(frames)) == Reading(frames, None, [])
  {
    if frames != [] {
      var w, n := EncodeAll(frames), |EncodeFrame(frames[0])|;
      EncodedFrameIsRead(cfg, frames[0], EncodeAll(frames[1..]));
      assert w[n..] == EncodeAll(frames[1..]);
      EncodedFramesAreRead(cfg, frames[1..]);
      assert [frames[0]] + frames[1..] == frames;
    }
  }

  // ---------------------------------------------------------------------
  // Parsing in chunks
  // ---------------------------------------------------------------------

  datatype Run = Run(parser: Parser, buf: seq<Octet>, frames: seq<Frame>, error: Option<FrameError>)

  /** Arrival of more octets: the state stays valid and the raw octets grow by exactly those. */
  lemma ArrivalExtendsRaw(p: Parser, buf: seq<Octet>, chunk: seq<Octet>)
    requires Valid(p, buf)
    ensures Valid(p, buf + chunk) && Raw(p, buf + chunk) == Raw(p, buf) + chunk
  {
    if p.header.Some? && !AwaitsKey(p) {
      assert (buf + chunk)[..p.ready] == buf[..p.ready];
      assert (buf + chunk)[p.ready..] == buf[p.ready..] + chunk;
      assert Raw(p, buf + chunk) == Raw(p, buf) + chunk;
    } else {
      assert p.saved + (buf + chunk) == p.saved + buf + chunk;
    }
  }

  lemma FreshStandsOnBuffer(cfg: ParserConfig, buf: seq<Octet>)
    ensures Valid(Fresh(cfg), buf) && Raw(Fresh(cfg), buf) == buf
  {
  }

  /** Call the parser until it needs more octets or fails. */
  function ParseAll(p: Parser, buf: seq<Octet>): Run
    requires Valid(p, buf)
    decreases |Raw(p, buf)|
  {
    ParseSlowRefines(p, buf);
    FastPathsAreSlowPath(p, buf);
    var r := Parse(p, buf);
    match r.outcome
    case More => Run(r.parser, r.buf, [], None)
    case Failed(e) => Run(r.parser, r.buf, [], Some(e))
    case Got(f) =>
      ReadFrameIsEncoded(p.cfg, Raw(p, buf));
      var later := ParseAll(r.parser, r.buf);
      later.(frames := [f] + later.frames)
  }

  lemma {:induction false} ParseAllReads(p: Parser, buf: seq<Octet>)
    requires Valid(p, buf)
    ensures var r, a := ParseAll(p, buf), ReadAll(p.cfg, Raw(p, buf));
            && r.frames == a.frames && r.error == a.error
            && r.parser.cfg == p.cfg && Valid(r.parser, r.buf) && Raw(r.parser, r.buf) == a.rest
    decreases |Raw(p, buf)|
  {
    hide ReadFrame, EncodeFrame, Acceptable, Parse, ParseSlow, ParseAfterMiss, Raw, Valid;
    ParseSlowRefines(p, buf);
    FastPathsAreSlowPath(p, buf);
    var r := Parse(p, buf);
    FreshStandsOnBuffer(p.cfg, r.buf);
    if r.outcome.Got? {
      ReadFrameIsEncoded(p.cfg, Raw(p, buf));
      ParseAllReads(r.parser, r.buf);
    }
  }

  /** Chunks arrive one by one; after an error nothing more is parsed. */
  function Feed(p: Parser, buf: seq<Octet>, chunks: seq<seq<Octet>>): Run
    requires Valid(p, buf)
    decreases |chunks|
  {
    if chunks == [] then Run(p, buf, [], None)
    else
      ArrivalExtendsRaw(p, buf, chunks[0]);
      ParseAllReads(p, buf + chunks[0]);
      var first := ParseAll(p, buf + chunks[0]);
      if first.error.Some? then first
      else
        var later := Feed(first.parser, first.buf, chunks[1..]);
        later.(frames := first.frames + later.frames)
  }

  /** From any state in which nothing more can be read yet. */
  lemma {:induction false} FeedReads(p: Parser, buf: seq<Octet>, chunks: seq<seq<Octet>>)
    requires Valid(p, buf) && ReadFrame(p.cfg, Raw(p, buf)).NeedMore?
    ensures var r, a := Feed(p, buf, chunks), ReadAll(p.cfg, Raw(p, buf) + Concat(chunks));
            r.frames == a.frames && r.error == a.error
    decreases |chunks|
  {
    hide ReadFrame, ReadAll, ParseAll, Raw, Valid;
    var raw := Raw(p, buf);
    if chunks == [] {
      NothingToRead(p.cfg, raw);
      assert raw + Concat(chunks) == raw;
    } else {
      ArrivalExtendsRaw(p, buf, chunks[0]);
      ParseAllReads(p, buf + chunks[0]);
      var first := ParseAll(p, buf + chunks[0]);
      ReadAllExtends(p.cfg, raw + chunks[0], Concat(chunks[1..]));
      assert raw + Concat(chunks) == raw + chunks[0] + Concat(chunks[1..]);
      if first.error.None? {
        RestNeedsMore(p.cfg, raw + chunks[0]);
        FeedReads(first.parser, first.buf, chunks[1..]);
      }
    }
  }

  lemma NothingToRead(cfg: ParserConfig, w: seq<Octet>)
    requires ReadFrame(cfg, w).NeedMore?
    ensures ReadAll(cfg, w) == Reading([], None, w)
  {
  }

  lemma {:induction false} RestNeedsMore(cfg: ParserConfig, w: seq<Octet>)
    requires ReadAll(cfg, w).error.None?
    ensures ReadFrame(cfg, ReadAll(cfg, w).rest).NeedMore?
    decreases |w|
  {
    if ReadFrame(cfg, w).Accepted? {
      ReadFrameIsEncoded(cfg, w);
      RestNeedsMore(cfg, w[ReadFrame(cfg, w).size..]);
    }
  }

  /** Chunking changes neither the frames nor the first error. */
  lemma ChunkingIsIrrelevant(cfg: ParserConfig, chunks: seq<seq<Octet>>)
    ensures var r, a := Feed(Fresh(cfg), [], chunks), ReadAll(cfg, Concat(chunks));
            r.frames == a.frames && r.error == a.error
  {
    FeedReads(Fresh(cfg), [], chunks);
    assert Raw(Fresh(cfg), []) + Concat(chunks) == Concat(chunks);
  }

  /** Encoded frames come back from any cutting of the stream. */
  lemma FramesSurviveCutting(cfg: ParserConfig, frames: seq<Frame>, chunks: seq<seq<Octet>>)
    requires forall i :: 0 <= i < |frames| ==> Acceptable(cfg, frames[i])
    requires Concat(chunks) == EncodeAll(frames)
    ensures var r := Feed(Fresh(cfg), [], chunks); r.frames == frames && r.error.None?
  {
    ChunkingIsIrrelevant(cfg, chunks);
    EncodedFramesAreRead(cfg, frames);
  }

  // ---------------------------------------------------------------------
  // Changing the frame size limit in mid-frame
  // ---------------------------------------------------------------------

  function SetMaxFrameSize(p: Parser, limit: nat): Parser {
    var p' := p.(cfg := p.cfg.(maxFrameSize := limit));
    if p.header.Some? && p.header.value.payloadLen > limit then p'.(phase := AtTooLarge) else p'
  }

  lemma BaseErrorIgnoresLimit(cfg: ParserConfig, limit: nat, b0: Octet, b1: Octet)
    ensures BaseError(cfg.(maxFrameSize := limit), b0, b1) == BaseError(cfg, b0, b1)
  {
  }

  /** A length that fits a limit is read the same under every limit it fits. */
  lemma LengthUnderOtherLimit(cfg: ParserConfig, limit: nat, w: seq<Octet>)
    requires ReadLength(cfg, w).LengthKnown? && ReadLength(cfg, w).header.payloadLen <= limit
    ensures ReadLength(cfg.(maxFrameSize := limit), w) == ReadLength(cfg, w)
  {
    BaseErrorIgnoresLimit(cfg, limit, w[0], w[1]);
  }

  /** A frame was rejected for its size under an earlier limit, but fits the new one. */
  predicate RejectedButFits(p: Parser, limit: nat) {
    p.phase == AtTooLarge && p.header.Some? && p.header.value.payloadLen <= limit
  }

  /** What a parse call should answer, from the unread octets alone. */
  predicate AnswersFor(cfg: ParserConfig, raw: seq<Octet>, o: Outcome) {
    match ReadFrame(cfg, raw)
    case NeedMore => o == More
    case Rejected(e) => o == Failed(e)
    case Accepted(f, _) => o == Got(f)
  }

  /** A limit change keeps the partly received frame, octet for octet. */
  lemma LimitChangeKeepsState(p: Parser, buf: seq<Octet>, limit: nat)
    requires Valid(p, buf)
    ensures Raw(SetMaxFrameSize(p, limit), buf) == Raw(p, buf)
    ensures Usable(SetMaxFrameSize(p, limit), buf)
    ensures Valid(SetMaxFrameSize(p, limit), buf) <==> !RejectedButFits(p, limit)
  {
    var p' := SetMaxFrameSize(p, limit);
    if p.header.Some? {
      var h := p.header.value;
      if p.phase == AtMask {
        LengthUnderOtherLimit(p.cfg, if h.payloadLen > limit then h.payloadLen else limit, p.saved);
      }
      assert Unlimited(p'.cfg, h) == Unlimited(p.cfg, h);
    } else if p.phase == AtLength16 || p.phase == AtLength64 {
      BaseErrorIgnoresLimit(p.cfg, limit, p.saved[0], p.saved[1]);
    }
  }

  /** A frame that fits the new limit does not read as too large under it, however it was treated before. */
  lemma FittingFrameIsNotTooLarge(p: Parser, buf: seq<Octet>, limit: nat)
    requires Valid(p, buf) && RejectedButFits(p, limit)
    ensures ReadFrame(p.cfg.(maxFrameSize := limit), Raw(p, buf)) != Rejected(FrameTooLarge)
  {
    hide EncodeHeader, AcceptableHeader, Transmitted, FromBigEndian;
    var h, cfg := p.header.value, p.cfg.(maxFrameSize := limit);
    var big := Unlimited(p.cfg, h);
    assert cfg == big.(maxFrameSize := limit);
    if AwaitsKey(p) {
      ReadLengthStable(big, p.saved, buf);
      LengthUnderOtherLimit(big, limit, p.saved + buf);
    } else {
      var rest := Transmitted(h, 0, buf[..p.ready]) + buf[p.ready..];
      assert Raw(p, buf) == EncodeHeader(h) + rest;
      EncodedHeaderIsRead(big, h, rest);
      LengthUnderOtherLimit(big, limit, EncodeHeader(h) + rest);
    }
  }

  /**
   After a limit change the next parse call answers as if the new limit had been in force from the
   frame's first octet, and refines the reader under it, if and only if it is not the case that the
   frame was rejected before and fits the new limit: the rejection is permanent.
   */
  lemma SetMaxFrameSizeKeepsFrame(p: Parser, buf: seq<Octet>, limit: nat)
    requires Valid(p, buf)
    ensures Usable(SetMaxFrameSize(p, limit), buf)
    ensures var r, cfg := ParseSlow(SetMaxFrameSize(p, limit), buf), p.cfg.(maxFrameSize := limit);
            && (AnswersFor(cfg, Raw(p, buf), r.outcome) <==> !RejectedButFits(p, limit))
            && (!RejectedButFits(p, limit) ==> Refines(cfg, Raw(p, buf), r))
  {
    hide Valid, Raw, ReadFrame;
    LimitChangeKeepsState(p, buf, limit);
    if RejectedButFits(p, limit) {
      FittingFrameIsNotTooLarge(p, buf, limit);
    } else {
      hide ParseSlow;
      ParseSlowRefines(SetMaxFrameSize(p, limit), buf);
    }
  }

  /** Lowering the limit below a waiting frame and raising it again: the frame is refused, although the reader only waits for more. */
  lemma RaisingTheLimitDoesNotRevive()
    ensures var cfg := ParserConfig(10, false, false);
            var p := ParseSlow(Fresh(cfg), [0x82, 5]).parser;
            && Valid(p, [])
            && var q := SetMaxFrameSize(SetMaxFrameSize(p, 2), 10);
               && q.cfg == cfg
               && ParseSlow(q, []).outcome == Failed(FrameTooLarge)
               && ReadFrame(cfg, [0x82, 5]) == NeedMore
  {
    hide Valid, ReadFrame, SlowPayload;
    var cfg, w := ParserConfig(10, false, false), [0x82, 5];
    FiveOctetsAnnounced(cfg, w);
    PartialFrameIsSlow(Fresh(cfg), w, Header(true, false, false, false, Binary, false, 5, None), 2);
    assert w[2..] == [];
    NothingOfPayload(Fresh(cfg).(phase := AtPayload, header := Some(Header(true, false, false, false, Binary, false, 5, None))));
  }

  lemma NothingOfPayload(p: Parser)
    requires p.phase == AtPayload && p.header.Some? && p.ready == 0 && p.header.value.payloadLen > 0
    ensures SlowPayload(p, []) == Parsed(p, [], More)
    ensures AcceptableHeader(p.cfg, p.header.value) ==> Valid(p, [])
  {
  }

  lemma FiveOctetsAnnounced(cfg: ParserConfig, w: seq<Octet>)
    requires cfg == ParserConfig(10, false, false) && w == [0x82, 5]
    ensures ReadHeader(cfg, w) == HeaderKnown(Header(true, false, false, false, Binary, false, 5, None), 2)
    ensures ReadFrame(cfg, w) == NeedMore
  {
    CompleteDataBits(cfg, 0x82, 5, Binary);
  }
}
