/**
 The incremental frame parser as a function from parser state and buffer to
 parser state, buffer and outcome, and its proof against the stateless reader.
 The class in FrameParser.dfy performs these steps in place.
 */
module ParserModel {
  import opened Octets
  import opened Masking
  import opened FrameFormat

  datatype Phase = AtHeader | AtLength16 | AtLength64 | AtMask | AtPayload | AtTooLarge

  /** `saved` is the filled part of the header buffer; `ready` counts unmasked octets at the buffer's front. */
  datatype Parser = Parser(cfg: ParserConfig, phase: Phase, saved: seq<Octet>, header: Option<Header>, ready: nat)

  datatype Outcome = More | Got(frame: Frame) | Failed(error: FrameError)

  datatype Parsed = Parsed(parser: Parser, buf: seq<Octet>, outcome: Outcome)

  function Fresh(cfg: ParserConfig): Parser {
    Parser(cfg, AtHeader, [], None, 0)
  }

  // ---------------------------------------------------------------------
  // Invariant and abstraction
  // ---------------------------------------------------------------------

  /** The parser is waiting for masking-key octets (also when a lowered limit has since rejected the frame). */
  predicate AwaitsKey(p: Parser) {
    p.header.Some? && p.header.value.masked && p.header.value.mask.None?
  }

  predicate SavedLengthOk(cfg: ParserConfig, saved: seq<Octet>, ext: nat) {
    && 2 <= |saved| <= 2 + ext
    && BaseError(cfg, saved[0], saved[1]).None?
    && LengthOctets(saved[1]) == ext
  }

  predicate AwaitsKeyOk(cfg: ParserConfig, saved: seq<Octet>, h: Header) {
    && ReadLength(cfg, saved).LengthKnown?
    && ReadLength(cfg, saved).header == h
    && |saved| < HeaderBase(h.payloadLen) + 4
  }

  /** Reader configuration with the frame size limit lifted. */
  function Unlimited(cfg: ParserConfig, h: Header): ParserConfig {
    cfg.(maxFrameSize := h.payloadLen)
  }

  predicate Valid(p: Parser, buf: seq<Octet>) {
    match p.phase
    case AtHeader => p == Fresh(p.cfg)
    case AtLength16 => SavedLengthOk(p.cfg, p.saved, 2) && p.header.None? && p.ready == 0
    case AtLength64 => SavedLengthOk(p.cfg, p.saved, 8) && p.header.None? && p.ready == 0
    case AtMask => AwaitsKey(p) && AwaitsKeyOk(p.cfg, p.saved, p.header.value) && p.ready == 0
    case AtPayload => p.header.Some? && AcceptableHeader(p.cfg, p.header.value)
                      && p.ready <= |buf| && p.ready <= p.header.value.payloadLen
    case AtTooLarge =>
      && p.header.Some? && p.header.value.payloadLen > p.cfg.maxFrameSize
      && p.ready <= |buf| && p.ready <= p.header.value.payloadLen
      && (if AwaitsKey(p) then AwaitsKeyOk(Unlimited(p.cfg, p.header.value), p.saved, p.header.value) && p.ready == 0
          else AcceptableHeader(Unlimited(p.cfg, p.header.value), p.header.value))
  }

  /** A parse call is possible: in every valid state, and forever once a frame was rejected for its size. */
  predicate Usable(p: Parser, buf: seq<Octet>) {
    p.phase == AtTooLarge || Valid(p, buf)
  }

  /**
   The raw unread wire octets that the parser state and the caller's buffer stand for:
   saved header octets, then the re-masked ready prefix, then the rest.
   */
  function Raw(p: Parser, buf: seq<Octet>): seq<Octet> {
    if p.header.Some? && !AwaitsKey(p) && p.ready <= |buf| then
      EncodeHeader(p.header.value) + Transmitted(p.header.value, 0, buf[..p.ready]) + buf[p.ready..]
    else
      p.saved + buf
  }

  // ---------------------------------------------------------------------
  // The slow path
  // ---------------------------------------------------------------------

  function SlowPayload(p: Parser, buf: seq<Octet>): Parsed
    requires p.header.Some? && p.ready <= |buf|
  {
    var h := p.header.value;
    if |buf| < h.payloadLen then
      if |buf| > p.ready then
        Parsed(p.(ready := |buf|), buf[..p.ready] + Transmitted(h, p.ready, buf[p.ready..]), More)
      else Parsed(p, buf, More)
    else
      var payload := buf[..h.payloadLen];
      var unmasked := if p.ready < h.payloadLen
                      then payload[..p.ready] + Transmitted(h, p.ready, payload[p.ready..]) else payload;
      Parsed(Fresh(p.cfg), buf[h.payloadLen..], Got(Frame(h, unmasked)))
  }

  function SlowMask(p: Parser, buf: seq<Octet>): Parsed
    requires p.header.Some? && p.ready == 0 && |p.saved| <= HeaderBase(p.header.value.payloadLen) + 4
  {
    var base := HeaderBase(p.header.value.payloadLen);
    var needed := base + 4 - |p.saved|;
    if |buf| < needed then Parsed(p.(saved := p.saved + buf), [], More)
    else
      var saved := p.saved + buf[..needed];
      var key: MaskKey := saved[base..base + 4];
      var h := p.header.value.(mask := Some(key));
      SlowPayload(p.(phase := AtPayload, saved := saved, header := Some(h)), buf[needed..])
  }

  /** `AtLength16` and `AtLength64`, which differ only in the number of length octets. */
  function SlowLength(p: Parser, buf: seq<Octet>, ext: nat): Parsed
    requires SavedLengthOk(p.cfg, p.saved, ext) && p.ready == 0 && (ext == 2 || ext == 8)
  {
    var needed := 2 + ext - |p.saved|;
    if |buf| < needed then Parsed(p.(saved := p.saved + buf), [], More)
    else
      var saved, rest := p.saved + buf[..needed], buf[needed..];
      var b0, op := saved[0], OpCodeFromNibble(saved[0] % 16).value;
      var len := FromBigEndian(saved[2..]);
      var objection := LengthError(p.cfg, op, ext, len);
      if objection.Some? then Parsed(p.(saved := saved), rest, Failed(objection.value))
      else
        var h := Header(FinBit(b0), Rsv1Bit(b0), Rsv2Bit(b0), Rsv3Bit(b0), op, MaskBit(saved[1]), len, None);
        if h.masked then SlowMask(p.(phase := AtMask, saved := saved, header := Some(h)), rest)
        else SlowPayload(p.(phase := AtPayload, saved := saved, header := Some(h)), rest)
  }

  function SlowHeader(p: Parser, buf: seq<Octet>): Parsed
    requires p.ready == 0
  {
    if |buf| < 2 then Parsed(p, buf, More)
    else
      var b0, b1 := buf[0], buf[1];
      var ext := LengthOctets(b1);
      if BaseError(p.cfg, b0, b1).Some? then Parsed(p, buf, Failed(BaseError(p.cfg, b0, b1).value))
      else if |buf| < 2 + ext then
        Parsed(p.(phase := if ext == 2 then AtLength16 else AtLength64, saved := buf[..2]), buf[2..], More)
      else
        var op := OpCodeFromNibble(b0 % 16).value;
        var len := if ext == 0 then LengthField(b1) else FromBigEndian(buf[2..2 + ext]);
        var objection := LengthError(p.cfg, op, ext, len);
        if objection.Some? then Parsed(p, buf, Failed(objection.value))
        else
          var h := Header(FinBit(b0), Rsv1Bit(b0), Rsv2Bit(b0), Rsv3Bit(b0), op, MaskBit(b1), len, None);
          var total := 2 + ext + (if h.masked then 4 else 0);
          if |buf| < total then Parsed(p.(phase := AtMask, saved := buf, header := Some(h)), [], More)
          else
            var h' := if h.masked then h.(mask := Some(buf[2 + ext..2 + ext + 4])) else h;
            var rest := buf[total..];
            if |rest| >= len then Parsed(p, rest[len..], Got(Frame(h', Transmitted(h', 0, rest[..len]))))
            else SlowPayload(p.(phase := AtPayload, header := Some(h')), rest)
  }

  function ParseSlow(p: Parser, buf: seq<Octet>): Parsed
    requires Usable(p, buf)
  {
    match p.phase
    case AtTooLarge => Parsed(p, buf, Failed(FrameTooLarge))
    case AtHeader => SlowHeader(p, buf)
    case AtLength16 => SlowLength(p, buf, 2)
    case AtLength64 => SlowLength(p, buf, 8)
    case AtMask => SlowMask(p, buf)
    case AtPayload => SlowPayload(p, buf)
  }

  // ---------------------------------------------------------------------
  // The fast paths
  // ---------------------------------------------------------------------

  /** A complete, final, uncompressed, unmasked Text or Binary frame: its opcode, payload and the rest of the buffer. */
  function TryCompleteData(p: Parser, buf: seq<Octet>): Option<(OpCode, seq<Octet>, seq<Octet>)> {
    if p.phase != AtHeader || p.cfg.expectMasked || |buf| < 2 then None
    else if buf[0] != 0x81 && buf[0] != 0x82 then None
    else if buf[1] > 126 || (buf[1] == 126 && |buf| < 4) then None
    else
      var size := if buf[1] <= 125 then 2 else 4;
      var len := if buf[1] <= 125 then buf[1] else FromBigEndian(buf[2..4]);
      if size == 4 && len < 126 then None
      else if len > p.cfg.maxFrameSize || |buf| < size + len then None
      else Some((if buf[0] == 0x81 then Text else Binary, buf[size..size + len], buf[size + len..]))
  }

  function CompleteDataHeader(op: OpCode, len: nat): Header {
    Header(true, false, false, false, op, false, len, None)
  }

  /** A complete frame of at most 125 octets in the direction the parser expects; `None` is a miss. */
  function TrySmallFrame(p: Parser, buf: seq<Octet>): Option<Parsed>
    requires Usable(p, buf)
  {
    var keySize := if p.cfg.expectMasked then 4 else 0;
    if p.phase != AtHeader || |buf| < 2 + keySize then None
    else
      var b0, b1 := buf[0], buf[1];
      var len := LengthField(b1);
      if len > 125 || MaskBit(b1) != p.cfg.expectMasked || |buf| < 2 + keySize + len then None
      else if (Rsv1Bit(b0) && (!p.cfg.allowRsv1 || (b0 % 16 != 1 && b0 % 16 != 2))) || Rsv2Bit(b0) || Rsv3Bit(b0) then
        Some(ParseSlow(p, buf))
      else
        var op := OpCodeFromNibble(b0 % 16);
        if op.None? then None
        else if IsControl(op.value) && !FinBit(b0) then Some(Parsed(p, buf, Failed(FragmentedControl)))
        else if len > p.cfg.maxFrameSize then Some(Parsed(p, buf, Failed(FrameTooLarge)))
        else
          var size := 2 + keySize;
          var h := Header(FinBit(b0), Rsv1Bit(b0), Rsv2Bit(b0), Rsv3Bit(b0), op.value, p.cfg.expectMasked, len,
                          if p.cfg.expectMasked then Some(buf[2..6]) else None);
          Some(Parsed(p, buf[size + len..], Got(Frame(h, Transmitted(h, 0, buf[size..size + len])))))
  }

  function ParseAfterMiss(p: Parser, buf: seq<Octet>): Parsed
    requires Usable(p, buf)
  {
    var small := TrySmallFrame(p, buf);
    if small.Some? then small.value else ParseSlow(p, buf)
  }

  function Parse(p: Parser, buf: seq<Octet>): Parsed
    requires Usable(p, buf)
  {
    var hit := TryCompleteData(p, buf);
    if hit.Some? then
      var (op, payload, rest) := hit.value;
      Parsed(p, rest, Got(Frame(CompleteDataHeader(op, |payload|), payload)))
    else ParseAfterMiss(p, buf)
  }

  // ---------------------------------------------------------------------
  // The slow path against the reader
  // ---------------------------------------------------------------------

  /** What one parse call must do, given the raw octets it stands on. */
  predicate Refines(cfg: ParserConfig, raw: seq<Octet>, r: Parsed) {
    && r.parser.cfg == cfg
    && Valid(r.parser, r.buf)
    && match ReadFrame(cfg, raw)
       case NeedMore => r.outcome == More && Raw(r.parser, r.buf) == raw
       case Rejected(e) => r.outcome == Failed(e) && Raw(r.parser, r.buf) == raw
       case Accepted(f, n) => r.outcome == Got(f) && r.parser == Fresh(cfg) && n <= |raw| && r.buf == raw[n..]
  }

  lemma TransmittedParts(h: Header, a: seq<Octet>, b: seq<Octet>)
    ensures Transmitted(h, 0, a + b) == Transmitted(h, 0, a) + Transmitted(h, |a|, b)
  {
    if h.mask.Some? {
      MaskingConcatenation(a, b, h.mask.value, 0);
    }
  }

  /** Unmasking the tail of a partly unmasked payload yields the whole payload. */
  lemma UnmaskedTail(h: Header, ready: seq<Octet>, tail: seq<Octet>)
    ensures Transmitted(h, 0, ready + Transmitted(h, |ready|, tail)) == Transmitted(h, 0, ready) + tail
    ensures Transmitted(h, 0, Transmitted(h, 0, ready) + tail) == ready + Transmitted(h, |ready|, tail)
  {
    TransmittedParts(h, ready, Transmitted(h, |ready|, tail));
    TransmittedTwice(h, |ready|, tail);
    TransmittedParts(h, Transmitted(h, 0, ready), tail);
    TransmittedTwice(h, 0, ready);
  }

  /** In the payload phase the reader sees the header, and the sent payload behind it. */
  lemma PayloadReads(p: Parser, buf: seq<Octet>)
    requires p.phase == AtPayload && Valid(p, buf)
    ensures var h := p.header.value;
            && Raw(p, buf) == EncodeHeader(h) + (Transmitted(h, 0, buf[..p.ready]) + buf[p.ready..])
            && |Raw(p, buf)| == |EncodeHeader(h)| + |buf|
            && ReadHeader(p.cfg, Raw(p, buf)) == HeaderKnown(h, |EncodeHeader(h)|)
  {
    var h := p.header.value;
    EncodedHeaderIsRead(p.cfg, h, Transmitted(h, 0, buf[..p.ready]) + buf[p.ready..]);
  }

  lemma SlowPayloadRefines(p: Parser, buf: seq<Octet>)
    requires p.phase == AtPayload && Valid(p, buf)
    ensures Refines(p.cfg, Raw(p, buf), SlowPayload(p, buf))
  {
    PayloadReads(p, buf);
    if |buf| < p.header.value.payloadLen {
      PayloadWaits(p, buf);
    } else {
      PayloadCompletes(p, buf);
    }
  }

  lemma PayloadWaits(p: Parser, buf: seq<Octet>)
    requires p.phase == AtPayload && Valid(p, buf) && |buf| < p.header.value.payloadLen
    ensures var r := SlowPayload(p, buf);
            r.outcome == More && r.parser.cfg == p.cfg && Valid(r.parser, r.buf) && Raw(r.parser, r.buf) == Raw(p, buf)
  {
    var h, r := p.header.value, SlowPayload(p, buf);
    PayloadReads(p, buf);
    if |buf| > p.ready {
      UnmaskedTail(h, buf[..p.ready], buf[p.ready..]);
      PayloadReads(r.parser, r.buf);
      assert r.buf[..|buf|] == r.buf && r.buf[|buf|..] == [];
    }
  }

  lemma PayloadCompletes(p: Parser, buf: seq<Octet>)
    requires p.phase == AtPayload && Valid(p, buf) && |buf| >= p.header.value.payloadLen
    ensures var r, n, len := SlowPayload(p, buf), |EncodeHeader(p.header.value)|, p.header.value.payloadLen;
            && n + len <= |Raw(p, buf)|
            && r == Parsed(Fresh(p.cfg), Raw(p, buf)[n + len..],
                           Got(Frame(p.header.value, Transmitted(p.header.value, 0, Raw(p, buf)[n..n + len]))))
  {
    var h, ready, raw := p.header.value, buf[..p.ready], Raw(p, buf);
    var n, tail := |EncodeHeader(h)|, buf[p.ready..h.payloadLen];
    hide EncodeHeader, AcceptableHeader, Transmitted, ReadHeader;
    PayloadReads(p, buf);
    UnmaskedTail(h, ready, tail);
    var sent, after := Transmitted(h, 0, ready) + tail, buf[h.payloadLen..];
    CutTwice(buf, p.ready, h.payloadLen);
    assert raw == EncodeHeader(h) + sent + after;
    Middle(EncodeHeader(h), sent, after);
    assert buf[..h.payloadLen][..p.ready] == ready && buf[..h.payloadLen][p.ready..] == tail;
    if p.ready == h.payloadLen {
      assert tail == [] && Transmitted(h, p.ready, tail) == [];
    }
  }

  /** With the key still missing the frame cannot be complete. */
  lemma SlowMaskRefines(p: Parser, buf: seq<Octet>)
    requires p.phase == AtMask && Valid(p, buf)
    ensures Refines(p.cfg, Raw(p, buf), SlowMask(p, buf))
  {
    hide Refines, SlowMask, AwaitsKeyOk, Raw;
    var h, raw := p.header.value, p.saved + buf;
    var needed := HeaderBase(h.payloadLen) + 4 - |p.saved|;
    AwaitingIsRaw(p, buf);
    if |buf| < needed {
      KeyStillWaits(p, buf);
    } else {
      var key, p' := KeyArrives(p, buf);
      PayloadStart(p', buf[needed..], raw);
      SlowPayloadRefines(p', buf[needed..]);
    }
  }

  lemma AwaitingIsRaw(p: Parser, buf: seq<Octet>)
    requires p.phase == AtMask && Valid(p, buf)
    ensures Raw(p, buf) == p.saved + buf && |p.saved| < HeaderBase(p.header.value.payloadLen) + 4
  {
  }

  lemma KeyStillWaits(p: Parser, buf: seq<Octet>)
    requires p.phase == AtMask && Valid(p, buf)
    requires |p.saved| + |buf| < HeaderBase(p.header.value.payloadLen) + 4
    ensures Refines(p.cfg, p.saved + buf, SlowMask(p, buf))
  {
    hide ReadLength;
    var raw := p.saved + buf;
    ReadLengthStable(p.cfg, p.saved, buf);
    ReadLengthIsEncoded(p.cfg, p.saved);
    assert raw + [] == raw;
  }

  /** The key is complete, and so is the header: the parser that `SlowMask` continues with. */
  lemma KeyArrives(p: Parser, buf: seq<Octet>) returns (key: MaskKey, p': Parser)
    requires p.phase == AtMask && Valid(p, buf)
    requires |p.saved| + |buf| >= HeaderBase(p.header.value.payloadLen) + 4
    ensures var base := HeaderBase(p.header.value.payloadLen);
            var needed := base + 4 - |p.saved|;
            var saved := p.saved + buf[..needed];
            && p' == p.(phase := AtPayload, saved := saved, header := Some(p.header.value.(mask := Some(key))))
            && key == saved[base..base + 4]
            && AcceptableHeader(p.cfg, p'.header.value) && saved == EncodeHeader(p'.header.value)
            && p.saved + buf == saved + buf[needed..] && p'.ready == 0
            && SlowMask(p, buf) == SlowPayload(p', buf[needed..])
  {
    hide ReadLength, AcceptableHeader, EncodeHeader, SlowPayload;
    var base := HeaderBase(p.header.value.payloadLen);
    var needed := base + 4 - |p.saved|;
    var saved := p.saved + buf[..needed];
    var octets: seq<Octet> := saved[base..base + 4];
    assert |octets| == 4;
    key := octets;
    p' := p.(phase := AtPayload, saved := saved, header := Some(p.header.value.(mask := Some(key))));
    ReadLengthIsEncoded(p.cfg, p.saved);
    ReadLengthStable(p.cfg, p.saved, buf[..needed]);
    ReadHeaderIsEncoded(p.cfg, saved);
    assert saved[..base + 4] == saved;
  }

  /** A parser that has just learned its whole header stands on header plus buffer. */
  lemma PayloadStart(p: Parser, buf: seq<Octet>, raw: seq<Octet>)
    requires p.phase == AtPayload && Valid(p, buf) && p.ready == 0
    requires raw == EncodeHeader(p.header.value) + buf
    ensures Raw(p, buf) == raw
  {
    assert buf[..0] == [] && buf[0..] == buf;
    assert Transmitted(p.header.value, 0, []) == [];
    assert EncodeHeader(p.header.value) + [] + buf == raw;
  }

  /** With the length complete, the slow path does what the reader finds in the saved octets. */
  lemma SlowLengthByReading(p: Parser, buf: seq<Octet>, ext: nat)
    requires SavedLengthOk(p.cfg, p.saved, ext) && p.ready == 0 && (ext == 2 || ext == 8)
    requires |p.saved| + |buf| >= 2 + ext
    ensures var n := 2 + ext - |p.saved|;
            var saved, rest := p.saved + buf[..n], buf[n..];
            var reading := ReadLength(p.cfg, saved);
            && p.saved + buf == saved + rest && |saved| == 2 + ext && SavedLengthOk(p.cfg, saved, ext)
            && !reading.LengthPending?
            && (reading.LengthRejected? ==> SlowLength(p, buf, ext) == Parsed(p.(saved := saved), rest, Failed(reading.error)))
            && (reading.LengthKnown? ==>
                  && reading.ext == ext && |saved| <= HeaderBase(reading.header.payloadLen) + 4
                  && SlowLength(p, buf, ext) ==
                     if reading.header.masked then SlowMask(p.(phase := AtMask, saved := saved, header := Some(reading.header)), rest)
                     else SlowPayload(p.(phase := AtPayload, saved := saved, header := Some(reading.header)), rest))
  {
    hide SlowMask, SlowPayload, FromBigEndian;
    var n := 2 + ext - |p.saved|;
    var saved := p.saved + buf[..n];
    assert p.saved + buf == saved + buf[n..];
    assert saved[0] == p.saved[0] && saved[1] == p.saved[1];
    assert saved[2..] == saved[2..2 + ext];
  }

  lemma SlowLengthRefines(p: Parser, buf: seq<Octet>, ext: nat)
    requires p.phase == (if ext == 2 then AtLength16 else AtLength64) && (ext == 2 || ext == 8)
    requires Valid(p, buf)
    ensures Refines(p.cfg, Raw(p, buf), SlowLength(p, buf, ext))
  {
    var raw := p.saved + buf;
    var needed := 2 + ext - |p.saved|;
    if |buf| < needed {
      assert raw + [] == raw;
      assert raw[0] == p.saved[0] && raw[1] == p.saved[1];
    } else {
      SlowLengthArrives(p, buf, ext);
    }
  }

  lemma SlowLengthArrives(p: Parser, buf: seq<Octet>, ext: nat)
    requires p.phase == (if ext == 2 then AtLength16 else AtLength64) && (ext == 2 || ext == 8)
    requires Valid(p, buf) && |p.saved| + |buf| >= 2 + ext
    ensures Refines(p.cfg, p.saved + buf, SlowLength(p, buf, ext))
  {
    hide SlowLength, ReadLength, SlowMask, SlowPayload, Refines;
    var needed := 2 + ext - |p.saved|;
    var saved, rest := p.saved + buf[..needed], buf[needed..];
    SlowLengthByReading(p, buf, ext);
    if ReadLength(p.cfg, saved).LengthKnown? {
      SlowLengthKnown(p, saved, rest, ext);
    } else {
      LengthIsRefused(p, saved, rest, ext);
    }
  }

  lemma LengthIsRefused(p: Parser, saved: seq<Octet>, rest: seq<Octet>, ext: nat)
    requires p.phase == (if ext == 2 then AtLength16 else AtLength64) && (ext == 2 || ext == 8)
    requires SavedLengthOk(p.cfg, saved, ext) && p.header.None? && p.ready == 0 && ReadLength(p.cfg, saved).LengthRejected?
    ensures Refines(p.cfg, saved + rest, Parsed(p.(saved := saved), rest, Failed(ReadLength(p.cfg, saved).error)))
  {
    ReadLengthStable(p.cfg, saved, rest);
  }

  lemma SlowLengthKnown(p: Parser, saved: seq<Octet>, rest: seq<Octet>, ext: nat)
    requires p.header.None? && p.ready == 0
    requires ReadLength(p.cfg, saved).LengthKnown? && ReadLength(p.cfg, saved).ext == ext && |saved| == 2 + ext
    ensures var h := ReadLength(p.cfg, saved).header;
            && |saved| <= HeaderBase(h.payloadLen) + 4
            && (h.masked ==> Refines(p.cfg, saved + rest, SlowMask(p.(phase := AtMask, saved := saved, header := Some(h)), rest)))
            && (!h.masked ==> Refines(p.cfg, saved + rest, SlowPayload(p.(phase := AtPayload, saved := saved, header := Some(h)), rest)))
  {
    var h := ReadLength(p.cfg, saved).header;
    ReadLengthIsEncoded(p.cfg, saved);
    if h.masked {
      var p' := p.(phase := AtMask, saved := saved, header := Some(h));
      SlowMaskRefines(p', rest);
    } else {
      var p' := p.(phase := AtPayload, saved := saved, header := Some(h));
      ReadHeaderIsEncoded(p.cfg, saved);
      assert saved[..2 + ext] == saved;
      PayloadStart(p', rest, saved + rest);
      SlowPayloadRefines(p', rest);
    }
  }

  lemma SlowHeaderRefines(p: Parser, buf: seq<Octet>)
    requires p.phase == AtHeader && Valid(p, buf)
    ensures Refines(p.cfg, Raw(p, buf), SlowHeader(p, buf))
  {
    assert Raw(p, buf) == buf;
    if ReadHeader(p.cfg, buf).HeaderKnown? {
      hide SlowHeader, Refines, ReadHeader;
      SlowHeaderKnown(p, buf);
    } else if ReadLength(p.cfg, buf).LengthKnown? {
      hide SlowHeader, Refines, ReadHeader, ReadLength;
      SlowHeaderWaitsForKey(p, buf);
    } else {
      hide FromBigEndian, BaseError, LengthError, OpCodeFromNibble, FinBit, Rsv1Bit, Rsv2Bit, Rsv3Bit, MaskBit;
      if |buf| >= 2 {
        assert buf[..2] + buf[2..] == buf;
      }
    }
  }

  lemma SlowHeaderWaitsForKey(p: Parser, buf: seq<Octet>)
    requires p.phase == AtHeader && Valid(p, buf)
    requires ReadLength(p.cfg, buf).LengthKnown? && ReadHeader(p.cfg, buf).HeaderPending?
    ensures Refines(p.cfg, buf, SlowHeader(p, buf))
  {
    hide SlowHeader, ReadLength, AcceptableHeader;
    ReadLengthIsEncoded(p.cfg, buf);
    KeyIsMissing(p, buf, ReadLength(p.cfg, buf).header, ReadLength(p.cfg, buf).ext);
    assert buf + [] == buf;
  }

  lemma SlowHeaderKnown(p: Parser, buf: seq<Octet>)
    requires p.phase == AtHeader && Valid(p, buf) && ReadHeader(p.cfg, buf).HeaderKnown?
    ensures Refines(p.cfg, buf, SlowHeader(p, buf))
  {
    hide ReadHeader, SlowHeader, AcceptableHeader, EncodeHeader, Transmitted, SlowPayload;
    var HeaderKnown(h, n) := ReadHeader(p.cfg, buf);
    ReadHeaderIsEncoded(p.cfg, buf);
    var rest := buf[n..];
    if |rest| >= h.payloadLen {
      WholeFrameIsSlow(p, buf, h, n);
    } else {
      PartialFrameIsSlow(p, buf, h, n);
      var p' := p.(phase := AtPayload, header := Some(h));
      assert buf == buf[..n] + rest;
      PayloadStart(p', rest, buf);
      SlowPayloadRefines(p', rest);
    }
  }

  /** A frame that a lowered limit has made too large reads as too large from its first octet on. */
  lemma TooLargeReads(p: Parser, buf: seq<Octet>)
    requires p.phase == AtTooLarge && Valid(p, buf)
    ensures ReadFrame(p.cfg, Raw(p, buf)) == Rejected(FrameTooLarge)
  {
    var h := p.header.value;
    var big := Unlimited(p.cfg, h);
    var raw := Raw(p, buf);
    if AwaitsKey(p) {
      ReadLengthStable(big, p.saved, buf);
    } else {
      var rest := Transmitted(h, 0, buf[..p.ready]) + buf[p.ready..];
      assert raw == EncodeHeader(h) + rest;
      EncodedHeaderIsRead(big, h, rest);
    }
    LimitOnlyMatters(p.cfg, h, raw);
  }

  lemma LimitOnlyMatters(cfg: ParserConfig, h: Header, raw: seq<Octet>)
    requires h.payloadLen > cfg.maxFrameSize
    requires ReadLength(Unlimited(cfg, h), raw).LengthKnown?
    requires ReadLength(Unlimited(cfg, h), raw).header.payloadLen == h.payloadLen
    ensures ReadLength(cfg, raw) == LengthRejected(FrameTooLarge)
  {
    assert forall b0, b1 :: BaseError(cfg, b0, b1) == BaseError(Unlimited(cfg, h), b0, b1);
  }

  /**
   Every parse call returns what the stateless reader says about the raw unread octets,
   at the moment it can be said, and keeps exactly the octets it has not returned.
   */
  lemma ParseSlowRefines(p: Parser, buf: seq<Octet>)
    requires Valid(p, buf)
    ensures Refines(p.cfg, Raw(p, buf), ParseSlow(p, buf))
  {
    match p.phase
    case AtTooLarge => TooLargeReads(p, buf);
    case AtHeader => SlowHeaderRefines(p, buf);
    case AtLength16 => SlowLengthRefines(p, buf, 2);
    case AtLength64 => SlowLengthRefines(p, buf, 8);
    case AtMask => SlowMaskRefines(p, buf);
    case AtPayload => SlowPayloadRefines(p, buf);
  }

  // ---------------------------------------------------------------------
  // The fast paths against the slow path
  // ---------------------------------------------------------------------

  lemma CompleteDataBits(cfg: ParserConfig, b0: Octet, b1: Octet, op: OpCode)
    requires !cfg.expectMasked && b1 <= 126 && b0 == (if op == Text then 0x81 else 0x82) && (op == Text || op == Binary)
    ensures BaseError(cfg, b0, b1).None? && OpCodeFromNibble(b0 % 16) == Some(op)
    ensures FinBit(b0) && !Rsv1Bit(b0) && !Rsv2Bit(b0) && !Rsv3Bit(b0)
  {
  }

  lemma CompleteDataIsSlow(p: Parser, buf: seq<Octet>)
    requires Usable(p, buf) && TryCompleteData(p, buf).Some?
    ensures var (op, payload, rest) := TryCompleteData(p, buf).value;
            ParseSlow(p, buf) == Parsed(p, rest, Got(Frame(CompleteDataHeader(op, |payload|), payload)))
  {
    hide SlowHeader;
    CompleteDataIsRead(p, buf);
    WholeFrameIsSlow(p, buf, ReadHeader(p.cfg, buf).header, ReadHeader(p.cfg, buf).size);
  }

  lemma CompleteDataIsRead(p: Parser, buf: seq<Octet>)
    requires TryCompleteData(p, buf).Some?
    ensures var (op, payload, rest) := TryCompleteData(p, buf).value;
            var n := if buf[1] <= 125 then 2 else 4;
            && ReadHeader(p.cfg, buf) == HeaderKnown(CompleteDataHeader(op, |payload|), n)
            && n + |payload| <= |buf| && payload == buf[n..n + |payload|] && rest == buf[n + |payload|..]
  {
    hide BaseError, FinBit, Rsv1Bit, Rsv2Bit, Rsv3Bit, OpCodeFromNibble, FromBigEndian;
    var (op, payload, rest) := TryCompleteData(p, buf).value;
    CompleteDataBits(p.cfg, buf[0], buf[1], op);
  }

  /** A frame that is whole in the buffer is returned at once. */
  lemma WholeFrameIsSlow(p: Parser, buf: seq<Octet>, h: Header, n: nat)
    requires p.phase == AtHeader && p.ready == 0
    requires ReadHeader(p.cfg, buf) == HeaderKnown(h, n) && n + h.payloadLen <= |buf|
    ensures SlowHeader(p, buf) == Parsed(p, buf[n + h.payloadLen..], Got(Frame(h, Transmitted(h, 0, buf[n..n + h.payloadLen]))))
  {
    hide BaseError, LengthError, FinBit, Rsv1Bit, Rsv2Bit, Rsv3Bit, MaskBit, OpCodeFromNibble, FromBigEndian, Transmitted, SlowPayload;
    assert buf[n..][..h.payloadLen] == buf[n..n + h.payloadLen];
    assert buf[n..][h.payloadLen..] == buf[n + h.payloadLen..];
  }

  /** The length is not yet there, or is refused. */
  lemma LengthArrivesAtOnce(p: Parser, buf: seq<Octet>)
    requires p.phase == AtHeader && p.ready == 0 && |buf| >= 2 && BaseError(p.cfg, buf[0], buf[1]).None?
    ensures var ext := LengthOctets(buf[1]);
            if |buf| < 2 + ext then
              SlowHeader(p, buf)
              == Parsed(p.(phase := if ext == 2 then AtLength16 else AtLength64, saved := buf[..2]), buf[2..], More)
            else
              var len := if ext == 0 then LengthField(buf[1]) else FromBigEndian(buf[2..2 + ext]);
              var objection := LengthError(p.cfg, OpCodeFromNibble(buf[0] % 16).value, ext, len);
              objection.Some? ==> SlowHeader(p, buf) == Parsed(p, buf, Failed(objection.value))
  {
    hide FinBit, Rsv1Bit, Rsv2Bit, Rsv3Bit, MaskBit, FromBigEndian, Transmitted, SlowPayload;
  }

  lemma PartialFrameIsSlow(p: Parser, buf: seq<Octet>, h: Header, n: nat)
    requires p.phase == AtHeader && p.ready == 0
    requires ReadHeader(p.cfg, buf) == HeaderKnown(h, n) && |buf| < n + h.payloadLen
    ensures n <= |buf| && SlowHeader(p, buf) == SlowPayload(p.(phase := AtPayload, header := Some(h)), buf[n..])
  {
    hide BaseError, LengthError, FinBit, Rsv1Bit, Rsv2Bit, Rsv3Bit, MaskBit, OpCodeFromNibble, FromBigEndian, SlowPayload;
  }

  lemma KeyIsMissing(p: Parser, buf: seq<Octet>, h: Header, ext: nat)
    requires p.phase == AtHeader && p.ready == 0
    requires ReadLength(p.cfg, buf) == LengthKnown(h, ext) && h.masked && |buf| < 2 + ext + 4
    ensures SlowHeader(p, buf) == Parsed(p.(phase := AtMask, saved := buf, header := Some(h)), [], More)
  {
    hide BaseError, LengthError, FinBit, Rsv1Bit, Rsv2Bit, Rsv3Bit, MaskBit, OpCodeFromNibble, FromBigEndian;
  }

  lemma SmallFrameIsSlow(p: Parser, buf: seq<Octet>)
    requires Usable(p, buf) && TrySmallFrame(p, buf).Some?
    ensures TrySmallFrame(p, buf).value == ParseSlow(p, buf)
  {
    var n := 2 + (if p.cfg.expectMasked then 4 else 0);
    var len := LengthField(buf[1]);
    assert buf[n..][..len] == buf[n..n + len];
    assert buf[n..][len..] == buf[n + len..];
  }

  /** Same result, same remaining buffer and same state, for every parser state and buffer. */
  lemma FastPathsAreSlowPath(p: Parser, buf: seq<Octet>)
    requires Usable(p, buf)
    ensures Parse(p, buf) == ParseAfterMiss(p, buf) == ParseSlow(p, buf)
  {
    if TryCompleteData(p, buf).Some? {
      CompleteDataIsSlow(p, buf);
    }
    if TrySmallFrame(p, buf).Some? {
      SmallFrameIsSlow(p, buf);
    }
  }

  // ---------------------------------------------------------------------
  // The unmasked prefix that callers may look at
  // ---------------------------------------------------------------------

  /** What a caller can rely on after a call that needs more octets. */
  predicate Exposes(cfg: ParserConfig, raw: seq<Octet>, r: Parsed) {
    && r.parser.phase != AtTooLarge
    && (r.parser.phase == AtPayload ==> r.parser.header.Some? && r.parser.ready == |r.buf|)
    && (r.parser.phase != AtPayload ==> ReadHeader(cfg, raw).HeaderPending?)
  }

  /**
   After a call that needs more octets, the payload phase is reached exactly if the header is known,
   then all octets in the buffer are unmasked payload, and those unmasked before are unchanged.
   */
  lemma WaitingExposesPayload(p: Parser, buf: seq<Octet>)
    requires Valid(p, buf) && ParseSlow(p, buf).outcome == More
    ensures var r := ParseSlow(p, buf);
            && Exposes(p.cfg, Raw(p, buf), r)
            && (p.phase == AtPayload ==> r.parser.phase == AtPayload && r.parser.header == p.header
                                         && |r.buf| == |buf| && r.buf[..p.ready] == buf[..p.ready])
  {
    hide Exposes, SlowHeader, SlowLength, SlowMask;
    match p.phase
    case AtTooLarge =>
    case AtHeader => HeaderWaits(p, buf);
    case AtLength16 => LengthWaits(p, buf, 2);
    case AtLength64 => LengthWaits(p, buf, 8);
    case AtMask => MaskWaits(p, buf);
    case AtPayload => PayloadExposes(p, buf);
  }

  lemma PayloadExposes(p: Parser, buf: seq<Octet>)
    requires Valid(p, buf) && p.phase == AtPayload && SlowPayload(p, buf).outcome == More
    ensures Exposes(p.cfg, Raw(p, buf), SlowPayload(p, buf))
  {
    hide Transmitted, ReadHeader, EncodeHeader;
  }

  lemma HeaderWaits(p: Parser, buf: seq<Octet>)
    requires Valid(p, buf) && p.phase == AtHeader && SlowHeader(p, buf).outcome == More
    ensures Exposes(p.cfg, Raw(p, buf), SlowHeader(p, buf))
  {
    hide Transmitted, FromBigEndian, LengthError, BaseError, OpCodeFromNibble;
    assert Raw(p, buf) == buf;
  }

  lemma MaskWaits(p: Parser, buf: seq<Octet>)
    requires Valid(p, buf) && p.phase == AtMask
    ensures SlowMask(p, buf).outcome == More ==> Exposes(p.cfg, p.saved + buf, SlowMask(p, buf))
  {
    hide Transmitted, LengthError, BaseError, OpCodeFromNibble;
    ReadLengthStable(p.cfg, p.saved, buf);
    ReadLengthIsEncoded(p.cfg, p.saved);
  }

  lemma LengthWaits(p: Parser, buf: seq<Octet>, ext: nat)
    requires p.phase == (if ext == 2 then AtLength16 else AtLength64) && (ext == 2 || ext == 8)
    requires Valid(p, buf)
    ensures SlowLength(p, buf, ext).outcome == More ==> Exposes(p.cfg, p.saved + buf, SlowLength(p, buf, ext))
  {
    hide ReadHeader, ReadLength, SlowMask, SlowPayload, Exposes;
    if |p.saved| + |buf| >= 2 + ext {
      hide SlowLength;
      var needed := 2 + ext - |p.saved|;
      var saved, rest := p.saved + buf[..needed], buf[needed..];
      SlowLengthByReading(p, buf, ext);
      if ReadLength(p.cfg, saved).LengthKnown? {
        LengthKnownWaits(p, saved, rest, ext);
      }
    } else {
      LengthStillWaits(p, buf, ext);
    }
  }

  lemma LengthStillWaits(p: Parser, buf: seq<Octet>, ext: nat)
    requires p.phase == (if ext == 2 then AtLength16 else AtLength64) && (ext == 2 || ext == 8)
    requires Valid(p, buf) && |p.saved| + |buf| < 2 + ext
    ensures Exposes(p.cfg, p.saved + buf, SlowLength(p, buf, ext))
  {
    var raw := p.saved + buf;
    assert raw[0] == p.saved[0] && raw[1] == p.saved[1];
  }

  lemma LengthKnownWaits(p: Parser, saved: seq<Octet>, rest: seq<Octet>, ext: nat)
    requires p.header.None? && p.ready == 0
    requires ReadLength(p.cfg, saved).LengthKnown? && ReadLength(p.cfg, saved).ext == ext && |saved| == 2 + ext
    ensures var h := ReadLength(p.cfg, saved).header;
            && |saved| <= HeaderBase(h.payloadLen) + 4
            && (h.masked ==> var r := SlowMask(p.(phase := AtMask, saved := saved, header := Some(h)), rest);
                             r.outcome == More ==> Exposes(p.cfg, saved + rest, r))
            && (!h.masked ==> var r := SlowPayload(p.(phase := AtPayload, saved := saved, header := Some(h)), rest);
                              r.outcome == More ==> Exposes(p.cfg, saved + rest, r))
  {
    hide ReadLength, SlowMask, Transmitted;
    ReadLengthIsEncoded(p.cfg, saved);
    var h := ReadLength(p.cfg, saved).header;
    if h.masked {
      MaskWaits(p.(phase := AtMask, saved := saved, header := Some(h)), rest);
    }
  }

  /** A frame that was waiting for payload is returned with the prefix that was already exposed. */
  lemma CompletionKeepsPrefix(p: Parser, buf: seq<Octet>)
    requires Valid(p, buf) && p.phase == AtPayload && ParseSlow(p, buf).outcome.Got?
    ensures var f := ParseSlow(p, buf).outcome.frame;
            f.header == p.header.value && p.ready <= |f.payload| && f.payload[..p.ready] == buf[..p.ready]
  {
    hide Transmitted, AcceptableHeader;
  }

  /** What the reader sees of a payload that is exposed up to the end of the buffer. */
  lemma ExposedPayload(p: Parser, buf: seq<Octet>)
    requires Valid(p, buf) && p.phase == AtPayload && p.ready == |buf|
    ensures var h, n := p.header.value, |EncodeHeader(p.header.value)|;
            && ReadHeader(p.cfg, Raw(p, buf)) == HeaderKnown(h, n)
            && |Raw(p, buf)| == n + |buf|
            && Transmitted(h, 0, Raw(p, buf)[n..]) == buf
  {
    hide Transmitted, EncodeHeader, AcceptableHeader, ReadHeader;
    var h, n := p.header.value, |EncodeHeader(p.header.value)|;
    PayloadReads(p, buf);
    TransmittedTwice(h, 0, buf);
    assert buf[..p.ready] == buf && buf[p.ready..] == [];
    assert Raw(p, buf)[n..] == Transmitted(h, 0, buf) + [];
    assert Transmitted(h, 0, buf) + [] == Transmitted(h, 0, buf);
  }

  /** With an empty buffer no payload octet has been received. */
  lemma EmptyBufferHasNoPayload(p: Parser)
    requires Valid(p, []) && ReadFrame(p.cfg, Raw(p, [])).NeedMore?
    ensures match ReadHeader(p.cfg, Raw(p, []))
            case HeaderKnown(h, n) => |Raw(p, [])| <= n
            case _ => true
  {
    match p.phase
    case AtPayload => PayloadReads(p, []);
    case AtTooLarge => TooLargeReads(p, []);
    case AtMask =>
      assert p.saved + [] == p.saved;
      ReadLengthIsEncoded(p.cfg, p.saved);
    case AtHeader =>
    case AtLength16 => assert p.saved + [] == p.saved;
    case AtLength64 => assert p.saved + [] == p.saved;
  }
}
