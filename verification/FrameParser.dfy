/** The incremental frame parser, in place on its header buffer and the caller's byte buffer. */
module FrameParsing {
  import opened Octets
  import opened Masking
  import opened FrameFormat
  import PM = ParserModel
  import Chunked = ChunkedParsing

  /** The frame whose header is known and whose payload is still arriving. */
  datatype PendingPayload = PendingPayload(opcode: OpCode, fin: bool, rsv1: bool, ready: nat, total: nat)

  /**
   What one pass through the loop owes: the outcome of the whole call, or (`None`) a valid
   state from which the call goes on to the same outcome.
   */
  ghost predicate StepOk(p0: PM.Parser, buf0: seq<Octet>, p1: PM.Parser, buf1: seq<Octet>, r: Option<PM.Outcome>)
    requires PM.Usable(p0, buf0)
  {
    match r
    case Some(o) => PM.Parsed(p1, buf1, o) == PM.ParseSlow(p0, buf0)
    case None => PM.Valid(p1, buf1) && PM.ParseSlow(p1, buf1) == PM.ParseSlow(p0, buf0)
  }

  /** What the reader makes of a length in the wrong form. */
  lemma BadLengthReads(cfg: ParserConfig, saved: seq<Octet>, ext: nat)
    requires PM.SavedLengthOk(cfg, saved, ext) && |saved| == 2 + ext && (ext == 2 || ext == 8)
    ensures var len := FromBigEndian(saved[2..]);
            && ((ext == 2 && len < 126) || (ext == 8 && len <= 0xFFFF) ==> ReadLength(cfg, saved) == LengthRejected(LengthNotMinimal))
            && (ext == 8 && len >= TopBit ==> ReadLength(cfg, saved) == LengthRejected(LengthTopBitSet))
  {
    hide FromBigEndian;
    assert saved[2..2 + ext] == saved[2..];
  }

  /** A header whose length is known is acceptable as far as it goes. */
  lemma KnownLengthIsValid(cfg: ParserConfig, saved: seq<Octet>)
    requires ReadLength(cfg, saved).LengthKnown? && |saved| == 2 + ReadLength(cfg, saved).ext
    ensures var h := ReadLength(cfg, saved).header;
            && h.mask.None? && |saved| == HeaderBase(h.payloadLen)
            && (if h.masked then PM.AwaitsKeyOk(cfg, saved, h) else AcceptableHeader(cfg, h))
  {
    hide ReadLength;
    ReadLengthIsEncoded(cfg, saved);
  }

  lemma LengthReadsAtOnce(cfg: ParserConfig, w: seq<Octet>, h: Header)
    requires |w| >= 2 && |w| >= 2 + LengthOctets(w[1]) && BaseError(cfg, w[0], w[1]).None?
    requires var op, ext := OpCodeFromNibble(w[0] % 16).value, LengthOctets(w[1]);
             var len := if ext == 0 then LengthField(w[1]) else FromBigEndian(w[2..2 + ext]);
             && LengthError(cfg, op, ext, len).None?
             && h == Header(FinBit(w[0]), Rsv1Bit(w[0]), Rsv2Bit(w[0]), Rsv3Bit(w[0]), op, MaskBit(w[1]), len, None)
    ensures ReadLength(cfg, w) == LengthKnown(h, LengthOctets(w[1]))
  {
  }

  /** One pass in a length phase, on values. */
  lemma LengthPass(p: PM.Parser, buf: seq<Octet>, ext: nat)
    requires p.phase == (if ext == 2 then PM.AtLength16 else PM.AtLength64) && (ext == 2 || ext == 8)
    requires PM.Valid(p, buf)
    ensures PM.SavedLengthOk(p.cfg, p.saved, ext)
    ensures |p.saved| + |buf| < 2 + ext ==> PM.Parsed(p.(saved := p.saved + buf), [], PM.More) == PM.ParseSlow(p, buf)
    ensures |p.saved| + |buf| >= 2 + ext ==>
              var n := 2 + ext - |p.saved|;
              var saved, rest := p.saved + buf[..n], buf[n..];
              var reading := ReadLength(p.cfg, saved);
              && PM.SavedLengthOk(p.cfg, saved, ext) && !reading.LengthPending?
              && (reading.LengthRejected? ==>
                    PM.Parsed(p.(saved := saved), rest, PM.Failed(reading.error)) == PM.ParseSlow(p, buf))
              && (reading.LengthKnown? ==>
                    var next := if reading.header.masked then PM.AtMask else PM.AtPayload;
                    var p' := p.(phase := next, saved := saved, header := Some(reading.header));
                    PM.Valid(p', rest) && PM.ParseSlow(p', rest) == PM.ParseSlow(p, buf))
  {
    hide ReadLength, AcceptableHeader, PM.SlowMask, PM.SlowPayload;
    if |p.saved| + |buf| >= 2 + ext {
      hide PM.SlowLength;
      PM.SlowLengthByReading(p, buf, ext);
      var saved := p.saved + buf[..2 + ext - |p.saved|];
      if ReadLength(p.cfg, saved).LengthKnown? {
        KnownLengthIsValid(p.cfg, saved);
      }
    }
  }

  /** One pass in the header phase once the header is known, on values. */
  lemma HeaderPass(p: PM.Parser, buf: seq<Octet>, h: Header, n: nat)
    requires p.phase == PM.AtHeader && PM.Valid(p, buf) && ReadHeader(p.cfg, buf) == HeaderKnown(h, n)
    ensures n <= |buf|
    ensures |buf[n..]| >= h.payloadLen ==>
              PM.Parsed(p, buf[n..][h.payloadLen..], PM.Got(Frame(h, Transmitted(h, 0, buf[n..][..h.payloadLen]))))
              == PM.ParseSlow(p, buf)
    ensures |buf[n..]| < h.payloadLen ==>
              var p' := p.(phase := PM.AtPayload, header := Some(h));
              PM.Valid(p', buf[n..]) && PM.ParseSlow(p', buf[n..]) == PM.ParseSlow(p, buf)
  {
    hide ReadHeader, AcceptableHeader, EncodeHeader, PM.SlowHeader, PM.SlowPayload, Transmitted;
    ReadHeaderIsEncoded(p.cfg, buf);
    if |buf| < n + h.payloadLen {
      PM.PartialFrameIsSlow(p, buf, h, n);
    } else {
      PM.WholeFrameIsSlow(p, buf, h, n);
      FrameInRest(buf, n, h.payloadLen);
    }
  }

  lemma HeaderPassWithoutKey(p: PM.Parser, buf: seq<Octet>, h: Header, ext: nat)
    requires p.phase == PM.AtHeader && PM.Valid(p, buf) && ReadLength(p.cfg, buf) == LengthKnown(h, ext)
    ensures 2 + ext <= |buf|
    ensures h.masked && |buf| < 2 + ext + 4 ==>
              PM.Parsed(p.(phase := PM.AtMask, saved := buf, header := Some(h)), [], PM.More) == PM.ParseSlow(p, buf)
  {
    hide ReadLength, AcceptableHeader, PM.SlowHeader;
    ReadLengthIsEncoded(p.cfg, buf);
    if h.masked && |buf| < 2 + ext + 4 {
      PM.KeyIsMissing(p, buf, h, ext);
    }
  }

  lemma FreshHasNothingSaved(p: PM.Parser, buf: seq<Octet>)
    requires p.phase == PM.AtHeader && PM.Valid(p, buf)
    ensures p.saved == []
  {
  }

  lemma FrameInRest(w: seq<Octet>, n: nat, len: nat)
    requires n + len <= |w|
    ensures w[n..][..len] == w[n..n + len] && w[n..][len..] == w[n + len..]
  {
  }

  lemma SlowKeepsUsable(p: PM.Parser, buf: seq<Octet>)
    requires PM.Usable(p, buf)
    ensures var r := PM.ParseSlow(p, buf);
            && PM.Usable(r.parser, r.buf)
            && (PM.Valid(p, buf) ==> PM.Valid(r.parser, r.buf) && PM.Refines(p.cfg, PM.Raw(p, buf), r))
  {
    hide PM.Valid, PM.Raw;
    if PM.Valid(p, buf) {
      PM.ParseSlowRefines(p, buf);
    }
  }

  class FrameParser {
    var maxFrameSize: nat
    var expectMasked: bool
    var allowRsv1: bool
    var phase: PM.Phase
    const headerBuf: array<Octet>
    var headerLen: nat
    var header: Option<Header>
    var payloadReady: nat

    constructor (maxFrameSize: nat, expectMasked: bool, allowRsv1: bool)
      ensures fresh(headerBuf) && headerBuf.Length == 14 && headerLen <= 14
      ensures State() == PM.Fresh(ParserConfig(maxFrameSize, expectMasked, allowRsv1))
    {
      this.maxFrameSize, this.expectMasked, this.allowRsv1 := maxFrameSize, expectMasked, allowRsv1;
      phase := PM.AtHeader;
      headerBuf := new Octet[14];
      headerLen, header, payloadReady := 0, None, 0;
    }

    function Config(): ParserConfig
      reads this
    {
      ParserConfig(maxFrameSize, expectMasked, allowRsv1)
    }

    ghost function State(): PM.Parser
      reads this, headerBuf
      requires headerLen <= headerBuf.Length
    {
      PM.Parser(Config(), phase, headerBuf[..headerLen], header, payloadReady)
    }

    ghost predicate Ok(buf: ByteBuffer)
      reads this, headerBuf, buf
    {
      headerBuf.Length == 14 && headerLen <= 14 && PM.Valid(State(), buf.data)
    }

    /** A parse call is possible. */
    ghost predicate Usable(buf: ByteBuffer)
      reads this, headerBuf, buf
    {
      headerBuf.Length == 14 && headerLen <= 14 && PM.Usable(State(), buf.data)
    }

    /** The raw unread wire octets. */
    ghost function Unread(buf: ByteBuffer): seq<Octet>
      reads this, headerBuf, buf
    {
      if headerLen <= headerBuf.Length then PM.Raw(State(), buf.data) else []
    }

    /** Order in which one call passes through the phases. */
    ghost function Rank(): nat
      reads this
    {
      match phase
      case AtPayload => 0
      case AtTooLarge => 0
      case AtMask => 1
      case AtLength16 => 2
      case AtLength64 => 2
      case AtHeader => 3
    }

    /** Move the first `n` octets of the buffer to the end of the saved header. */
    method Save(buf: ByteBuffer, n: nat)
      requires n <= |buf.data| && headerLen + n <= headerBuf.Length
      modifies headerBuf, this`headerLen, buf
      ensures headerLen == old(headerLen) + n
      ensures headerBuf[..headerLen] == old(headerBuf[..headerLen]) + old(buf.data[..n])
      ensures buf.data == old(buf.data)[n..]
    {
      var i := 0;
      while i < n
        invariant i <= n && headerLen == old(headerLen) && buf.data == old(buf.data)
        invariant headerBuf[..headerLen + i] == old(headerBuf[..headerLen]) + buf.data[..i]
      {
        headerBuf[headerLen + i] := buf.data[i];
        i := i + 1;
      }
      headerLen := headerLen + n;
      buf.data := buf.data[n..];
    }

    method Reset()
      modifies this
      ensures headerLen == 0 && State() == PM.Fresh(old(Config()))
    {
      phase, headerLen, header, payloadReady := PM.AtHeader, 0, None, 0;
    }

    /** A lowered limit has rejected the frame for good. */
    method TooLargeStep(buf: ByteBuffer) returns (r: Option<PM.Outcome>)
      requires headerLen <= headerBuf.Length && phase == PM.AtTooLarge
      ensures StepOk(State(), buf.data, State(), buf.data, r) && r.Some?
    {
      r := Some(PM.Failed(FrameTooLarge));
    }

    method PayloadStep(buf: ByteBuffer) returns (r: Option<PM.Outcome>)
      requires Ok(buf) && phase == PM.AtPayload
      modifies this, buf
      ensures headerLen <= 14 && StepOk(old(State()), old(buf.data), State(), buf.data, r) && r.Some?
    {
      hide AcceptableHeader;
      var h := header.value;
      if |buf.data| < h.payloadLen {
        var available, ready := |buf.data|, payloadReady;
        assert buf.data[..ready] + buf.data[ready..] == buf.data;
        if available > ready {
          if h.mask.Some? {
            buf.data := buf.data[..ready] + Masked(buf.data[ready..], h.mask.value, ready);
          }
          payloadReady := available;
        }
        return Some(PM.More);
      }
      assert buf.data[..payloadReady] + buf.data[payloadReady..] == buf.data;
      var ready, payload := payloadReady, buf.data[..h.payloadLen];
      assert payload[..ready] + payload[ready..] == payload;
      buf.data := buf.data[h.payloadLen..];
      if h.mask.Some? && ready < h.payloadLen {
        payload := payload[..ready] + Masked(payload[ready..], h.mask.value, ready);
      }
      r := Some(PM.Got(Frame(h, payload)));
      Reset();
    }

    /** `None` means that the loop goes on with the next phase. */
    method MaskStep(buf: ByteBuffer) returns (r: Option<PM.Outcome>)
      requires Ok(buf) && phase == PM.AtMask
      modifies this, headerBuf, buf
      ensures headerLen <= 14 && StepOk(old(State()), old(buf.data), State(), buf.data, r)
      ensures r.None? ==> phase == PM.AtPayload
    {
      hide AcceptableHeader, EncodeHeader, ReadLength, PM.SlowPayload;
      var base := HeaderBase(header.value.payloadLen);
      var needed := base + 4 - headerLen;
      if |buf.data| < needed {
        Save(buf, |buf.data|);
        assert old(buf.data)[..|old(buf.data)|] == old(buf.data);
        return Some(PM.More);
      }
      hide PM.SlowMask;
      ghost var key', p' := PM.KeyArrives(State(), buf.data);
      Save(buf, needed);
      var key: MaskKey := headerBuf[base..base + 4];
      assert key == headerBuf[..headerLen][base..base + 4];
      header := Some(header.value.(mask := Some(key)));
      phase := PM.AtPayload;
      r := None;
    }

    /** With the extended length complete: the header the reader sees in the saved octets, or its objection. */
    method ParseHeaderWithLen(len: nat, ghost ext: nat) returns (r: Option<FrameError>)
      requires headerBuf.Length == 14 && headerLen == 2 + ext && (ext == 2 || ext == 8)
      requires PM.SavedLengthOk(Config(), headerBuf[..headerLen], ext) && len == FromBigEndian(headerBuf[2..headerLen])
      requires if ext == 2 then len > SmallLimit else MediumLimit < len < TopBit
      modifies this`header
      ensures var reading := ReadLength(Config(), headerBuf[..headerLen]);
              && !reading.LengthPending?
              && (if reading.LengthRejected? then r == Some(reading.error) && header == old(header)
                  else r.None? && header == Some(reading.header))
    {
      hide FromBigEndian;
      ghost var saved := headerBuf[..headerLen];
      assert saved[2..2 + ext] == headerBuf[2..headerLen];
      var b0, b1 := headerBuf[0], headerBuf[1];
      var op := OpCodeFromNibble(b0 % 16).value;
      if IsControl(op) && len > SmallLimit {
        return Some(ControlTooLong);
      }
      if len > maxFrameSize {
        return Some(FrameTooLarge);
      }
      header := Some(Header(FinBit(b0), Rsv1Bit(b0), Rsv2Bit(b0), Rsv3Bit(b0), op, MaskBit(b1), len, None));
      r := None;
    }

    method LengthStep(buf: ByteBuffer, ext: nat) returns (r: Option<PM.Outcome>)
      requires Ok(buf) && phase == (if ext == 2 then PM.AtLength16 else PM.AtLength64) && (ext == 2 || ext == 8)
      modifies this, headerBuf, buf
      ensures headerLen <= 14 && StepOk(old(State()), old(buf.data), State(), buf.data, r)
      ensures r.None? ==> phase == PM.AtMask || phase == PM.AtPayload
    {
      hide ReadLength, FromBigEndian, PM.Valid, PM.ParseSlow;
      LengthPass(State(), buf.data, ext);
      var needed := 2 + ext - headerLen;
      if |buf.data| < needed {
        Save(buf, |buf.data|);
        assert old(buf.data)[..|old(buf.data)|] == old(buf.data);
        return Some(PM.More);
      }
      Save(buf, needed);
      var len := FromBigEndian(headerBuf[2..headerLen]);
      BadLengthReads(Config(), headerBuf[..headerLen], ext);
      assert headerBuf[2..headerLen] == headerBuf[..headerLen][2..];
      if (ext == 2 && len < 126) || (ext == 8 && len <= 0xFFFF) {
        return Some(PM.Failed(LengthNotMinimal));
      }
      if ext == 8 && len >= TopBit {
        return Some(PM.Failed(LengthTopBitSet));
      }
      var objection := ParseHeaderWithLen(len, ext);
      if objection.Some? {
        return Some(PM.Failed(objection.value));
      }
      phase := if header.value.masked then PM.AtMask else PM.AtPayload;
      r := None;
    }

    method HeaderStep(buf: ByteBuffer) returns (r: Option<PM.Outcome>)
      requires Ok(buf) && phase == PM.AtHeader
      modifies this, headerBuf, buf
      ensures headerLen <= 14 && StepOk(old(State()), old(buf.data), State(), buf.data, r)
      ensures r.None? ==> phase == PM.AtPayload
    {
      if |buf.data| < 2 {
        return Some(PM.More);
      }
      var b0, b1 := buf.data[0], buf.data[1];
      var fin, rsv1, rsv2, rsv3 := FinBit(b0), Rsv1Bit(b0), Rsv2Bit(b0), Rsv3Bit(b0);
      if rsv1 && !allowRsv1 {
        return Some(PM.Failed(Rsv1NotNegotiated));
      }
      if rsv2 || rsv3 {
        return Some(PM.Failed(Rsv2Or3Set));
      }
      var found := OpCodeFromNibble(b0 % 16);
      if found.None? {
        return Some(PM.Failed(InvalidOpCode));
      }
      var opcode := found.value;
      if rsv1 && opcode != Text && opcode != Binary {
        return Some(PM.Failed(Rsv1OnControlOrContinuation));
      }
      if IsControl(opcode) && !fin {
        return Some(PM.Failed(FragmentedControl));
      }
      var masked, lenByte := MaskBit(b1), LengthField(b1);
      if expectMasked && !masked {
        return Some(PM.Failed(ClientFrameUnmasked));
      }
      if !expectMasked && masked {
        return Some(PM.Failed(ServerFrameMasked));
      }
      var h := Header(fin, rsv1, rsv2, rsv3, opcode, masked, lenByte, None);
      r := HeaderLengthStep(buf, h);
    }

    /** The length of a frame whose base octets are in order, and the octets before the key; or the end of the call. */
    method HeaderLength(buf: ByteBuffer) returns (len: nat, size: nat, r: Option<PM.Outcome>)
      requires Ok(buf) && phase == PM.AtHeader && |buf.data| >= 2
      requires BaseError(Config(), buf.data[0], buf.data[1]).None?
      modifies this, headerBuf, buf
      ensures headerLen <= 14 && Config() == old(Config())
      ensures r.Some? ==> PM.Parsed(State(), buf.data, r.value) == PM.ParseSlow(old(State()), old(buf.data))
      ensures r.None? ==> unchanged(this) && unchanged(headerBuf) && unchanged(buf)
      ensures r.None? ==> size == 2 + LengthOctets(buf.data[1]) <= |buf.data|
      ensures r.None? ==> len == (if size == 2 then LengthField(buf.data[1]) else FromBigEndian(buf.data[2..size]))
      ensures r.None? ==> (size == 4 ==> len > SmallLimit) && (size == 10 ==> MediumLimit < len < TopBit)
    {
      assert PM.ParseSlow(State(), buf.data) == PM.SlowHeader(State(), buf.data);
      FreshHasNothingSaved(State(), buf.data);
      assert headerLen == 0;
      hide BaseError, FromBigEndian, OpCodeFromNibble, PM.SlowHeader, PM.ParseSlow, PM.Valid;
      PM.LengthArrivesAtOnce(State(), buf.data);
      len, size, r := LengthField(buf.data[1]), 2, None;
      if len == 126 {
        if |buf.data| < 4 {
          Save(buf, 2);
          phase, r := PM.AtLength16, Some(PM.More);
          return;
        }
        len, size := FromBigEndian(buf.data[2..4]), 4;
        if len < 126 {
          r := Some(PM.Failed(LengthNotMinimal));
        }
      } else if len == 127 {
        if |buf.data| < 10 {
          Save(buf, 2);
          phase, r := PM.AtLength64, Some(PM.More);
          return;
        }
        len, size := FromBigEndian(buf.data[2..10]), 10;
        if len <= 0xFFFF {
          r := Some(PM.Failed(LengthNotMinimal));
        } else if len >= TopBit {
          r := Some(PM.Failed(LengthTopBitSet));
        }
      }
    }

    /** The part of the header step after the base octets: `h` holds them, with the length field as payload length. */
    method HeaderLengthStep(buf: ByteBuffer, h: Header) returns (r: Option<PM.Outcome>)
      requires Ok(buf) && phase == PM.AtHeader && |buf.data| >= 2
      requires BaseError(Config(), buf.data[0], buf.data[1]).None?
      requires h == Header(FinBit(buf.data[0]), Rsv1Bit(buf.data[0]), Rsv2Bit(buf.data[0]), Rsv3Bit(buf.data[0]),
                           OpCodeFromNibble(buf.data[0] % 16).value, MaskBit(buf.data[1]), LengthField(buf.data[1]), None)
      modifies this, headerBuf, buf
      ensures headerLen <= 14 && StepOk(old(State()), old(buf.data), State(), buf.data, r)
      ensures r.None? ==> phase == PM.AtPayload
    {
      assert PM.ParseSlow(State(), buf.data) == PM.SlowHeader(State(), buf.data);
      hide ReadLength, BaseError, FromBigEndian, OpCodeFromNibble, PM.SlowHeader, PM.ParseSlow, PM.Valid,
           FinBit, Rsv1Bit, Rsv2Bit, Rsv3Bit, MaskBit;
      PM.LengthArrivesAtOnce(State(), buf.data);
      var payloadLen, headerSize, ended := HeaderLength(buf);
      if ended.Some? {
        return ended;
      }
      if IsControl(h.opcode) && payloadLen > 125 {
        return Some(PM.Failed(ControlTooLong));
      }
      if payloadLen > maxFrameSize {
        return Some(PM.Failed(FrameTooLarge));
      }
      LengthReadsAtOnce(Config(), buf.data, h.(payloadLen := payloadLen));
      r := HeaderKeyStep(buf, h.(payloadLen := payloadLen), headerSize);
    }

    /** The part of the header step after the length: key, and payload if it is all there. */
    method HeaderKeyStep(buf: ByteBuffer, h: Header, headerSize: nat) returns (r: Option<PM.Outcome>)
      requires Ok(buf) && phase == PM.AtHeader && 2 <= headerSize <= 10
      requires ReadLength(Config(), buf.data) == LengthKnown(h, headerSize - 2)
      modifies this, headerBuf, buf
      ensures headerLen <= 14 && StepOk(old(State()), old(buf.data), State(), buf.data, r)
      ensures r.None? ==> phase == PM.AtPayload
    {
      hide ReadLength, PM.Valid, PM.ParseSlow;
      ghost var p0 := State();
      HeaderPassWithoutKey(p0, buf.data, h, headerSize - 2);
      var total := headerSize + (if h.masked then 4 else 0);
      if |buf.data| < total {
        FreshHasNothingSaved(p0, buf.data);
        Save(buf, |buf.data|);
        assert old(buf.data)[..|old(buf.data)|] == old(buf.data);
        header := Some(h);
        phase := PM.AtMask;
        return Some(PM.More);
      }
      var h' := h;
      if h.masked {
        var key: MaskKey := buf.data[headerSize..headerSize + 4];
        h' := h.(mask := Some(key));
      }
      assert ReadHeader(Config(), buf.data) == HeaderKnown(h', total);
      HeaderPass(p0, buf.data, h', total);
      buf.data := buf.data[total..];
      if |buf.data| >= h.payloadLen {
        var payload := buf.data[..h.payloadLen];
        buf.data := buf.data[h.payloadLen..];
        if h'.mask.Some? {
          payload := Masked(payload, h'.mask.value, 0);
        }
        return Some(PM.Got(Frame(h', payload)));
      }
      header := Some(h');
      phase := PM.AtPayload;
      r := None;
    }

    /** The state machine loop. */
    method ParseSlow(buf: ByteBuffer) returns (r: PM.Outcome)
      requires Usable(buf)
      modifies this, headerBuf, buf
      ensures Usable(buf) && (old(Ok(buf)) ==> Ok(buf))
      ensures PM.Parsed(State(), buf.data, r) == PM.ParseSlow(old(State()), old(buf.data))
    {
      hide PM.Valid, PM.ParseSlow;
      ghost var p0, buf0 := State(), buf.data;
      SlowKeepsUsable(p0, buf0);
      while true
        invariant headerBuf.Length == 14 && headerLen <= 14 && PM.Usable(State(), buf.data)
        invariant PM.ParseSlow(State(), buf.data) == PM.ParseSlow(p0, buf0)
        decreases Rank()
      {
        var step: Option<PM.Outcome>;
        match phase {
          case AtTooLarge => step := TooLargeStep(buf);
          case AtPayload => step := PayloadStep(buf);
          case AtMask => step := MaskStep(buf);
          case AtLength16 => step := LengthStep(buf, 2);
          case AtLength64 => step := LengthStep(buf, 8);
          case AtHeader => step := HeaderStep(buf);
        }
        if step.Some? {
          return step.value;
        }
      }
    }

    /** Extract a complete final Text or Binary payload; a miss touches nothing. */
    method TryParseCompleteUnmaskedData(buf: ByteBuffer) returns (r: Option<(OpCode, seq<Octet>)>)
      requires Usable(buf)
      modifies buf
      ensures Usable(buf) && (old(Ok(buf)) ==> Ok(buf))
      ensures match PM.TryCompleteData(State(), old(buf.data))
              case None => r.None? && buf.data == old(buf.data)
              case Some(hit) => r == Some((hit.0, hit.1)) && buf.data == hit.2
      ensures r.Some? ==>
                PM.Refines(Config(), old(Unread(buf)),
                           PM.Parsed(State(), buf.data,
                                     PM.Got(Frame(PM.CompleteDataHeader(r.value.0, |r.value.1|), r.value.1))))
    {
      hide PM.Refines, PM.Raw, PM.ParseSlow;
      if PM.TryCompleteData(State(), buf.data).Some? {
        PM.CompleteDataIsSlow(State(), buf.data);
        SlowKeepsUsable(State(), buf.data);
      }
      if phase != PM.AtHeader || expectMasked || |buf.data| < 2 {
        return None;
      }
      var b0 := buf.data[0];
      if b0 != 0x81 && b0 != 0x82 {
        return None;
      }
      var size, len := 2, buf.data[1];
      if len == 126 && |buf.data| >= 4 {
        size, len := 4, FromBigEndian(buf.data[2..4]);
        if len < 126 {
          return None;
        }
      } else if len >= 126 {
        return None;
      }
      if len > maxFrameSize || |buf.data| < size + len {
        return None;
      }
      var payload := buf.data[size..size + len];
      buf.data := buf.data[size + len..];
      r := Some((if b0 == 0x81 then Text else Binary, payload));
    }

    /** A complete small frame in the expected direction, parsed at once; a miss touches nothing. */
    method TryParseSmallFrame(buf: ByteBuffer) returns (r: Option<PM.Outcome>)
      requires Usable(buf)
      modifies this, headerBuf, buf
      ensures headerLen <= 14 && r.Some? == PM.TrySmallFrame(old(State()), old(buf.data)).Some?
      ensures r.None? ==> State() == old(State()) && buf.data == old(buf.data)
      ensures r.Some? ==> PM.Parsed(State(), buf.data, r.value) == PM.TrySmallFrame(old(State()), old(buf.data)).value
    {
      hide PM.ParseSlow, PM.Valid, Masked, FinBit, Rsv1Bit, Rsv2Bit, Rsv3Bit, MaskBit, OpCodeFromNibble;
      var keySize := if expectMasked then 4 else 0;
      if phase != PM.AtHeader || |buf.data| < 2 + keySize {
        return None;
      }
      var b0, b1 := buf.data[0], buf.data[1];
      var len := LengthField(b1);
      if len > 125 || MaskBit(b1) != expectMasked || |buf.data| < 2 + keySize + len {
        return None;
      }
      var fin, rsv1, rsv2, rsv3 := FinBit(b0), Rsv1Bit(b0), Rsv2Bit(b0), Rsv3Bit(b0);
      if (rsv1 && (!allowRsv1 || (b0 % 16 != 1 && b0 % 16 != 2))) || rsv2 || rsv3 {
        var slow := ParseSlow(buf);
        return Some(slow);
      }
      var opcode := OpCodeFromNibble(b0 % 16);
      if opcode.None? {
        return None;
      }
      if IsControl(opcode.value) && !fin {
        return Some(PM.Failed(FragmentedControl));
      }
      if len > maxFrameSize {
        return Some(PM.Failed(FrameTooLarge));
      }
      var size, mask: Option<MaskKey> := 2 + keySize, None;
      if expectMasked {
        var key: MaskKey := buf.data[2..6];
        mask := Some(key);
      }
      var payload := buf.data[size..size + len];
      buf.data := buf.data[size + len..];
      if mask.Some? {
        payload := Masked(payload, mask.value, 0);
      }
      r := Some(PM.Got(Frame(Header(fin, rsv1, rsv2, rsv3, opcode.value, expectMasked, len, mask), payload)));
    }

    /** Small frames in the expected direction are parsed inline; everything else takes the slow path. */
    method ParseAfterCompleteDataMiss(buf: ByteBuffer) returns (r: PM.Outcome)
      requires Usable(buf)
      modifies this, headerBuf, buf
      ensures Usable(buf) && (old(Ok(buf)) ==> Ok(buf))
      ensures PM.Parsed(State(), buf.data, r) == PM.ParseSlow(old(State()), old(buf.data))
      ensures old(Ok(buf)) ==> PM.Refines(old(Config()), old(Unread(buf)), PM.Parsed(State(), buf.data, r))
    {
      hide PM.ParseSlow, PM.TrySmallFrame, PM.Raw, PM.Refines, PM.Valid;
      ghost var p0, buf0 := State(), buf.data;
      SlowKeepsUsable(p0, buf0);
      if PM.TrySmallFrame(p0, buf0).Some? {
        PM.SmallFrameIsSlow(p0, buf0);
      }
      var small := TryParseSmallFrame(buf);
      if small.Some? {
        return small.value;
      }
      r := ParseSlow(buf);
    }

    /** Parse one frame: the outcome, the buffer and the state of the slow path, by whichever path. */
    method Parse(buf: ByteBuffer) returns (r: PM.Outcome)
      requires Usable(buf)
      modifies this, headerBuf, buf
      ensures Usable(buf) && (old(Ok(buf)) ==> Ok(buf))
      ensures PM.Parsed(State(), buf.data, r) == PM.ParseSlow(old(State()), old(buf.data))
      ensures old(Ok(buf)) ==> PM.Refines(old(Config()), old(Unread(buf)), PM.Parsed(State(), buf.data, r))
    {
      hide PM.ParseSlow, PM.Refines, PM.Raw;
      ghost var p0, buf0 := State(), buf.data;
      SlowKeepsUsable(p0, buf0);
      if PM.TryCompleteData(p0, buf0).Some? {
        PM.CompleteDataIsSlow(p0, buf0);
      }
      var hit := TryParseCompleteUnmaskedData(buf);
      if hit.Some? {
        return PM.Got(Frame(PM.CompleteDataHeader(hit.value.0, |hit.value.1|), hit.value.1));
      }
      r := ParseAfterCompleteDataMiss(buf);
    }

    /**
     Apply a new limit without losing a partly received frame. The state is again one that stands
     for its octets, unless a frame already rejected for its size would fit the new limit.
     */
    method SetMaxFrameSize(limit: nat, ghost buf: ByteBuffer)
      requires Ok(buf)
      modifies this
      ensures Usable(buf) && State() == Chunked.SetMaxFrameSize(old(State()), limit)
      ensures Unread(buf) == old(Unread(buf))
      ensures Ok(buf) <==> !Chunked.RejectedButFits(old(State()), limit)
    {
      hide PM.Valid, PM.Raw;
      Chunked.LimitChangeKeepsState(State(), buf.data, limit);
      maxFrameSize := limit;
      if header.Some? && header.value.payloadLen > limit {
        phase := PM.AtTooLarge;
      }
    }

    /**
     The frame waiting for the rest of its payload. Its first `ready` octets stand
     unmasked at the front of the buffer.
     */
    function Pending(): (r: Option<PendingPayload>)
      reads this
    {
      if phase != PM.AtPayload || header.None? then None
      else
        var h := header.value;
        Some(PendingPayload(h.opcode, h.fin, h.rsv1, payloadReady, h.payloadLen))
    }
  }
}
