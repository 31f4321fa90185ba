/**
 The frame format of section 5.2 of RFC 6455: a stateless reader that looks at all
 unread octets at once, and the header and frame encoders. The incremental parser
 is proved against this reader; the reader and the encoder are proved inverse.
 */
module FrameFormat {
  import opened Octets
  import opened Masking

  datatype OpCode = Continuation | Text | Binary | Close | Ping | Pong

  function OpCodeFromNibble(n: nat): (r: Option<OpCode>)
    ensures forall op :: r == Some(op) <==> n == Nibble(op)
  {
    match n
    case 0 => Some(Continuation)
    case 1 => Some(Text)
    case 2 => Some(Binary)
    case 8 => Some(Close)
    case 9 => Some(Ping)
    case 10 => Some(Pong)
    case _ => None
  }

  function Nibble(op: OpCode): nat {
    match op
    case Continuation => 0
    case Text => 1
    case Binary => 2
    case Close => 8
    case Ping => 9
    case Pong => 10
  }

  predicate IsControl(op: OpCode) {
    Nibble(op) >= 8
  }

  datatype Header = Header(fin: bool, rsv1: bool, rsv2: bool, rsv3: bool, opcode: OpCode,
                           masked: bool, payloadLen: nat, mask: Option<MaskKey>)

  datatype Frame = Frame(header: Header, payload: seq<Octet>)

  datatype FrameError =
    | Rsv1NotNegotiated
    | Rsv2Or3Set
    | InvalidOpCode
    | Rsv1OnControlOrContinuation
    | FragmentedControl
    | ClientFrameUnmasked
    | ServerFrameMasked
    | LengthNotMinimal
    | LengthTopBitSet
    | ControlTooLong
    | FrameTooLarge

  datatype ParserConfig = ParserConfig(maxFrameSize: nat, expectMasked: bool, allowRsv1: bool)

  const SmallLimit := 125
  const MediumLimit := 65535
  const TopBit := 0x8000_0000_0000_0000

  // Bit fields of the first two octets.

  predicate FinBit(b0: Octet) { b0 / 128 == 1 }
  predicate Rsv1Bit(b0: Octet) { (b0 / 64) % 2 == 1 }
  predicate Rsv2Bit(b0: Octet) { (b0 / 32) % 2 == 1 }
  predicate Rsv3Bit(b0: Octet) { (b0 / 16) % 2 == 1 }
  predicate MaskBit(b1: Octet) { b1 / 128 == 1 }
  function LengthField(b1: Octet): nat { b1 % 128 }

  // ---------------------------------------------------------------------
  // Reading
  // ---------------------------------------------------------------------

  /** The first objection to the two base octets, in the order the checks are made. */
  function BaseError(cfg: ParserConfig, b0: Octet, b1: Octet): Option<FrameError> {
    var op := OpCodeFromNibble(b0 % 16);
    if Rsv1Bit(b0) && !cfg.allowRsv1 then Some(Rsv1NotNegotiated)
    else if Rsv2Bit(b0) || Rsv3Bit(b0) then Some(Rsv2Or3Set)
    else if op.None? then Some(InvalidOpCode)
    else if Rsv1Bit(b0) && op.value != Text && op.value != Binary then Some(Rsv1OnControlOrContinuation)
    else if IsControl(op.value) && !FinBit(b0) then Some(FragmentedControl)
    else if cfg.expectMasked && !MaskBit(b1) then Some(ClientFrameUnmasked)
    else if !cfg.expectMasked && MaskBit(b1) then Some(ServerFrameMasked)
    else None
  }

  /** Number of extended length octets announced by the second base octet. */
  function LengthOctets(b1: Octet): nat {
    if LengthField(b1) == 126 then 2 else if LengthField(b1) == 127 then 8 else 0
  }

  /** The first objection to a decoded payload length. */
  function LengthError(cfg: ParserConfig, op: OpCode, ext: nat, len: nat): Option<FrameError> {
    if ext == 2 && len <= SmallLimit then Some(LengthNotMinimal)
    else if ext == 8 && len <= MediumLimit then Some(LengthNotMinimal)
    else if ext == 8 && len >= TopBit then Some(LengthTopBitSet)
    else if IsControl(op) && len > SmallLimit then Some(ControlTooLong)
    else if len > cfg.maxFrameSize then Some(FrameTooLarge)
    else None
  }

  datatype LengthResult = LengthPending | LengthRejected(error: FrameError) | LengthKnown(header: Header, ext: nat)

  /** Everything but the masking key. */
  function ReadLength(cfg: ParserConfig, w: seq<Octet>): LengthResult {
    if |w| < 2 then LengthPending
    else if BaseError(cfg, w[0], w[1]).Some? then LengthRejected(BaseError(cfg, w[0], w[1]).value)
    else
      var op := OpCodeFromNibble(w[0] % 16).value;
      var ext := LengthOctets(w[1]);
      if |w| < 2 + ext then LengthPending
      else
        var len := if ext == 0 then LengthField(w[1]) else FromBigEndian(w[2..2 + ext]);
        if LengthError(cfg, op, ext, len).Some? then LengthRejected(LengthError(cfg, op, ext, len).value)
        else
          LengthKnown(Header(FinBit(w[0]), Rsv1Bit(w[0]), Rsv2Bit(w[0]), Rsv3Bit(w[0]), op,
                             MaskBit(w[1]), len, None), ext)
  }

  datatype HeaderResult = HeaderPending | HeaderRejected(error: FrameError) | HeaderKnown(header: Header, size: nat)

  function ReadHeader(cfg: ParserConfig, w: seq<Octet>): HeaderResult {
    match ReadLength(cfg, w)
    case LengthPending => HeaderPending
    case LengthRejected(e) => HeaderRejected(e)
    case LengthKnown(h, ext) =>
      if !h.masked then HeaderKnown(h, 2 + ext)
      else if |w| < 2 + ext + 4 then HeaderPending
      else HeaderKnown(h.(mask := Some(w[2 + ext..2 + ext + 4])), 2 + ext + 4)
  }

  datatype ReadResult = NeedMore | Rejected(error: FrameError) | Accepted(frame: Frame, size: nat)

  /** Payload octets as sent, given the octets as meant; and the other way round. */
  function Transmitted(h: Header, offset: nat, payload: seq<Octet>): (r: seq<Octet>)
    ensures |r| == |payload|
  {
    if h.mask.Some? then Masked(payload, h.mask.value, offset) else payload
  }

  /** The next frame at the front of the unread octets `w`, if all of it is there. */
  function ReadFrame(cfg: ParserConfig, w: seq<Octet>): (r: ReadResult) {
    match ReadHeader(cfg, w)
    case HeaderPending => NeedMore
    case HeaderRejected(e) => Rejected(e)
    case HeaderKnown(h, n) =>
      if |w| < n + h.payloadLen then NeedMore
      else Accepted(Frame(h, Transmitted(h, 0, w[n..n + h.payloadLen])), n + h.payloadLen)
  }

  // ---------------------------------------------------------------------
  // Writing
  // ---------------------------------------------------------------------

  function FirstOctet(h: Header): (b: Octet) {
    Nibble(h.opcode) + (if h.fin then 128 else 0) + (if h.rsv1 then 64 else 0)
      + (if h.rsv2 then 32 else 0) + (if h.rsv3 then 16 else 0)
  }

  function EncodeLength(masked: bool, len: nat): (r: seq<Octet>) {
    var bit := if masked then 128 else 0;
    if len <= SmallLimit then [bit + len]
    else if len <= MediumLimit then [bit + 126] + ToBigEndian(len, 2)
    else [bit + 127] + ToBigEndian(len, 8)
  }

  function EncodeHeader(h: Header): (r: seq<Octet>) {
    [FirstOctet(h)] + EncodeLength(h.masked, h.payloadLen) + (if h.mask.Some? then h.mask.value else [])
  }

  function EncodeFrame(f: Frame): (r: seq<Octet>) {
    EncodeHeader(f.header) + Transmitted(f.header, 0, f.payload)
  }

  /** The frames a peer with configuration `cfg` must accept. */
  predicate Acceptable(cfg: ParserConfig, f: Frame) {
    && AcceptableHeader(cfg, f.header)
    && |f.payload| == f.header.payloadLen
  }

  predicate AcceptableHeader(cfg: ParserConfig, h: Header) {
    && h.masked == cfg.expectMasked == h.mask.Some?
    && !h.rsv2 && !h.rsv3
    && (h.rsv1 ==> cfg.allowRsv1 && (h.opcode == Text || h.opcode == Binary))
    && (IsControl(h.opcode) ==> h.fin && h.payloadLen <= SmallLimit)
    && h.payloadLen <= cfg.maxFrameSize
    && h.payloadLen < TopBit
  }

  // ---------------------------------------------------------------------
  // Reader and writer are inverse
  // ---------------------------------------------------------------------

  lemma FirstOctetRoundTrip(h: Header)
    ensures var b := FirstOctet(h);
            && FinBit(b) == h.fin && Rsv1Bit(b) == h.rsv1 && Rsv2Bit(b) == h.rsv2 && Rsv3Bit(b) == h.rsv3
            && b % 16 == Nibble(h.opcode)
  {
  }

  lemma FirstOctetFromBits(b: Octet, op: OpCode, masked: bool, len: nat, mask: Option<MaskKey>)
    requires b % 16 == Nibble(op)
    ensures FirstOctet(Header(FinBit(b), Rsv1Bit(b), Rsv2Bit(b), Rsv3Bit(b), op, masked, len, mask)) == b
  {
    OctetBits(b);
  }

  /** An octet from its four high bits and its low nibble. */
  lemma OctetBits(b: Octet)
    ensures b == 128 * (b / 128) + 64 * (b / 64 % 2) + 32 * (b / 32 % 2) + 16 * (b / 16 % 2) + b % 16 && b / 128 < 2
  {
    var q := b / 16;
    HighBits(q);
    assert b / 32 == q / 2;
    assert b / 64 == q / 4;
    assert b / 128 == q / 8;
  }

  lemma HighBits(q: nat)
    requires q < 16
    ensures q == 8 * (q / 8) + 4 * (q / 4 % 2) + 2 * (q / 2 % 2) + q % 2 && q / 8 < 2
  {
    assert q == 2 * (q / 2) + q % 2;
    assert q / 2 == 2 * (q / 4) + q / 2 % 2;
    assert q / 4 == 2 * (q / 8) + q / 4 % 2;
  }

  /** What the reader's length part sees in an encoded length. */
  lemma EncodedLengthIsRead(masked: bool, len: nat)
    requires len < TopBit
    ensures var e := EncodeLength(masked, len);
            && 1 <= |e| && MaskBit(e[0]) == masked && |e| == 1 + LengthOctets(e[0])
            && (LengthOctets(e[0]) == 0 ==> LengthField(e[0]) == len <= SmallLimit)
            && (LengthOctets(e[0]) == 2 ==> SmallLimit < len <= MediumLimit)
            && (LengthOctets(e[0]) == 8 ==> MediumLimit < len)
            && (LengthOctets(e[0]) != 0 ==> FromBigEndian(e[1..]) == len)
  {
    Pow256Values();
    var e := EncodeLength(masked, len);
    if SmallLimit < len <= MediumLimit {
      BigEndianRoundTrip(len, 2);
      assert e[1..] == ToBigEndian(len, 2);
    } else if MediumLimit < len {
      BigEndianRoundTrip(len, 8);
      assert e[1..] == ToBigEndian(len, 8);
    }
  }

  lemma EncodedHeaderIsRead(cfg: ParserConfig, h: Header, rest: seq<Octet>)
    requires AcceptableHeader(cfg, h)
    ensures ReadHeader(cfg, EncodeHeader(h) + rest) == HeaderKnown(h, |EncodeHeader(h)|)
  {
    hide ReadLength, EncodeLength, FirstOctet, FromBigEndian;
    var e := EncodeLength(h.masked, h.payloadLen);
    var w := EncodeHeader(h) + rest;
    EncodedLengthIsRead(h.masked, h.payloadLen);
    var key := if h.mask.Some? then h.mask.value else [];
    assert w == [FirstOctet(h)] + e + (key + rest);
    assert w[0] == FirstOctet(h) && w[1] == e[0];
    assert w[1..][..|e|] == e;
    assert w[2..1 + |e|] == w[1..][..|e|][1..];
    EncodedLengthFields(cfg, h, w, e);
    if h.mask.Some? {
      assert w[1 + |e|..1 + |e| + 4] == h.mask.value;
    }
  }

  lemma EncodedLengthFields(cfg: ParserConfig, h: Header, w: seq<Octet>, e: seq<Octet>)
    requires AcceptableHeader(cfg, h)
    requires |w| >= 1 + |e| && |e| >= 1 && w[0] == FirstOctet(h) && w[1] == e[0]
    requires e == EncodeLength(h.masked, h.payloadLen)
    requires |e| == 1 + LengthOctets(e[0]) && w[2..2 + LengthOctets(e[0])] == e[1..]
    ensures ReadLength(cfg, w) == LengthKnown(h.(mask := None), LengthOctets(e[0]))
  {
    FirstOctetRoundTrip(h);
    EncodedLengthIsRead(h.masked, h.payloadLen);
    assert OpCodeFromNibble(w[0] % 16) == Some(h.opcode);
  }

  /** Whatever the encoder writes, the reader returns, followed by anything. */
  lemma EncodedFrameIsRead(cfg: ParserConfig, f: Frame, rest: seq<Octet>)
    requires Acceptable(cfg, f)
    ensures ReadFrame(cfg, EncodeFrame(f) + rest) == Accepted(f, |EncodeFrame(f)|)
  {
    var h, sent := f.header, Transmitted(f.header, 0, f.payload);
    var n := |EncodeHeader(h)|;
    var w := EncodeFrame(f) + rest;
    assert w == EncodeHeader(h) + (sent + rest);
    EncodedHeaderIsRead(cfg, h, sent + rest);
    assert w[n..n + h.payloadLen] == sent;
    TransmittedTwice(h, 0, f.payload);
  }

  lemma TransmittedTwice(h: Header, offset: nat, payload: seq<Octet>)
    ensures Transmitted(h, offset, Transmitted(h, offset, payload)) == payload
  {
    if h.mask.Some? {
      MaskingTwiceIsIdentity(payload, h.mask.value, offset);
    }
  }

  /** A length the reader knows was written in its only admissible form. */
  lemma ReadLengthIsEncoded(cfg: ParserConfig, w: seq<Octet>)
    requires ReadLength(cfg, w).LengthKnown?
    ensures var LengthKnown(h, ext) := ReadLength(cfg, w);
            && AcceptableHeader(cfg, h.(mask := if h.masked then Some([0, 0, 0, 0]) else None))
            && h.mask.None?
            && 2 + ext <= |w|
            && w[..2 + ext] == [FirstOctet(h)] + EncodeLength(h.masked, h.payloadLen)
            && 2 + ext == HeaderBase(h.payloadLen)
  {
    hide FirstOctet, EncodeLength, FromBigEndian, HeaderBase, FinBit, Rsv1Bit, Rsv2Bit, Rsv3Bit, MaskBit, LengthField;
    var LengthKnown(h, ext) := ReadLength(cfg, w);
    FirstOctetFromBits(w[0], h.opcode, h.masked, h.payloadLen, None);
    var octets := if ext == 0 then [] else w[2..2 + ext];
    MinimalLengthIsEncoded(w[1], octets, h.payloadLen);
    assert w[..2 + ext] == [w[0]] + ([w[1]] + octets);
  }

  lemma MinimalLengthIsEncoded(b1: Octet, octets: seq<Octet>, len: nat)
    requires |octets| == LengthOctets(b1) && len == (if octets == [] then LengthField(b1) else FromBigEndian(octets))
    requires |octets| == 2 ==> len > SmallLimit
    requires |octets| == 8 ==> len > MediumLimit
    ensures EncodeLength(MaskBit(b1), len) == [b1] + octets && 2 + |octets| == HeaderBase(len)
    ensures |octets| < 8 ==> len <= MediumLimit
  {
    hide FromBigEndian;
    if octets != [] {
      Pow256Values();
      BigEndianBytesRoundTrip(octets);
    }
  }

  /** Octets before the masking key, from the payload length alone. */
  function HeaderBase(len: nat): nat {
    if len > MediumLimit then 10 else if len > SmallLimit then 4 else 2
  }

  lemma ReadHeaderIsEncoded(cfg: ParserConfig, w: seq<Octet>)
    requires ReadHeader(cfg, w).HeaderKnown?
    ensures var HeaderKnown(h, n) := ReadHeader(cfg, w);
            AcceptableHeader(cfg, h) && n <= |w| && w[..n] == EncodeHeader(h)
  {
    ReadLengthIsEncoded(cfg, w);
    var HeaderKnown(h, n) := ReadHeader(cfg, w);
    var ext := ReadLength(cfg, w).ext;
    if h.masked {
      assert w[..n] == w[..2 + ext] + w[2 + ext..n];
    }
  }

  lemma EncodedHeaderSize(h: Header)
    ensures |EncodeHeader(h)| >= 2
  {
  }

  /** Whatever the reader accepts is acceptable, and is the encoding of the frame it returns. */
  lemma ReadFrameIsEncoded(cfg: ParserConfig, w: seq<Octet>)
    requires ReadFrame(cfg, w).Accepted?
    ensures var Accepted(f, n) := ReadFrame(cfg, w);
            Acceptable(cfg, f) && n <= |w| && w[..n] == EncodeFrame(f) && n >= 2
  {
    hide ReadHeader, AcceptableHeader, Transmitted;
    ReadHeaderIsEncoded(cfg, w);
    var HeaderKnown(h, n) := ReadHeader(cfg, w);
    EncodedHeaderSize(h);
    var sent := w[n..n + h.payloadLen];
    TransmittedTwice(h, 0, sent);
    assert w[..n + h.payloadLen] == w[..n] + sent;
  }

  // ---------------------------------------------------------------------
  // Later octets do not change an answer already given
  // ---------------------------------------------------------------------

  lemma ReadLengthStable(cfg: ParserConfig, w: seq<Octet>, more: seq<Octet>)
    requires !ReadLength(cfg, w).LengthPending?
    ensures ReadLength(cfg, w + more) == ReadLength(cfg, w)
  {
    var ext := LengthOctets(w[1]);
    if BaseError(cfg, w[0], w[1]).None? {
      assert (w + more)[2..2 + ext] == w[2..2 + ext];
    }
  }

  lemma ReadHeaderStable(cfg: ParserConfig, w: seq<Octet>, more: seq<Octet>)
    requires !ReadHeader(cfg, w).HeaderPending?
    ensures ReadHeader(cfg, w + more) == ReadHeader(cfg, w)
  {
    ReadLengthStable(cfg, w, more);
    if ReadLength(cfg, w).LengthKnown? {
      var k := 2 + ReadLength(cfg, w).ext;
      if ReadLength(cfg, w).header.masked {
        var w' := w + more;
        assert k + 4 <= |w|;
        assert w'[k..k + 4] == w[k..k + 4];
      }
    }
  }

  lemma ReadFrameStable(cfg: ParserConfig, w: seq<Octet>, more: seq<Octet>)
    requires !ReadFrame(cfg, w).NeedMore?
    ensures ReadFrame(cfg, w + more) == ReadFrame(cfg, w)
  {
    ReadHeaderStable(cfg, w, more);
    if ReadHeader(cfg, w).HeaderKnown? {
      var HeaderKnown(h, n) := ReadHeader(cfg, w);
      assert (w + more)[n..n + h.payloadLen] == w[n..n + h.payloadLen];
    }
  }

  /** A frame is available with its last octet, and not before. */
  lemma ReadFrameIsPrompt(cfg: ParserConfig, w: seq<Octet>, n: nat)
    requires ReadFrame(cfg, w).Accepted? && n <= |w|
    ensures ReadFrame(cfg, w[..n]) == (if n < ReadFrame(cfg, w).size then NeedMore else ReadFrame(cfg, w))
  {
    hide ReadFrame, EncodeFrame, Acceptable;
    var Accepted(f, m) := ReadFrame(cfg, w);
    ReadFrameIsEncoded(cfg, w);
    if n < m {
      assert w[..n] + w[n..] == w;
      if !ReadFrame(cfg, w[..n]).NeedMore? {
        ReadFrameStable(cfg, w[..n], w[n..]);
        ReadFrameIsEncoded(cfg, w[..n]);
      }
    } else {
      EncodedFrameIsRead(cfg, f, w[m..n]);
      assert w[..n] == EncodeFrame(f) + w[m..n];
    }
  }
}
