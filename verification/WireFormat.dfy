/**
 The frame format by its octets: the table of section 5.2 of RFC 6455, bit fields, opcode numbers,
 length forms and masking, as a law of the reader and of the encoder, and the refusals.
 */
module WireFormat {
  import opened Octets
  import opened Masking
  import opened FrameFormat

  // ---------------------------------------------------------------------
  // Exclusive-or and numbers, by bits and octets
  // ---------------------------------------------------------------------

  function Bit(x: nat, k: nat): nat {
    if k == 0 then x % 2 else Bit(x / 2, k - 1)
  }

  lemma {:induction false} XorBitsIsBitwise(a: nat, b: nat, n: nat, k: nat)
    requires k < n
    ensures Bit(XorBits(a, b, n), k) == (if Bit(a, k) == Bit(b, k) then 0 else 1)
    decreases k
  {
    var high, x := XorBits(a / 2, b / 2, n - 1), XorBits(a, b, n);
    assert x == (if a % 2 == b % 2 then 0 else 1) + 2 * high;
    if k > 0 {
      assert x / 2 == high;
      XorBitsIsBitwise(a / 2, b / 2, n - 1, k - 1);
    }
  }

  /** Each bit of an exclusive-or is set exactly if the two bits differ. */
  lemma XorIsBitwise(a: Octet, b: Octet, k: nat)
    requires k < 8
    ensures Bit(Xor(a, b), k) == 1 <==> Bit(a, k) != Bit(b, k)
  {
    XorBitsIsBitwise(a, b, 8, k);
  }

  function Two(high: nat, low: nat): nat {
    256 * high + low
  }

  /** Eight octets from `at` on, most significant first. */
  function Eight(w: seq<Octet>, at: nat): nat
    requires at + 8 <= |w|
  {
    0x1_0000_0000_0000 * Two(w[at], w[at + 1]) + 0x1_0000_0000 * Two(w[at + 2], w[at + 3])
      + 0x1_0000 * Two(w[at + 4], w[at + 5]) + Two(w[at + 6], w[at + 7])
  }

  lemma TwoOctets(s: seq<Octet>)
    requires |s| == 2
    ensures FromBigEndian(s) == Two(s[0], s[1])
  {
    BigEndianLast([], s[0]);
    BigEndianLast([s[0]], s[1]);
    assert [] + [s[0]] == [s[0]];
    assert s == [s[0]] + [s[1]];
  }

  lemma EightOctets(s: seq<Octet>)
    requires |s| == 8
    ensures FromBigEndian(s) == Eight(s, 0)
  {
    TwoOctets(s[..2]);
    TwoMore(s[..4]);
    TwoMore(s[..6]);
    TwoMore(s);
    assert s[..4][..2] == s[..2] && s[..6][..4] == s[..4];
  }

  lemma TwoMore(s: seq<Octet>)
    requires |s| >= 2
    ensures FromBigEndian(s) == 0x1_0000 * FromBigEndian(s[..|s| - 2]) + Two(s[|s| - 2], s[|s| - 1])
  {
    var front := s[..|s| - 2];
    BigEndianLast(front, s[|s| - 2]);
    BigEndianLast(front + [s[|s| - 2]], s[|s| - 1]);
    assert s == front + [s[|s| - 2]] + [s[|s| - 1]];
  }

  // ---------------------------------------------------------------------
  // The table
  // ---------------------------------------------------------------------

  /** The opcode numbers. */
  predicate NamesOpCode(n: nat, op: OpCode) {
    && (op == Continuation <==> n == 0x0)
    && (op == Text <==> n == 0x1)
    && (op == Binary <==> n == 0x2)
    && (op == Close <==> n == 0x8)
    && (op == Ping <==> n == 0x9)
    && (op == Pong <==> n == 0xA)
  }

  /** The header `h` is what the first octets of `w` say, and the first `n` octets say no more. */
  predicate Announces(w: seq<Octet>, h: Header, n: nat) {
    && |w| >= n >= 2
    && (h.fin <==> w[0] >= 0x80)
    && (h.rsv1 <==> w[0] % 0x80 >= 0x40)
    && (h.rsv2 <==> w[0] % 0x40 >= 0x20)
    && (h.rsv3 <==> w[0] % 0x20 >= 0x10)
    && NamesOpCode(w[0] % 0x10, h.opcode)
    && (h.masked <==> w[1] >= 0x80) && (h.masked <==> h.mask.Some?)
    && var key, short := if h.masked then 4 else 0, w[1] % 0x80;
       && (short < 126 ==> n == 2 + key && h.payloadLen == short)
       && (short == 126 ==> n == 4 + key && h.payloadLen == Two(w[2], w[3]) && h.payloadLen >= 126)
       && (short == 127 ==>
             && n == 10 + key && 0x1_0000 <= h.payloadLen < 0x8000_0000_0000_0000
             && h.payloadLen == Eight(w, 2))
       && (h.masked ==> h.mask.value == w[n - 4..n])
  }

  /** Octet `i` of the payload is octet `n + i` of the wire, combined with octet `i` modulo four of the key. */
  predicate Carries(w: seq<Octet>, f: Frame, n: nat) {
    && |f.payload| == f.header.payloadLen && n + |f.payload| <= |w|
    && forall i :: 0 <= i < |f.payload| ==>
         f.payload[i] == if f.header.mask.Some? then Xor(w[n + i], f.header.mask.value[i % 4]) else w[n + i]
  }

  // The lower part of an octet, and the bit above it.

  lemma EvenOrOdd(q: nat)
    ensures (2 * q + 1) % 2 == 1 && (2 * q) % 2 == 0
  {
  }

  lemma Parts10(b: nat, q: nat, r: nat)
    requires b == 0x10 * q + r && r < 0x10
    ensures b / 0x10 == q && b % 0x10 == r
  {
  }

  lemma Parts20(b: nat, q: nat, r: nat)
    requires b == 0x20 * q + r && r < 0x20
    ensures b / 0x20 == q && b % 0x20 == r
  {
  }

  lemma Parts40(b: nat, q: nat, r: nat)
    requires b == 0x40 * q + r && r < 0x40
    ensures b / 0x40 == q && b % 0x40 == r
  {
  }

  lemma Half10(b: nat, q: nat, r: nat)
    requires b == 0x20 * q + r && r < 0x20
    ensures b % 0x10 == (if r >= 0x10 then r - 0x10 else r) && (b / 0x10 % 2 == 1 <==> r >= 0x10)
  {
    EvenOrOdd(q);
    if r >= 0x10 {
      Parts10(b, 2 * q + 1, r - 0x10);
    } else {
      Parts10(b, 2 * q, r);
    }
  }

  lemma Half20(b: nat, q: nat, r: nat)
    requires b == 0x40 * q + r && r < 0x40
    ensures b % 0x20 == (if r >= 0x20 then r - 0x20 else r) && (b / 0x20 % 2 == 1 <==> r >= 0x20)
  {
    EvenOrOdd(q);
    if r >= 0x20 {
      Parts20(b, 2 * q + 1, r - 0x20);
    } else {
      Parts20(b, 2 * q, r);
    }
  }

  lemma Half40(b: nat, q: nat, r: nat)
    requires b == 0x80 * q + r && r < 0x80
    ensures b % 0x40 == (if r >= 0x40 then r - 0x40 else r) && (b / 0x40 % 2 == 1 <==> r >= 0x40)
  {
    EvenOrOdd(q);
    if r >= 0x40 {
      Parts40(b, 2 * q + 1, r - 0x40);
    } else {
      Parts40(b, 2 * q, r);
    }
  }

  lemma FirstOctetBits(b: Octet)
    ensures (FinBit(b) <==> b >= 0x80) && (Rsv1Bit(b) <==> b % 0x80 >= 0x40)
    ensures (Rsv2Bit(b) <==> b % 0x40 >= 0x20) && (Rsv3Bit(b) <==> b % 0x20 >= 0x10)
  {
    Half40(b, b / 0x80, b % 0x80);
    Half20(b, b / 0x40, b % 0x40);
    Half10(b, b / 0x20, b % 0x20);
  }

  lemma OpCodeNumbers(n: nat)
    ensures OpCodeFromNibble(n).Some? ==> NamesOpCode(n, OpCodeFromNibble(n).value)
    ensures OpCodeFromNibble(n).None? <==> n !in {0x0, 0x1, 0x2, 0x8, 0x9, 0xA}
  {
  }

  lemma LengthIsAnnounced(cfg: ParserConfig, w: seq<Octet>)
    requires ReadLength(cfg, w).LengthKnown?
    ensures var LengthKnown(h, ext) := ReadLength(cfg, w);
            var short := w[1] % 0x80;
            && 2 + ext <= |w| && h.mask.None?
            && (short < 126 ==> ext == 0 && h.payloadLen == short)
            && (short == 126 ==> ext == 2 && h.payloadLen == Two(w[2], w[3]) && h.payloadLen >= 126)
            && (short == 127 ==>
                  && ext == 8 && 0x1_0000 <= h.payloadLen < 0x8000_0000_0000_0000
                  && h.payloadLen == Eight(w, 2))
  {
    hide FromBigEndian, BaseError, OpCodeFromNibble, FinBit, Rsv1Bit, Rsv2Bit, Rsv3Bit, MaskBit;
    var ext := ReadLength(cfg, w).ext;
    if ext == 2 {
      TwoOctets(w[2..4]);
    } else if ext == 8 {
      EightOctets(w[2..10]);
    }
  }

  lemma HeaderIsAnnounced(cfg: ParserConfig, w: seq<Octet>)
    requires ReadHeader(cfg, w).HeaderKnown?
    ensures var HeaderKnown(h, n) := ReadHeader(cfg, w);
            Announces(w, h, n) && (w[1] >= 0x80 <==> cfg.expectMasked)
  {
    hide FromBigEndian, FinBit, Rsv1Bit, Rsv2Bit, Rsv3Bit, OpCodeFromNibble, LengthError;
    LengthIsAnnounced(cfg, w);
    FirstOctetBits(w[0]);
    OpCodeNumbers(w[0] % 16);
  }

  /** Whatever is accepted is the frame that the table reads from its octets, no more and no less of them. */
  lemma AcceptedFrameIsAnnounced(cfg: ParserConfig, w: seq<Octet>)
    requires ReadFrame(cfg, w).Accepted?
    ensures var Accepted(f, size) := ReadFrame(cfg, w);
            var n := size - f.header.payloadLen;
            && 0 <= n && Announces(w, f.header, n) && Carries(w, f, n)
            && (w[1] >= 0x80 <==> cfg.expectMasked) && w[0] % 0x40 < 0x10
  {
    hide Announces, ReadHeader, Xor;
    HeaderIsAnnounced(cfg, w);
    ReadHeaderIsEncoded(cfg, w);
    UnmaskedIsCarried(cfg, w);
    NoReservedBits(cfg, w);
  }

  lemma UnmaskedIsCarried(cfg: ParserConfig, w: seq<Octet>)
    requires ReadFrame(cfg, w).Accepted?
    ensures var Accepted(f, size) := ReadFrame(cfg, w); size >= f.header.payloadLen && Carries(w, f, size - f.header.payloadLen)
  {
    hide ReadHeader, Xor;
  }

  lemma NoReservedBits(cfg: ParserConfig, w: seq<Octet>)
    requires ReadHeader(cfg, w).HeaderKnown?
    ensures w[0] % 0x40 < 0x10
  {
    hide FromBigEndian, OpCodeFromNibble, LengthError, FinBit, Rsv1Bit;
    OctetBits(w[0]);
  }

  /** The encoder writes what the table says. */
  lemma EncodedFrameIsAnnounced(cfg: ParserConfig, f: Frame)
    requires Acceptable(cfg, f)
    ensures var w := EncodeFrame(f);
            var n := |w| - |f.payload|;
            0 <= n && Announces(w, f.header, n) && Carries(w, f, n)
  {
    hide Announces, Carries, ReadFrame, EncodeFrame;
    EncodedFrameIsRead(cfg, f, []);
    assert EncodeFrame(f) + [] == EncodeFrame(f);
    AcceptedFrameIsAnnounced(cfg, EncodeFrame(f));
  }

  // ---------------------------------------------------------------------
  // Refusals
  // ---------------------------------------------------------------------

  predicate IsControlNumber(n: nat) {
    n == 0x8 || n == 0x9 || n == 0xA
  }

  /** The first objection to the two base octets, by number and bit. */
  function BaseObjection(cfg: ParserConfig, b0: Octet, b1: Octet): Option<FrameError> {
    var rsv1, number := b0 % 0x80 >= 0x40, b0 % 0x10;
    if rsv1 && !cfg.allowRsv1 then Some(Rsv1NotNegotiated)
    else if b0 % 0x40 >= 0x10 then Some(Rsv2Or3Set)
    else if number !in {0x0, 0x1, 0x2, 0x8, 0x9, 0xA} then Some(InvalidOpCode)
    else if rsv1 && number != 0x1 && number != 0x2 then Some(Rsv1OnControlOrContinuation)
    else if IsControlNumber(number) && b0 < 0x80 then Some(FragmentedControl)
    else if cfg.expectMasked && b1 < 0x80 then Some(ClientFrameUnmasked)
    else if !cfg.expectMasked && b1 >= 0x80 then Some(ServerFrameMasked)
    else None
  }

  lemma BaseErrorIsObjection(cfg: ParserConfig, b0: Octet, b1: Octet)
    ensures BaseError(cfg, b0, b1) == BaseObjection(cfg, b0, b1)
  {
    hide FinBit, Rsv1Bit, Rsv2Bit, Rsv3Bit, OpCodeFromNibble;
    FirstOctetBits(b0);
    OpCodeNumbers(b0 % 16);
    ReservedBits(b0);
  }

  lemma ReservedBits(b: Octet)
    ensures b % 0x40 >= 0x10 <==> b % 0x40 >= 0x20 || b % 0x20 >= 0x10
  {
    Half20(b, b / 0x40, b % 0x40);
  }

  /** The first objection to a length that is there. */
  function LengthObjection(cfg: ParserConfig, b0: Octet, short: nat, len: nat): Option<FrameError> {
    if short == 126 && len <= 125 then Some(LengthNotMinimal)
    else if short == 127 && len <= 0xFFFF then Some(LengthNotMinimal)
    else if short == 127 && len >= 0x8000_0000_0000_0000 then Some(LengthTopBitSet)
    else if IsControlNumber(b0 % 0x10) && len > 125 then Some(ControlTooLong)
    else if len > cfg.maxFrameSize then Some(FrameTooLarge)
    else None
  }

  function AnnouncedLength(w: seq<Octet>): Option<nat>
    requires |w| >= 2
  {
    var short := w[1] % 0x80;
    if short < 126 then Some(short)
    else if short == 126 then if |w| < 4 then None else Some(Two(w[2], w[3]))
    else if |w| < 10 then None
    else Some(Eight(w, 2))
  }

  /**
   A stream is refused exactly if its base octets are objectionable, or they are not and its length
   is there and objectionable; and for the first objection.
   */
  lemma RefusedExactly(cfg: ParserConfig, w: seq<Octet>, e: FrameError)
    ensures ReadFrame(cfg, w) == Rejected(e) <==>
              && |w| >= 2
              && if BaseObjection(cfg, w[0], w[1]).Some? then BaseObjection(cfg, w[0], w[1]) == Some(e)
                 else AnnouncedLength(w).Some? && LengthObjection(cfg, w[0], w[1] % 0x80, AnnouncedLength(w).value) == Some(e)
  {
    if |w| >= 2 {
      hide BaseError, BaseObjection, LengthError, LengthObjection, AnnouncedLength, FromBigEndian, LengthOctets,
           FinBit, Rsv1Bit, Rsv2Bit, Rsv3Bit, MaskBit, OpCodeFromNibble;
      BaseErrorIsObjection(cfg, w[0], w[1]);
      if BaseError(cfg, w[0], w[1]).None? {
        LengthIsThere(w);
        if AnnouncedLength(w).Some? {
          LengthErrorIsObjection(cfg, w, AnnouncedLength(w).value);
        }
      }
    }
  }

  lemma LengthIsThere(w: seq<Octet>)
    requires |w| >= 2
    ensures var ext := LengthOctets(w[1]);
            && (AnnouncedLength(w).Some? <==> |w| >= 2 + ext)
            && (|w| >= 2 + ext ==> AnnouncedLength(w).value == if ext == 0 then LengthField(w[1]) else FromBigEndian(w[2..2 + ext]))
  {
    hide FromBigEndian;
    if w[1] % 0x80 == 126 && |w| >= 4 {
      TwoOctets(w[2..4]);
    } else if w[1] % 0x80 == 127 && |w| >= 10 {
      EightOctets(w[2..10]);
    }
  }

  lemma LengthErrorIsObjection(cfg: ParserConfig, w: seq<Octet>, len: nat)
    requires |w| >= 2 && BaseError(cfg, w[0], w[1]).None?
    ensures OpCodeFromNibble(w[0] % 16).Some?
    ensures LengthError(cfg, OpCodeFromNibble(w[0] % 16).value, LengthOctets(w[1]), len) == LengthObjection(cfg, w[0], w[1] % 0x80, len)
  {
    hide BaseError, OpCodeFromNibble;
    ControlNumbers(cfg, w[0], w[1]);
  }

  lemma ControlNumbers(cfg: ParserConfig, b0: Octet, b1: Octet)
    requires BaseError(cfg, b0, b1).None?
    ensures OpCodeFromNibble(b0 % 16).Some? && (IsControl(OpCodeFromNibble(b0 % 16).value) <==> IsControlNumber(b0 % 0x10))
  {
    hide FinBit, Rsv1Bit, Rsv2Bit, Rsv3Bit;
  }
}
