/**
 What permessage-deflate must put on the wire and make of it: each message by its position in the
 connection, histories kept or forgotten as negotiated, and received frames with and without the
 compression bit.
 */
module CompressionLaws {
  import opened Octets
  import opened FrameFormat
  import opened Utf8
  import opened Messages
  import opened DeflateFormat
  import opened Negotiation
  import opened Selection
  import opened Compressing
  import CM = CompressedMessages

  // ---------------------------------------------------------------------
  // Sending
  // ---------------------------------------------------------------------

  /** What an encoder puts on the wire for a sequence of messages. */
  function Wires(c: Codec, e: Encoder, messages: seq<seq<Octet>>, marks: seq<nat>): (ws: seq<Wire>)
    requires |marks| == |messages|
    ensures |ws| == |messages|
    decreases |messages|
  {
    if messages == [] then []
    else [Compress(c, e, messages[0], marks[0]).0] + Wires(c, Compress(c, e, messages[0], marks[0]).1, messages[1..], marks[1..])
  }

  /** All data that is large enough to be compressed. */
  function Large(threshold: nat, messages: seq<seq<Octet>>): seq<Octet> {
    if messages == [] then [] else (if |messages[0]| < threshold then [] else messages[0]) + Large(threshold, messages[1..])
  }

  /**
   Message `m` on the wire, behind the data `before`: small messages as they are; others are the
   codec's flush for `m` behind the window's part of `before`, with further markers, up to the
   trailer; and as they are if that is not shorter and messages are independent.
   */
  predicate IsSentAs(c: Codec, independent: bool, threshold: nat, window: nat, before: seq<Octet>, m: seq<Octet>, marks: nat, w: Wire) {
    if |m| < threshold then w == Raw(m)
    else
      var full := c.deflate(if |before| <= window then before else before[|before| - window..], m) + Markers(marks);
      if independent && |full| >= |m| + 4 then w == Raw(m) else w.Deflated? && w.data + Trailer == full
  }

  /** Over every message sequence: with takeover the history is all data compressed so far, without it is empty. */
  lemma {:induction false} WireByPosition(c: Codec, e: Encoder, messages: seq<seq<Octet>>, marks: seq<nat>, i: nat)
    requires IsFaithful(c) && |marks| == |messages| && i < |messages| && messages[i] != [] && (e.noTakeover ==> e.history == [])
    ensures var before := if e.noTakeover then [] else e.history + Large(e.threshold, messages[..i]);
            IsSentAs(c, e.noTakeover, e.threshold, e.window, before, messages[i], marks[i], Wires(c, e, messages, marks)[i])
    decreases i
  {
    hide IsFaithful, Compress, IsSentAs;
    if i == 0 {
      assert e.history + Large(e.threshold, messages[..0]) == e.history;
      FirstWire(c, e, messages[0], marks[0]);
    } else {
      var e' := Compress(c, e, messages[0], marks[0]).1;
      AfterFirst(c, e, messages[0], marks[0]);
      WireByPosition(c, e', messages[1..], marks[1..], i - 1);
      assert messages[..i][0] == messages[0] && messages[..i][1..] == messages[1..][..i - 1];
      var first := if |messages[0]| < e.threshold then [] else messages[0];
      assert e.history + (first + Large(e.threshold, messages[1..][..i - 1])) == e.history + first + Large(e.threshold, messages[1..][..i - 1]);
    }
  }

  lemma FirstWire(c: Codec, e: Encoder, m: seq<Octet>, marks: nat)
    requires IsFaithful(c) && m != []
    ensures IsSentAs(c, e.noTakeover, e.threshold, e.window, e.history, m, marks, Compress(c, e, m, marks).0)
  {
    hide IsFaithful;
    var f := c.deflate(Tail(e.history, e.window), m);
    FlushEndsWithTrailer(c, Tail(e.history, e.window), m);
    MarkersEndWithTrailer(f, marks);
    StripAndAppend(f + Markers(marks));
  }

  lemma AfterFirst(c: Codec, e: Encoder, m: seq<Octet>, marks: nat)
    ensures var e' := Compress(c, e, m, marks).1;
            && e'.noTakeover == e.noTakeover && e'.threshold == e.threshold && e'.window == e.window
            && (e.noTakeover && e.history == [] ==> e'.history == [])
            && (!e.noTakeover ==> e'.history == e.history + (if |m| < e.threshold then [] else m))
  {
    assert e.history + [] == e.history;
  }

  /** Without takeover every message can be read on its own, by a new decoder. */
  lemma {:induction false} MessagesStandAlone(c: Codec, e: Encoder, messages: seq<seq<Octet>>, marks: seq<nat>, i: nat, d: Decoder)
    requires IsCodec(c) && e.noTakeover && e.history == [] && |marks| == |messages| && i < |messages|
    requires d.seen == [] && e.window <= d.window
    ensures Decompress(c, d, Wires(c, e, messages, marks)[i]).0 == Some(messages[i])
    decreases i
  {
    hide IsCodec, Compress, Decompress;
    if i == 0 {
      NewAgree(c, e, d);
      OneMessage(c, e, d, messages[0], marks[0]);
    } else {
      AfterFirst(c, e, messages[0], marks[0]);
      MessagesStandAlone(c, Compress(c, e, messages[0], marks[0]).1, messages[1..], marks[1..], i - 1, d);
    }
  }

  /** The parameters of each side govern what that side sends: its history, its window and its independence. */
  lemma EachSideKeepsItsParameters(c: Codec, k: DeflateConfig, messages: seq<seq<Octet>>, marks: seq<nat>, i: nat)
    requires IsCodec(c) && |marks| == |messages| && i < |messages| && messages[i] != []
    ensures IsSentAs(c, k.serverNoTakeover, k.threshold, Pow2(k.serverBits), if k.serverNoTakeover then [] else Large(k.threshold, messages[..i]),
                     messages[i], marks[i], Wires(c, ServerEncoder(k), messages, marks)[i])
    ensures IsSentAs(c, k.clientNoTakeover, k.threshold, Pow2(k.clientBits), if k.clientNoTakeover then [] else Large(k.threshold, messages[..i]),
                     messages[i], marks[i], Wires(c, ClientEncoder(k), messages, marks)[i])
  {
    hide IsInflating, IsFaithful, IsSentAs, Wires, Large;
    WireByPosition(c, ServerEncoder(k), messages, marks, i);
    WireByPosition(c, ClientEncoder(k), messages, marks, i);
    assert [] + Large(k.threshold, messages[..i]) == Large(k.threshold, messages[..i]);
  }

  // ---------------------------------------------------------------------
  // Receiving
  // ---------------------------------------------------------------------

  /** A decoder without takeover makes the same of a message whatever came before; one with takeover reads on. */
  lemma DecoderForgets(c: Codec, d: Decoder, seen: seq<Octet>, b: seq<Octet>)
    ensures d.noTakeover ==>
              Decompress(c, d, Deflated(b)) == Decompress(c, d.(seen := seen), Deflated(b))
              && Decompress(c, d, Deflated(b)).0 == Decompress(c, Decoder([], false, d.window), Deflated(b)).0
    ensures !d.noTakeover ==> d.seen <= Decompress(c, d, Deflated(b)).1.seen <= d.seen + (b + Trailer)
  {
    hide IsDamaged, Yield;
  }

  /**
   Where a message ends: at the first octet behind which there is damage, or a final block has
   ended and all of the message's own octets are read; else behind the trailer. A final block that
   ends within the message is not its end; one that ends with it leaves the trailer unread.
   */
  lemma MessageEndIsFirst(c: Codec, w: nat, seen: seq<Octet>, b: seq<Octet>)
    ensures var input := b + Trailer;
            var k := |SeenAfter(c, w, seen, b)| - |seen|;
            && 0 < k <= |b| + 4 && SeenAfter(c, w, seen, b) == seen + input[..k]
            && (k < |b| + 4 ==> c.inflate(w, seen + input[..k]).place == Damaged || (c.inflate(w, seen + input[..k]).place == Ended && k >= |b|))
            && forall j :: 0 < j < k ==>
                 c.inflate(w, seen + input[..j]).place != Damaged && !(c.inflate(w, seen + input[..j]).place == Ended && j >= |b|)
  {
    EndIsFirst(c, w, seen, b + Trailer, |b|, 0);
  }

  lemma {:induction false} EndIsFirst(c: Codec, w: nat, seen: seq<Octet>, input: seq<Octet>, n: nat, i: nat)
    requires i < |input|
    ensures var k := MessageEnd(c, w, seen, input, n, i);
            && (k < |input| ==> c.inflate(w, seen + input[..k]).place == Damaged || (c.inflate(w, seen + input[..k]).place == Ended && k >= n))
            && forall j :: i < j < k ==>
                 c.inflate(w, seen + input[..j]).place != Damaged && !(c.inflate(w, seen + input[..j]).place == Ended && j >= n)
    decreases |input| - i
  {
    var place := c.inflate(w, seen + input[..i + 1]).place;
    if place != Damaged && !(place == Ended && i + 1 >= n) && i + 1 < |input| {
      EndIsFirst(c, w, seen, input, n, i + 1);
    }
  }

  // ---------------------------------------------------------------------
  // Frames
  // ---------------------------------------------------------------------

  /**
   Frames that are not part of a compressed message are taken as without the extension, errors
   included; only the early check of an unfinished text continuation is left to its end.
   */
  lemma PlainFramesAreTakenPlainly(c: Codec, s: Settings, r: CM.Receiver, f: Frame)
    requires !f.header.rsv1 && !r.compressed
    ensures var t, plain := CM.TakeCompressed(c, s, r, f), TakeFrame(s, r.assembly, f);
            if plain.Good? then t == CM.Taking(plain.value.message, r.(assembly := plain.value.assembly))
            else if plain.error == InvalidUtf8 && f.header.opcode == Continuation && !f.header.fin then
              t == CM.Taking(None, r.(assembly := r.assembly.(data := r.assembly.data + f.payload)))
            else t == CM.Refused(CM.ProtocolFailure(plain.error))
  {
    hide ValidUtf8, Remainder, DecodeClose, IsDamaged, Yield, Decompress;
  }

  /**
   The last frame of a compressed message: what its octets decompress to is returned, if that is
   within the limit and, for text, is text. Otherwise it is refused for its size, damage or text.
   */
  lemma CompressedMessageIsTaken(c: Codec, s: Settings, r: CM.Receiver, f: Frame)
    requires f.header.fin
    requires if f.header.opcode == Continuation then r.assembly.opcode.Some? && r.compressed && |r.assembly.data + f.payload| <= s.maxMessageSize
             else (f.header.opcode == Text || f.header.opcode == Binary) && f.header.rsv1 && r.assembly.opcode.None?
    ensures var op := if f.header.opcode == Continuation then r.assembly.opcode.value else f.header.opcode;
            var all := if f.header.opcode == Continuation then r.assembly.data + f.payload else f.payload;
            var (data, d), t := Decompress(c, r.decoder, Deflated(all)), CM.TakeCompressed(c, s, r, f);
            if data.Some? && |data.value| <= s.maxMessageSize && (op == Text && s.checkText ==> ValidUtf8(data.value)) then
              t == CM.Taking(Some(if op == Text then TextMessage(data.value) else BinaryMessage(data.value)), CM.Receiver(d, Idle, false))
            else
              && t.Refused?
              && (t.failure == CM.ProtocolFailure(InvalidUtf8) <==> data.Some? && |data.value| <= s.maxMessageSize)
              && (data.Some? && |data.value| > s.maxMessageSize ==> t.failure == CM.ProtocolFailure(MessageTooLarge))
              && (data.None? ==> t.failure == CM.CompressionFailure || t.failure == CM.ProtocolFailure(MessageTooLarge))
  {
    hide ValidUtf8, Remainder, DecodeClose, IsDamaged, Yield, SeenAfter;
  }

  /** Fragments of a compressed message are collected, whatever octets they have, within the limit and in order. */
  lemma CompressedFragmentIsCollected(c: Codec, s: Settings, r: CM.Receiver, f: Frame)
    requires !f.header.fin
    requires if f.header.opcode == Continuation then r.compressed || r.assembly.opcode.None?
             else (f.header.opcode == Text || f.header.opcode == Binary) && f.header.rsv1
    ensures var t, all := CM.TakeCompressed(c, s, r, f), if f.header.opcode == Continuation then r.assembly.data + f.payload else f.payload;
            if f.header.opcode == Continuation && r.assembly.opcode.None? then t == CM.Refused(CM.ProtocolFailure(UnexpectedContinuation))
            else if f.header.opcode != Continuation && r.assembly.opcode.Some? then t == CM.Refused(CM.ProtocolFailure(ExpectedContinuation))
            else if |all| > s.maxMessageSize then t == CM.Refused(CM.ProtocolFailure(MessageTooLarge))
            else t == CM.Taking(None, CM.Receiver(r.decoder, Assembly(if f.header.opcode == Continuation then r.assembly.opcode else Some(f.header.opcode), all), true))
  {
    hide ValidUtf8, Remainder, DecodeClose, IsDamaged, Yield, Decompress;
  }

  // ---------------------------------------------------------------------
  // Shared encoders
  // ---------------------------------------------------------------------

  /** Messages that are large enough take the encoders in turn, whatever connection they are from; small ones take none. */
  lemma PoolTakesTurns(c: Codec, p: Pool, threshold: nat, data: seq<Octet>, marks: nat)
    requires |p.encoders| == PoolSize
    ensures var (w, p') := SharedCompress(c, p, threshold, data, marks);
            if |data| < threshold then w == Raw(data) && p' == p
            else
              && p'.next == p.next + 1 && w == Compress(c, p.encoders[p.next % 4], data, marks).0
              && forall i :: 0 <= i < 4 && i != p.next % 4 ==> p'.encoders[i] == p.encoders[i]
  {
    hide Compress;
  }
}
