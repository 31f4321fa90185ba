/**
 permessage-deflate on whole message sequences (section 7.2 of RFC 7692): encoder and decoder
 histories, messages that are sent uncompressed, flushes without data, and encoders shared between
 connections. The codec is any that keeps the contract of DeflateFormat.dfy.
 */
module Compressing {
  import opened Octets
  import opened DeflateFormat
  import opened Negotiation
  import opened Selection
  import I = Inflating

  /** `flushed`: the codec's last call was a flush, and nothing was compressed since. */
  datatype Encoder = Encoder(history: seq<Octet>, flushed: bool, noTakeover: bool, threshold: nat, window: nat)

  /** `seen` is everything the inflater has read since its last reset. */
  datatype Decoder = Decoder(seen: seq<Octet>, noTakeover: bool, window: nat)

  /** A message on the wire: as it is, or deflated with the compression bit set. */
  datatype Wire = Raw(data: seq<Octet>) | Deflated(data: seq<Octet>)

  /** What a flush gives for `data`: without data a marker, and nothing if it only repeats the last flush. */
  function FlushOf(c: Codec, e: Encoder, data: seq<Octet>): seq<Octet> {
    if data != [] then c.deflate(Tail(e.history, e.window), data) else if e.flushed then [] else Marker
  }

  /** The same with `marks` further markers, which the codec adds when a flush exactly fills its output slice. */
  function Flushed(c: Codec, e: Encoder, data: seq<Octet>, marks: nat): seq<Octet> {
    var f := FlushOf(c, e, data);
    if f == [] then [] else f + Markers(marks)
  }

  function AfterMessage(e: Encoder, data: seq<Octet>): Encoder {
    e.(history := if e.noTakeover then [] else e.history + data, flushed := true)
  }

  /** Compress one message. Small ones stay raw; so do those that do not shrink, if the encoder keeps no history. */
  function Compress(c: Codec, e: Encoder, data: seq<Octet>, marks: nat): (Wire, Encoder) {
    if |data| < e.threshold then (Raw(data), e)
    else
      var body := Strip(Flushed(c, e, data, marks));
      (if e.noTakeover && |body| >= |data| then Raw(data) else Deflated(body), AfterMessage(e, data))
  }

  /** What the inflater has read when a message begins: nothing, if it is reset. */
  function Base(d: Decoder): seq<Octet> {
    if d.noTakeover then [] else d.seen
  }

  /** What a decoder makes of a deflated message; `None` if it is damaged. */
  function Received(c: Codec, window: nat, seen: seq<Octet>, b: seq<Octet>): Option<seq<Octet>> {
    if IsDamaged(c, window, seen, b) then None else Some(Yield(c, window, seen, b))
  }

  /** Decompress one message. */
  function Decompress(c: Codec, d: Decoder, w: Wire): (Option<seq<Octet>>, Decoder) {
    if w.Raw? then (Some(w.data), d)
    else (Received(c, d.window, Base(d), w.data), d.(seen := SeenAfter(c, d.window, Base(d), w.data)))
  }

  // ---------------------------------------------------------------------
  // One connection
  // ---------------------------------------------------------------------

  /** The inflater is between blocks, so that a message can begin. */
  predicate AtRest(c: Codec, d: Decoder) {
    c.inflate(d.window, Base(d)).place == AtBlock
  }

  /** The decoder can undo what the encoder does next: it has at least its window and, unless neither keeps one, its history. */
  ghost predicate Agree(c: Codec, e: Encoder, d: Decoder) {
    && e.window <= d.window && AtRest(c, d)
    && (if e.noTakeover then e.history == []
        else !d.noTakeover && IsSuffix(Tail(e.history, e.window), c.inflate(d.window, d.seen).output))
  }

  /** What the decoder's window keeps still ends with the encoder's. */
  lemma WindowsAgree(t: seq<Octet>, g: seq<Octet>, w: nat, v: nat)
    requires IsSuffix(t, g) && |t| <= w <= v
    ensures IsSuffix(t, Tail(g, v))
  {
    if |g| > v {
      assert g[|g| - v..][v - |t|..] == g[|g| - |t|..];
    }
  }

  lemma SuffixOfSuffix(a: seq<Octet>, b: seq<Octet>, c: seq<Octet>)
    requires IsSuffix(a, b) && IsSuffix(b, c)
    ensures IsSuffix(a, c)
  {
    assert c[|c| - |b|..][|b| - |a|..] == c[|c| - |a|..];
  }

  lemma SuffixGrows(t: seq<Octet>, g: seq<Octet>, data: seq<Octet>)
    requires IsSuffix(t, g)
    ensures IsSuffix(t + data, g + data)
  {
    assert g == g[..|g| - |t|] + t;
    assert g + data == g[..|g| - |t|] + (t + data);
  }

  lemma TailIsSuffix(h: seq<Octet>, w: nat)
    ensures IsSuffix(Tail(h, w), h)
    ensures |Tail(h, w)| == if |h| <= w then |h| else w
  {
  }

  lemma SuffixesNest(a: seq<Octet>, b: seq<Octet>, c: seq<Octet>)
    requires IsSuffix(a, c) && IsSuffix(b, c) && |a| <= |b|
    ensures IsSuffix(a, b)
  {
    assert c[|c| - |b|..][|b| - |a|..] == c[|c| - |a|..];
  }

  lemma TailGrows(h: seq<Octet>, w: nat, data: seq<Octet>)
    ensures IsSuffix(Tail(h + data, w), Tail(h, w) + data)
  {
    hide IsSuffix, Tail;
    TailIsSuffix(h, w);
    TailIsSuffix(h + data, w);
    SuffixGrows(Tail(h, w), h, data);
    SuffixesNest(Tail(h + data, w), Tail(h, w) + data, h + data);
  }

  lemma HistoriesGrow(h: seq<Octet>, g: seq<Octet>, w: nat, data: seq<Octet>)
    requires IsSuffix(Tail(h, w), g)
    ensures IsSuffix(Tail(h + data, w), g + data)
  {
    hide IsSuffix, Tail;
    TailGrows(h, w, data);
    SuffixGrows(Tail(h, w), g, data);
    SuffixOfSuffix(Tail(h + data, w), Tail(h, w) + data, g + data);
  }

  /** The codec is not asked for a flush that only repeats the last one, or its answer is not used. */
  predicate IsSafeToSend(e: Encoder, data: seq<Octet>) {
    data != [] || e.threshold > 0 || e.noTakeover || !e.flushed
  }

  /** One message: it arrives as it was sent, however often the flush is repeated, and the histories agree again. */
  lemma OneMessage(c: Codec, e: Encoder, d: Decoder, data: seq<Octet>, marks: nat)
    requires IsCodec(c) && Agree(c, e, d) && IsSafeToSend(e, data)
    ensures var (w, e') := Compress(c, e, data, marks);
            var (r, d') := Decompress(c, d, w);
            r == Some(data) && Agree(c, e', d')
  {
    hide IsInflating, IsFaithful, Tail, IsSuffix, Strip, ReadsBack;
    if |data| >= e.threshold && Compress(c, e, data, marks).0.Deflated? {
      var base, flushed := Base(d), Flushed(c, e, data, marks);
      FlushIsRead(c, e, d, data, marks);
      MessageIsRead(c, d.window, base, flushed, data);
      BoundaryAfter(c, d.window, base, flushed, data);
      NothingRead(c, d.window);
      if !e.noTakeover {
        HistoriesGrow(e.history, c.inflate(d.window, d.seen).output, e.window, data);
      }
    }
  }

  lemma FlushIsRead(c: Codec, e: Encoder, d: Decoder, data: seq<Octet>, marks: nat)
    requires IsCodec(c) && Agree(c, e, d) && (data != [] || !e.flushed)
    ensures var flushed := Flushed(c, e, data, marks);
            IsSuffix(Trailer, flushed) && ReadsBack(c, d.window, Base(d), flushed, data)
  {
    hide IsInflating, IsFaithful, Tail, ReadsBack;
    var base, f := Base(d), FlushOf(c, e, data);
    if data == [] {
      MarkerIsRead(c, d.window, base);
    } else {
      var t, g := Tail(e.history, e.window), c.inflate(d.window, base).output;
      TailFits(e.history, e.window);
      WindowsAgree(t, g, e.window, d.window);
      FlushEndsWithTrailer(c, t, data);
      DataIsReadBack(c, d.window, base, t, data);
    }
    MarkersAreRead(c, d.window, base, f, data, marks);
    MarkersEndWithTrailer(f, marks);
  }

  lemma TailFits(h: seq<Octet>, w: nat)
    ensures |Tail(h, w)| <= w && Tail([], w) == []
  {
  }

  /** What arrives when a sequence of messages is sent over one connection. */
  function Exchange(c: Codec, e: Encoder, d: Decoder, messages: seq<seq<Octet>>, marks: seq<nat>): seq<Option<seq<Octet>>>
    requires |marks| == |messages|
    decreases |messages|
  {
    if messages == [] then []
    else
      var (w, e') := Compress(c, e, messages[0], marks[0]);
      var (r, d') := Decompress(c, d, w);
      [r] + Exchange(c, e', d', messages[1..], marks[1..])
  }

  /** What arrives is what was sent. */
  predicate Arrives(messages: seq<seq<Octet>>, arrived: seq<Option<seq<Octet>>>) {
    |arrived| == |messages| && forall i :: 0 <= i < |messages| ==> arrived[i] == Some(messages[i])
  }

  /** With takeover and without a threshold, no message may be empty, except the first of a new encoder. */
  predicate AreSafeToSend(e: Encoder, messages: seq<seq<Octet>>) {
    e.threshold > 0 || e.noTakeover ||
    forall i :: 0 <= i < |messages| ==> messages[i] != [] || (i == 0 && !e.flushed)
  }

  /** Over every message sequence, with or without takeover, raw messages in between: each arrives as it was sent. */
  lemma {:induction false} EveryMessageArrives(c: Codec, e: Encoder, d: Decoder, messages: seq<seq<Octet>>, marks: seq<nat>)
    requires IsCodec(c) && Agree(c, e, d) && AreSafeToSend(e, messages) && |marks| == |messages|
    ensures Arrives(messages, Exchange(c, e, d, messages, marks))
    decreases |messages|
  {
    hide IsCodec, Agree, Compress, Decompress;
    if messages != [] {
      OneMessage(c, e, d, messages[0], marks[0]);
      var (w, e') := Compress(c, e, messages[0], marks[0]);
      var (_, d') := Decompress(c, d, w);
      SameKind(c, e, messages[0], marks[0]);
      EveryMessageArrives(c, e', d', messages[1..], marks[1..]);
    }
  }

  lemma SameKind(c: Codec, e: Encoder, data: seq<Octet>, marks: nat)
    ensures var e' := Compress(c, e, data, marks).1;
            && e'.noTakeover == e.noTakeover && e'.threshold == e.threshold && e'.window == e.window
            && (|data| >= e.threshold ==> e'.flushed)
  {
  }

  // ---------------------------------------------------------------------
  // Negotiated connections
  // ---------------------------------------------------------------------

  function WindowSize(bits: nat): nat {
    Pow2(bits)
  }

  function ServerEncoder(k: DeflateConfig): Encoder {
    Encoder([], false, k.serverNoTakeover, k.threshold, WindowSize(k.serverBits))
  }

  function ClientEncoder(k: DeflateConfig): Encoder {
    Encoder([], false, k.clientNoTakeover, k.threshold, WindowSize(k.clientBits))
  }

  /** The decoder of a server: for what clients send. */
  function ServerDecoder(k: DeflateConfig): Decoder {
    Decoder([], k.clientNoTakeover, WindowSize(k.clientBits))
  }

  function ClientDecoder(k: DeflateConfig): Decoder {
    Decoder([], k.serverNoTakeover, WindowSize(k.serverBits))
  }

  lemma NewAgree(c: Codec, e: Encoder, d: Decoder)
    requires IsCodec(c) && e.history == [] && d.seen == [] && e.window <= d.window && (e.noTakeover || !d.noTakeover)
    ensures Agree(c, e, d)
  {
    hide IsFaithful;
    NothingRead(c, d.window);
  }

  /** Both directions of a connection start in agreement when both ends use the negotiated configuration. */
  lemma ContextsAgree(k: DeflateConfig, c: Codec, messages: seq<seq<Octet>>, marks: seq<nat>)
    requires IsCodec(c) && |marks| == |messages|
    ensures AreSafeToSend(ServerEncoder(k), messages) ==>
              Arrives(messages, Exchange(c, ServerEncoder(k), ClientDecoder(k), messages, marks))
    ensures AreSafeToSend(ClientEncoder(k), messages) ==>
              Arrives(messages, Exchange(c, ClientEncoder(k), ServerDecoder(k), messages, marks))
  {
    hide IsCodec, Exchange, WindowSize, Agree, AreSafeToSend;
    NewAgree(c, ServerEncoder(k), ClientDecoder(k));
    NewAgree(c, ClientEncoder(k), ServerDecoder(k));
    if AreSafeToSend(ServerEncoder(k), messages) {
      EveryMessageArrives(c, ServerEncoder(k), ClientDecoder(k), messages, marks);
    }
    if AreSafeToSend(ClientEncoder(k), messages) {
      EveryMessageArrives(c, ClientEncoder(k), ServerDecoder(k), messages, marks);
    }
  }

  predicate AnnouncesOwnLimits(n: Negotiated) {
    ValidLimit(n.serverLimit) && ValidLimit(n.clientLimit)
  }

  /** The configuration a client reads from the response. */
  function ReadResponse(n: Negotiated): Option<DeflateConfig>
    requires AnnouncesOwnLimits(n)
  {
    var params := OfferParams(ResponseHeader(n.config.serverNoTakeover, n.config.clientNoTakeover, n.serverLimit, n.clientLimit));
    if params.None? || OfferOf(params.value).None? then None else ConfigOf(OfferOf(params.value).value)
  }

  lemma ResponseIsRead(n: Negotiated)
    requires AnnouncesOwnLimits(n) && n.config.serverBits == (if n.serverLimit.Some? then n.serverLimit.value else MaxBits)
    ensures ReadResponse(n).Some? <==> n.clientLimit != Some(8) && n.serverLimit != Some(8)
    ensures ReadResponse(n).Some? ==>
              var k := ReadResponse(n).value;
              && k.serverBits == n.config.serverBits && k.clientBits == ClientMayUse(n) && k.threshold > 0
              && k.serverNoTakeover == n.config.serverNoTakeover && k.clientNoTakeover == n.config.clientNoTakeover
  {
    hide OfferParams, OfferOf, ResponseHeader;
    HeaderRoundTrip(n.config.serverNoTakeover, n.config.clientNoTakeover, n.serverLimit, n.clientLimit);
  }

  /**
   From negotiation to traffic: the client reads the server's response into the same codec
   parameters, unless it is limited to 8 bits, which no client of this backend offers; and then
   every message arrives in both directions; from a server with takeover whose policy has no
   threshold, if only the first may be empty.
   */
  lemma NegotiatedEndsAgree(o: Offer, policy: DeflateConfig, c: Codec, messages: seq<seq<Octet>>, marks: seq<nat>)
    requires IsCodec(c) && |marks| == |messages| && BitsInRange(o) && Select(o, policy).Chosen?
    ensures var n := Select(o, policy).result;
            AnnouncesOwnLimits(n) && (ReadResponse(n).Some? <==> n.clientLimit != Some(8))
    ensures var n := Select(o, policy).result;
            ReadResponse(n).Some? ==>
              var k := ReadResponse(n).value;
              && (AreSafeToSend(ServerEncoder(n.config), messages) ==>
                    Arrives(messages, Exchange(c, ServerEncoder(n.config), ClientDecoder(k), messages, marks)))
              && Arrives(messages, Exchange(c, ClientEncoder(k), ServerDecoder(n.config), messages, marks))
  {
    hide IsCodec, Exchange, WindowSize, OfferParams, OfferOf, ResponseHeader, Agree, Arrives;
    var n := Select(o, policy).result;
    ChoiceKeepsLimits(o, policy);
    ResponseIsRead(n);
    hide ReadResponse, Select;
    if ReadResponse(n).Some? {
      var k := ReadResponse(n).value;
      NewAgree(c, ServerEncoder(n.config), ClientDecoder(k));
      NewAgree(c, ClientEncoder(k), ServerDecoder(n.config));
      if AreSafeToSend(ServerEncoder(n.config), messages) {
        EveryMessageArrives(c, ServerEncoder(n.config), ClientDecoder(k), messages, marks);
      }
      EveryMessageArrives(c, ClientEncoder(k), ServerDecoder(n.config), messages, marks);
    }
  }

  // ---------------------------------------------------------------------
  // Shared encoders
  // ---------------------------------------------------------------------

  const PoolSize := 4

  /** Encoders shared round-robin by any number of connections. */
  datatype Pool = Pool(encoders: seq<Encoder>, next: nat)

  function NewPool(threshold: nat, window: nat): Pool {
    Pool(seq(PoolSize, _ => Encoder([], false, true, threshold, window)), 0)
  }

  predicate PoolOk(p: Pool) {
    |p.encoders| == PoolSize && forall i :: 0 <= i < PoolSize ==> p.encoders[i].noTakeover && p.encoders[i].history == []
  }

  lemma NewPoolIsOk(threshold: nat, window: nat)
    ensures PoolOk(NewPool(threshold, window)) && forall i :: 0 <= i < PoolSize ==> NewPool(threshold, window).encoders[i].window == window
  {
  }

  function PoolCompress(c: Codec, p: Pool, data: seq<Octet>, marks: nat): (Wire, Pool)
    requires |p.encoders| == PoolSize
  {
    var i := p.next % PoolSize;
    var (w, e) := Compress(c, p.encoders[i], data, marks);
    (w, Pool(p.encoders[i := e], p.next + 1))
  }

  /** A connection's own threshold is checked before an encoder is taken. */
  function SharedCompress(c: Codec, p: Pool, threshold: nat, data: seq<Octet>, marks: nat): (Wire, Pool)
    requires |p.encoders| == PoolSize
    ensures |SharedCompress(c, p, threshold, data, marks).1.encoders| == PoolSize
  {
    if |data| < threshold then (Raw(data), p) else PoolCompress(c, p, data, marks)
  }

  /** A message of connection `conn`. */
  datatype Sending = Sending(conn: nat, data: seq<Octet>, marks: nat)

  /** Messages of many connections, interleaved on one pool, each decoded by its own connection's peer. */
  function SharedExchange(c: Codec, p: Pool, threshold: nat, peers: seq<Decoder>, sends: seq<Sending>): seq<Option<seq<Octet>>>
    requires |p.encoders| == PoolSize && forall i :: 0 <= i < |sends| ==> sends[i].conn < |peers|
    decreases |sends|
  {
    if sends == [] then []
    else
      var (w, p') := SharedCompress(c, p, threshold, sends[0].data, sends[0].marks);
      var (r, d') := Decompress(c, peers[sends[0].conn], w);
      [r] + SharedExchange(c, p', threshold, peers[sends[0].conn := d'], sends[1..])
  }

  lemma SharedMessage(c: Codec, p: Pool, threshold: nat, d: Decoder, data: seq<Octet>, marks: nat)
    requires IsCodec(c) && PoolOk(p) && AtRest(c, d) && forall i :: 0 <= i < PoolSize ==> p.encoders[i].window <= d.window
    ensures var (w, p') := SharedCompress(c, p, threshold, data, marks);
            var (r, d') := Decompress(c, d, w);
            && r == Some(data) && PoolOk(p') && d'.window == d.window && AtRest(c, d')
            && forall i :: 0 <= i < PoolSize ==> p'.encoders[i].window == p.encoders[i].window
  {
    hide IsCodec;
    var e := p.encoders[p.next % PoolSize];
    OneMessage(c, e, d, data, marks);
  }

  /** Any interleaving of any connections on a shared pool: each message arrives at its own peer as it was sent. */
  lemma EverySharedMessageArrives(c: Codec, threshold: nat, window: nat, peers: seq<Decoder>, sends: seq<Sending>)
    requires IsCodec(c)
    requires forall i :: 0 <= i < |sends| ==> sends[i].conn < |peers|
    requires forall i :: 0 <= i < |peers| ==> window <= peers[i].window && AtRest(c, peers[i])
    ensures var arrived := SharedExchange(c, NewPool(threshold, window), threshold, peers, sends);
            |arrived| == |sends| && forall i :: 0 <= i < |sends| ==> arrived[i] == Some(sends[i].data)
  {
    hide IsCodec, SharedExchange, PoolOk, NewPool;
    NewPoolIsOk(threshold, window);
    PoolServesAll(c, NewPool(threshold, window), threshold, peers, sends, window);
  }

  lemma {:induction false} PoolServesAll(c: Codec, p: Pool, threshold: nat, peers: seq<Decoder>, sends: seq<Sending>, window: nat)
    requires IsCodec(c) && PoolOk(p)
    requires forall i :: 0 <= i < |sends| ==> sends[i].conn < |peers|
    requires forall i :: 0 <= i < PoolSize ==> p.encoders[i].window == window
    requires forall i :: 0 <= i < |peers| ==> window <= peers[i].window && AtRest(c, peers[i])
    ensures var arrived := SharedExchange(c, p, threshold, peers, sends);
            |arrived| == |sends| && forall i :: 0 <= i < |sends| ==> arrived[i] == Some(sends[i].data)
    decreases |sends|
  {
    hide IsCodec, SharedCompress, Decompress;
    if sends != [] {
      var conn := sends[0].conn;
      SharedMessage(c, p, threshold, peers[conn], sends[0].data, sends[0].marks);
      var (w, p') := SharedCompress(c, p, threshold, sends[0].data, sends[0].marks);
      var (_, d') := Decompress(c, peers[conn], w);
      PoolServesAll(c, p', threshold, peers[conn := d'], sends[1..], window);
    }
  }

  // ---------------------------------------------------------------------
  // The encoder object
  // ---------------------------------------------------------------------

  /** One call of the codec's compressor. */
  datatype Answer = Answer(consumed: nat, produced: nat) | CodecError

  /** The flush `full`, and then markers without end. */
  function Flow(full: seq<Octet>, n: nat): seq<Octet> {
    MarkersSize(n);
    (full + Markers(n))[..n]
  }

  /** The flush is complete, and some markers may have been repeated. */
  predicate IsFlushPoint(full: seq<Octet>, n: nat) {
    if full == [] then n == 0 else n >= |full| && (n - |full|) % 5 == 0
  }

  /**
   Under one flush mode the compressor works until input and pending output are done or the output
   slice is full. If it is called again after filling a slice, it may repeat the marker.
   */
  predicate Deflates(data: seq<Octet>, full: seq<Octet>, taken: nat, given: nat, space: nat, a: Answer) {
    a.CodecError? ||
    (&& taken + a.consumed <= |data| && a.produced <= space && (full == [] ==> a.produced == 0)
     && (a.produced < space ==> taken + a.consumed == |data| && IsFlushPoint(full, given + a.produced)))
  }

  /** The compressor at a call: number of the call, octets taken and given so far, output space. */
  type Compressor = (nat, nat, nat, nat) -> Answer

  ghost predicate IsCompressor(data: seq<Octet>, full: seq<Octet>, engine: Compressor) {
    forall call: nat, taken: nat, given: nat, space: nat ::
      taken <= |data| && space > 0 && (full == [] ==> given == 0) ==>
        Deflates(data, full, taken, given, space, engine(call, taken, given, space))
  }

  const MaxCalls := 100_000

  lemma {:induction false} MarkersSize(n: nat)
    ensures |Markers(n)| == 5 * n
  {
    if n > 0 {
      MarkersSize(n - 1);
    }
  }

  lemma {:induction false} MarkersGrow(m: nat, n: nat)
    requires m <= n
    ensures Markers(m) <= Markers(n)
    decreases n - m
  {
    if m < n {
      MarkersGrow(m, n - 1);
    }
  }

  lemma FlowGrows(full: seq<Octet>, m: nat, n: nat)
    requires m <= n
    ensures Flow(full, m) <= Flow(full, n) && |Flow(full, m)| == m && |Flow(full, n)| == n
  {
    hide Markers;
    MarkersSize(m);
    MarkersSize(n);
    MarkersGrow(m, n);
  }

  lemma FlowIsFlushed(full: seq<Octet>, n: nat) returns (marks: nat)
    requires full != [] && IsFlushPoint(full, n)
    ensures Flow(full, n) == full + Markers(marks)
  {
    hide Markers;
    marks := (n - |full|) / 5;
    MarkersSize(marks);
    MarkersSize(n);
    MarkersGrow(marks, n);
  }

  class DeflateEncoder {
    var history: seq<Octet>
    var flushed: bool
    const noTakeover: bool
    const threshold: nat
    const window: nat

    constructor (window: nat, noTakeover: bool, threshold: nat)
      ensures View() == Encoder([], false, noTakeover, threshold, window)
    {
      history, flushed := [], false;
      this.noTakeover, this.threshold, this.window := noTakeover, threshold, window;
    }

    function View(): Encoder
      reads this
    {
      Encoder(history, flushed, noTakeover, threshold, window)
    }

    /**
     Compress one message in as many codec calls as the output slices need; `marks` says how often
     the marker was repeated. `None` is an error; an encoder that keeps no history is then as good
     as new.
     */
    method CompressMessage(c: Codec, data: seq<Octet>, engine: Compressor, room: nat -> nat)
      returns (r: Option<Wire>, ghost marks: nat)
      requires IsCompressor(data, FlushOf(c, View(), data), engine)
      modifies this`history, this`flushed
      ensures r.Some? ==> (r.value, View()) == Compress(c, old(View()), data, marks)
      ensures r.None? && noTakeover ==> history == [] && !flushed
    {
      hide Markers, Flow;
      marks := 0;
      if |data| < threshold {
        return Some(Raw(data)), 0;
      }
      var full := FlushOf(c, View(), data);
      var output: seq<Octet> := [];
      var totalIn: nat, calls: nat := 0, 0;
      FlowGrows(full, 0, 0);
      while true
        invariant totalIn <= |data| && output == Flow(full, |output|) && (full == [] ==> output == [])
        invariant calls <= MaxCalls && View() == old(View())
        decreases MaxCalls - calls
      {
        calls := calls + 1;
        if calls > MaxCalls {
          Fail(data[..totalIn]);
          return None, 0;
        }
        var space := if room(calls) == 0 then 4096 else room(calls);
        var a := engine(calls, totalIn, |output|, space);
        assert Deflates(data, full, totalIn, |output|, space, a);
        if a.CodecError? {
          Fail(data[..totalIn]);
          return None, 0;
        }
        totalIn := totalIn + a.consumed;
        FlowGrows(full, |output|, |output| + a.produced);
        output := Flow(full, |output| + a.produced);
        if totalIn == |data| && a.produced < space {
          break;
        }
      }
      if full != [] {
        marks := FlowIsFlushed(full, |output|);
      }
      assert output == Flushed(c, View(), data, marks);
      history, flushed := if noTakeover then [] else history + data, true;
      var body := Strip(output);
      if noTakeover && |body| >= |data| {
        r := Some(Raw(data));
      } else {
        r := Some(Deflated(body));
      }
    }

    /** A failed flush: independence is restored where messages must be independent. */
    method Fail(ingested: seq<Octet>)
      modifies this`history, this`flushed
      ensures history == if noTakeover then [] else old(history) + ingested
      ensures noTakeover ==> !flushed
    {
      history := if noTakeover then [] else history + ingested;
      if noTakeover {
        flushed := false;
      }
    }
  }

  // ---------------------------------------------------------------------
  // The decoder object
  // ---------------------------------------------------------------------

  /**
   The library as it is called: what its codec means, compressors that produce an output piece by
   piece, and inflaters that work through the streams of an input piece by piece.
   */
  datatype Library = Library(codec: Codec, compressor: (seq<Octet>, seq<Octet>) -> Compressor, inflater: seq<I.Chunk> -> I.Engine)

  ghost predicate IsLibrary(z: Library) {
    && IsCodec(z.codec)
    && (forall data, full :: IsCompressor(data, full, z.compressor(data, full)))
    && (forall chunks :: I.IsInflater(chunks, z.inflater(chunks)))
  }

  /** The library's inflaters never stall, and fail only where they get to damage. */
  ghost predicate IsDependable(z: Library) {
    forall chunks :: I.IsReliable(chunks, z.inflater(chunks))
  }

  function Least(a: nat, b: nat): nat {
    if a < b then a else b
  }

  /** A library that stores: it takes all input at once and gives as much output as there is space for. */
  function StoringLibrary(): Library {
    Library(StoringCodec(),
            (data: seq<Octet>, full: seq<Octet>) =>
              (call: nat, taken: nat, given: nat, space: nat) => StoredOutput(data, full, taken, given, space),
            (chunks: seq<I.Chunk>) =>
              (call: nat, k: nat, taken: nat, given: nat, offered: nat) => StoredPiece(chunks, k, taken, given, offered))
  }

  function StoredOutput(data: seq<Octet>, full: seq<Octet>, taken: nat, given: nat, space: nat): Answer {
    if taken > |data| || (full == [] && given > 0) then CodecError
    else Answer(|data| - taken, if given <= |full| then Least(space, |full| - given)
                                else if full == [] then 0 else Least(space, (5 - (given - |full|) % 5) % 5))
  }

  function StoredPiece(chunks: seq<I.Chunk>, k: nat, taken: nat, given: nat, offered: nat): I.Answer {
    if k < |chunks| && taken <= chunks[k].size && given <= |chunks[k].output| then
      var n := Least(offered, |chunks[k].output| - given);
      if n < offered && chunks[k].ending.Broken? then I.CodecError
      else I.Answer(chunks[k].size - taken, n, n < offered && chunks[k].ending.Final?)
    else I.CodecError
  }

  /** The whole contract can be kept, by a library that never fails. */
  lemma StoringLibraryIsLibrary()
    ensures IsLibrary(StoringLibrary()) && IsDependable(StoringLibrary())
  {
    hide IsCodec;
    var z := StoringLibrary();
    StoringIsCodec();
    forall data, full ensures IsCompressor(data, full, z.compressor(data, full)) {
      StoredOutputDeflates(data, full);
    }
    forall chunks ensures I.IsInflater(chunks, z.inflater(chunks)) && I.IsReliable(chunks, z.inflater(chunks)) {
      StoredPiecesInflate(chunks);
    }
  }

  lemma StoredOutputDeflates(data: seq<Octet>, full: seq<Octet>)
    ensures IsCompressor(data, full, StoringLibrary().compressor(data, full))
  {
    hide StoredOutput, Deflates;
    forall call: nat, taken: nat, given: nat, space: nat | taken <= |data| && space > 0 && (full == [] ==> given == 0)
      ensures Deflates(data, full, taken, given, space, StoringLibrary().compressor(data, full)(call, taken, given, space))
    {
      StoredCall(data, full, taken, given, space);
    }
  }

  lemma StoredCall(data: seq<Octet>, full: seq<Octet>, taken: nat, given: nat, space: nat)
    requires taken <= |data| && space > 0 && (full == [] ==> given == 0)
    ensures Deflates(data, full, taken, given, space, StoredOutput(data, full, taken, given, space))
  {
    if given > |full| {
      NextMark(given - |full|);
    }
  }

  lemma NextMark(n: nat)
    ensures (n + (5 - n % 5) % 5) % 5 == 0
  {
    var q, r := n / 5, n % 5;
    assert n == 5 * q + r;
    if r > 0 {
      assert n + (5 - r) == 5 * (q + 1);
    }
  }

  lemma StoredPiecesInflate(chunks: seq<I.Chunk>)
    ensures var f := StoringLibrary().inflater(chunks); I.IsInflater(chunks, f) && I.IsReliable(chunks, f)
  {
  }

  class DeflateDecoder {
    // What the inflater has read since its last reset.
    var seen: seq<Octet>
    const noTakeover: bool
    const window: nat

    constructor (window: nat, noTakeover: bool)
      ensures View() == Decoder([], noTakeover, window)
    {
      seen := [];
      this.noTakeover, this.window := noTakeover, window;
    }

    function View(): Decoder
      reads this
    {
      Decoder(seen, noTakeover, window)
    }

    /** The streams the inflater will find in a message. */
    function Streams(c: Codec, data: seq<Octet>): seq<I.Chunk>
      reads this
    {
      I.StreamsOf(c, window, Base(View()), data)
    }

    /**
     Decompress one message with the bounded loop: everything it yields if that fits the limit, a
     refusal if it does not. Of a damaged message at least the damage is reported if what comes
     before it fits, and the refusal if it is more than one octet too long.
     */
    method DecompressMessage(z: Library, data: seq<Octet>, maxSize: nat, room: nat -> nat) returns (r: I.Result)
      requires IsInflating(z.codec) && I.IsInflater(Streams(z.codec, data), z.inflater(Streams(z.codec, data)))
      modifies this`seen
      ensures r.Inflated? ==> (Some(r.output), View()) == Decompress(z.codec, old(View()), Deflated(data)) && |r.output| <= maxSize
      ensures var size := |Yield(z.codec, window, Base(old(View())), data)|;
              && (r.MessageTooLarge? ==> size > maxSize)
              && (I.IsReliable(old(Streams(z.codec, data)), z.inflater(old(Streams(z.codec, data))))
                  && maxSize + |old(Streams(z.codec, data))| <= I.MaxCalls ==>
                    if IsDamaged(z.codec, window, Base(old(View())), data) then
                      if size <= maxSize then r.CodecFailure?
                      else r.MessageTooLarge? || (r.CodecFailure? && size == maxSize + 1)
                    else if size <= maxSize then r.Inflated? else r.MessageTooLarge?)
    {
      hide IsInflating, IsDamaged, Yield, SeenAfter, I.Fits, I.Meaning, I.EndsBroken, I.IsInflater, I.IsReliable, I.StreamsOf;
      ghost var base := Base(View());
      var chunks := Streams(z.codec, data);
      I.StreamsAreMeaning(z.codec, window, base, data);
      if noTakeover {
        seen := [];
      }
      r := I.Decompress(chunks, |data|, maxSize, z.inflater(chunks), room);
      if r.Inflated? {
        seen := SeenAfter(z.codec, window, seen, data);
      }
    }
  }

  // ---------------------------------------------------------------------
  // Encoder and decoder objects at the two ends of a connection
  // ---------------------------------------------------------------------

  /** How far an exchange got: everything arrived, or it stopped at a message. */
  datatype Stop = Finished | NotCompressed | TooLarge | NotInflated

  /**
   Messages through an encoder and a decoder object, however small the slices their codec calls are
   given: what arrives is what was sent, and only a codec failure, the limit on calls, or a message
   above the receiver's limit stops it.
   */
  method ExchangeMessages(z: Library, encoder: DeflateEncoder, decoder: DeflateDecoder, messages: seq<seq<Octet>>, maxSize: nat,
                          room: nat -> nat)
    returns (arrived: seq<seq<Octet>>, stop: Stop)
    requires IsLibrary(z) && Agree(z.codec, encoder.View(), decoder.View()) && AreSafeToSend(encoder.View(), messages)
    modifies encoder`history, encoder`flushed, decoder`seen
    ensures arrived <= messages && (stop.Finished? <==> arrived == messages)
    ensures stop.TooLarge? ==> |messages[|arrived|]| > maxSize
    ensures stop.NotInflated? ==> !IsDependable(z) || maxSize + 1 > I.MaxCalls
    ensures stop.Finished? ==> Agree(z.codec, encoder.View(), decoder.View())
  {
    hide IsLibrary, IsCodec, IsDependable, Agree, Compress, Decompress, AreSafeToSend, FlushOf, I.StreamsOf, IsDamaged, Yield;
    arrived := [];
    while |arrived| < |messages|
      invariant arrived <= messages && Agree(z.codec, encoder.View(), decoder.View())
      invariant AreSafeToSend(encoder.View(), messages[|arrived|..])
      decreases |messages| - |arrived|
    {
      ghost var e, d, rest := encoder.View(), decoder.View(), messages[|arrived|..];
      var data := messages[|arrived|];
      var full := FlushOf(z.codec, encoder.View(), data);
      LibraryCompresses(z, data, full);
      var wire, marks := encoder.CompressMessage(z.codec, data, z.compressor(data, full), room);
      if wire.None? {
        return arrived, NotCompressed;
      }
      SafeInOrder(z.codec, e, rest, marks);
      OneMessage(z.codec, e, d, data, marks);
      assert rest[1..] == messages[|arrived| + 1..];
      if wire.value.Raw? {
        RawArrives(z.codec, d, wire.value);
        arrived := arrived + [wire.value.data];
      } else {
        LibraryInflates(z, decoder.Streams(z.codec, wire.value.data));
        MessageIsWhole(z.codec, e, d, data, marks);
        var r := decoder.DecompressMessage(z, wire.value.data, maxSize, room);
        if !r.Inflated? {
          return arrived, if r.MessageTooLarge? then TooLarge else NotInflated;
        }
        arrived := arrived + [r.output];
      }
    }
    stop := Finished;
  }

  lemma SafeInOrder(c: Codec, e: Encoder, messages: seq<seq<Octet>>, marks: nat)
    requires AreSafeToSend(e, messages) && messages != []
    ensures IsSafeToSend(e, messages[0]) && AreSafeToSend(Compress(c, e, messages[0], marks).1, messages[1..])
  {
    hide Compress;
    SameKind(c, e, messages[0], marks);
  }

  /** A deflated message is one undamaged stream that yields its data. */
  lemma MessageIsWhole(c: Codec, e: Encoder, d: Decoder, data: seq<Octet>, marks: nat)
    requires IsCodec(c) && Agree(c, e, d) && IsSafeToSend(e, data) && Compress(c, e, data, marks).0.Deflated?
    ensures var b := Compress(c, e, data, marks).0.data;
            && !IsDamaged(c, d.window, Base(d), b) && Yield(c, d.window, Base(d), b) == data
            && |I.StreamsOf(c, d.window, Base(d), b)| == 1
  {
    hide IsInflating, IsFaithful, Agree, IsSuffix, SeenAfter, IsDamaged, Yield;
    var flushed := Flushed(c, e, data, marks);
    FlushIsRead(c, e, d, data, marks);
    MessageIsRead(c, d.window, Base(d), flushed, data);
    StripAndAppend(flushed);
    I.OneStream(c, d.window, Base(d), flushed, |Strip(flushed)|, 0);
  }

  lemma RawArrives(c: Codec, d: Decoder, w: Wire)
    requires w.Raw?
    ensures Decompress(c, d, w) == (Some(w.data), d)
  {
  }

  lemma LibraryCompresses(z: Library, data: seq<Octet>, full: seq<Octet>)
    requires IsLibrary(z)
    ensures IsCodec(z.codec) && IsCompressor(data, full, z.compressor(data, full))
  {
    hide IsCodec, IsCompressor;
  }

  lemma LibraryInflates(z: Library, chunks: seq<I.Chunk>)
    requires IsLibrary(z)
    ensures IsInflating(z.codec) && I.IsInflater(chunks, z.inflater(chunks))
    ensures IsDependable(z) ==> I.IsReliable(chunks, z.inflater(chunks))
  {
    hide IsInflating, IsFaithful, IsCompressor, I.IsInflater, I.IsReliable;
  }
}
