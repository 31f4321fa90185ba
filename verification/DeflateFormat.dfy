/**
 Raw DEFLATE streams (RFC 1951) as a codec presents them: a compressor that flushes to an octet
 boundary, and an inflater that is fed octet by octet and stays where the last octet left it. What
 the model needs of the format itself are stored blocks (section 3.2.4 of RFC 1951), of which the
 flush marker is one.
 */
module DeflateFormat {
  import opened Octets

  /** The end of a flush, which a message leaves out (section 7.2.1 of RFC 7692). */
  const Trailer: seq<Octet> := [0x00, 0x00, 0xFF, 0xFF]

  /** A flush with nothing before it: an empty stored block. */
  const Marker: seq<Octet> := [0x00, 0x00, 0x00, 0xFF, 0xFF]

  /** At an octet boundary between blocks, within a block, behind a final block, or behind damage. */
  datatype Place = AtBlock | InBlock | Ended | Damaged

  /** All output since the last reset, and where the inflater is. */
  datatype Reading = Reading(output: seq<Octet>, place: Place)

  /**
   `deflate(h, d)` is the flushed output for new data `d` behind a window that holds `h`;
   `inflate(w, s)` is where an inflater with window `w` is after the octets `s`.
   */
  datatype Codec = Codec(deflate: (seq<Octet>, seq<Octet>) -> seq<Octet>, inflate: (nat, seq<Octet>) -> Reading)

  /** The part of a history that a window holds. */
  function Tail(h: seq<Octet>, window: nat): seq<Octet> {
    if |h| <= window then h else h[|h| - window..]
  }

  predicate IsSuffix(t: seq<Octet>, g: seq<Octet>) {
    |t| <= |g| && g[|g| - |t|..] == t
  }

  // ---------------------------------------------------------------------
  // Stored blocks
  // ---------------------------------------------------------------------

  function StoredLength(t: seq<Octet>): nat
    requires |t| >= 5
  {
    var low: int, high: int := t[1], t[2];
    low + 256 * high
  }

  /** The length is followed by its complement. */
  predicate StoredLengthOk(t: seq<Octet>)
    requires |t| >= 5
  {
    var low: int, high: int := t[3], t[4];
    low + 256 * high + StoredLength(t) == 0xFFFF
  }

  /** `t` begins a stored block that is not final, and does not go beyond it. */
  predicate WithinStored(t: seq<Octet>) {
    t != [] && t[0] == 0 && (|t| >= 5 && StoredLengthOk(t) ==> |t| <= 5 + StoredLength(t))
  }

  function ReadStored(t: seq<Octet>): Reading
    requires WithinStored(t)
  {
    if |t| < 5 then Reading([], InBlock)
    else if !StoredLengthOk(t) then Reading([], Damaged)
    else Reading(t[5..], if |t| == 5 + StoredLength(t) then AtBlock else InBlock)
  }

  /** Reading on from a block boundary. */
  function Then(a: Reading, b: Reading): Reading {
    Reading(a.output + b.output, b.place)
  }

  // ---------------------------------------------------------------------
  // The contract
  // ---------------------------------------------------------------------

  /** Every prefix of `t` leaves the inflater in its stream. */
  ghost predicate Runs(c: Codec, window: nat, s: seq<Octet>, t: seq<Octet>) {
    forall n :: 0 < n <= |t| ==> Within(c.inflate(window, s + t[..n]).place)
  }

  predicate Within(p: Place) {
    p == AtBlock || p == InBlock
  }

  /** Output is never taken back, and stored blocks are read as specified. */
  ghost predicate IsInflating(c: Codec) {
    && (forall w :: c.inflate(w, []) == Reading([], AtBlock))
    && (forall w, s, t :: c.inflate(w, s).output <= c.inflate(w, s + t).output)
    && (forall w, s, t :: c.inflate(w, s).place == AtBlock && WithinStored(t) ==>
          c.inflate(w, s + t) == Then(c.inflate(w, s), ReadStored(t)))
  }

  /** New data is flushed up to the trailer, and is read back by any inflater between blocks whose window ends with the compressor's. */
  ghost predicate IsFaithful(c: Codec) {
    && (forall h, d :: d != [] ==> IsSuffix(Trailer, c.deflate(h, d)))
    && (forall w, s, h, d :: d != [] && c.inflate(w, s).place == AtBlock && IsSuffix(h, Tail(c.inflate(w, s).output, w)) ==>
          ReadsBack(c, w, s, c.deflate(h, d), d))
  }

  ghost predicate ReadsBack(c: Codec, w: nat, s: seq<Octet>, b: seq<Octet>, d: seq<Octet>) {
    Runs(c, w, s, b) && c.inflate(w, s + b) == Reading(c.inflate(w, s).output + d, AtBlock)
  }

  ghost predicate IsCodec(c: Codec) {
    IsInflating(c) && IsFaithful(c)
  }

  lemma NothingRead(c: Codec, w: nat)
    requires IsInflating(c)
    ensures c.inflate(w, []) == Reading([], AtBlock)
  {
  }

  lemma OutputStays(c: Codec, w: nat, s: seq<Octet>, t: seq<Octet>)
    requires IsInflating(c)
    ensures c.inflate(w, s).output <= c.inflate(w, s + t).output
  {
  }

  lemma StoredIsRead(c: Codec, w: nat, s: seq<Octet>, t: seq<Octet>)
    requires IsInflating(c) && c.inflate(w, s).place == AtBlock && WithinStored(t)
    ensures c.inflate(w, s + t) == Then(c.inflate(w, s), ReadStored(t))
  {
  }

  lemma FlushEndsWithTrailer(c: Codec, h: seq<Octet>, d: seq<Octet>)
    requires IsFaithful(c) && d != []
    ensures IsSuffix(Trailer, c.deflate(h, d)) && |c.deflate(h, d)| >= 4
  {
  }

  lemma DataIsReadBack(c: Codec, w: nat, s: seq<Octet>, h: seq<Octet>, d: seq<Octet>)
    requires IsFaithful(c) && d != [] && c.inflate(w, s).place == AtBlock && IsSuffix(h, Tail(c.inflate(w, s).output, w))
    ensures ReadsBack(c, w, s, c.deflate(h, d), d)
  {
  }

  /** A marker is read and yields nothing. */
  lemma MarkerIsRead(c: Codec, w: nat, s: seq<Octet>)
    requires IsInflating(c) && c.inflate(w, s).place == AtBlock
    ensures ReadsBack(c, w, s, Marker, [])
  {
    hide IsInflating;
    forall n | 0 < n <= |Marker| ensures Within(c.inflate(w, s + Marker[..n]).place) {
      StoredIsRead(c, w, s, Marker[..n]);
    }
    StoredIsRead(c, w, s, Marker);
  }

  function Markers(n: nat): seq<Octet> {
    if n == 0 then [] else Markers(n - 1) + Marker
  }

  /** One part after the other. */
  lemma ReadsBoth(c: Codec, w: nat, s: seq<Octet>, a: seq<Octet>, d: seq<Octet>, b: seq<Octet>, e: seq<Octet>)
    requires ReadsBack(c, w, s, a, d) && ReadsBack(c, w, s + a, b, e)
    ensures ReadsBack(c, w, s, a + b, d + e)
  {
    forall n | 0 < n <= |a + b| ensures Within(c.inflate(w, s + (a + b)[..n]).place) {
      if n <= |a| {
        assert (a + b)[..n] == a[..n];
      } else {
        assert s + (a + b)[..n] == s + a + b[..n - |a|];
      }
    }
    assert s + (a + b) == s + a + b;
    var out := c.inflate(w, s).output;
    assert out + (d + e) == out + d + e;
  }

  lemma {:induction false} MarkersAreRead(c: Codec, w: nat, s: seq<Octet>, b: seq<Octet>, d: seq<Octet>, n: nat)
    requires IsInflating(c) && ReadsBack(c, w, s, b, d)
    ensures ReadsBack(c, w, s, b + Markers(n), d)
    decreases n
  {
    hide IsInflating, ReadsBack;
    if n == 0 {
      assert b + Markers(0) == b;
    } else {
      MarkersAreRead(c, w, s, b, d, n - 1);
      var front := b + Markers(n - 1);
      BoundaryAfter(c, w, s, front, d);
      MarkerIsRead(c, w, s + front);
      ReadsBoth(c, w, s, front, d, Marker, []);
      assert d + [] == d && front + Marker == b + Markers(n);
    }
  }

  lemma BoundaryAfter(c: Codec, w: nat, s: seq<Octet>, b: seq<Octet>, d: seq<Octet>)
    requires ReadsBack(c, w, s, b, d)
    ensures c.inflate(w, s + b).place == AtBlock && c.inflate(w, s + b).output == c.inflate(w, s).output + d
  {
  }

  lemma MarkersEndWithTrailer(b: seq<Octet>, n: nat)
    requires IsSuffix(Trailer, b)
    ensures IsSuffix(Trailer, b + Markers(n))
  {
    if n > 0 {
      var m := b + Markers(n - 1) + [0x00];
      assert b + Markers(n) == m + Trailer;
    } else {
      assert b + [] == b;
    }
  }

  // ---------------------------------------------------------------------
  // Messages
  // ---------------------------------------------------------------------

  /** A message's octets without the trailer. */
  function Strip(b: seq<Octet>): seq<Octet> {
    if IsSuffix(Trailer, b) then b[..|b| - 4] else b
  }

  lemma StripAndAppend(b: seq<Octet>)
    requires IsSuffix(Trailer, b)
    ensures Strip(b) + Trailer == b
  {
  }

  /**
   How many octets of `input`, a message of `n` octets and the trailer, are read: until damage,
   until a final block ends at or behind the message, or all. `i` of them were read before.
   */
  function MessageEnd(c: Codec, w: nat, seen: seq<Octet>, input: seq<Octet>, n: nat, i: nat): (k: nat)
    requires i < |input|
    ensures i < k <= |input|
    decreases |input| - i
  {
    var place := c.inflate(w, seen + input[..i + 1]).place;
    if place == Damaged || (place == Ended && i + 1 >= n) || i + 1 == |input| then i + 1
    else MessageEnd(c, w, seen, input, n, i + 1)
  }

  /** All octets the inflater has read when the message `b` is done. */
  function SeenAfter(c: Codec, w: nat, seen: seq<Octet>, b: seq<Octet>): seq<Octet> {
    seen + (b + Trailer)[..MessageEnd(c, w, seen, b + Trailer, |b|, 0)]
  }

  /** The output of `t` that is not output of `s`. */
  function NewOutput(c: Codec, w: nat, s: seq<Octet>, t: seq<Octet>): seq<Octet> {
    var before, all := c.inflate(w, s).output, c.inflate(w, t).output;
    if |before| <= |all| then all[|before|..] else []
  }

  /** What a message yields, before damage if there is any. */
  function Yield(c: Codec, w: nat, seen: seq<Octet>, b: seq<Octet>): seq<Octet> {
    NewOutput(c, w, seen, SeenAfter(c, w, seen, b))
  }

  predicate IsDamaged(c: Codec, w: nat, seen: seq<Octet>, b: seq<Octet>) {
    c.inflate(w, SeenAfter(c, w, seen, b)).place == Damaged
  }

  lemma {:induction false} RunsToTheEnd(c: Codec, w: nat, seen: seq<Octet>, input: seq<Octet>, n: nat, i: nat)
    requires i < |input| && Runs(c, w, seen, input)
    ensures MessageEnd(c, w, seen, input, n, i) == |input|
    decreases |input| - i
  {
    assert Within(c.inflate(w, seen + input[..i + 1]).place);
    if i + 1 < |input| {
      RunsToTheEnd(c, w, seen, input, n, i + 1);
    }
  }

  /** A message whose octets are read back yields its data and leaves the inflater between blocks. */
  lemma MessageIsRead(c: Codec, w: nat, seen: seq<Octet>, flushed: seq<Octet>, d: seq<Octet>)
    requires IsSuffix(Trailer, flushed) && ReadsBack(c, w, seen, flushed, d)
    ensures var b := Strip(flushed);
            && SeenAfter(c, w, seen, b) == seen + flushed
            && !IsDamaged(c, w, seen, b) && Yield(c, w, seen, b) == d
  {
    var b := Strip(flushed);
    StripAndAppend(flushed);
    RunsToTheEnd(c, w, seen, flushed, |b|, 0);
    assert flushed[..|flushed|] == flushed;
    assert c.inflate(w, seen + flushed).output[|c.inflate(w, seen).output|..] == d;
  }

  // ---------------------------------------------------------------------
  // The contract can be kept
  // ---------------------------------------------------------------------

  /** A stored block of one octet. */
  function Block(x: Octet): seq<Octet> {
    [0x00, 0x01, 0x00, 0xFE, 0xFF, x]
  }

  /** Stored blocks of one octet each, and a marker. */
  function Store(d: seq<Octet>): seq<Octet> {
    if d == [] then Marker else Block(d[0]) + Store(d[1..])
  }

  /** An inflater that knows stored blocks only. */
  function ReadBlocks(s: seq<Octet>): Reading {
    if s == [] then Reading([], AtBlock)
    else if s[0] != 0 then Reading([], Damaged)
    else if WithinStored(s) then ReadStored(s)
    else
      var n := 5 + StoredLength(s);
      Then(ReadStored(s[..n]), ReadBlocks(s[n..]))
  }

  function StoringCodec(): Codec {
    Codec((h: seq<Octet>, d: seq<Octet>) => Store(d), (w: nat, s: seq<Octet>) => ReadBlocks(s))
  }

  lemma {:induction false} BlocksAppend(s: seq<Octet>, t: seq<Octet>)
    ensures ReadBlocks(s).output <= ReadBlocks(s + t).output
    ensures ReadBlocks(s).place == AtBlock ==> ReadBlocks(s + t) == Then(ReadBlocks(s), ReadBlocks(t))
    decreases |s|
  {
    hide ReadBlocks, StoredLength, StoredLengthOk;
    if s == [] {
      assert s + t == t;
      NoBlocks();
    } else if s[0] == 0 && |s| >= 5 && StoredLengthOk(s) {
      var n := 5 + StoredLength(s);
      SameHeader(s, t);
      if |s| >= n {
        BlocksAppend(s[n..], t);
        OneBlock(s, n);
        OneBlock(s + t, n);
        assert (s + t)[5..n] == s[5..n] && (s + t)[n..] == s[n..] + t;
      } else {
        PartOfBlock(s, t);
      }
    } else {
      NoBlockYet(s);
    }
  }

  lemma SameHeader(s: seq<Octet>, t: seq<Octet>)
    requires |s| >= 5
    ensures StoredLength(s + t) == StoredLength(s) && StoredLengthOk(s + t) == StoredLengthOk(s)
  {
  }

  lemma NoBlockYet(s: seq<Octet>)
    requires s != [] && (s[0] != 0 || |s| < 5 || !StoredLengthOk(s))
    ensures ReadBlocks(s).output == [] && ReadBlocks(s).place != AtBlock
  {
  }

  /** A whole block, and what follows. */
  lemma OneBlock(s: seq<Octet>, n: nat)
    requires |s| >= 5 && s[0] == 0 && StoredLengthOk(s) && n == 5 + StoredLength(s) <= |s|
    ensures ReadBlocks(s) == Then(Reading(s[5..n], AtBlock), ReadBlocks(s[n..]))
  {
    if |s| == n {
      assert s[..n] == s && s[n..] == [];
    }
  }

  lemma PartOfBlock(s: seq<Octet>, t: seq<Octet>)
    requires |s| >= 5 && s[0] == 0 && StoredLengthOk(s) && |s| < 5 + StoredLength(s)
    ensures ReadBlocks(s) == Reading(s[5..], InBlock)
    ensures s[5..] <= ReadBlocks(s + t).output
  {
    var n, all := 5 + StoredLength(s), s + t;
    if |all| >= n {
      OneBlock(all, n);
      assert s[5..] <= all[5..n];
    } else {
      assert s[5..] <= all[5..];
    }
  }

  lemma WithinOneBlock(t: seq<Octet>)
    requires WithinStored(t)
    ensures ReadBlocks(t) == ReadStored(t)
  {
  }

  lemma StoringIsInflating()
    ensures IsInflating(StoringCodec())
  {
    hide ReadBlocks, ReadStored, WithinStored;
    var c := StoringCodec();
    NoBlocks();
    forall w: nat, s: seq<Octet>, t: seq<Octet> ensures c.inflate(w, s).output <= c.inflate(w, s + t).output {
      BlocksAppend(s, t);
    }
    forall w: nat, s: seq<Octet>, t: seq<Octet> | c.inflate(w, s).place == AtBlock && WithinStored(t)
      ensures c.inflate(w, s + t) == Then(c.inflate(w, s), ReadStored(t))
    {
      BlocksAppend(s, t);
      WithinOneBlock(t);
    }
  }

  lemma NoBlocks()
    ensures ReadBlocks([]) == Reading([], AtBlock)
  {
  }

  lemma {:induction false} StoredIsReadBack(c: Codec, w: nat, s: seq<Octet>, d: seq<Octet>)
    requires IsInflating(c) && c.inflate(w, s).place == AtBlock
    ensures ReadsBack(c, w, s, Store(d), d)
    decreases |d|
  {
    hide IsInflating, ReadsBack;
    if d == [] {
      MarkerIsRead(c, w, s);
    } else {
      BlockIsRead(c, w, s, d[0]);
      BoundaryAfter(c, w, s, Block(d[0]), [d[0]]);
      StoredIsReadBack(c, w, s + Block(d[0]), d[1..]);
      ReadsBoth(c, w, s, Block(d[0]), [d[0]], Store(d[1..]), d[1..]);
      assert [d[0]] + d[1..] == d;
    }
  }

  lemma BlockIsRead(c: Codec, w: nat, s: seq<Octet>, x: Octet)
    requires IsInflating(c) && c.inflate(w, s).place == AtBlock
    ensures ReadsBack(c, w, s, Block(x), [x])
  {
    hide IsInflating;
    var b := Block(x);
    forall n | 0 < n <= |b| ensures Within(c.inflate(w, s + b[..n]).place) {
      StoredIsRead(c, w, s, b[..n]);
    }
    StoredIsRead(c, w, s, b);
  }

  lemma {:induction false} StoreEndsWithTrailer(d: seq<Octet>)
    ensures IsSuffix(Trailer, Store(d)) && |Store(d)| == 6 * |d| + 5
    decreases |d|
  {
    if d != [] {
      StoreEndsWithTrailer(d[1..]);
    }
  }

  lemma StoringIsCodec()
    ensures IsCodec(StoringCodec())
  {
    hide IsInflating, Store, ReadBlocks;
    var c := StoringCodec();
    StoringIsInflating();
    forall h: seq<Octet>, d: seq<Octet> | d != [] ensures IsSuffix(Trailer, c.deflate(h, d)) {
      StoreEndsWithTrailer(d);
    }
    forall w: nat, s: seq<Octet>, h: seq<Octet>, d: seq<Octet> |
      d != [] && c.inflate(w, s).place == AtBlock && IsSuffix(h, Tail(c.inflate(w, s).output, w))
      ensures ReadsBack(c, w, s, c.deflate(h, d), d)
    {
      StoredIsReadBack(c, w, s, d);
    }
  }
}
