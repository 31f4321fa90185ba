/**
 Empty messages under context takeover. A flush that only repeats the last one gives nothing, so
 that the trailer which the receiver appends is read as the beginning of a stored block.
 */
module EmptyMessages {
  import opened Octets
  import opened DeflateFormat
  import opened Compressing

  /**
   An empty message whose flush gives nothing still arrives: the inflater reads the appended trailer
   as the beginning of a stored block and waits for its last header octet.
   */
  lemma StrayTrailer(c: Codec, d: Decoder)
    requires IsInflating(c) && AtRest(c, d)
    ensures Decompress(c, d, Deflated([])) == (Some([]), d.(seen := Base(d) + Trailer))
  {
    hide IsInflating;
    var w, s := d.window, Base(d);
    forall n | 0 < n <= 4 ensures Within(c.inflate(w, s + Trailer[..n]).place) {
      StoredIsRead(c, w, s, Trailer[..n]);
    }
    StoredIsRead(c, w, s, Trailer);
    assert [] + Trailer == Trailer && Trailer[..4] == Trailer;
    RunsToTheEnd(c, w, s, Trailer, 0, 0);
    assert c.inflate(w, s).output + [] == c.inflate(w, s).output;
  }

  /** What the inflater makes of `n` octets behind a stray trailer: content of a block of 0xFF00 octets, or damage. */
  lemma BehindStrayTrailer(c: Codec, w: nat, s: seq<Octet>, input: seq<Octet>, n: nat)
    requires IsInflating(c) && c.inflate(w, s).place == AtBlock && 0 < n <= |input|
    ensures c.inflate(w, s + Trailer).output == c.inflate(w, s).output
    ensures input[0] != 0 ==> c.inflate(w, s + Trailer + input[..n]) == Reading(c.inflate(w, s).output, Damaged)
    ensures input[0] == 0 && n <= 0xFF01 ==>
              c.inflate(w, s + Trailer + input[..n])
              == Reading(c.inflate(w, s).output + input[1..n], if n == 0xFF01 then AtBlock else InBlock)
  {
    hide IsInflating;
    var t := Trailer + input[..n];
    assert s + Trailer + input[..n] == s + t;
    assert t[5..] == input[1..n];
    assert c.inflate(w, s).output + [] == c.inflate(w, s).output;
    StoredIsRead(c, w, s, Trailer);
    if input[0] != 0 || n <= 0xFF01 {
      StoredIsRead(c, w, s, t);
    }
  }

  /** The next message is refused if its first octet is not zero. */
  lemma RefusedBehindStray(c: Codec, w: nat, s: seq<Octet>, flushed: seq<Octet>)
    requires IsInflating(c) && c.inflate(w, s).place == AtBlock && IsSuffix(Trailer, flushed) && flushed[0] != 0
    ensures Received(c, w, s + Trailer, Strip(flushed)).None?
  {
    hide IsInflating;
    StripAndAppend(flushed);
    BehindStrayTrailer(c, w, s, flushed, 1);
  }

  /** The next message is misread if it is empty. */
  lemma MisreadBehindStray(c: Codec, w: nat, s: seq<Octet>)
    requires IsInflating(c) && c.inflate(w, s).place == AtBlock
    ensures Received(c, w, s + Trailer, []) == Some([0x00, 0xFF, 0xFF])
  {
    hide IsInflating;
    forall n | 0 < n <= 4 ensures Within(c.inflate(w, s + Trailer + Trailer[..n]).place) {
      BehindStrayTrailer(c, w, s, Trailer, n);
    }
    BehindStrayTrailer(c, w, s, Trailer, 4);
    assert [] + Trailer == Trailer && Trailer[..4] == Trailer;
    RunsToTheEnd(c, w, s + Trailer, Trailer, 0, 0);
  }

  /** And if it has at most two octets, as at least three are read. */
  lemma TooMuchBehindStray(c: Codec, w: nat, s: seq<Octet>, flushed: seq<Octet>)
    requires IsInflating(c) && c.inflate(w, s).place == AtBlock && IsSuffix(Trailer, flushed) && flushed[0] == 0
    ensures |Yield(c, w, s + Trailer, Strip(flushed))| >= 3
  {
    hide IsInflating;
    StripAndAppend(flushed);
    var seen := s + Trailer;
    forall n | 0 < n <= 4 ensures Within(c.inflate(w, seen + flushed[..n]).place) {
      BehindStrayTrailer(c, w, s, flushed, n);
    }
    BehindStrayTrailer(c, w, s, flushed, 4);
    RunsSoFar(c, w, seen, flushed, |Strip(flushed)|, 0, 4);
    YieldsAtLeast(c, w, seen, flushed, 4);
  }

  /** While every octet leaves the inflater in its stream, the message goes on. */
  lemma {:induction false} RunsSoFar(c: Codec, w: nat, seen: seq<Octet>, input: seq<Octet>, n: nat, i: nat, j: nat)
    requires i < j <= |input| && forall k :: i < k <= j ==> Within(c.inflate(w, seen + input[..k]).place)
    ensures MessageEnd(c, w, seen, input, n, i) == if j == |input| then j else MessageEnd(c, w, seen, input, n, j)
    decreases j - i
  {
    if i + 1 < j {
      RunsSoFar(c, w, seen, input, n, i + 1, j);
    }
  }

  /**
   A takeover connection without a threshold, as new, sends "a", an empty message and "b": the first
   two arrive and the third does not, with every codec and every repetition of markers.
   */
  lemma EmptyMessageLosesTheNext(c: Codec, window: nat, window': nat, a: Octet, b: Octet, marks: seq<nat>)
    requires IsCodec(c) && window <= window' && |marks| == 3
    ensures var r := Exchange(c, Encoder([], false, false, 0, window), Decoder([], false, window'), [[a], [], [b]], marks);
            |r| == 3 && r[0] == Some([a]) && r[1] == Some([]) && r[2] != Some([b])
  {
    hide IsCodec, Compress, Decompress;
    var e, d := Encoder([], false, false, 0, window), Decoder([], false, window');
    var messages: seq<seq<Octet>> := [[a], [], [b]];
    NewAgree(c, e, d);
    OneMessage(c, e, d, [a], marks[0]);
    SameKind(c, e, [a], marks[0]);
    var (w0, e0) := Compress(c, e, [a], marks[0]);
    var (_, d0) := Decompress(c, d, w0);
    StrayLosesNext(c, e0, d0, [b], marks[1], marks[2]);
    var (w1, e1) := Compress(c, e0, [], marks[1]);
    var (_, d1) := Decompress(c, d0, w1);
    assert messages[1..] == [[], [b]] && messages[1..][1..] == [[b]] && marks[1..][1..] == [marks[2]];
    var last := Exchange(c, e1, d1, [[b]], [marks[2]]);
    ExchangeOne(c, e1, d1, [b], marks[2]);
    assert Exchange(c, e0, d0, messages[1..], marks[1..]) == [Some([])] + last;
    assert Exchange(c, e, d, messages, marks) == [Some([a])] + ([Some([])] + last);
  }

  lemma ExchangeOne(c: Codec, e: Encoder, d: Decoder, data: seq<Octet>, marks: nat)
    ensures Exchange(c, e, d, [data], [marks]) == [Decompress(c, d, Compress(c, e, data, marks).0).0]
  {
    hide Compress, Decompress;
    var (w, e') := Compress(c, e, data, marks);
    var (_, d') := Decompress(c, d, w);
    assert Exchange(c, e', d', [], []) == [];
  }

  /** An empty message behind another one arrives; what is sent next does not, unless the codec's output echoes it. */
  lemma StrayLosesNext(c: Codec, e: Encoder, d: Decoder, next: seq<Octet>, marks: nat, marks': nat)
    requires IsCodec(c) && Agree(c, e, d) && !IsSafeToSend(e, [])
    ensures var (w, e') := Compress(c, e, [], marks);
            var (r, d') := Decompress(c, d, w);
            && r == Some([])
            && (|next| <= 2 || NeverEchoes(c) ==> Decompress(c, d', Compress(c, e', next, marks').0).0 != Some(next))
  {
    hide IsInflating, IsFaithful, Tail, IsSuffix, IsDamaged, Yield, SeenAfter, NeverEchoes;
    NothingToStrip();
    StrayTrailer(c, d);
    var e', s := AfterMessage(e, []), d.seen;
    var flushed := Flushed(c, e', next, marks');
    if next == [] {
      MisreadBehindStray(c, d.window, s);
    } else {
      var h := Tail(e'.history, e'.window);
      FlushEndsWithTrailer(c, h, next);
      MarkersEndWithTrailer(c.deflate(h, next), marks');
      if flushed[0] != 0 {
        RefusedBehindStray(c, d.window, s, flushed);
      } else if |next| <= 2 {
        TooMuchBehindStray(c, d.window, s, flushed);
      } else if NeverEchoes(c) {
        NoEcho(c, d.window, s, h, next, marks');
      }
    }
  }

  lemma NothingToStrip()
    ensures Strip([]) == []
  {
  }

  /**
   No output of the compressor that begins with a zero octet reads, as the content of a stored block
   begun by a stray trailer, like the data it was made from.
   */
  ghost predicate NeverEchoes(c: Codec) {
    forall w, s, h, d, n :: d != [] && c.inflate(w, s).place == AtBlock && c.deflate(h, d) != [] && c.deflate(h, d)[0] == 0 ==>
      Received(c, w, s + Trailer, Strip(c.deflate(h, d) + Markers(n))) != Some(d)
  }

  lemma NoEcho(c: Codec, w: nat, s: seq<Octet>, h: seq<Octet>, d: seq<Octet>, n: nat)
    requires NeverEchoes(c) && d != [] && c.inflate(w, s).place == AtBlock && c.deflate(h, d) != [] && c.deflate(h, d)[0] == 0
    ensures Received(c, w, s + Trailer, Strip(c.deflate(h, d) + Markers(n))) != Some(d)
  {
  }

  /** As for sending safely, but the last message may be empty in any case: nothing comes after it. */
  predicate MayArrive(e: Encoder, messages: seq<seq<Octet>>) {
    messages == [] || AreSafeToSend(e, messages[..|messages| - 1])
  }

  /**
   Exactly when everything arrives: with takeover and without a threshold, if and only if no message
   but the first of a new encoder and the last of all is empty.
   */
  lemma {:induction false} ArrivalConditionIsExact(c: Codec, e: Encoder, d: Decoder, messages: seq<seq<Octet>>, marks: seq<nat>)
    requires IsCodec(c) && NeverEchoes(c) && Agree(c, e, d) && |marks| == |messages|
    ensures Arrives(messages, Exchange(c, e, d, messages, marks)) <==> MayArrive(e, messages)
    decreases |messages|
  {
    hide IsCodec, NeverEchoes, Agree, Compress, Decompress;
    if messages != [] {
      var (w, e') := Compress(c, e, messages[0], marks[0]);
      var (r, d') := Decompress(c, d, w);
      var rest := Exchange(c, e', d', messages[1..], marks[1..]);
      SameKind(c, e, messages[0], marks[0]);
      if IsSafeToSend(e, messages[0]) {
        OneMessage(c, e, d, messages[0], marks[0]);
        ArrivalConditionIsExact(c, e', d', messages[1..], marks[1..]);
        ArrivesFirst(messages, r, rest);
        SafeFirst(e, e', messages);
      } else {
        var next, marks' := if |messages| > 1 then messages[1] else [], if |messages| > 1 then marks[1] else 0;
        StrayLosesNext(c, e, d, next, marks[0], marks');
        ArrivesFirst(messages, r, rest);
        if |messages| > 1 {
          assert rest[0] == Decompress(c, d', Compress(c, e', messages[1], marks[1]).0).0;
          assert messages[..|messages| - 1][0] == messages[0];
        }
      }
    }
  }

  lemma ArrivesFirst(messages: seq<seq<Octet>>, r: Option<seq<Octet>>, rest: seq<Option<seq<Octet>>>)
    requires messages != []
    ensures Arrives(messages, [r] + rest) <==> r == Some(messages[0]) && Arrives(messages[1..], rest)
  {
    var all := [r] + rest;
    if Arrives(messages, all) {
      forall i | 0 <= i < |messages[1..]| ensures rest[i] == Some(messages[1..][i]) {
        assert all[i + 1] == Some(messages[i + 1]);
      }
      assert all[0] == Some(messages[0]);
    }
  }

  lemma SafeFirst(e: Encoder, e': Encoder, messages: seq<seq<Octet>>)
    requires messages != [] && IsSafeToSend(e, messages[0])
    requires e'.threshold == e.threshold && e'.noTakeover == e.noTakeover && (e.threshold == 0 ==> e'.flushed)
    ensures MayArrive(e, messages) <==> MayArrive(e', messages[1..])
  {
    var all, rest := messages[..|messages| - 1], messages[1..];
    if e.threshold == 0 && !e.noTakeover && rest != [] {
      var later := rest[..|rest| - 1];
      if AreSafeToSend(e, all) {
        forall i | 0 <= i < |later| ensures later[i] != [] {
          assert all[i + 1] == later[i];
        }
      }
      if AreSafeToSend(e', later) {
        forall i | 0 <= i < |all| ensures all[i] != [] || (i == 0 && !e.flushed) {
          assert i > 0 ==> all[i] == later[i - 1];
        }
      }
    }
  }

  /** The whole contract can be kept: storing octet by octet never echoes either. */
  lemma StoringNeverEchoes()
    ensures IsCodec(StoringCodec()) && NeverEchoes(StoringCodec())
  {
    hide IsCodec, Received, Store, ReadBlocks;
    StoringIsCodec();
    var c := StoringCodec();
    forall w: nat, s: seq<Octet>, h: seq<Octet>, d: seq<Octet>, n: nat | d != [] && c.inflate(w, s).place == AtBlock
      ensures Received(c, w, s + Trailer, Strip(c.deflate(h, d) + Markers(n))) != Some(d)
    {
      StoredIsNoEcho(w, s, d, n);
    }
  }

  lemma StoredIsNoEcho(w: nat, s: seq<Octet>, d: seq<Octet>, n: nat)
    requires d != [] && StoringCodec().inflate(w, s).place == AtBlock
    ensures Received(StoringCodec(), w, s + Trailer, Strip(Store(d) + Markers(n))) != Some(d)
  {
    hide IsInflating, Store, ReadBlocks, IsSuffix;
    var c, seen, flushed := StoringCodec(), s + Trailer, Store(d) + Markers(n);
    StoringIsCodec();
    StoreEndsWithTrailer(d);
    MarkersEndWithTrailer(Store(d), n);
    StripAndAppend(flushed);
    StoreStarts(d);
    var j := if |flushed| < 0xFF01 then |flushed| else 0xFF01;
    forall k | 0 < k <= j ensures Within(c.inflate(w, seen + flushed[..k]).place) {
      BehindStrayTrailer(c, w, s, flushed, k);
    }
    BehindStrayTrailer(c, w, s, flushed, j);
    RunsSoFar(c, w, seen, flushed, |Strip(flushed)|, 0, j);
    if |d| >= j - 1 {
      StoreAt(d, 10880);
      assert flushed[..j + 1] == flushed[..j] + [0x01];
      NotStored(seen + flushed[..j]);
      assert seen + flushed[..j] + [0x01] == seen + flushed[..j + 1];
    } else {
      YieldsAtLeast(c, w, seen, flushed, j);
    }
  }

  lemma YieldsAtLeast(c: Codec, w: nat, seen: seq<Octet>, flushed: seq<Octet>, j: nat)
    requires IsInflating(c) && IsSuffix(Trailer, flushed) && 0 < j <= MessageEnd(c, w, seen, flushed, |Strip(flushed)|, 0)
    requires j <= |flushed|
    ensures |Yield(c, w, seen, Strip(flushed))| >= |c.inflate(w, seen + flushed[..j]).output| - |c.inflate(w, seen).output|
  {
    hide IsInflating, IsSuffix;
    StripAndAppend(flushed);
    var end := MessageEnd(c, w, seen, flushed, |Strip(flushed)|, 0);
    assert seen + flushed[..j] + flushed[j..end] == seen + flushed[..end];
    OutputStays(c, w, seen + flushed[..j], flushed[j..end]);
  }

  lemma StoreStarts(d: seq<Octet>)
    ensures Store(d) != [] && Store(d)[0] == 0
  {
  }

  /** Behind the first octet of each block is the low octet of its length. */
  lemma {:induction false} StoreAt(d: seq<Octet>, i: nat)
    requires i < |d|
    ensures 6 * i + 1 < |Store(d)| && Store(d)[6 * i + 1] == 1
    decreases i
  {
    if i > 0 {
      StoreAt(d[1..], i - 1);
      assert Store(d)[6 * i + 1] == Store(d[1..])[6 * (i - 1) + 1];
    }
  }

  lemma NotStored(s: seq<Octet>)
    requires ReadBlocks(s).place == AtBlock
    ensures ReadBlocks(s + [0x01]).place == Damaged
  {
    BlocksAppend(s, [0x01]);
  }

  /** A payload cut inside a stored block is no damage: it is returned with the appended trailer as content. */
  lemma CutPayloadIsReturned(c: Codec, d: Decoder, size: nat, content: seq<Octet>)
    requires IsInflating(c) && AtRest(c, d) && |content| + 4 < size <= 0xFFFF
    ensures var payload := StoredHeader(size) + content;
            && Decompress(c, d, Deflated(payload)).0 == Some(content + Trailer)
            && c.inflate(d.window, SeenAfter(c, d.window, Base(d), payload)).place == InBlock
  {
    hide IsInflating;
    var w, s, payload := d.window, Base(d), StoredHeader(size) + content;
    var input := payload + Trailer;
    forall n | 0 < n <= |input| ensures Within(c.inflate(w, s + input[..n]).place) {
      StoredIsRead(c, w, s, input[..n]);
    }
    StoredIsRead(c, w, s, input);
    RunsToTheEnd(c, w, s, input, |payload|, 0);
    assert input[..|input|] == input && input[5..] == content + Trailer;
  }

  function StoredHeader(size: nat): seq<Octet>
    requires size <= 0xFFFF
  {
    [0x00, size % 256, size / 256, 255 - size % 256, 255 - size / 256]
  }
}
