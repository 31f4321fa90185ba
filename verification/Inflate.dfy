/**
 The bounded inflate loop. What a compressed message means is given by the raw DEFLATE streams in
 it (a stream whose last block has BFINAL set is followed by another); the codec is any that keeps
 the inflate contract, called through output slices of any size.
 */
module Inflating {
  import opened Octets
  import opened DeflateFormat

  /** How a stream ends: with the input, with a final block, or with damage. */
  datatype Ending = Exhausted | Final | Broken

  /** One raw DEFLATE stream: the octets it takes, what it yields, and how it ends. */
  datatype Chunk = Chunk(size: nat, output: seq<Octet>, ending: Ending)

  /** The streams from position `pos` on fit the input of `dataLen` octets and the 4-octet trailer behind them. */
  predicate Fits(chunks: seq<Chunk>, pos: nat, dataLen: nat) {
    chunks != [] &&
    var c := chunks[0];
    match c.ending
    case Exhausted => pos + c.size == dataLen + 4
    case Final => 1 <= c.size && pos + c.size <= dataLen + 4 && (pos + c.size >= dataLen || Fits(chunks[1..], pos + c.size, dataLen))
    case Broken => pos + c.size <= dataLen + 4
  }

  /** What the message means: everything up to the stream that reaches the end of its data, or up to the damage. */
  function Meaning(chunks: seq<Chunk>, pos: nat, dataLen: nat): seq<Octet> {
    if chunks == [] then []
    else
      var c := chunks[0];
      if c.ending.Final? && pos + c.size < dataLen then c.output + Meaning(chunks[1..], pos + c.size, dataLen) else c.output
  }

  predicate EndsBroken(chunks: seq<Chunk>, pos: nat, dataLen: nat) {
    chunks != [] &&
    var c := chunks[0];
    if c.ending.Final? && pos + c.size < dataLen then EndsBroken(chunks[1..], pos + c.size, dataLen) else c.ending.Broken?
  }

  /** An answer of the codec; `ended` reports the end of the current stream. */
  datatype Answer = Answer(consumed: nat, produced: nat, ended: bool) | CodecError

  /**
   The inflate contract, with `taken` and `given` the octets of the current stream already consumed
   and produced: it runs until input or output space is exhausted or the stream ends, and reports
   damage when it gets there. A codec that fails, or stalls with input left, is allowed too.
   */
  predicate Inflates(c: Chunk, taken: nat, given: nat, offered: nat, a: Answer)
    requires taken <= c.size && given <= |c.output|
  {
    a.CodecError? || (Stalls(a) && taken < c.size) ||
    (&& taken + a.consumed <= c.size && given + a.produced <= |c.output| && a.produced <= offered
     && (a.ended ==> c.ending.Final? && taken + a.consumed == c.size && given + a.produced == |c.output|)
     && (a.produced < offered ==>
           !c.ending.Broken? && taken + a.consumed == c.size && given + a.produced == |c.output| && a.ended == c.ending.Final?))
  }

  predicate Stalls(a: Answer) {
    a == Answer(0, 0, false)
  }

  /** The codec at a call: number of the call, number of the current stream, octets taken and given in it, output space. */
  type Engine = (nat, nat, nat, nat, nat) -> Answer

  ghost predicate IsInflater(chunks: seq<Chunk>, codec: Engine) {
    forall call: nat, k: nat, taken: nat, given: nat, offered: nat ::
      k < |chunks| && taken <= chunks[k].size && given <= |chunks[k].output| ==>
        Inflates(chunks[k], taken, given, offered, codec(call, k, taken, given, offered))
  }

  /** A codec that never stalls, and fails only where it gets to damage. */
  ghost predicate IsReliable(chunks: seq<Chunk>, codec: Engine) {
    forall call: nat, k: nat, taken: nat, given: nat, offered: nat ::
      k < |chunks| && taken <= chunks[k].size && given <= |chunks[k].output| ==>
        Works(chunks[k], taken, given, offered, codec(call, k, taken, given, offered))
  }

  predicate Works(c: Chunk, taken: nat, given: nat, offered: nat, a: Answer) {
    if a.CodecError? then c.ending.Broken? && given + offered >= |c.output| else Stalls(a) ==> taken == c.size
  }

  lemma CodecAnswers(chunks: seq<Chunk>, codec: Engine, call: nat, k: nat, taken: nat, given: nat, offered: nat)
    requires IsInflater(chunks, codec) && k < |chunks| && taken <= chunks[k].size && given <= |chunks[k].output|
    ensures var a := codec(call, k, taken, given, offered);
            Inflates(chunks[k], taken, given, offered, a)
            && (IsReliable(chunks, codec) ==> Works(chunks[k], taken, given, offered, a))
  {
  }

  /** What an answer means for the loop; `Stalls` is the case of no progress with input left. */
  lemma AnswerMeans(c: Chunk, taken: nat, given: nat, offered: nat, a: Answer)
    requires taken <= c.size && given <= |c.output| && offered > 0 && Inflates(c, taken, given, offered, a)
    ensures a.Answer? ==> taken + a.consumed <= c.size && given + a.produced <= |c.output| && a.produced <= offered
    ensures a.Answer? && a.ended ==> c.ending.Final? && taken + a.consumed == c.size && given + a.produced == |c.output|
    ensures a.Answer? && !a.ended && a.produced < offered ==>
              || (a.consumed == 0 && a.produced == 0 && taken < c.size)
              || (c.ending.Exhausted? && taken + a.consumed == c.size && given + a.produced == |c.output|)
    ensures Works(c, taken, given, offered, a) ==>
              && (a.CodecError? ==> c.ending.Broken? && given + offered >= |c.output|)
              && (a.Answer? && a.consumed == 0 && a.produced == 0 && !a.ended ==> taken == c.size)
  {
  }

  datatype Result = Inflated(output: seq<Octet>) | MessageTooLarge | CodecFailure | TooManyCalls

  const MaxCalls := 100_000

  /** The slice offered for output: what the buffer has room for, and never more than the limit leaves. */
  function OutputSlice(room: nat, remaining: nat): (r: nat)
    requires remaining > 0
    ensures 1 <= r <= remaining
  {
    if room == 0 then 1 else if room < remaining then room else remaining
  }

  /** Where the loop stands: `done` is the output of the streams before number `k`, `pos` their size. */
  ghost predicate AtChunk(chunks: seq<Chunk>, dataLen: nat, k: nat, pos: nat, done: seq<Octet>) {
    && k < |chunks|
    && Fits(chunks[k..], pos, dataLen)
    && Meaning(chunks, 0, dataLen) == done + Meaning(chunks[k..], pos, dataLen)
    && EndsBroken(chunks, 0, dataLen) == EndsBroken(chunks[k..], pos, dataLen)
  }

  lemma NextChunk(chunks: seq<Chunk>, dataLen: nat, k: nat, pos: nat, done: seq<Octet>)
    requires AtChunk(chunks, dataLen, k, pos, done) && chunks[k].ending.Final? && pos + chunks[k].size < dataLen
    ensures k + 1 < |chunks| && AtChunk(chunks, dataLen, k + 1, pos + chunks[k].size, done + chunks[k].output)
  {
    assert Fits(chunks[k..][1..], pos + chunks[k].size, dataLen);
    assert chunks[k..][1..] == chunks[k + 1..];
    var rest := Meaning(chunks[k + 1..], pos + chunks[k].size, dataLen);
    assert done + (chunks[k].output + rest) == done + chunks[k].output + rest;
  }

  lemma LastChunk(chunks: seq<Chunk>, dataLen: nat, k: nat, pos: nat, done: seq<Octet>)
    requires AtChunk(chunks, dataLen, k, pos, done) && (chunks[k].ending.Final? ==> pos + chunks[k].size >= dataLen)
    ensures Meaning(chunks, 0, dataLen) == done + chunks[k].output && EndsBroken(chunks, 0, dataLen) == chunks[k].ending.Broken?
  {
  }

  lemma AtLeast(chunks: seq<Chunk>, dataLen: nat, k: nat, pos: nat, done: seq<Octet>)
    requires AtChunk(chunks, dataLen, k, pos, done)
    ensures |Meaning(chunks, 0, dataLen)| >= |done| + |chunks[k].output|
    ensures chunks[k].ending.Broken? ==> EndsBroken(chunks, 0, dataLen) && |Meaning(chunks, 0, dataLen)| == |done| + |chunks[k].output|
  {
  }

  /**
   Decompress into at most `maxSize` octets, whatever the slices offered. With a reliable codec and
   within the call limit: the whole message if it fits, exactly at the limit included, and a refusal
   if not. Damage is reported if what comes before it fits, and is not reached behind more than one
   octet too many.
   */
  method Decompress(chunks: seq<Chunk>, dataLen: nat, maxSize: nat, codec: Engine, room: nat -> nat) returns (r: Result)
    requires Fits(chunks, 0, dataLen) && IsInflater(chunks, codec)
    ensures r.Inflated? ==> r.output == Meaning(chunks, 0, dataLen) && |r.output| <= maxSize && !EndsBroken(chunks, 0, dataLen)
    ensures r.MessageTooLarge? ==> |Meaning(chunks, 0, dataLen)| > maxSize
    ensures r.CodecFailure? ==>
              !IsReliable(chunks, codec) || (EndsBroken(chunks, 0, dataLen) && |Meaning(chunks, 0, dataLen)| <= maxSize + 1)
    ensures r.TooManyCalls? ==> !IsReliable(chunks, codec) || maxSize + |chunks| > MaxCalls
  {
    hide Fits, Meaning, EndsBroken, IsInflater, IsReliable, OutputSlice, Inflates, Works, Standing;
    var output: seq<Octet> := [];
    var totalIn: nat, calls: nat := 0, 0;
    // Number of the current stream, and the octets it has taken and given.
    var k: nat, taken: nat, given: nat := 0, 0, 0;
    StandsAtFirst(chunks, dataLen);
    while true
      invariant k < |chunks| && Standing(chunks, dataLen, k, taken, given, totalIn, output) && |output| <= maxSize
      invariant calls <= MaxCalls && (IsReliable(chunks, codec) ==> calls <= |output| + k)
      decreases MaxCalls - calls
    {
      calls := calls + 1;
      if calls > MaxCalls {
        return TooManyCalls;
      }
      var c := chunks[k];
      var atLimit := |output| == maxSize;
      var offered := if atLimit then 1 else OutputSlice(room(calls), maxSize - |output|);
      StandingMeans(chunks, dataLen, k, taken, given, totalIn, output);
      var a := codec(calls, k, taken, given, offered);
      CodecAnswers(chunks, codec, calls, k, taken, given, offered);
      AnswerMeans(c, taken, given, offered, a);
      if a.CodecError? {
        return CodecFailure;
      }
      if atLimit && a.produced != 0 {
        return MessageTooLarge;
      }
      StandsFurther(chunks, dataLen, k, taken, given, totalIn, output, a.consumed, a.produced);
      output := output + c.output[given..given + a.produced];
      taken, given, totalIn := taken + a.consumed, given + a.produced, totalIn + a.consumed;
      StandingMeans(chunks, dataLen, k, taken, given, totalIn, output);
      if a.ended {
        if totalIn >= dataLen {
          return Inflated(output);
        }
        StandsAtNext(chunks, dataLen, k, totalIn, output);
        k, taken, given := k + 1, 0, 0;
        continue;
      }
      if a.consumed == 0 && a.produced == 0 {
        if totalIn < dataLen + 4 {
          return CodecFailure;
        }
        break;
      }
      if totalIn >= dataLen + 4 && a.produced < offered {
        break;
      }
    }
    r := Inflated(output);
  }

  /** Where the loop stands, with what it has put out. */
  ghost predicate Standing(chunks: seq<Chunk>, dataLen: nat, k: nat, taken: nat, given: nat, totalIn: nat, output: seq<Octet>) {
    && k < |chunks| && taken <= chunks[k].size && taken <= totalIn && given <= |chunks[k].output| && given <= |output|
    && AtChunk(chunks, dataLen, k, totalIn - taken, output[..|output| - given])
    && output[|output| - given..] == chunks[k].output[..given]
  }

  /** What the loop may conclude from where it stands. */
  lemma StandingMeans(chunks: seq<Chunk>, dataLen: nat, k: nat, taken: nat, given: nat, totalIn: nat, output: seq<Octet>)
    requires Standing(chunks, dataLen, k, taken, given, totalIn, output)
    ensures k < |chunks| && taken <= chunks[k].size && given <= |chunks[k].output|
    ensures |Meaning(chunks, 0, dataLen)| >= |output| - given + |chunks[k].output|
    ensures chunks[k].ending.Broken? ==>
              EndsBroken(chunks, 0, dataLen) && |Meaning(chunks, 0, dataLen)| == |output| - given + |chunks[k].output|
    ensures taken < chunks[k].size ==> totalIn < dataLen + 4
    ensures taken == chunks[k].size && chunks[k].ending.Exhausted? ==> totalIn == dataLen + 4
    ensures taken == chunks[k].size && given == |chunks[k].output| && !chunks[k].ending.Broken?
            && (chunks[k].ending.Final? ==> totalIn >= dataLen) ==>
              output == Meaning(chunks, 0, dataLen) && !EndsBroken(chunks, 0, dataLen)
  {
    hide Fits, Meaning, EndsBroken, AtChunk;
    var c, pos, done := chunks[k], totalIn - taken, output[..|output| - given];
    AtLeast(chunks, dataLen, k, pos, done);
    EndOfInput(chunks, dataLen, k, pos, taken, done);
    if taken == c.size && given == |c.output| && !c.ending.Broken? && (c.ending.Final? ==> totalIn >= dataLen) {
      LastChunk(chunks, dataLen, k, pos, done);
      assert c.output[..given] == c.output;
      assert output == done + output[|output| - given..];
    }
  }

  lemma StandsAtFirst(chunks: seq<Chunk>, dataLen: nat)
    requires Fits(chunks, 0, dataLen)
    ensures chunks != [] && Standing(chunks, dataLen, 0, 0, 0, 0, [])
  {
    hide Fits, AtChunk;
    StartsAtFirst(chunks, dataLen);
  }

  lemma StandsFurther(chunks: seq<Chunk>, dataLen: nat, k: nat, taken: nat, given: nat, totalIn: nat, output: seq<Octet>,
                      consumed: nat, produced: nat)
    requires Standing(chunks, dataLen, k, taken, given, totalIn, output)
    requires taken + consumed <= chunks[k].size && given + produced <= |chunks[k].output|
    ensures Standing(chunks, dataLen, k, taken + consumed, given + produced, totalIn + consumed,
                     output + chunks[k].output[given..given + produced])
  {
    hide AtChunk;
    var c, more := chunks[k], chunks[k].output[given..given + produced];
    var all := output + more;
    assert all[..|all| - (given + produced)] == output[..|output| - given];
    assert all[|all| - (given + produced)..] == output[|output| - given..] + more;
    assert c.output[..given + produced] == c.output[..given] + more;
  }

  lemma StandsAtNext(chunks: seq<Chunk>, dataLen: nat, k: nat, totalIn: nat, output: seq<Octet>)
    requires k < |chunks| && Standing(chunks, dataLen, k, chunks[k].size, |chunks[k].output|, totalIn, output)
    requires chunks[k].ending.Final? && totalIn < dataLen
    ensures k + 1 < |chunks| && Standing(chunks, dataLen, k + 1, 0, 0, totalIn, output)
  {
    hide AtChunk;
    var c, done := chunks[k], output[..|output| - |chunks[k].output|];
    NextChunk(chunks, dataLen, k, totalIn - c.size, done);
    assert c.output[..|c.output|] == c.output;
    assert done + c.output == output;
    assert output[..|output| - 0] == output && output[|output| - 0..] == [] == chunks[k + 1].output[..0];
  }

  /** The input is exhausted only with the current stream. */
  lemma EndOfInput(chunks: seq<Chunk>, dataLen: nat, k: nat, pos: nat, taken: nat, done: seq<Octet>)
    requires AtChunk(chunks, dataLen, k, pos, done) && taken <= chunks[k].size
    ensures taken < chunks[k].size ==> pos + taken < dataLen + 4
    ensures taken == chunks[k].size && chunks[k].ending.Exhausted? ==> pos + taken == dataLen + 4
  {
  }

  lemma StartsAtFirst(chunks: seq<Chunk>, dataLen: nat)
    requires Fits(chunks, 0, dataLen)
    ensures chunks != [] && AtChunk(chunks, dataLen, 0, 0, [])
  {
    assert chunks[0..] == chunks;
    assert [] + Meaning(chunks, 0, dataLen) == Meaning(chunks, 0, dataLen);
  }

  // ---------------------------------------------------------------------
  // The streams in a message
  // ---------------------------------------------------------------------

  /** The streams in `input`, a message of `n` octets and the trailer, from the one that began at `start`; read up to `i`. */
  function Layout(c: Codec, w: nat, seen: seq<Octet>, input: seq<Octet>, n: nat, start: nat, i: nat): seq<Chunk>
    requires start <= i < |input|
    decreases |input| - i
  {
    var k := i + 1;
    var place, output := c.inflate(w, seen + input[..k]).place, NewOutput(c, w, seen + input[..start], seen + input[..k]);
    if place == Damaged then [Chunk(k - start, output, Broken)]
    else if place == Ended then
      [Chunk(k - start, output, Final)] + (if k >= n || k == |input| then [] else Layout(c, w, seen, input, n, k, k))
    else if k == |input| then [Chunk(k - start, output, Exhausted)]
    else Layout(c, w, seen, input, n, start, k)
  }

  lemma {:induction false} LayoutIsMeaning(c: Codec, w: nat, seen: seq<Octet>, input: seq<Octet>, n: nat, start: nat, i: nat)
    requires IsInflating(c) && start <= i < |input| == n + 4
    ensures var chunks, end := Layout(c, w, seen, input, n, start, i), seen + input[..MessageEnd(c, w, seen, input, n, i)];
            && Fits(chunks, start, n)
            && Meaning(chunks, start, n) == NewOutput(c, w, seen + input[..start], end)
            && EndsBroken(chunks, start, n) == (c.inflate(w, end).place == Damaged)
    decreases |input| - i
  {
    hide IsInflating, NewOutput;
    var k := i + 1;
    var place := c.inflate(w, seen + input[..k]).place;
    if place == Ended && k < n {
      LayoutIsMeaning(c, w, seen, input, n, k, k);
      var rest := Layout(c, w, seen, input, n, k, k);
      var chunks := Layout(c, w, seen, input, n, start, i);
      assert chunks[1..] == rest;
      OutputParts(c, w, seen, input, start, k, MessageEnd(c, w, seen, input, n, k));
    } else if place != Damaged && place != Ended && k < |input| {
      LayoutIsMeaning(c, w, seen, input, n, start, k);
    }
  }

  lemma OutputParts(c: Codec, w: nat, seen: seq<Octet>, input: seq<Octet>, i: nat, j: nat, k: nat)
    requires IsInflating(c) && i <= j <= k <= |input|
    ensures NewOutput(c, w, seen + input[..i], seen + input[..k])
         == NewOutput(c, w, seen + input[..i], seen + input[..j]) + NewOutput(c, w, seen + input[..j], seen + input[..k])
  {
    hide IsInflating;
    OutputStays(c, w, seen + input[..i], input[i..j]);
    OutputStays(c, w, seen + input[..j], input[j..k]);
    assert seen + input[..i] + input[i..j] == seen + input[..j];
    assert seen + input[..j] + input[j..k] == seen + input[..k];
  }

  /** The streams in a message `b` mean what it yields, and break exactly if it is damaged. */
  function StreamsOf(c: Codec, w: nat, seen: seq<Octet>, b: seq<Octet>): seq<Chunk> {
    Layout(c, w, seen, b + Trailer, |b|, 0, 0)
  }

  lemma StreamsAreMeaning(c: Codec, w: nat, seen: seq<Octet>, b: seq<Octet>)
    requires IsInflating(c)
    ensures var chunks := StreamsOf(c, w, seen, b);
            && Fits(chunks, 0, |b|) && Meaning(chunks, 0, |b|) == Yield(c, w, seen, b)
            && EndsBroken(chunks, 0, |b|) == IsDamaged(c, w, seen, b)
  {
    hide IsInflating;
    LayoutIsMeaning(c, w, seen, b + Trailer, |b|, 0, 0);
    assert seen + (b + Trailer)[..0] == seen;
  }

  lemma {:induction false} OneStream(c: Codec, w: nat, seen: seq<Octet>, input: seq<Octet>, n: nat, i: nat)
    requires i < |input| && Runs(c, w, seen, input)
    ensures |Layout(c, w, seen, input, n, 0, i)| == 1
    decreases |input| - i
  {
    assert Within(c.inflate(w, seen + input[..i + 1]).place);
    if i + 1 < |input| {
      OneStream(c, w, seen, input, n, i + 1);
    }
  }
}
