/** The cork buffer: a queue of segments and an open buffer that refine one flat queue of octets. */
module Corking {
  import opened Octets

  const ZeroCopyMin := 8192

  lemma {:induction false} ConcatAppend(a: seq<seq<Octet>>, b: seq<seq<Octet>>)
    ensures Concat(a + b) == Concat(a) + Concat(b)
    decreases |a|
  {
    if a == [] {
      assert a + b == b;
    } else {
      ConcatAppend(a[1..], b);
      assert (a + b)[1..] == a[1..] + b;
    }
  }

  lemma ConcatOne(x: seq<Octet>)
    ensures Concat([x]) == x
  {
    assert Concat([]) == [];
  }

  predicate NoneEmpty(segments: seq<seq<Octet>>) {
    forall i :: 0 <= i < |segments| ==> segments[i] != []
  }

  class CorkBuffer {
    var buffer: seq<Octet>
    var maxSize: nat
    var corked: bool
    var segments: seq<seq<Octet>>
    var segmentBytes: nat

    constructor (capacity: nat)
      ensures Valid() && Pending() == [] && maxSize == capacity && !corked
    {
      buffer, maxSize, corked, segments, segmentBytes := [], capacity, false, [], 0;
    }

    /** What is still to be sent, in order. */
    ghost function Pending(): seq<Octet>
      reads this
    {
      Concat(segments) + buffer
    }

    ghost predicate Valid()
      reads this
    {
      NoneEmpty(segments) && segmentBytes == |Concat(segments)|
    }

    method Cork()
      modifies this`corked
      ensures corked
    {
      corked := true;
    }

    method Uncork() returns (more: bool)
      requires Valid()
      modifies this`corked
      ensures !corked && (more <==> Pending() != [])
    {
      corked := false;
      more := HasData();
    }

    method HasData() returns (more: bool)
      requires Valid()
      ensures more <==> Pending() != []
    {
      if segments != [] {
        assert Pending()[0] == segments[0][0];
      }
      more := buffer != [] || segments != [];
    }

    method PendingBytes() returns (n: nat)
      requires Valid()
      ensures n == |Pending()|
    {
      n := |buffer| + segmentBytes;
    }

    method Write(data: seq<Octet>) returns (within: bool)
      requires Valid()
      modifies this`buffer
      ensures Valid() && Pending() == old(Pending()) + data
      ensures within <==> |buffer| <= maxSize
    {
      buffer := buffer + data;
      assert Pending() == old(Pending()) + data;
      within := |buffer| <= maxSize;
    }

    method WriteBytes(data: seq<Octet>)
      requires Valid()
      modifies this`buffer, this`segments, this`segmentBytes
      ensures Valid() && Pending() == old(Pending()) + data
    {
      if |data| < ZeroCopyMin {
        buffer := buffer + data;
        assert Pending() == old(Pending()) + data;
        return;
      }
      PushSegment(data);
    }

    method PushSegment(data: seq<Octet>)
      requires Valid()
      modifies this`buffer, this`segments, this`segmentBytes
      ensures Valid() && Pending() == old(Pending()) + data
    {
      if data == [] {
        assert Pending() == old(Pending()) + data;
        return;
      }
      if buffer != [] {
        Append(buffer);
        buffer := [];
      }
      assert Pending() == old(Pending());
      Append(data);
      assert Pending() == old(Pending()) + data;
    }

    /** Queue one segment. */
    method Append(segment: seq<Octet>)
      requires Valid() && segment != []
      modifies this`segments, this`segmentBytes
      ensures Valid() && Concat(segments) == old(Concat(segments)) + segment
    {
      ConcatAppend(segments, [segment]);
      ConcatOne(segment);
      segmentBytes := segmentBytes + |segment|;
      segments := segments + [segment];
    }

    /** Offer pending octets as slices, in order, as many as fit. */
    method FillWriteSlices(out: array<seq<Octet>>) returns (n: nat)
      requires Valid()
      modifies out
      ensures n <= out.Length && Concat(out[..n]) <= Pending() && NoneEmpty(out[..n])
      ensures n < out.Length ==> Concat(out[..n]) == Pending()
      ensures Pending() != [] && out.Length > 0 ==> n > 0
    {
      n := 0;
      while n < |segments|
        invariant n <= |segments| && n <= out.Length
        invariant out[..n] == segments[..n]
      {
        if n == out.Length {
          PrefixOfPending(n);
          return;
        }
        out[n] := segments[n];
        n := n + 1;
      }
      assert out[..n] == segments;
      if n < out.Length && buffer != [] {
        out[n] := buffer;
        n := n + 1;
        ConcatAppend(segments, [buffer]);
        ConcatOne(buffer);
        assert out[..n] == segments + [buffer];
      }
    }

    lemma PrefixOfPending(n: nat)
      requires n <= |segments|
      ensures Concat(segments[..n]) <= Pending()
    {
      ConcatAppend(segments[..n], segments[n..]);
      assert segments == segments[..n] + segments[n..];
    }

    /** Drop octets that have been written, at most all of them. */
    method Consume(count: nat)
      requires Valid()
      modifies this`buffer, this`segments, this`segmentBytes
      ensures Valid() && Pending() == Without(old(Pending()), count)
    {
      hide Concat, Without, NoneEmpty;
      var n: nat := count;
      while n > 0 && segments != []
        invariant Valid()
        invariant Without(Pending(), n) == Without(old(Pending()), count)
        decreases |segments|
      {
        var front, rest := segments[0], segments[1..];
        SplitFront(segments);
        WithoutFront(front, Concat(rest) + buffer, n);
        Associate(front, Concat(rest), buffer);
        if n >= |front| {
          n := n - |front|;
          segmentBytes := segmentBytes - |front|;
          segments := rest;
        } else {
          ShortenedFront(segments, n);
          Associate(front[n..], Concat(rest), buffer);
          segments := [front[n..]] + rest;
          segmentBytes := segmentBytes - n;
          return;
        }
      }
      WithoutZero(Pending());
      if n > 0 {
        NothingQueued(segments, buffer);
        var take := if n < |buffer| then n else |buffer|;
        WithoutByTaking(buffer, n);
        buffer := buffer[take..];
        NothingQueued(segments, buffer);
      }
    }

    /** Move the open buffer out; queued segments stay. */
    method TakeBuffer() returns (taken: seq<Octet>)
      requires Valid()
      modifies this`buffer
      ensures Valid() && old(Pending()) == Pending() + taken && buffer == []
    {
      taken := buffer;
      buffer := [];
      assert Pending() + taken == old(Pending());
    }

    method Clear()
      modifies this`buffer, this`segments, this`segmentBytes
      ensures Valid() && Pending() == []
    {
      buffer, segments, segmentBytes := [], [], 0;
    }
  }

  /** A sequence without its first `n` octets, or without all of them if it is shorter. */
  function Without(s: seq<Octet>, n: nat): seq<Octet> {
    s[if n < |s| then n else |s|..]
  }

  lemma WithoutFront(front: seq<Octet>, rest: seq<Octet>, n: nat)
    ensures Without(front + rest, n) == if n >= |front| then Without(rest, n - |front|) else front[n..] + rest
  {
  }

  lemma WithoutZero(s: seq<Octet>)
    ensures Without(s, 0) == s
  {
  }

  lemma WithoutByTaking(s: seq<Octet>, n: nat)
    ensures Without(s, n) == s[if n < |s| then n else |s|..]
  {
  }

  lemma Associate(a: seq<Octet>, b: seq<Octet>, c: seq<Octet>)
    ensures a + b + c == a + (b + c)
  {
  }

  lemma NothingQueued(segments: seq<seq<Octet>>, buffer: seq<Octet>)
    requires segments == []
    ensures Concat(segments) + buffer == buffer
  {
  }

  lemma SplitFront(segments: seq<seq<Octet>>)
    requires segments != []
    ensures Concat(segments) == segments[0] + Concat(segments[1..])
    ensures NoneEmpty(segments) ==> NoneEmpty(segments[1..])
  {
  }

  lemma ShortenedFront(segments: seq<seq<Octet>>, n: nat)
    requires segments != [] && NoneEmpty(segments) && n < |segments[0]|
    ensures var shorter := [segments[0][n..]] + segments[1..];
            NoneEmpty(shorter) && Concat(shorter) == segments[0][n..] + Concat(segments[1..])
  {
    ConcatFront(segments[0][n..], segments[1..]);
  }

  lemma ConcatFront(front: seq<Octet>, rest: seq<seq<Octet>>)
    ensures Concat([front] + rest) == front + Concat(rest)
  {
    assert ([front] + rest)[1..] == rest;
  }

  // ---------------------------------------------------------------------
  // Every sequence of writes and short drains
  // ---------------------------------------------------------------------

  /** A drain offers at most `slots` slices, of which the transport accepts `accepted` octets. */
  datatype Op = Copy(data: seq<Octet>) | Queue(data: seq<Octet>) | Push(data: seq<Octet>) | Drain(slots: nat, accepted: nat)

  function Written(ops: seq<Op>): seq<Octet> {
    if ops == [] then []
    else
      var last := ops[|ops| - 1];
      Written(ops[..|ops| - 1]) + if last.Drain? then [] else last.data
  }

  /** What was emitted, then what is pending, is everything written, in call order. */
  method UseCork(capacity: nat, ops: seq<Op>) returns (emitted: seq<Octet>, cork: CorkBuffer)
    ensures fresh(cork) && cork.Valid() && emitted + cork.Pending() == Written(ops)
  {
    cork := new CorkBuffer(capacity);
    emitted := [];
    var i := 0;
    while i < |ops|
      invariant 0 <= i <= |ops| && fresh(cork) && cork.Valid()
      invariant emitted + cork.Pending() == Written(ops[..i])
    {
      assert ops[..i + 1][..i] == ops[..i];
      ghost var before := cork.Pending();
      var sent := Perform(cork, ops[i]);
      Shift(emitted, sent, cork.Pending(), before, if ops[i].Drain? then [] else ops[i].data);
      emitted := emitted + sent;
      i := i + 1;
    }
    assert ops[..|ops|] == ops;
  }

  lemma Shift(emitted: seq<Octet>, sent: seq<Octet>, pending: seq<Octet>, before: seq<Octet>, data: seq<Octet>)
    requires sent + pending == before + data
    ensures emitted + sent + pending == emitted + before + data
  {
    assert emitted + sent + pending == emitted + (sent + pending);
  }

  method Perform(cork: CorkBuffer, op: Op) returns (sent: seq<Octet>)
    requires cork.Valid()
    modifies cork`buffer, cork`segments, cork`segmentBytes
    ensures cork.Valid()
    ensures sent + cork.Pending() == old(cork.Pending()) + if op.Drain? then [] else op.data
  {
    sent := [];
    match op {
      case Copy(data) => var _ := cork.Write(data);
      case Queue(data) => cork.WriteBytes(data);
      case Push(data) => cork.PushSegment(data);
      case Drain(slots, accepted) => sent := DrainOnce(cork, slots, accepted);
    }
  }

  /** One vectored write: the transport takes a prefix of the slices it is offered. */
  method DrainOnce(cork: CorkBuffer, slots: nat, accepted: nat) returns (sent: seq<Octet>)
    requires cork.Valid()
    modifies cork`buffer, cork`segments, cork`segmentBytes
    ensures cork.Valid() && sent + cork.Pending() == old(cork.Pending())
    ensures accepted > 0 && slots > 0 && old(cork.Pending()) != [] ==> sent != []
  {
    var out := new seq<Octet>[slots](_ => []);
    var n := cork.FillWriteSlices(out);
    var offered := Concat(out[..n]);
    assert n > 0 ==> offered == out[..n][0] + Concat(out[..n][1..]);
    var take := if accepted < |offered| then accepted else |offered|;
    sent := offered[..take];
    cork.Consume(take);
  }
}
