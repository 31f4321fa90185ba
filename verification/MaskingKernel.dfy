/**
 The copy-and-mask loops of the frame encoder. Each writes `src`, masked with the
 key at phase zero, to `dst[at..at + |src|]` and nothing else; block boundaries
 are multiples of four, so every block restarts the key at its first octet.
 */
module MaskingKernel {
  import opened Octets
  import opened Masking

  /** What every copy leaves behind: the masked source, and all other octets untouched. */
  ghost predicate Wrote(before: seq<Octet>, after: seq<Octet>, at: nat, src: seq<Octet>, key: MaskKey) {
    && |before| == |after|
    && at + |src| <= |before|
    && after == before[..at] + Masked(src, key, 0) + before[at + |src|..]
  }

  lemma NothingWritten(before: seq<Octet>, at: nat, key: MaskKey)
    requires at <= |before|
    ensures Wrote(before, before, at, [], key)
  {
  }

  lemma WordWritten(before: seq<Octet>, after: seq<Octet>, at: nat, src: seq<Octet>, key: MaskKey)
    requires at + |src| <= |before|
    requires after == before[..at] + Masked(src, key, 0) + before[at + |src|..]
    ensures Wrote(before, after, at, src, key)
  {
  }

  /** Two adjacent copies make one, when the first ends on a key boundary. */
  lemma WroteBoth(s0: seq<Octet>, s1: seq<Octet>, s2: seq<Octet>, at: nat,
                  a: seq<Octet>, b: seq<Octet>, key: MaskKey)
    requires |a| % 4 == 0
    requires Wrote(s0, s1, at, a, key) && Wrote(s1, s2, at + |a|, b, key)
    ensures Wrote(s0, s2, at, a + b, key)
  {
    hide Masked;
    MaskingConcatenation(a, b, key, 0);
    MaskingPhase(b, key, 0, |a|);
    var mid := at + |a|;
    assert s1[..mid] == s0[..at] + Masked(a, key, 0);
    assert s1[mid + |b|..] == s0[mid + |b|..];
    assert s2 == s0[..at] + (Masked(a, key, 0) + Masked(b, key, 0)) + s0[mid + |b|..];
  }

  /** One machine word of the payload, exclusive-ored with the repeated key. */
  method MaskWord(big: bool, word: seq<Octet>, keyWord: nat, ghost key: MaskKey) returns (r: seq<Octet>)
    requires |word| == 8 && keyWord == DoubledWord(big, key)
    ensures r == Masked(word, key, 0)
  {
    WordMask(big, word, key, |word|);
    r := ToNative(big, XorBits(FromNative(big, word), keyWord, 8 * |word|), |word|);
  }

  method MaskHalfWord(big: bool, word: seq<Octet>, key: MaskKey) returns (r: seq<Octet>)
    requires |word| == 4
    ensures r == Masked(word, key, 0)
  {
    HalfWordMask(big, word, key, |word|);
    r := ToNative(big, XorBits(FromNative(big, word), FromNative(big, key), 8 * |word|), |word|);
  }

  method Store(dst: array<Octet>, at: nat, octets: seq<Octet>)
    requires at + |octets| <= dst.Length
    modifies dst
    ensures dst[..] == old(dst[..])[..at] + octets + old(dst[..])[at + |octets|..]
  {
    ghost var before := dst[..];
    var i := 0;
    while i < |octets|
      invariant 0 <= i <= |octets|
      invariant dst[..at] == before[..at]
      invariant dst[at..at + i] == octets[..i]
      invariant dst[at + i..] == before[at + i..]
    {
      dst[at + i] := octets[i];
      assert dst[at..at + i + 1] == octets[..i] + [octets[i]];
      i := i + 1;
    }
    assert dst[..] == dst[..at] + dst[at..at + |octets|] + dst[at + |octets|..];
  }

  method CopyMaskBlock(dst: array<Octet>, at: nat, src: seq<Octet>, big: bool, keyWord: nat, ghost key: MaskKey)
    requires |src| % 8 == 0 && at + |src| <= dst.Length
    requires keyWord == DoubledWord(big, key)
    modifies dst
    ensures Wrote(old(dst[..]), dst[..], at, src, key)
  {
    hide Masked, DoubledWord, Wrote, XorBits, FromNative, ToNative;
    var i := 0;
    NothingWritten(dst[..], at, key);
    assert src[..0] == [];
    while i < |src|
      invariant 0 <= i <= |src| && i % 8 == 0
      invariant Progress(old(dst[..]), dst[..], at, src, i, key)
    {
      NextWord(i, |src|);
      ghost var mid := dst[..];
      var word := MaskWord(big, src[i..i + 8], keyWord, key);
      Store(dst, at + i, word);
      WordWritten(mid, dst[..], at + i, src[i..i + 8], key);
      Advance(old(dst[..]), mid, dst[..], at, src, i, i + 8, key);
      i := i + 8;
    }
    assert src[..i] == src;
  }

  lemma NextWord(i: nat, n: nat)
    requires i < n && i % 8 == 0 && n % 8 == 0
    ensures i + 8 <= n && (i + 8) % 8 == 0 && i % 4 == 0
  {
  }

  /** Everything before `done` has been copied. */
  ghost predicate Progress(before: seq<Octet>, after: seq<Octet>, at: nat, src: seq<Octet>, done: nat, key: MaskKey) {
    done <= |src| && Wrote(before, after, at, src[..done], key)
  }

  lemma Advance(s0: seq<Octet>, s1: seq<Octet>, s2: seq<Octet>, at: nat, src: seq<Octet>,
                done: nat, done': nat, key: MaskKey)
    requires done <= done' <= |src| && done % 4 == 0
    requires Progress(s0, s1, at, src, done, key)
    requires Wrote(s1, s2, at + done, src[done..done'], key)
    ensures Progress(s0, s2, at, src, done', key)
  {
    hide Wrote;
    WroteBoth(s0, s1, s2, at, src[..done], src[done..done'], key);
    assert src[..done] + src[done..done'] == src[..done'];
  }

  /** Copy one block of `size` octets if that many are left. */
  method CopyMaskChunk(dst: array<Octet>, at: nat, src: seq<Octet>, done: nat, size: nat,
                       big: bool, keyWord: nat, ghost key: MaskKey, ghost before: seq<Octet>)
    returns (done': nat)
    requires done % 4 == 0 && size % 8 == 0 && at + |src| <= dst.Length
    requires keyWord == DoubledWord(big, key)
    requires Progress(before, dst[..], at, src, done, key)
    modifies dst
    ensures done' == (if size <= |src| - done then done + size else done)
    ensures Progress(before, dst[..], at, src, done', key)
  {
    hide Masked, DoubledWord, Wrote;
    done' := done;
    if size <= |src| - done {
      ghost var mid := dst[..];
      CopyMaskBlock(dst, at + done, src[done..done + size], big, keyWord, key);
      done' := done + size;
      Advance(before, mid, dst[..], at, src, done, done', key);
    }
  }

  /** Copy blocks of `size` octets while that many are left. */
  method CopyMaskBlocks(dst: array<Octet>, at: nat, src: seq<Octet>, size: nat,
                        big: bool, keyWord: nat, ghost key: MaskKey) returns (done: nat)
    requires size > 0 && size % 8 == 0 && at + |src| <= dst.Length
    requires keyWord == DoubledWord(big, key)
    modifies dst
    ensures done % 4 == 0 && done <= |src| < done + size
    ensures Progress(old(dst[..]), dst[..], at, src, done, key)
  {
    hide Masked, DoubledWord, Wrote;
    done := 0;
    NothingWritten(dst[..], at, key);
    assert src[..0] == [];
    while |src| - done >= size
      invariant done <= |src| && done % 4 == 0
      invariant Progress(old(dst[..]), dst[..], at, src, done, key)
    {
      done := CopyMaskChunk(dst, at, src, done, size, big, keyWord, key, old(dst[..]));
    }
  }

  /** Copy four-octet words while one is left. */
  method CopyMaskHalfWords(dst: array<Octet>, at: nat, src: seq<Octet>, start: nat,
                           big: bool, key: MaskKey, ghost before: seq<Octet>) returns (done: nat)
    requires start % 4 == 0 && at + |src| <= dst.Length
    requires Progress(before, dst[..], at, src, start, key)
    modifies dst
    ensures done % 4 == 0 && done <= |src| < done + 4
    ensures Progress(before, dst[..], at, src, done, key)
  {
    hide Masked, Wrote, XorBits, FromNative, ToNative;
    done := start;
    while |src| - done >= 4
      invariant done <= |src| && done % 4 == 0
      invariant Progress(before, dst[..], at, src, done, key)
    {
      ghost var mid := dst[..];
      var word := MaskHalfWord(big, src[done..done + 4], key);
      Store(dst, at + done, word);
      WordWritten(mid, dst[..], at + done, src[done..done + 4], key);
      Advance(before, mid, dst[..], at, src, done, done + 4, key);
      done := done + 4;
    }
  }

  lemma MaskedAt(src: seq<Octet>, key: MaskKey, i: nat)
    requires i < |src| && i < 4
    ensures Masked(src, key, 0)[i] == Xor(src[i], key[i])
  {
  }

  /** Copy at most four octets, one by one. */
  method CopyMaskOctets(dst: array<Octet>, at: nat, src: seq<Octet>, key: MaskKey)
    requires at + |src| <= dst.Length && |src| <= 4
    modifies dst
    ensures Wrote(old(dst[..]), dst[..], at, src, key)
  {
    hide Wrote, Xor, Masked;
    ghost var before, out := dst[..], Masked(src, key, 0);
    var i := 0;
    while i < |src|
      invariant 0 <= i <= |src|
      invariant dst[..at] == before[..at]
      invariant dst[at..at + i] == out[..i]
      invariant dst[at + i..] == before[at + i..]
    {
      MaskedAt(src, key, i);
      dst[at + i] := Xor(src[i], key[i]);
      assert dst[at..at + i + 1] == out[..i] + [out[i]];
      i := i + 1;
    }
    assert dst[..] == dst[..at] + dst[at..at + |src|] + dst[at + |src|..];
    WordWritten(before, dst[..], at, src, key);
  }

  /** The last one to three octets. */
  method CopyMaskTail(dst: array<Octet>, at: nat, src: seq<Octet>, done: nat, key: MaskKey, ghost before: seq<Octet>)
    requires at + |src| <= dst.Length
    requires done <= |src| < done + 4 && done % 4 == 0
    requires Progress(before, dst[..], at, src, done, key)
    modifies dst
    ensures Wrote(before, dst[..], at, src, key)
  {
    hide Masked, Wrote;
    ghost var mid := dst[..];
    CopyMaskOctets(dst, at + done, src[done..], key);
    assert src[done..|src|] == src[done..];
    Advance(before, mid, dst[..], at, src, done, |src|, key);
    assert src[..|src|] == src;
  }

  method CopyMaskWords(dst: array<Octet>, at: nat, src: seq<Octet>, key: MaskKey, big: bool)
    requires at + |src| <= dst.Length
    modifies dst
    ensures Wrote(old(dst[..]), dst[..], at, src, key)
  {
    hide Masked, DoubledWord, Wrote;
    var keyWord := DoubledWord(big, key);
    var done := CopyMaskBlocks(dst, at, src, 64, big, keyWord, key);
    done := CopyMaskChunk(dst, at, src, done, 32, big, keyWord, key, old(dst[..]));
    done := CopyMaskChunk(dst, at, src, done, 16, big, keyWord, key, old(dst[..]));
    done := CopyMaskChunk(dst, at, src, done, 8, big, keyWord, key, old(dst[..]));
    done := CopyMaskHalfWords(dst, at, src, done, big, key, old(dst[..]));
    CopyMaskTail(dst, at, src, done, key, old(dst[..]));
  }

  method CopyMaskLong(dst: array<Octet>, at: nat, src: seq<Octet>, key: MaskKey, big: bool)
    requires at + |src| <= dst.Length
    modifies dst
    ensures Wrote(old(dst[..]), dst[..], at, src, key)
  {
    hide Masked, DoubledWord, Wrote;
    var keyWord := DoubledWord(big, key);
    var done := CopyMaskBlocks(dst, at, src, 256, big, keyWord, key);
    ghost var mid := dst[..];
    CopyMaskWords(dst, at + done, src[done..], key, big);
    assert src[done..|src|] == src[done..];
    Advance(old(dst[..]), mid, dst[..], at, src, done, |src|, key);
    assert src[..|src|] == src;
  }

  /** The encoder's payload copy equals octet-wise masking at every length. */
  method EncodePayloadMasked(dst: array<Octet>, at: nat, src: seq<Octet>, key: MaskKey, big: bool)
    requires at + |src| <= dst.Length
    modifies dst
    ensures dst[..] == old(dst[..at]) + Masked(src, key, 0) + old(dst[at + |src|..])
  {
    ghost var before := dst[..];
    if |src| >= 256 {
      CopyMaskLong(dst, at, src, key, big);
    } else {
      CopyMaskWords(dst, at, src, key, big);
    }
    assert before[..at] == old(dst[..at]) && before[at + |src|..] == old(dst[at + |src|..]);
  }
}
