/**
 Frame masking (section 5.3 of RFC 6455): the bytewise definition, and what masking
 64-bit and 32-bit words in native byte order does to the octets in them.
 */
module Masking {
  import opened Octets

  type MaskKey = m: seq<Octet> | |m| == 4 witness [0, 0, 0, 0]

  /** Octet `i` of `data` is combined with octet `(offset + i) mod 4` of the key. */
  function Masked(data: seq<Octet>, key: MaskKey, offset: nat): (r: seq<Octet>)
    ensures |r| == |data|
  {
    seq(|data|, i requires 0 <= i < |data| => Xor(data[i], key[(offset + i) % 4]))
  }

  lemma MaskingTwiceIsIdentity(data: seq<Octet>, key: MaskKey, offset: nat)
    ensures Masked(Masked(data, key, offset), key, offset) == data
  {
    forall i | 0 <= i < |data|
      ensures Masked(Masked(data, key, offset), key, offset)[i] == data[i]
    {
      XorCancels(data[i], key[(offset + i) % 4]);
    }
  }

  lemma MaskingConcatenation(a: seq<Octet>, b: seq<Octet>, key: MaskKey, offset: nat)
    ensures Masked(a + b, key, offset) == Masked(a, key, offset) + Masked(b, key, offset + |a|)
  {
    var whole, parts := Masked(a + b, key, offset), Masked(a, key, offset) + Masked(b, key, offset + |a|);
    forall i | 0 <= i < |a| + |b| ensures whole[i] == parts[i] {
      if i >= |a| {
        assert (a + b)[i] == b[i - |a|];
        assert offset + |a| + (i - |a|) == offset + i;
      }
    }
  }

  /** Skipping a multiple of four octets does not move the key. */
  lemma MaskingPhase(data: seq<Octet>, key: MaskKey, offset: nat, skip: nat)
    requires skip % 4 == 0
    ensures Masked(data, key, offset + skip) == Masked(data, key, offset)
  {
    hide Xor;
    forall i | 0 <= i < |data|
      ensures Masked(data, key, offset + skip)[i] == Masked(data, key, offset)[i]
    {
      SamePhase(offset + i, skip);
      assert offset + skip + i == offset + i + skip;
    }
  }

  lemma SamePhase(i: nat, skip: nat)
    requires skip % 4 == 0
    ensures (i + skip) % 4 == i % 4
  {
  }

  // ---------------------------------------------------------------------
  // Machine words
  // ---------------------------------------------------------------------

  function Reversed(s: seq<Octet>): (r: seq<Octet>)
    ensures |r| == |s|
    ensures forall i :: 0 <= i < |s| ==> r[i] == s[|s| - 1 - i]
  {
    seq(|s|, i requires 0 <= i < |s| => s[|s| - 1 - i])
  }

  /** Value of a little-endian word. */
  function LittleEndian(s: seq<Octet>): (w: nat) {
    if s == [] then 0 else s[0] + 256 * LittleEndian(s[1..])
  }

  function LittleEndianBytes(w: nat, n: nat): (s: seq<Octet>)
    ensures |s| == n
  {
    if n == 0 then [] else [w % 256] + LittleEndianBytes(w / 256, n - 1)
  }

  /** Native word value and its inverse, for either byte order. */
  function FromNative(big: bool, s: seq<Octet>): (w: nat) {
    if big then LittleEndian(Reversed(s)) else LittleEndian(s)
  }

  function ToNative(big: bool, w: nat, n: nat): (s: seq<Octet>)
    ensures |s| == n
  {
    if big then Reversed(LittleEndianBytes(w, n)) else LittleEndianBytes(w, n)
  }

  function XorAll(s: seq<Octet>, m: seq<Octet>): (r: seq<Octet>)
    requires |s| == |m|
    ensures |r| == |s|
    ensures forall i :: 0 <= i < |s| ==> r[i] == Xor(s[i], m[i])
  {
    seq(|s|, i requires 0 <= i < |s| => Xor(s[i], m[i]))
  }

  lemma {:induction false} LittleEndianXor(s: seq<Octet>, m: seq<Octet>)
    requires |s| == |m|
    ensures LittleEndianBytes(XorBits(LittleEndian(s), LittleEndian(m), 8 * |s|), |s|) == XorAll(s, m)
  {
    if s != [] {
      var n, w := 8 * (|s| - 1), XorBits(LittleEndian(s), LittleEndian(m), 8 * |s|);
      var hi, hi' := LittleEndian(s[1..]), LittleEndian(m[1..]);
      LowOctetXor(s[0], hi, m[0], hi', n);
      assert 8 + n == 8 * |s|;
      assert w % 256 == Xor(s[0], m[0]) && w / 256 == XorBits(hi, hi', n);
      LittleEndianXor(s[1..], m[1..]);
      assert XorAll(s, m) == [Xor(s[0], m[0])] + XorAll(s[1..], m[1..]);
    }
  }

  lemma LowOctetXor(lo: Octet, hi: nat, lo': Octet, hi': nat, n: nat)
    ensures XorBits(lo + 256 * hi, lo' + 256 * hi', 8 + n) == Xor(lo, lo') + 256 * XorBits(hi, hi', n)
  {
    hide XorBits, Pow2, ShiftLeft;
    Pow2Eight();
    OneOctetUp(hi);
    OneOctetUp(hi');
    calc {
      XorBits(lo + 256 * hi, lo' + 256 * hi', 8 + n);
      { XorBitsSplits(lo, hi, lo', hi', 8, n); }
      Xor(lo, lo') + ShiftLeft(XorBits(hi, hi', n), 8);
      { OneOctetUp(XorBits(hi, hi', n)); }
      Xor(lo, lo') + 256 * XorBits(hi, hi', n);
    }
  }

  /** A word-sized exclusive-or is the octet-wise one, on both byte orders. */
  lemma NativeXor(big: bool, s: seq<Octet>, m: seq<Octet>, n: nat)
    requires |s| == |m| == n
    ensures ToNative(big, XorBits(FromNative(big, s), FromNative(big, m), 8 * n), n) == XorAll(s, m)
  {
    if big {
      BigEndianXor(s, m, n);
    } else {
      LittleEndianXor(s, m);
    }
  }

  lemma BigEndianXor(s: seq<Octet>, m: seq<Octet>, n: nat)
    requires |s| == |m| == n
    ensures Reversed(LittleEndianBytes(XorBits(LittleEndian(Reversed(s)), LittleEndian(Reversed(m)), 8 * n), n)) == XorAll(s, m)
  {
    LittleEndianXor(Reversed(s), Reversed(m));
    ReversedXor(s, m);
  }

  lemma ReversedXor(s: seq<Octet>, m: seq<Octet>)
    requires |s| == |m|
    ensures Reversed(XorAll(Reversed(s), Reversed(m))) == XorAll(s, m)
  {
  }

  lemma {:induction false} LittleEndianConcat(a: seq<Octet>, b: seq<Octet>)
    ensures LittleEndian(a + b) == LittleEndian(a) + ShiftLeft(LittleEndian(b), 8 * |a|)
  {
    if a == [] {
      assert a + b == b;
    } else {
      LittleEndianConcat(a[1..], b);
      assert (a + b)[1..] == a[1..] + b;
      ShiftedOctet(LittleEndian(b), 8 * (|a| - 1));
    }
  }

  lemma OneOctetUp(x: nat)
    ensures ShiftLeft(x, 8) == 256 * x
  {
    ShiftedOctet(x, 0);
  }

  lemma ShiftedOctet(x: nat, n: nat)
    ensures ShiftLeft(x, n + 8) == 256 * ShiftLeft(x, n)
  {
    assert ShiftLeft(x, n + 2) == 4 * ShiftLeft(x, n);
    assert ShiftLeft(x, n + 4) == 4 * ShiftLeft(x, n + 2);
    assert ShiftLeft(x, n + 6) == 4 * ShiftLeft(x, n + 4);
    assert ShiftLeft(x, n + 8) == 4 * ShiftLeft(x, n + 6);
  }

  /** The repeated key as one 64-bit word: the 32-bit word or-ed with itself moved up 32 bits. */
  function DoubledWord(big: bool, key: MaskKey): (w: nat) {
    FromNative(big, key) + ShiftLeft(FromNative(big, key), 8 * |key|)
  }

  lemma DoubledWordIsKeyTwice(big: bool, key: MaskKey)
    ensures DoubledWord(big, key) == FromNative(big, key + key)
  {
    LittleEndianConcat(key, key);
    LittleEndianConcat(Reversed(key), Reversed(key));
    assert Reversed(key + key) == Reversed(key) + Reversed(key);
  }

  lemma WordMask(big: bool, s: seq<Octet>, key: MaskKey, n: nat)
    requires |s| == n && n == |key| + |key|
    ensures ToNative(big, XorBits(FromNative(big, s), DoubledWord(big, key), 8 * n), n) == Masked(s, key, 0)
  {
    hide XorBits, ToNative, FromNative, DoubledWord, Masked, XorAll;
    DoubledWordIsKeyTwice(big, key);
    NativeXor(big, s, key + key, n);
    XorWithKeys(s, key, key + key);
  }

  lemma HalfWordMask(big: bool, s: seq<Octet>, key: MaskKey, n: nat)
    requires |s| == n && n == |key|
    ensures ToNative(big, XorBits(FromNative(big, s), FromNative(big, key), 8 * n), n) == Masked(s, key, 0)
  {
    NativeXor(big, s, key, n);
    XorWithKeys(s, key, key);
  }

  lemma XorWithKeys(s: seq<Octet>, key: MaskKey, keys: seq<Octet>)
    requires |s| == |keys|
    requires forall i :: 0 <= i < |keys| ==> keys[i] == key[i % 4]
    ensures XorAll(s, keys) == Masked(s, key, 0)
  {
  }
}
