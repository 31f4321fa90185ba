/** Octets, bitwise exclusive-or over unsigned integers, and big-endian numbers. */
module Octets {

  type Octet = x: int | 0 <= x < 256

  datatype Option<+T> = None | Some(value: T)

  /** A byte buffer that callers share by reference, in the role of `BytesMut`. */
  class ByteBuffer {
    var data: seq<Octet>

    constructor (initial: seq<Octet>)
      ensures data == initial
    {
      data := initial;
    }
  }

  /** A stream, from the chunks it arrives in. */
  function Concat(chunks: seq<seq<Octet>>): seq<Octet> {
    if chunks == [] then [] else chunks[0] + Concat(chunks[1..])
  }

  function Reverse<T>(s: seq<T>): seq<T> {
    if s == [] then [] else Reverse(s[1..]) + [s[0]]
  }

  lemma {:induction false} ReverseLast<T>(s: seq<T>)
    requires s != []
    ensures Reverse(s) == [s[|s| - 1]] + Reverse(s[..|s| - 1])
    decreases |s|
  {
    if |s| > 1 {
      ReverseLast(s[1..]);
      assert s[1..][..|s| - 2] == s[..|s| - 1][1..];
    }
  }

  lemma {:induction false} ReverseTwice<T>(s: seq<T>)
    ensures Reverse(Reverse(s)) == s
    decreases |s|
  {
    if s != [] {
      var r := Reverse(s);
      ReverseTwice(s[1..]);
      ReverseLast(r);
      assert r[..|r| - 1] == Reverse(s[1..]);
    }
  }

  lemma ReverseOne<T>(x: T)
    ensures Reverse([x]) == [x]
  {
    ReverseNothing<T>();
  }

  lemma ReverseNothing<T>()
    ensures Reverse<T>([]) == []
  {
  }

  /** The parts of a concatenation, by position. */
  lemma Middle(a: seq<Octet>, b: seq<Octet>, c: seq<Octet>)
    ensures (a + b + c)[|a|..|a| + |b|] == b && (a + b + c)[|a| + |b|..] == c
  {
  }

  /** A sequence cut in three. */
  lemma CutTwice(s: seq<Octet>, i: nat, j: nat)
    requires i <= j <= |s|
    ensures s[..i] + s[i..j] == s[..j] && s[i..j] + s[j..] == s[i..]
  {
  }

  /** Where the elements of `a` stand in `b`, in order. */
  ghost predicate Picks<T>(places: seq<nat>, a: seq<T>, b: seq<T>) {
    && |places| == |a|
    && (forall i :: 0 <= i < |a| ==> places[i] < |b| && a[i] == b[places[i]])
    && (forall i, j :: 0 <= i < j < |a| ==> places[i] < places[j])
  }

  ghost predicate IsSubsequence<T>(a: seq<T>, b: seq<T>) {
    exists places :: Picks(places, a, b)
  }

  lemma SubsequencePrefix<T>(a: seq<T>, n: nat, b: seq<T>)
    requires IsSubsequence(a, b) && n <= |a|
    ensures IsSubsequence(a[..n], b)
  {
    var places :| Picks(places, a, b);
    assert Picks(places[..n], a[..n], b);
  }

  lemma SubsequenceWithout<T>(a: seq<T>, k: nat, b: seq<T>)
    requires IsSubsequence(a, b) && k < |a|
    ensures IsSubsequence(a[..k] + a[k + 1..], b)
  {
    var places :| Picks(places, a, b);
    assert Picks(places[..k] + places[k + 1..], a[..k] + a[k + 1..], b);
  }

  lemma SubsequenceAppend<T>(a: seq<T>, b: seq<T>, more: seq<T>)
    requires IsSubsequence(a, b)
    ensures IsSubsequence(a + more, b + more)
  {
    var places: seq<nat> :| Picks(places, a, b);
    var behind: seq<nat> := seq(|more|, i requires 0 <= i < |more| => |b| + i as nat);
    assert Picks(places + behind, a + more, b + more);
  }

  lemma SubsequenceOfMore<T>(a: seq<T>, b: seq<T>, more: seq<T>)
    requires IsSubsequence(a, b)
    ensures IsSubsequence(a, b + more)
  {
    var places :| Picks(places, a, b);
    assert Picks(places, a, b + more);
  }

  lemma SubsequenceOfItself<T>(a: seq<T>)
    ensures IsSubsequence(a, a)
  {
    assert Picks(seq(|a|, i => i), a, a);
  }

  function Pow2(n: nat): (r: nat)
    ensures r >= 1
  {
    if n == 0 then 1 else 2 * Pow2(n - 1)
  }

  /** Exclusive-or of the `n` low bits of `a` and `b`. */
  function XorBits(a: nat, b: nat, n: nat): (r: nat) {
    if n == 0 then 0
    else if a % 2 == b % 2 then 2 * XorBits(a / 2, b / 2, n - 1)
    else 1 + 2 * XorBits(a / 2, b / 2, n - 1)
  }

  lemma Pow2Eight()
    ensures Pow2(8) == 256
  {
    assert Pow2(4) == 16;
    assert Pow2(8) == 16 * Pow2(4);
  }

  lemma {:induction false} XorBitsBound(a: nat, b: nat, n: nat)
    ensures XorBits(a, b, n) < Pow2(n)
  {
    if n != 0 {
      XorBitsBound(a / 2, b / 2, n - 1);
    }
  }

  function Xor(a: Octet, b: Octet): (r: Octet) {
    Pow2Eight();
    XorBitsBound(a, b, 8);
    XorBits(a, b, 8)
  }

  lemma {:induction false} XorBitsCancels(a: nat, b: nat, n: nat)
    requires a < Pow2(n)
    ensures XorBits(XorBits(a, b, n), b, n) == a
  {
    if n != 0 {
      XorBitsCancels(a / 2, b / 2, n - 1);
      var high := XorBits(a / 2, b / 2, n - 1);
      var x := XorBits(a, b, n);
      assert x == 2 * high || x == 1 + 2 * high;
      assert x / 2 == high;
    }
  }

  lemma XorCancels(a: Octet, b: Octet)
    ensures Xor(Xor(a, b), b) == a
  {
    Pow2Eight();
    XorBitsCancels(a, b, 8);
  }

  /** One unfolding, on numbers given by their low bit and their other bits. */
  lemma XorBitsStep(a0: nat, a: nat, b0: nat, b: nat, n: nat)
    requires a0 < 2 && b0 < 2
    ensures XorBits(a0 + 2 * a, b0 + 2 * b, n + 1) == (if a0 == b0 then 0 else 1) + 2 * XorBits(a, b, n)
  {
    assert (a0 + 2 * a) % 2 == a0 && (b0 + 2 * b) % 2 == b0;
    assert (a0 + 2 * a) / 2 == a && (b0 + 2 * b) / 2 == b;
  }

  /** `x` moved up by `k` bits. */
  function ShiftLeft(x: nat, k: nat): (r: nat) {
    if k == 0 then x else 2 * ShiftLeft(x, k - 1)
  }

  /** Exclusive-or works on each half of a number separately. */
  lemma {:induction false} XorBitsSplits(lo: nat, hi: nat, lo': nat, hi': nat, k: nat, n: nat)
    requires lo < Pow2(k) && lo' < Pow2(k)
    ensures XorBits(lo + ShiftLeft(hi, k), lo' + ShiftLeft(hi', k), k + n)
         == XorBits(lo, lo', k) + ShiftLeft(XorBits(hi, hi', n), k)
    decreases k
  {
    hide XorBits, ShiftLeft;
    if k == 0 {
      assert Pow2(0) == 1;
      XorBitsUnsplit(hi, hi', n);
    } else {
      assert Pow2(k) == 2 * Pow2(k - 1);
      hide Pow2;
      Halved(lo, Pow2(k - 1));
      Halved(lo', Pow2(k - 1));
      XorBitsSplits(lo / 2, hi, lo' / 2, hi', k - 1, n);
      XorBitsSplitsNext(lo, hi, lo', hi', k - 1, n);
    }
  }

  lemma XorBitsUnsplit(hi: nat, hi': nat, n: nat)
    ensures XorBits(ShiftLeft(hi, 0), ShiftLeft(hi', 0), n) == XorBits(0, 0, 0) + ShiftLeft(XorBits(hi, hi', n), 0)
  {
  }

  lemma XorBitsSplitsNext(lo: nat, hi: nat, lo': nat, hi': nat, k: nat, n: nat)
    requires XorBits(lo / 2 + ShiftLeft(hi, k), lo' / 2 + ShiftLeft(hi', k), k + n)
          == XorBits(lo / 2, lo' / 2, k) + ShiftLeft(XorBits(hi, hi', n), k)
    ensures XorBits(lo + ShiftLeft(hi, k + 1), lo' + ShiftLeft(hi', k + 1), k + 1 + n)
         == XorBits(lo, lo', k + 1) + ShiftLeft(XorBits(hi, hi', n), k + 1)
  {
    hide XorBits;
    XorBitsShift(lo, lo', ShiftLeft(hi, k), ShiftLeft(hi', k), k + n, k, ShiftLeft(XorBits(hi, hi', n), k));
  }

  lemma Halved(x: nat, bound: nat)
    requires x < 2 * bound
    ensures x / 2 < bound
  {
  }

  lemma XorBitsShift(lo: nat, lo': nat, u: nat, v: nat, n: nat, k: nat, r: nat)
    requires XorBits(lo / 2 + u, lo' / 2 + v, n) == XorBits(lo / 2, lo' / 2, k) + r
    ensures XorBits(lo + 2 * u, lo' + 2 * v, n + 1) == XorBits(lo, lo', k + 1) + 2 * r
  {
    XorBitsStep(lo % 2, lo / 2 + u, lo' % 2, lo' / 2 + v, n);
    XorBitsStep(lo % 2, lo / 2, lo' % 2, lo' / 2, k);
  }

  /** The number whose big-endian octets are `s`, as `from_be_bytes` reads it. */
  function FromBigEndian(s: seq<Octet>): (r: nat) {
    if s == [] then 0 else 256 * FromBigEndian(s[..|s| - 1]) + s[|s| - 1]
  }

  /** The `n` low octets of `v`, most significant first, as `to_be_bytes` writes them. */
  function ToBigEndian(v: nat, n: nat): (s: seq<Octet>)
    ensures |s| == n
  {
    if n == 0 then [] else ToBigEndian(v / 256, n - 1) + [v % 256]
  }

  function Pow256(n: nat): (r: nat)
    ensures r >= 1
  {
    if n == 0 then 1 else 256 * Pow256(n - 1)
  }

  lemma {:induction false} BigEndianRoundTrip(v: nat, n: nat)
    requires v < Pow256(n)
    ensures FromBigEndian(ToBigEndian(v, n)) == v
    decreases n
  {
    if n != 0 {
      assert Pow256(n) == 256 * Pow256(n - 1);
      assert ToBigEndian(v, n) == ToBigEndian(v / 256, n - 1) + [v % 256];
      hide Pow256, ToBigEndian, FromBigEndian;
      HighOctets(v, Pow256(n - 1));
      BigEndianRoundTrip(v / 256, n - 1);
      BigEndianLast(ToBigEndian(v / 256, n - 1), v % 256);
    }
  }

  lemma HighOctets(v: nat, bound: nat)
    requires v < 256 * bound
    ensures v / 256 < bound && v == 256 * (v / 256) + v % 256
  {
  }

  lemma BigEndianLast(front: seq<Octet>, last: Octet)
    ensures FromBigEndian(front + [last]) == 256 * FromBigEndian(front) + last
  {
    var s := front + [last];
    assert s[..|s| - 1] == front;
  }

  lemma {:induction false} BigEndianBytesRoundTrip(s: seq<Octet>)
    ensures FromBigEndian(s) < Pow256(|s|)
    ensures ToBigEndian(FromBigEndian(s), |s|) == s
  {
    if s != [] {
      var front := s[..|s| - 1];
      BigEndianBytesRoundTrip(front);
      assert FromBigEndian(s) / 256 == FromBigEndian(front);
      assert s == front + [s[|s| - 1]];
    }
  }

  lemma Pow256Values()
    ensures Pow256(2) == 0x1_0000
    ensures Pow256(8) == 0x1_0000_0000_0000_0000
  {
    assert Pow256(2) == 0x1_0000;
    assert Pow256(4) == 0x1_0000 * Pow256(2);
    assert Pow256(6) == 0x1_0000 * Pow256(4);
    assert Pow256(8) == 0x1_0000 * Pow256(6);
  }
}
