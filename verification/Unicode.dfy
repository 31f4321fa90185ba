/** Valid UTF-8 is text: the octets of a sequence of Unicode scalar values, each in its shortest form (section 3 of RFC 3629). */
module Unicode {
  import opened Octets
  import opened Utf8

  /** All code points but the surrogates. */
  predicate IsScalar(n: nat) {
    n <= 0x10FFFF && !(0xD800 <= n <= 0xDFFF)
  }

  /** Six bits at a time, most significant first, behind as many leading ones as there are octets. */
  function Encode(n: nat): (c: seq<Octet>)
    requires n <= 0x10FFFF
    ensures 1 <= |c| <= 4
  {
    if n < 0x80 then [n]
    else if n < 0x800 then [0xC0 + n / 64, 0x80 + n % 64]
    else if n < 0x10000 then [0xE0 + n / 4096, 0x80 + n / 64 % 64, 0x80 + n % 64]
    else [0xF0 + n / 262144, 0x80 + n / 4096 % 64, 0x80 + n / 64 % 64, 0x80 + n % 64]
  }

  predicate AreScalars(ns: seq<nat>) {
    forall i :: 0 <= i < |ns| ==> IsScalar(ns[i])
  }

  function EncodeText(ns: seq<nat>): seq<Octet>
    requires AreScalars(ns)
  {
    if ns == [] then [] else Encode(ns[0]) + EncodeText(ns[1..])
  }

  /** The number that the octets of a character make up. */
  function Value(c: seq<int>): int
    requires 1 <= |c| <= 4
  {
    if |c| == 1 then c[0]
    else if |c| == 2 then (c[0] - 0xC0) * 64 + (c[1] - 0x80)
    else if |c| == 3 then (c[0] - 0xE0) * 4096 + (c[1] - 0x80) * 64 + (c[2] - 0x80)
    else (c[0] - 0xF0) * 262144 + (c[1] - 0x80) * 4096 + (c[2] - 0x80) * 64 + (c[3] - 0x80)
  }

  /** The digits of a number to the base 64. */
  lemma Digits(n: nat)
    ensures n / 4096 == n / 64 / 64 && n / 262144 == n / 64 / 64 / 64
    ensures n == n / 64 * 64 + n % 64
    ensures n / 64 == n / 4096 * 64 + n / 64 % 64
    ensures n / 4096 == n / 262144 * 64 + n / 4096 % 64
  {
  }

  lemma FromDigits(a: nat, b: nat)
    requires b < 64
    ensures (a * 64 + b) / 64 == a && (a * 64 + b) % 64 == b
  {
  }

  /** Every scalar value is one character, from which it can be read back. */
  lemma ScalarIsCharacter(n: nat)
    requires IsScalar(n)
    ensures IsCharacter(Encode(n)) && Value(Encode(n)) == n
  {
    if n < 0x80 {
    } else if n < 0x800 {
      Digits(n);
    } else if n < 0x10000 {
      ThreeDigits(n);
    } else {
      FourDigits(n);
    }
  }

  lemma ThreeDigits(n: nat)
    requires IsScalar(n) && 0x800 <= n < 0x10000
    ensures IsCharacter(Encode(n)) && Value(Encode(n)) == n
  {
    Digits(n);
    ThreeOctets(n / 4096, n / 64 % 64, n % 64);
  }

  lemma ThreeOctets(a: nat, b: nat, c: nat)
    requires a < 16 && b < 64 && c < 64 && (a == 0 ==> b >= 32) && !(a == 13 && b >= 32)
    ensures var s := [0xE0 + a, 0x80 + b, 0x80 + c]; IsCharacter(s) && Value(s) == a * 4096 + b * 64 + c
  {
  }

  lemma FourDigits(n: nat)
    requires IsScalar(n) && 0x10000 <= n
    ensures IsCharacter(Encode(n)) && Value(Encode(n)) == n
  {
    Digits(n);
    FourOctets(n / 262144, n / 4096 % 64, n / 64 % 64, n % 64);
  }

  lemma FourOctets(a: nat, b: nat, c: nat, d: nat)
    requires a < 5 && b < 64 && c < 64 && d < 64 && (a == 0 ==> b >= 16) && (a == 4 ==> b < 16)
    ensures var s := [0xF0 + a, 0x80 + b, 0x80 + c, 0x80 + d]; IsCharacter(s) && Value(s) == a * 262144 + b * 4096 + c * 64 + d
  {
  }

  lemma TwoIsScalar(a: nat, b: nat)
    requires 0xC2 <= a <= 0xDF && 0x80 <= b <= 0xBF
    ensures var n := (a - 0xC0) * 64 + (b - 0x80); IsScalar(n) && 0x80 <= n < 0x800 && n / 64 == a - 0xC0 && n % 64 == b - 0x80
  {
    FromDigits(a - 0xC0, b - 0x80);
  }

  lemma ThreeIsScalar(a: nat, b: nat, c: nat)
    requires 0xE0 <= a <= 0xEF && 0x80 <= b <= 0xBF && 0x80 <= c <= 0xBF && (a == 0xE0 ==> b >= 0xA0) && (a == 0xED ==> b <= 0x9F)
    ensures var n := (a - 0xE0) * 4096 + (b - 0x80) * 64 + (c - 0x80);
            IsScalar(n) && 0x800 <= n < 0x10000 && n / 4096 == a - 0xE0 && n / 64 % 64 == b - 0x80 && n % 64 == c - 0x80
  {
    var high := (a - 0xE0) * 64 + (b - 0x80);
    FromDigits(a - 0xE0, b - 0x80);
    FromDigits(high, c - 0x80);
    Digits(high * 64 + (c - 0x80));
  }

  lemma FourIsScalar(a: nat, b: nat, c: nat, d: nat)
    requires 0xF0 <= a <= 0xF4 && 0x80 <= b <= 0xBF && 0x80 <= c <= 0xBF && 0x80 <= d <= 0xBF
    requires (a == 0xF0 ==> b >= 0x90) && (a == 0xF4 ==> b <= 0x8F)
    ensures var n := (a - 0xF0) * 262144 + (b - 0x80) * 4096 + (c - 0x80) * 64 + (d - 0x80);
            && IsScalar(n) && 0x10000 <= n
            && n / 262144 == a - 0xF0 && n / 4096 % 64 == b - 0x80 && n / 64 % 64 == c - 0x80 && n % 64 == d - 0x80
  {
    var top := (a - 0xF0) * 64 + (b - 0x80);
    var high := top * 64 + (c - 0x80);
    FromDigits(a - 0xF0, b - 0x80);
    FromDigits(top, c - 0x80);
    FromDigits(high, d - 0x80);
    Digits(high * 64 + (d - 0x80));
  }

  /** Every character is that of a scalar value. */
  lemma CharacterIsScalar(c: seq<Octet>) returns (n: nat)
    requires IsCharacter(c)
    ensures IsScalar(n) && c == Encode(n)
  {
    if |c| == 1 {
      n := c[0];
    } else if |c| == 2 {
      var a: nat, b: nat := c[0], c[1];
      n := (a - 0xC0) * 64 + (b - 0x80);
      TwoIsScalar(a, b);
    } else if |c| == 3 {
      var a: nat, b: nat, d: nat := c[0], c[1], c[2];
      n := (a - 0xE0) * 4096 + (b - 0x80) * 64 + (d - 0x80);
      ThreeIsScalar(a, b, d);
    } else {
      n := FourOctetsAreScalar(c);
    }
  }

  lemma FourOctetsAreScalar(c: seq<Octet>) returns (n: nat)
    requires IsCharacter(c) && |c| == 4
    ensures IsScalar(n) && c == Encode(n)
  {
    var a: nat, b: nat, d: nat, e: nat := c[0], c[1], c[2], c[3];
    n := (a - 0xF0) * 262144 + (b - 0x80) * 4096 + (d - 0x80) * 64 + (e - 0x80);
    FourIsScalar(a, b, d, e);
  }

  /** Valid UTF-8 is exactly the encodings of scalar values, one after the other; and of one sequence of them only. */
  lemma ValidIsText(s: seq<Octet>)
    ensures ValidUtf8(s) <==> exists ns :: AreScalars(ns) && s == EncodeText(ns)
  {
    hide ValidUtf8, EncodeText;
    if ValidUtf8(s) {
      var ns := TextOf(s);
    }
    if ns :| AreScalars(ns) && s == EncodeText(ns) {
      TextIsValid(ns);
    }
  }

  lemma {:induction false} TextOf(s: seq<Octet>) returns (ns: seq<nat>)
    requires ValidUtf8(s)
    ensures AreScalars(ns) && s == EncodeText(ns)
    decreases |s|
  {
    hide IsCharacter, Encode;
    if s == [] {
      ns := [];
    } else {
      var k := FirstCharacter(s);
      var n := CharacterIsScalar(s[..k]);
      ns := TextOf(s[k..]);
      assert ([n] + ns)[1..] == ns && s == s[..k] + s[k..];
      ns := [n] + ns;
    }
  }

  lemma FirstCharacter(s: seq<Octet>) returns (k: nat)
    requires ValidUtf8(s) && s != []
    ensures 1 <= k <= |s| && IsCharacter(s[..k]) && ValidUtf8(s[k..])
  {
    hide IsCharacter;
    k := if IsCharacter(s[..1]) && ValidUtf8(s[1..]) then 1
         else if |s| >= 2 && IsCharacter(s[..2]) && ValidUtf8(s[2..]) then 2
         else if |s| >= 3 && IsCharacter(s[..3]) && ValidUtf8(s[3..]) then 3 else 4;
  }

  lemma {:induction false} TextIsValid(ns: seq<nat>)
    requires AreScalars(ns)
    ensures ValidUtf8(EncodeText(ns))
    decreases |ns|
  {
    hide IsCharacter, Encode;
    if ns != [] {
      TextIsValid(ns[1..]);
      ScalarIsCharacter(ns[0]);
      Prepended(Encode(ns[0]), EncodeText(ns[1..]));
    }
  }

  lemma Prepended(c: seq<Octet>, s: seq<Octet>)
    requires IsCharacter(c) && 1 <= |c| <= 4 && ValidUtf8(s)
    ensures ValidUtf8(c + s)
  {
    hide IsCharacter;
    assert (c + s)[..|c|] == c && (c + s)[|c|..] == s;
  }

  lemma {:induction false} TextIsUnique(ms: seq<nat>, ns: seq<nat>)
    requires AreScalars(ms) && AreScalars(ns) && EncodeText(ms) == EncodeText(ns)
    ensures ms == ns
    decreases |ms|
  {
    hide IsCharacter, Encode, Value;
    if ms != [] && ns != [] {
      var a, b, s, t := Encode(ms[0]), Encode(ns[0]), EncodeText(ms[1..]), EncodeText(ns[1..]);
      ScalarIsCharacter(ms[0]);
      ScalarIsCharacter(ns[0]);
      CharacterWidth(a);
      CharacterWidth(b);
      assert (a + s)[0] == a[0] && (b + t)[0] == b[0];
      assert a == (a + s)[..|a|] && b == (b + t)[..|b|] && s == (a + s)[|a|..] && t == (b + t)[|b|..];
      TextIsUnique(ms[1..], ns[1..]);
      assert ms == [ms[0]] + ms[1..] && ns == [ns[0]] + ns[1..];
    }
  }
}
