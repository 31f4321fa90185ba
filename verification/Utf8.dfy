/**
 UTF-8 (section 4 of RFC 3629) and its incremental validator. Validity is defined by
 the grammar; the validator is proved to accept a stream of chunks exactly as long as
 what it has seen can still be extended to valid UTF-8.
 */
module Utf8 {
  import opened Octets

  predicate IsTail(b: Octet) { 0x80 <= b <= 0xBF }

  /** One encoded character, as in the grammar's rules UTF8-1 to UTF8-4. */
  predicate IsCharacter(c: seq<Octet>) {
    || (|c| == 1 && c[0] <= 0x7F)
    || (|c| == 2 && 0xC2 <= c[0] <= 0xDF && IsTail(c[1]))
    || (|c| == 3 && (|| (c[0] == 0xE0 && 0xA0 <= c[1] <= 0xBF)
                     || (0xE1 <= c[0] <= 0xEC && IsTail(c[1]))
                     || (c[0] == 0xED && 0x80 <= c[1] <= 0x9F)
                     || (0xEE <= c[0] <= 0xEF && IsTail(c[1]))) && IsTail(c[2]))
    || (|c| == 4 && (|| (c[0] == 0xF0 && 0x90 <= c[1] <= 0xBF)
                     || (0xF1 <= c[0] <= 0xF3 && IsTail(c[1]))
                     || (c[0] == 0xF4 && 0x80 <= c[1] <= 0x8F)) && IsTail(c[2]) && IsTail(c[3]))
  }

  /** A sequence of encoded characters. */
  predicate ValidUtf8(s: seq<Octet>) {
    s == []
    || (|s| >= 1 && IsCharacter(s[..1]) && ValidUtf8(s[1..]))
    || (|s| >= 2 && IsCharacter(s[..2]) && ValidUtf8(s[2..]))
    || (|s| >= 3 && IsCharacter(s[..3]) && ValidUtf8(s[3..]))
    || (|s| >= 4 && IsCharacter(s[..4]) && ValidUtf8(s[4..]))
  }

  /** Some continuation makes `s` valid: what has been received is not yet hopeless. */
  ghost predicate Extendable(s: seq<Octet>) {
    exists t: seq<Octet> :: ValidUtf8(s + t)
  }

  // ---------------------------------------------------------------------
  // The validator's helpers
  // ---------------------------------------------------------------------

  /** Sequence length announced by a lead octet; 0 if it is not one. */
  function SequenceWidth(lead: Octet): nat {
    if lead <= 0x7F then 1
    else if 0xC0 <= lead <= 0xDF then 2
    else if 0xE0 <= lead <= 0xEF then 3
    else if 0xF0 <= lead <= 0xF7 then 4
    else 0
  }

  /** Whether an incomplete sequence can still be completed. */
  predicate IncompletePrefixMayBeValid(c: seq<Octet>) {
    c == [] ||
    (var lead := c[0];
     0xC2 <= lead <= 0xF4
     && (|c| >= 2 ==>
           (if lead == 0xE0 then 0xA0 else if lead == 0xF0 then 0x90 else 0x80) <= c[1]
           <= (if lead == 0xED then 0x9F else if lead == 0xF4 then 0x8F else 0xBF))
     && forall i :: 2 <= i < |c| ==> IsTail(c[i]))
  }

  /** A proper, still completable part of one character. */
  predicate IsPartial(c: seq<Octet>) {
    c != [] && |c| < SequenceWidth(c[0]) && IncompletePrefixMayBeValid(c)
  }

  /** The incomplete character at the end of `s`; `None` once `s` is hopeless. */
  function Remainder(s: seq<Octet>): (r: Option<seq<Octet>>)
    ensures r.Some? ==> |r.value| <= |s|
  {
    if s == [] then Some([])
    else
      var n := SequenceWidth(s[0]);
      if n == 0 then None
      else if |s| < n then (if IncompletePrefixMayBeValid(s) then Some(s) else None)
      else if IsCharacter(s[..n]) then Remainder(s[n..])
      else None
  }

  // ---------------------------------------------------------------------
  // Meaning of the remainder
  // ---------------------------------------------------------------------

  lemma CharacterWidth(c: seq<Octet>)
    requires IsCharacter(c)
    ensures SequenceWidth(c[0]) == |c|
  {
  }

  lemma {:induction false} ValidMeansNoRemainder(s: seq<Octet>)
    ensures ValidUtf8(s) <==> Remainder(s) == Some([])
    decreases |s|
  {
    if s != [] {
      var n := SequenceWidth(s[0]);
      forall k | 1 <= k <= 4 && k <= |s| && IsCharacter(s[..k]) ensures k == n {
        CharacterWidth(s[..k]);
      }
      if 1 <= n <= |s| && IsCharacter(s[..n]) {
        ValidMeansNoRemainder(s[n..]);
      }
    }
  }

  lemma {:induction false} RemainderIsPartial(s: seq<Octet>)
    requires Remainder(s).Some?
    ensures var c := Remainder(s).value;
            (c == [] || IsPartial(c)) && c == s[|s| - |c|..]
    decreases |s|
  {
    hide IsCharacter, IncompletePrefixMayBeValid;
    if s != [] && |s| >= SequenceWidth(s[0]) {
      var n := SequenceWidth(s[0]);
      RemainderIsPartial(s[n..]);
      var c := Remainder(s).value;
      assert s[n..][|s| - n - |c|..] == s[|s| - |c|..];
    }
  }

  /** Everything before the remainder is valid. */
  lemma {:induction false} BeforeRemainderIsValid(s: seq<Octet>)
    requires Remainder(s).Some?
    ensures ValidUtf8(s[..|s| - |Remainder(s).value|])
    decreases |s|
  {
    hide ValidUtf8, IsCharacter, IncompletePrefixMayBeValid;
    var front := s[..|s| - |Remainder(s).value|];
    ValidMeansNoRemainder(front);
    if s != [] && |s| >= SequenceWidth(s[0]) {
      var n := SequenceWidth(s[0]);
      BeforeRemainderIsValid(s[n..]);
      ValidMeansNoRemainder(front[n..]);
      assert front[..n] == s[..n];
      assert front[n..] == s[n..][..|s| - n - |Remainder(s).value|];
    }
  }

  /** Only the remainder matters for what comes next. */
  lemma {:induction false} RemainderAppend(s: seq<Octet>, t: seq<Octet>)
    ensures Remainder(s + t) == (if Remainder(s).None? then None else Remainder(Remainder(s).value + t))
    decreases |s|
  {
    if s == [] {
      assert s + t == t;
    } else {
      var n := SequenceWidth(s[0]);
      if 1 <= n <= |s| {
        assert (s + t)[..n] == s[..n] && (s + t)[n..] == s[n..] + t;
        if IsCharacter(s[..n]) {
          RemainderAppend(s[n..], t);
        }
      } else if n != 0 && !IncompletePrefixMayBeValid(s) {
        HopelessStays(s, t);
      }
    }
  }

  lemma HopelessStays(s: seq<Octet>, t: seq<Octet>)
    requires s != [] && |s| < SequenceWidth(s[0]) && !IncompletePrefixMayBeValid(s)
    ensures Remainder(s + t).None?
  {
    var w, n := s + t, SequenceWidth(s[0]);
    forall i | 0 <= i < |s| ensures w[i] == s[i] {}
    if |w| < n {
      assert !IncompletePrefixMayBeValid(w);
    } else {
      forall i | 0 <= i < |s| ensures w[..n][i] == s[i] {}
      assert !IsCharacter(w[..n]);
    }
  }

  /** A partial character can be completed. */
  lemma CompletePartial(c: seq<Octet>) returns (t: seq<Octet>)
    requires IsPartial(c)
    ensures IsCharacter(c + t)
  {
    var second := if c[0] == 0xE0 then 0xA0 else if c[0] == 0xF0 then 0x90 else 0x80;
    if |c| == 1 {
      t := if SequenceWidth(c[0]) == 2 then [second]
           else if SequenceWidth(c[0]) == 3 then [second, 0x80] else [second, 0x80, 0x80];
    } else if |c| == 2 {
      t := if SequenceWidth(c[0]) == 3 then [0x80] else [0x80, 0x80];
    } else {
      t := [0x80];
    }
  }

  /** The validator's verdict is exact: a remainder exists if and only if `s` can be extended. */
  lemma ExtendableMeansRemainder(s: seq<Octet>)
    ensures Extendable(s) <==> Remainder(s).Some?
  {
    if Extendable(s) {
      var t :| ValidUtf8(s + t);
      ValidMeansNoRemainder(s + t);
      RemainderAppend(s, t);
    }
    if Remainder(s).Some? {
      var c := Remainder(s).value;
      RemainderIsPartial(s);
      var t: seq<Octet> := [];
      if c != [] {
        t := CompletePartial(c);
        CharacterWidth(c + t);
        assert (c + t)[..|c + t|] == c + t;
      } else {
        assert s + t == s;
      }
      RemainderAppend(s, t);
      ValidMeansNoRemainder(s + t);
    }
  }

  // ---------------------------------------------------------------------
  // Where a chunk is cut
  // ---------------------------------------------------------------------

  ghost predicate StartsLastSequence(s: seq<Octet>, i: nat)
    requires i < |s|
  {
    s[i] >= 0xC0 && forall j :: i < j < |s| ==> IsTail(s[j])
  }

  /** At `k` starts the incomplete sequence that a chunk may end with. */
  ghost predicate IsCompletePrefixLen(s: seq<Octet>, k: nat) {
    && k <= |s|
    && (k < |s| ==> s[k] >= 0xC0 && SequenceWidth(s[k]) > |s| - k)
    && (k == |s| ==> forall i :: 0 <= i < |s| <= i + 3 && StartsLastSequence(s, i) ==> SequenceWidth(s[i]) <= |s| - i)
  }

  /** Validating the complete prefix and looking at the rest decides the whole chunk. */
  lemma CutDecides(s: seq<Octet>, k: nat)
    requires IsCompletePrefixLen(s, k)
    ensures Remainder(s) == (if ValidUtf8(s[..k]) && IncompletePrefixMayBeValid(s[k..]) then Some(s[k..]) else None)
  {
    ValidMeansNoRemainder(s[..k]);
    if k == |s| {
      assert s[..k] == s && s[k..] == [];
      if Remainder(s).Some? && Remainder(s).value != [] {
        NoHiddenTail(s);
      }
    } else {
      assert s == s[..k] + s[k..];
      RemainderAppend(s[..k], s[k..]);
      if Remainder(s[..k]).Some? {
        var c := Remainder(s[..k]).value;
        RemainderIsPartial(s[..k]);
        if c == [] {
          assert c + s[k..] == s[k..];
        } else {
          LeadInsideIsHopeless(c, s[k..]);
        }
      }
    }
  }

  lemma NoHiddenTail(s: seq<Octet>)
    requires Remainder(s).Some? && Remainder(s).value != []
    ensures !IsCompletePrefixLen(s, |s|)
  {
    hide Remainder;
    RemainderIsPartial(s);
    var c := Remainder(s).value;
    var i := |s| - |c|;
    assert s[i] == c[0];
    forall j | i < j < |s| ensures IsTail(s[j]) {
      assert s[j] == c[j - i];
    }
    assert StartsLastSequence(s, i);
  }

  lemma LeadInsideIsHopeless(c: seq<Octet>, rest: seq<Octet>)
    requires IsPartial(c) && rest != [] && rest[0] >= 0xC0
    ensures Remainder(c + rest).None?
  {
    var w, n, m := c + rest, SequenceWidth(c[0]), |c|;
    assert w[m] == rest[0] && w[0] == c[0];
    if |w| < n {
      assert !IncompletePrefixMayBeValid(w);
    } else {
      assert w[..n][m] == rest[0];
      assert !IsCharacter(w[..n]);
    }
  }

  /** What the octets that may complete a held character decide. */
  lemma CarryDecides(held: seq<Octet>, chunk: seq<Octet>)
    requires IsPartial(held)
    ensures var text, n := held + chunk, SequenceWidth(held[0]);
            Remainder(text) == (if |text| < n then (if IncompletePrefixMayBeValid(text) then Some(text) else None)
                                else if ValidUtf8(text[..n]) then Remainder(text[n..]) else None)
  {
    var text, n := held + chunk, SequenceWidth(held[0]);
    assert text[0] == held[0];
    if |text| >= n {
      SingleCharacter(text[..n]);
    }
  }

  // ---------------------------------------------------------------------
  // The validator
  // ---------------------------------------------------------------------

  method CompletePrefixLen(chunk: seq<Octet>) returns (k: nat)
    ensures IsCompletePrefixLen(chunk, k) && k <= |chunk| <= k + 3
  {
    var n := |chunk|;
    var back := 1;
    while back <= n && back <= 3
      invariant 1 <= back <= 4
      invariant back <= n + 1
      invariant forall j :: n - back < j < n ==> IsTail(chunk[j])
    {
      var b := chunk[n - back];
      if b < 0x80 {
        return n;
      }
      if b >= 0xC0 {
        var width := SequenceWidth(b);
        k := if width > back then n - back else n;
        return;
      }
      back := back + 1;
    }
    k := n;
  }

  lemma PrefixOfBoth(a: seq<Octet>, b: seq<Octet>, n: nat)
    requires n <= |b|
    ensures (a + b)[..|a| + n] == a + b[..n]
  {
  }

  class Utf8Stream {
    const carry: array<Octet>
    var carryLen: nat

    constructor ()
      ensures Valid() && fresh(carry) && Held() == []
    {
      carry := new Octet[4];
      carryLen := 0;
    }

    /** The incomplete character that is held back. */
    ghost function Held(): seq<Octet>
      reads this, carry
    {
      if carryLen <= carry.Length then carry[..carryLen] else []
    }

    ghost predicate Valid()
      reads this, carry
    {
      carry.Length == 4 && carryLen <= 4 && (Held() == [] || IsPartial(Held()))
    }

    method Store(at: nat, octets: seq<Octet>)
      requires at + |octets| <= carry.Length
      modifies carry
      ensures carry[..at + |octets|] == old(carry[..at]) + octets
    {
      var i := 0;
      while i < |octets|
        invariant i <= |octets|
        invariant carry[..at + i] == old(carry[..at]) + octets[..i]
      {
        carry[at + i] := octets[i];
        i := i + 1;
      }
    }

    method Reset()
      modifies this
      ensures Held() == [] && carryLen == 0
    {
      carryLen := 0;
    }

    /** Complete the held character first; a verdict, or the octets that are left. */
    method FillCarry(chunk: seq<Octet>) returns (verdict: Option<bool>, rest: seq<Octet>)
      requires Valid() && carryLen > 0
      modifies this, carry
      ensures var remainder := Remainder(old(Held()) + chunk);
              match verdict
              case Some(ok) => (ok <==> remainder.Some?) && (ok ==> Valid() && Held() == remainder.value)
              case None => carryLen == 0 && remainder == Remainder(rest)
    {
      hide Remainder, ValidUtf8;
      ghost var text := Held() + chunk;
      CarryDecides(Held(), chunk);
      var width, have := SequenceWidth(carry[0]), carryLen;
      var take := if width - have <= |chunk| then width - have else |chunk|;
      PrefixOfBoth(Held(), chunk, take);
      Store(have, chunk[..take]);
      carryLen := carryLen + take;
      assert Held() == text[..carryLen];
      rest := chunk[take..];
      if carryLen < width {
        assert text[..|text|] == text;
        return Some(IncompletePrefixMayBeValid(carry[..carryLen])), rest;
      }
      assert text[width..] == rest;
      if !ValidUtf8(carry[..width]) {
        return Some(false), rest;
      }
      carryLen := 0;
      verdict := None;
    }

    /** Accept the next chunk exactly if the text can still be completed. */
    method Push(chunk: seq<Octet>) returns (ok: bool)
      requires Valid()
      modifies this, carry
      ensures ok <==> Remainder(old(Held()) + chunk).Some?
      ensures ok ==> Valid() && Held() == Remainder(old(Held()) + chunk).value
    {
      hide Remainder, ValidUtf8, IsCompletePrefixLen, IsPartial;
      assert Held() == [] ==> Held() + chunk == chunk;
      var rest := chunk;
      if carryLen > 0 {
        var verdict;
        verdict, rest := FillCarry(chunk);
        if verdict.Some? {
          return verdict.value;
        }
      }
      var complete := CompletePrefixLen(rest);
      CutDecides(rest, complete);
      if !ValidUtf8(rest[..complete]) {
        return false;
      }
      var tail := rest[complete..];
      Store(0, tail);
      carryLen := |tail|;
      assert Held() == tail;
      ok := IncompletePrefixMayBeValid(tail);
      if ok {
        RemainderIsPartial(rest);
      }
    }

    /** Continue a message of which `suffix` is the part not yet validated. */
    method Resume(suffix: seq<Octet>) returns (ok: bool)
      requires Valid()
      modifies this, carry
      ensures ok <==> Remainder(suffix).Some?
      ensures ok ==> Valid() && Held() == Remainder(suffix).value
    {
      if suffix == carry[..carryLen] {
        PartialIsItsRemainder(suffix);
        return true;
      }
      Reset();
      ok := Push(suffix);
      assert old(Held())[..0] + suffix == suffix;
    }

    function Finish(): bool
      reads this
    {
      carryLen == 0
    }

    function Pending(): nat
      reads this
    {
      carryLen
    }
  }

  lemma PartialIsItsRemainder(c: seq<Octet>)
    requires c == [] || IsPartial(c)
    ensures Remainder(c) == Some(c)
  {
  }

  /** A sequence as long as its lead octet announces is valid only as one character. */
  lemma SingleCharacter(c: seq<Octet>)
    requires c != [] && |c| == SequenceWidth(c[0])
    ensures ValidUtf8(c) <==> IsCharacter(c)
  {
    ValidMeansNoRemainder(c);
    assert c[..|c|] == c && c[|c|..] == [];
  }
}
