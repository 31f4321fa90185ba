/**
 Negotiation of permessage-deflate (section 7.1 of RFC 7692): the text of offers and their
 parameters.
 */
module Negotiation {
  import opened Octets

  // ---------------------------------------------------------------------
  // Text
  // ---------------------------------------------------------------------

  predicate IsBlank(c: char) {
    c == ' ' || c == '\t'
  }

  function TrimStart(s: string): string {
    if s != [] && IsBlank(s[0]) then TrimStart(s[1..]) else s
  }

  function TrimEnd(s: string): string {
    if s != [] && IsBlank(s[|s| - 1]) then TrimEnd(s[..|s| - 1]) else s
  }

  function Trim(s: string): string {
    TrimEnd(TrimStart(s))
  }

  /** The pieces between separators; always at least one. */
  function Split(s: string, sep: char): (r: seq<string>)
    ensures r != []
  {
    if s == [] then [[]]
    else
      var rest := Split(s[1..], sep);
      if s[0] == sep then [[]] + rest else [[s[0]] + rest[0]] + rest[1..]
  }

  function Join(parts: seq<string>, sep: string): string {
    if parts == [] then [] else if |parts| == 1 then parts[0] else parts[0] + sep + Join(parts[1..], sep)
  }

  /** The text before and after the first separator. */
  function SplitOnce(s: string, sep: char): Option<(string, string)> {
    if s == [] then None
    else if s[0] == sep then Some(([], s[1..]))
    else
      var rest := SplitOnce(s[1..], sep);
      if rest.None? then None else Some(([s[0]] + rest.value.0, rest.value.1))
  }

  /** Neither starts nor ends with blanks, and does not contain the separator. */
  predicate Tidy(s: string, sep: char) {
    && s != [] && !IsBlank(s[0]) && !IsBlank(s[|s| - 1])
    && sep !in s
  }

  lemma {:induction false} SplitPrefix(a: string, s: string, sep: char)
    requires sep !in a
    ensures var r := Split(s, sep); Split(a + s, sep) == [a + r[0]] + r[1..]
    decreases |a|
  {
    var r := Split(s, sep);
    if a == [] {
      assert a + s == s && a + r[0] == r[0];
      assert [r[0]] + r[1..] == r;
    } else {
      assert (a + s)[0] == a[0] && (a + s)[1..] == a[1..] + s;
      SplitPrefix(a[1..], s, sep);
      assert [a[0]] + (a[1..] + r[0]) == a + r[0];
    }
  }

  lemma TrimTidy(s: string, sep: char)
    requires Tidy(s, sep)
    ensures Trim(s) == s && Trim([' '] + s) == s
  {
    assert ([' '] + s)[1..] == s;
  }

  function TrimAll(parts: seq<string>): seq<string> {
    if parts == [] then [] else [Trim(parts[0])] + TrimAll(parts[1..])
  }

  /** Splitting undoes joining, up to the blank after each separator. */
  lemma {:induction false} SplitJoined(parts: seq<string>, sep: char)
    requires parts != [] && sep != ' ' && forall i :: 0 <= i < |parts| ==> Tidy(parts[i], sep)
    ensures TrimAll(Split(Join(parts, [sep, ' ']), sep)) == parts
    ensures TrimAll(Split([' '] + Join(parts, [sep, ' ']), sep)) == parts
    decreases |parts|
  {
    hide Split, Trim, Tidy;
    var first, rest := parts[0], parts[1..];
    TidyParts(first, sep);
    if |parts| == 1 {
      OnlyPart(first, sep);
      OnlyPart([' '] + first, sep);
    } else {
      SplitJoined(rest, sep);
      var tail := [' '] + Join(rest, [sep, ' ']);
      AfterSeparator(first, tail, sep);
      AfterSeparator([' '] + first, tail, sep);
      assert Join(parts, [sep, ' ']) == first + [sep] + tail;
      assert [' '] + Join(parts, [sep, ' ']) == [' '] + first + [sep] + tail;
      assert [first] + rest == parts;
    }
  }

  lemma TidyParts(s: string, sep: char)
    requires Tidy(s, sep) && sep != ' '
    ensures sep !in s && sep !in [' '] + s && Trim(s) == s && Trim([' '] + s) == s
  {
    TrimTidy(s, sep);
  }

  lemma OnlyPart(s: string, sep: char)
    requires sep !in s
    ensures TrimAll(Split(s, sep)) == [Trim(s)]
  {
    hide Trim;
    SplitPrefix(s, [], sep);
    assert s + [] == s;
    TrimOne(s);
  }

  lemma TrimOne(s: string)
    ensures TrimAll([s]) == [Trim(s)]
  {
    assert TrimAll([]) == [];
  }

  lemma AfterSeparator(a: string, tail: string, sep: char)
    requires sep !in a
    ensures Split(a + [sep] + tail, sep) == [a] + Split(tail, sep)
    ensures TrimAll(Split(a + [sep] + tail, sep)) == [Trim(a)] + TrimAll(Split(tail, sep))
  {
    var s := [sep] + tail;
    assert s[1..] == tail;
    SplitPrefix(a, s, sep);
    assert a + [sep] + tail == a + s;
    assert a + [] == a;
    var all := [a] + Split(tail, sep);
    assert all[1..] == Split(tail, sep);
  }

  lemma {:induction false} SplitOnceAt(name: string, value: string, sep: char)
    requires sep !in name
    ensures SplitOnce(name + [sep] + value, sep) == Some((name, value))
    decreases |name|
  {
    var s := name + [sep] + value;
    if name == [] {
      assert s[0] == sep && s[1..] == value;
    } else {
      assert s[0] == name[0] && s[1..] == name[1..] + [sep] + value;
      SplitOnceAt(name[1..], value, sep);
      assert [name[0]] + name[1..] == name;
    }
  }

  lemma {:induction false} NothingToSplit(s: string, sep: char)
    requires sep !in s
    ensures SplitOnce(s, sep).None?
    decreases |s|
  {
    if s != [] {
      NothingToSplit(s[1..], sep);
    }
  }

  // ---------------------------------------------------------------------
  // Window bits
  // ---------------------------------------------------------------------

  /** Window sizes the backend supports. */
  type WindowBits = n: nat | 9 <= n <= 15 witness 15

  const MinRfcBits := 8
  const MaxBits := 15

  function TryWindowBits(n: nat): Option<WindowBits> {
    if 9 <= n <= 15 then Some(n) else None
  }

  predicate IsDigit(c: char) {
    '0' <= c <= '9'
  }

  function DigitValue(c: char): nat
    requires IsDigit(c)
  {
    c as int - '0' as int
  }

  function DecimalValue(s: string): nat
    requires forall i :: 0 <= i < |s| ==> IsDigit(s[i])
  {
    if s == [] then 0 else DecimalValue(s[..|s| - 1]) * 10 + DigitValue(s[|s| - 1])
  }

  function ParseWindowBits(value: string): Option<nat> {
    if value == [] || (exists i :: 0 <= i < |value| && !IsDigit(value[i])) || (|value| > 1 && value[0] == '0') then None
    else
      var n := DecimalValue(value);
      if MinRfcBits <= n <= MaxBits then Some(n) else None
  }

  function DigitChar(n: nat): char
    requires n < 10
  {
    ('0' as int + n) as char
  }

  function PrintBits(n: nat): string
    requires 8 <= n <= 15
  {
    if n < 10 then [DigitChar(n)] else ['1', DigitChar(n - 10)]
  }

  lemma BitsRoundTrip(n: nat)
    requires 8 <= n <= 15
    ensures ParseWindowBits(PrintBits(n)) == Some(n)
    ensures Tidy(PrintBits(n), ';') && '"' !in PrintBits(n)
  {
    var s := PrintBits(n);
    assert forall i :: 0 <= i < |s| ==> IsDigit(s[i]);
    if n < 10 {
      assert s[..0] == [];
      assert DecimalValue(s) == DecimalValue(s[..0]) * 10 + DigitValue(s[0]);
    } else {
      assert s[..1] == ['1'] && s[..1][..0] == [];
      assert DecimalValue(s[..1]) == DecimalValue(s[..1][..0]) * 10 + DigitValue('1');
      assert DecimalValue(s) == DecimalValue(s[..1]) * 10 + DigitValue(s[1]);
    }
  }

  /** Exactly the decimals 8 to 15 without leading zeros are window sizes. */
  lemma ParsedBitsArePrinted(value: string)
    requires ParseWindowBits(value).Some?
    ensures value == PrintBits(ParseWindowBits(value).value)
  {
    var n := |value|;
    if n == 1 {
      assert value[..0] == [];
      assert DecimalValue(value) == DigitValue(value[0]);
    } else if n == 2 {
      assert value[..1] == [value[0]] && value[..1][..0] == [];
      assert DecimalValue(value[..1]) == DecimalValue(value[..1][..0]) * 10 + DigitValue(value[0]);
      assert DecimalValue(value) == DigitValue(value[0]) * 10 + DigitValue(value[1]);
    } else {
      LongDecimalsAreLarge(value);
    }
  }

  lemma {:induction false} LongDecimalsAreLarge(s: string)
    requires forall i :: 0 <= i < |s| ==> IsDigit(s[i])
    requires |s| >= 2 && s[0] != '0'
    ensures DecimalValue(s) >= 10 && (|s| >= 3 ==> DecimalValue(s) >= 100)
    decreases |s|
  {
    var front := s[..|s| - 1];
    if |s| == 2 {
      assert front == [s[0]] && front[..0] == [];
      assert DecimalValue(front) == DecimalValue(front[..0]) * 10 + DigitValue(s[0]);
    } else {
      LongDecimalsAreLarge(front);
    }
  }

  // ---------------------------------------------------------------------
  // Offers
  // ---------------------------------------------------------------------

  datatype Param = Param(name: string, value: Option<string>)

  datatype Offer = Offer(serverNoTakeover: bool, clientNoTakeover: bool, serverBits: Option<nat>, clientBits: Option<Option<nat>>)

  const Extension := "permessage-deflate"
  const ServerNoTakeover := "server_no_context_takeover"
  const ClientNoTakeover := "client_no_context_takeover"
  const ServerBits := "server_max_window_bits"
  const ClientBits := "client_max_window_bits"

  /** A value may be quoted on both sides or on neither. */
  function Unquote(value: string): Option<string> {
    var starts, ends := value != [] && value[0] == '"', value != [] && value[|value| - 1] == '"';
    if starts && ends then (if |value| < 2 then None else Some(value[1..|value| - 1]))
    else if !starts && !ends && '"' !in value then Some(value)
    else None
  }

  /** One trimmed parameter. */
  function ParsePart(part: string): Option<Param> {
    if part == [] then None
    else
      var pair := SplitOnce(part, '=');
      if pair.None? then Some(Param(part, None))
      else
        var value := Unquote(Trim(pair.value.1));
        if value.None? then None else Some(Param(Trim(pair.value.0), value))
  }

  function ParseParam(text: string): Option<Param> {
    ParsePart(Trim(text))
  }

  function ParseParams(parts: seq<string>): Option<seq<Param>> {
    if parts == [] then Some([])
    else
      var front, last := ParseParams(parts[..|parts| - 1]), ParseParam(parts[|parts| - 1]);
      if front.None? || last.None? then None else Some(front.value + [last.value])
  }

  /** The parameters of a permessage-deflate offer. */
  function OfferParams(value: string): Option<seq<Param>> {
    var parts := Split(value, ';');
    if Trim(parts[0]) != Extension then None else ParseParams(parts[1..])
  }

  lemma {:induction false} OneBadParamIsEnough(parts: seq<string>, i: nat)
    requires i < |parts| && ParseParam(parts[i]).None?
    ensures ParseParams(parts).None?
    decreases |parts|
  {
    if i < |parts| - 1 {
      OneBadParamIsEnough(parts[..|parts| - 1], i);
    }
  }

  method ParseDeflateOffer(value: string) returns (r: Option<seq<Param>>)
    ensures r == OfferParams(value)
  {
    var parts := Split(value, ';');
    if Trim(parts[0]) != Extension {
      return None;
    }
    var rest := parts[1..];
    var params: seq<Param> := [];
    var i := 0;
    while i < |rest|
      invariant 0 <= i <= |rest|
      invariant ParseParams(rest[..i]) == Some(params)
    {
      var p := ParseParam(rest[i]);
      if p.None? {
        OneBadParamIsEnough(rest, i);
        return None;
      }
      assert rest[..i + 1][..i] == rest[..i];
      params := params + [p.value];
      i := i + 1;
    }
    assert rest[..|rest|] == rest;
    r := Some(params);
  }

  /** Add one parameter; unknown, repeated or ill-valued ones spoil the offer. */
  function AddParam(o: Offer, p: Param): Option<Offer> {
    if p.name == ServerNoTakeover then
      if o.serverNoTakeover || p.value.Some? then None else Some(o.(serverNoTakeover := true))
    else if p.name == ClientNoTakeover then
      if o.clientNoTakeover || p.value.Some? then None else Some(o.(clientNoTakeover := true))
    else if p.name == ServerBits then
      if o.serverBits.Some? || p.value.None? || ParseWindowBits(p.value.value).None? then None
      else Some(o.(serverBits := ParseWindowBits(p.value.value)))
    else if p.name == ClientBits then
      if o.clientBits.Some? then None
      else if p.value.None? then Some(o.(clientBits := Some(None)))
      else if ParseWindowBits(p.value.value).None? then None
      else Some(o.(clientBits := Some(ParseWindowBits(p.value.value))))
    else None
  }

  const NoParams := Offer(false, false, None, None)

  function OfferOf(params: seq<Param>): Option<Offer> {
    if params == [] then Some(NoParams)
    else
      var front := OfferOf(params[..|params| - 1]);
      if front.None? then None else AddParam(front.value, params[|params| - 1])
  }

  method FromParams(params: seq<Param>) returns (r: Option<Offer>)
    ensures r == OfferOf(params)
  {
    var offer := NoParams;
    var i := 0;
    while i < |params|
      invariant 0 <= i <= |params|
      invariant OfferOf(params[..i]) == Some(offer)
    {
      assert params[..i + 1][..i] == params[..i];
      var next := AddParam(offer, params[i]);
      if next.None? {
        PrefixSpoils(params, i + 1);
        return None;
      }
      offer := next.value;
      i := i + 1;
    }
    assert params[..|params|] == params;
    r := Some(offer);
  }

  lemma {:induction false} PrefixSpoils(params: seq<Param>, n: nat)
    requires n <= |params| && OfferOf(params[..n]).None?
    ensures OfferOf(params).None?
    decreases |params|
  {
    if n == |params| {
      assert params[..n] == params;
    } else {
      assert params[..|params| - 1][..n] == params[..n];
      PrefixSpoils(params[..|params| - 1], n);
    }
  }

  /** A parameter with an admissible value, whatever else the offer holds. */
  predicate GoodParam(p: Param) {
    || ((p.name == ServerNoTakeover || p.name == ClientNoTakeover) && p.value.None?)
    || (p.name == ServerBits && p.value.Some? && ParseWindowBits(p.value.value).Some?)
    || (p.name == ClientBits && (p.value.Some? ==> ParseWindowBits(p.value.value).Some?))
  }

  predicate Distinct(params: seq<Param>) {
    forall i, j :: 0 <= i < j < |params| ==> params[i].name != params[j].name
  }

  ghost predicate Names(params: seq<Param>, name: string) {
    exists i :: 0 <= i < |params| && params[i].name == name
  }

  /** What an offer holds is what its parameters name. */
  ghost predicate Records(o: Offer, params: seq<Param>) {
    && (o.serverNoTakeover <==> Names(params, ServerNoTakeover))
    && (o.clientNoTakeover <==> Names(params, ClientNoTakeover))
    && (o.serverBits.Some? <==> Names(params, ServerBits))
    && (o.clientBits.Some? <==> Names(params, ClientBits))
    && forall i :: 0 <= i < |params| ==>
         && (params[i].name == ServerBits && params[i].value.Some? ==> o.serverBits == ParseWindowBits(params[i].value.value))
         && (params[i].name == ClientBits ==>
               o.clientBits == Some(if params[i].value.Some? then ParseWindowBits(params[i].value.value) else None))
  }

  lemma NamesSnoc(params: seq<Param>, p: Param, name: string)
    ensures Names(params + [p], name) <==> Names(params, name) || p.name == name
  {
    var all := params + [p];
    if Names(params, name) {
      var i :| 0 <= i < |params| && params[i].name == name;
      assert all[i] == params[i];
    }
    if p.name == name {
      assert all[|params|] == p;
    }
  }

  lemma AddParamRecords(o: Offer, params: seq<Param>, p: Param)
    requires Records(o, params)
    ensures AddParam(o, p).Some? <==> GoodParam(p) && !Names(params, p.name)
    ensures AddParam(o, p).Some? ==> Records(AddParam(o, p).value, params + [p])
  {
    hide ParseWindowBits;
    DifferentNames();
    if AddParam(o, p).Some? {
      RecordsSnoc(o, AddParam(o, p).value, params, p);
    }
  }

  lemma RecordsSnoc(o: Offer, o': Offer, params: seq<Param>, p: Param)
    requires Records(o, params) && !Names(params, p.name) && AddParam(o, p) == Some(o')
    ensures Records(o', params + [p])
  {
    hide Names, ParseWindowBits;
    DifferentNames();
    NamesSnoc(params, p, ServerNoTakeover);
    NamesSnoc(params, p, ClientNoTakeover);
    NamesSnoc(params, p, ServerBits);
    NamesSnoc(params, p, ClientBits);
    var all := params + [p];
    forall i | 0 <= i < |params| ensures all[i] == params[i] && all[i].name != p.name {
      NamedAt(params, i);
    }
  }

  lemma NamedAt(params: seq<Param>, i: nat)
    requires i < |params|
    ensures Names(params, params[i].name)
  {
  }

  lemma DifferentNames()
    ensures ServerNoTakeover[0] != ClientNoTakeover[0] && ServerBits[0] != ClientBits[0]
    ensures ServerNoTakeover[7] != ServerBits[7] && ClientNoTakeover[7] != ClientBits[7]
    ensures ServerNoTakeover[0] == ServerBits[0] == 's' && ClientNoTakeover[0] == ClientBits[0] == 'c'
  {
  }

  lemma DistinctSnoc(params: seq<Param>, p: Param)
    ensures Distinct(params + [p]) <==> Distinct(params) && !Names(params, p.name)
  {
    var all := params + [p];
    if Distinct(all) {
      forall i, j | 0 <= i < j < |params| ensures params[i].name != params[j].name {
        assert all[i] == params[i] && all[j] == params[j];
      }
      forall i | 0 <= i < |params| ensures params[i].name != p.name {
        assert all[i] == params[i] && all[|params|] == p;
      }
    }
  }

  /** An offer is well-formed exactly if each parameter is, and none is repeated; then it holds what they say. */
  lemma {:induction false} OfferIsItsParams(params: seq<Param>)
    ensures OfferOf(params).Some? <==> Distinct(params) && forall i :: 0 <= i < |params| ==> GoodParam(params[i])
    ensures OfferOf(params).Some? ==> Records(OfferOf(params).value, params)
    decreases |params|
  {
    hide GoodParam, Records, Distinct, AddParam;
    if params == [] {
      EmptyOffer();
    } else {
      var front, p := params[..|params| - 1], params[|params| - 1];
      OfferIsItsParams(front);
      assert front + [p] == params;
      DistinctSnoc(front, p);
      if OfferOf(front).Some? {
        AddParamRecords(OfferOf(front).value, front, p);
      }
    }
  }

  lemma EmptyOffer()
    ensures Records(NoParams, []) && Distinct([])
  {
  }
}
