/** Negotiation text to the letter: how offers are cut, which names they use, and what is chosen and answered. */
module NegotiationLaws {
  import opened Octets
  import opened Negotiation
  import opened Selection

  // ---------------------------------------------------------------------
  // Cutting text
  // ---------------------------------------------------------------------

  /** Trimming removes the blanks at both ends, and nothing else. */
  lemma TrimmedIsMiddle(s: string) returns (i: nat, j: nat)
    ensures i <= j <= |s| && Trim(s) == s[i..j]
    ensures forall k :: 0 <= k < i || j <= k < |s| ==> s[k] == ' ' || s[k] == '\t'
    ensures i < j ==> s[i] != ' ' && s[i] != '\t' && s[j - 1] != ' ' && s[j - 1] != '\t'
  {
    hide TrimStart, TrimEnd;
    i := StartIsTrimmed(s);
    var n := EndIsTrimmed(s[i..]);
    j := i + n;
    assert s[i..][..n] == s[i..j];
    forall k | j <= k < |s| ensures s[k] == ' ' || s[k] == '\t' {
      assert s[k] == s[i..][k - i];
    }
  }

  lemma {:induction false} StartIsTrimmed(s: string) returns (n: nat)
    ensures n <= |s| && TrimStart(s) == s[n..]
    ensures forall k :: 0 <= k < n ==> s[k] == ' ' || s[k] == '\t'
    ensures n < |s| ==> s[n] != ' ' && s[n] != '\t'
    decreases |s|
  {
    n := 0;
    if s != [] && IsBlank(s[0]) {
      var rest := s[1..];
      n := StartIsTrimmed(rest);
      assert rest[n..] == s[n + 1..];
      n := n + 1;
      forall k | 0 <= k < n ensures s[k] == ' ' || s[k] == '\t' {
        assert k > 0 ==> s[k] == rest[k - 1];
      }
    }
  }

  lemma {:induction false} EndIsTrimmed(s: string) returns (n: nat)
    ensures n <= |s| && TrimEnd(s) == s[..n]
    ensures forall k :: n <= k < |s| ==> s[k] == ' ' || s[k] == '\t'
    ensures n > 0 ==> s[n - 1] != ' ' && s[n - 1] != '\t'
    decreases |s|
  {
    n := |s|;
    if s != [] && IsBlank(s[|s| - 1]) {
      var rest := s[..|s| - 1];
      n := EndIsTrimmed(rest);
      assert rest[..n] == s[..n];
    }
  }

  /** The pieces contain no separator, and with separators between them are the text again. */
  lemma {:induction false} PiecesAreTheText(s: string, sep: char)
    ensures Join(Split(s, sep), [sep]) == s
    ensures forall i :: 0 <= i < |Split(s, sep)| ==> sep !in Split(s, sep)[i]
    decreases |s|
  {
    if s != [] {
      PiecesAreTheText(s[1..], sep);
      var rest := Split(s[1..], sep);
      var all := Split(s, sep);
      if s[0] == sep {
        assert all[1..] == rest;
        assert [] + [sep] + Join(rest, [sep]) == [s[0]] + s[1..];
        forall i | 0 <= i < |all| ensures sep !in all[i] {
          assert i > 0 ==> all[i] == rest[i - 1];
        }
      } else {
        assert all[1..] == rest[1..];
        JoinFirst(s[0], rest, [sep]);
        forall i | 0 <= i < |all| ensures sep !in all[i] {
          assert i > 0 ==> all[i] == rest[i];
        }
      }
    }
  }

  lemma JoinFirst(x: char, rest: seq<string>, sep: string)
    requires rest != []
    ensures Join([[x] + rest[0]] + rest[1..], sep) == [x] + Join(rest, sep)
  {
    var all := [[x] + rest[0]] + rest[1..];
    if |rest| > 1 {
      assert all[1..] == rest[1..];
      assert [x] + rest[0] + sep + Join(rest[1..], sep) == [x] + (rest[0] + sep + Join(rest[1..], sep));
    }
  }

  /** A name alone, a plain value and a quoted value are parameters; a quote on one side only, or no text at all, is not. */
  lemma ParameterForms(name: string, value: string)
    requires Tidy(name, '=')
    ensures ParseParam(name) == Some(Param(name, None))
    ensures Tidy(value, '"') ==> ParseParam(name + "=" + value) == Some(Param(name, Some(value)))
    ensures ParseParam(name + "=" + ("\"" + value + "\"")) == Some(Param(name, Some(value)))
    ensures Tidy(value, '"') ==> ParseParam(name + "=" + ("\"" + value)).None? && ParseParam(name + "=" + (value + "\"")).None?
    ensures ParseParam([]).None? && ParseParam(name + "=" + "\"").None?
  {
    hide SplitOnce;
    NothingToSplit(name, '=');
    TrimTidy(name, '=');
    Assigned(name, "\"" + value + "\"");
    Assigned(name, "\"");
    if Tidy(value, '"') {
      Assigned(name, value);
      Assigned(name, "\"" + value);
      Assigned(name, value + "\"");
      assert (value + "\"")[0] == value[0];
    }
    assert ("\"" + value + "\"")[1..|value| + 1] == value;
  }

  lemma Assigned(name: string, value: string)
    requires Tidy(name, '=') && value != [] && !IsBlank(value[0]) && !IsBlank(value[|value| - 1])
    ensures ParseParam(name + "=" + value) == (if Unquote(value).None? then None else Some(Param(name, Unquote(value))))
  {
    hide SplitOnce, Unquote;
    var s := name + "=" + value;
    assert s == name + ['='] + value && s[0] == name[0] && s[|s| - 1] == value[|value| - 1];
    SplitOnceAt(name, value, '=');
    TrimTidy(name, '=');
  }

  // ---------------------------------------------------------------------
  // Names
  // ---------------------------------------------------------------------

  ghost predicate Has(params: seq<Param>, name: string) {
    exists i :: 0 <= i < |params| && params[i].name == name
  }

  /** A parameter of the extension, with the value it may have: window sizes are the decimals 8 to 15. */
  predicate IsProper(p: Param) {
    match p.value
    case None => p.name == "server_no_context_takeover" || p.name == "client_no_context_takeover" || p.name == "client_max_window_bits"
    case Some(v) =>
      && (p.name == "server_max_window_bits" || p.name == "client_max_window_bits")
      && (v == "8" || v == "9" || v == "10" || v == "11" || v == "12" || v == "13" || v == "14" || v == "15")
  }

  /** The number that a window size stands for. */
  predicate Denotes(v: string, n: nat) {
    || (v == "8" && n == 8) || (v == "9" && n == 9) || (v == "10" && n == 10) || (v == "11" && n == 11)
    || (v == "12" && n == 12) || (v == "13" && n == 13) || (v == "14" && n == 14) || (v == "15" && n == 15)
  }

  lemma BitsByName(v: string)
    ensures ParseWindowBits(v).Some? <==> v == "8" || v == "9" || v == "10" || v == "11" || v == "12" || v == "13" || v == "14" || v == "15"
    ensures ParseWindowBits(v).Some? ==> Denotes(v, ParseWindowBits(v).value)
  {
    hide ParseWindowBits;
    PrintedBits();
    forall n | 8 <= n <= 15 ensures ParseWindowBits(PrintBits(n)) == Some(n) {
      BitsRoundTrip(n);
    }
    if ParseWindowBits(v).Some? {
      ParsedRange(v);
      ParsedBitsArePrinted(v);
    }
  }

  lemma ParsedRange(v: string)
    requires ParseWindowBits(v).Some?
    ensures 8 <= ParseWindowBits(v).value <= 15
  {
  }

  lemma PrintedBits()
    ensures PrintBits(8) == "8" && PrintBits(9) == "9" && PrintBits(10) == "10" && PrintBits(11) == "11"
    ensures PrintBits(12) == "12" && PrintBits(13) == "13" && PrintBits(14) == "14" && PrintBits(15) == "15"
  {
  }

  /** An offer stands exactly if every parameter is proper and none is repeated; and then says what its parameters say. */
  lemma OfferByName(params: seq<Param>)
    ensures OfferOf(params).Some? <==>
              && (forall i :: 0 <= i < |params| ==> IsProper(params[i]))
              && (forall i, j :: 0 <= i < j < |params| ==> params[i].name != params[j].name)
    ensures OfferOf(params).Some? ==>
              var o := OfferOf(params).value;
              && (o.serverNoTakeover <==> Has(params, "server_no_context_takeover"))
              && (o.clientNoTakeover <==> Has(params, "client_no_context_takeover"))
              && (o.serverBits.Some? <==> Has(params, "server_max_window_bits"))
              && (o.clientBits.Some? <==> Has(params, "client_max_window_bits"))
              && (forall i :: 0 <= i < |params| && params[i].value.Some? && params[i].name == "server_max_window_bits" ==>
                    o.serverBits.Some? && Denotes(params[i].value.value, o.serverBits.value))
              && (forall i :: 0 <= i < |params| && params[i].name == "client_max_window_bits" ==>
                    o.clientBits.Some? && (if params[i].value.None? then o.clientBits.value.None?
                                           else o.clientBits.value.Some? && Denotes(params[i].value.value, o.clientBits.value.value)))
  {
    hide OfferOf, ParseWindowBits, IsProper, GoodParam, Denotes;
    OfferIsItsParams(params);
    forall i | 0 <= i < |params| ensures IsProper(params[i]) <==> GoodParam(params[i]) {
      ProperIsGood(params[i]);
    }
    forall i | 0 <= i < |params| && params[i].value.Some?
      ensures ParseWindowBits(params[i].value.value).Some? ==> Denotes(params[i].value.value, ParseWindowBits(params[i].value.value).value)
    {
      BitsByName(params[i].value.value);
    }
    if OfferOf(params).Some? {
      forall i | 0 <= i < |params| && params[i].value.Some? && (params[i].name == ServerBits || params[i].name == ClientBits)
        ensures ParseWindowBits(params[i].value.value).Some?
      {
        BitsAreGood(params[i]);
      }
    }
  }

  lemma BitsAreGood(p: Param)
    requires GoodParam(p) && p.value.Some?
    ensures ParseWindowBits(p.value.value).Some?
  {
  }

  lemma ProperIsGood(p: Param)
    ensures IsProper(p) <==> GoodParam(p)
  {
    hide ParseWindowBits;
    FourNames();
    if p.value.Some? {
      BitsByName(p.value.value);
    }
  }

  lemma FourNames()
    ensures ServerNoTakeover == "server_no_context_takeover" && ClientNoTakeover == "client_no_context_takeover"
    ensures ServerBits == "server_max_window_bits" && ClientBits == "client_max_window_bits" && Extension == "permessage-deflate"
    ensures ServerNoTakeover != ServerBits && ClientNoTakeover != ClientBits && ServerBits != ClientBits
  {
    DifferentNames();
  }

  /** An offer is for this extension exactly if its first piece, without blanks around it, is the extension's name. */
  lemma OfferIsForExtension(value: string)
    ensures OfferParams(value).Some? ==> Trim(Split(value, ';')[0]) == "permessage-deflate"
    ensures Trim(Split(value, ';')[0]) == "permessage-deflate" ==> OfferParams(value) == ParseParams(Split(value, ';')[1..])
  {
    hide Trim, Split, ParseParams;
  }

  /** Parameters are read one by one: all of them, in order, or the whole offer is not read. */
  lemma {:induction false} ParamsByPosition(parts: seq<string>)
    ensures ParseParams(parts).Some? <==> forall i :: 0 <= i < |parts| ==> ParseParam(parts[i]).Some?
    ensures ParseParams(parts).Some? ==>
              && |ParseParams(parts).value| == |parts|
              && forall i :: 0 <= i < |parts| ==> ParseParam(parts[i]) == Some(ParseParams(parts).value[i])
    decreases |parts|
  {
    hide ParseParam;
    if parts != [] {
      var front := parts[..|parts| - 1];
      ParamsByPosition(front);
      if forall i :: 0 <= i < |parts| ==> ParseParam(parts[i]).Some? {
        forall i | 0 <= i < |front| ensures ParseParam(front[i]).Some? {
          assert front[i] == parts[i];
        }
      }
      if ParseParams(parts).Some? {
        forall i | 0 <= i < |parts| ensures ParseParam(parts[i]) == Some(ParseParams(parts).value[i]) {
          assert i < |front| ==> front[i] == parts[i];
        }
      }
    }
  }

  // ---------------------------------------------------------------------
  // The choice
  // ---------------------------------------------------------------------

  function Lesser(a: nat, b: nat): nat {
    if a <= b then a else b
  }

  /**
   What is chosen, exactly: the smaller window of policy and offer on each side, 9 where the client
   is held to 8; takeover is given up where either side wants it; a limit is announced where the
   client asked for one, or may be told and it is not the largest.
   */
  lemma ChoiceIsExact(o: Offer, policy: DeflateConfig)
    requires BitsInRange(o) && Select(o, policy).Chosen?
    ensures var n := Select(o, policy).result;
            var client := if o.clientBits.Some? && o.clientBits.value.Some? then Lesser(policy.clientBits, o.clientBits.value.value) else policy.clientBits;
            && n.config.serverBits == (if o.serverBits.Some? then Lesser(policy.serverBits, o.serverBits.value) else policy.serverBits)
            && n.serverLimit == (if o.serverBits.Some? || n.config.serverBits < 15 then Some(n.config.serverBits) else None)
            && n.config.clientBits == (if client == 8 then 9 else client)
            && n.clientLimit == (if o.clientBits.Some? && client < 15 then Some(client) else None)
            && n.config.serverNoTakeover == (policy.serverNoTakeover || o.serverNoTakeover)
            && n.config.clientNoTakeover == (policy.clientNoTakeover || o.clientNoTakeover)
            && n.config.level == policy.level && n.config.threshold == policy.threshold
  {
  }

  /** The offer that a text makes, if its parameters, without blanks around the text, make one. */
  ghost predicate Makes(text: string, o: Offer) {
    exists params :: OfferParams(Trim(text)) == Some(params) && OfferOf(params) == Some(o)
  }

  /**
   A text is chosen exactly if it makes an offer whose server window is not 8, and which lets the
   client's window be limited or meets a policy that does not limit it; else it is declined.
   */
  lemma JudgedExactly(text: string, policy: DeflateConfig)
    ensures Judge(text, policy).Chosen? <==>
              exists o :: Makes(text, o) && o.serverBits != Some(8) && (o.clientBits.Some? || policy.clientBits == 15)
    ensures !Judge(text, policy).Chosen? ==> Judge(text, policy).Declined?
    ensures forall o :: Makes(text, o) ==> Judge(text, policy) == Select(o, policy)
  {
    hide OfferParams, OfferOf, Trim, Select;
    NeverAborts(text, policy);
    if Parsed(text).Some? {
      var o := Parsed(text).value;
      assert Makes(text, o);
      ParsedBitsInRange(OfferParams(Trim(text)).value);
      ChoiceKeepsLimits(o, policy);
    }
  }

  /** What a client makes of a response, exactly; windows of 8 bits are refused. */
  lemma ConfigIsExact(o: Offer)
    requires BitsInRange(o)
    ensures ConfigOf(o).None? <==> o.serverBits == Some(8) || o.clientBits == Some(Some(8))
    ensures ConfigOf(o).Some? ==>
              var k := ConfigOf(o).value;
              && k.serverBits == (if o.serverBits.Some? then o.serverBits.value else 15)
              && k.clientBits == (if o.clientBits.Some? && o.clientBits.value.Some? then o.clientBits.value.value else 15)
              && k.serverNoTakeover == o.serverNoTakeover && k.clientNoTakeover == o.clientNoTakeover && k.level == 6 && k.threshold == 32
  {
  }

  // ---------------------------------------------------------------------
  // The answer
  // ---------------------------------------------------------------------

  /** The response header, letter by letter. */
  lemma HeaderText(sn: bool, cn: bool, server: Option<nat>, client: Option<nat>)
    requires ValidLimit(server) && ValidLimit(client)
    ensures ResponseHeader(sn, cn, server, client)
         == "permessage-deflate"
            + (if sn then "; " + "server_no_context_takeover" else "") + (if cn then "; " + "client_no_context_takeover" else "")
            + (if server.Some? then "; " + "server_max_window_bits" + "=" + PrintBits(server.value) else "")
            + (if client.Some? then "; " + "client_max_window_bits" + "=" + PrintBits(client.value) else "")
  {
    hide PrintBits, Flag, Limit, Appended, Join, ParamTexts;
    var p1, p2, p3, p4 := Flag(ServerNoTakeover, sn), Flag(ClientNoTakeover, cn), Limit(ServerBits, server), Limit(ClientBits, client);
    JoinAppends(Extension, p1 + p2 + p3, p4);
    JoinAppends(Extension, p1 + p2, p3);
    JoinAppends(Extension, p1, p2);
    JoinAppends(Extension, [], p1);
    assert [] + p1 == p1;
    FlagText(ServerNoTakeover, sn);
    FlagText(ClientNoTakeover, cn);
    LimitText(ServerBits, server);
    LimitText(ClientBits, client);
  }

  lemma FlagText(name: string, present: bool)
    ensures Appended(Flag(name, present)) == if present then "; " + name else ""
  {
    AppendedOne(Param(name, None));
  }

  lemma LimitText(name: string, limit: Option<nat>)
    requires ValidLimit(limit)
    ensures Appended(Limit(name, limit)) == if limit.Some? then "; " + name + "=" + PrintBits(limit.value) else ""
  {
    hide PrintBits;
    if limit.Some? {
      AppendedOne(Param(name, Some(PrintBits(limit.value))));
      assert "; " + (name + "=" + PrintBits(limit.value)) == "; " + name + "=" + PrintBits(limit.value);
    }
  }

  lemma AppendedOne(p: Param)
    ensures Appended([p]) == "; " + ParamText(p) && Appended([]) == ""
  {
    hide ParamText;
    assert [p][1..] == [];
    assert "; " + ParamText(p) + "" == "; " + ParamText(p);
  }

  /** Parameters behind others, each with its separator. */
  function Appended(ps: seq<Param>): string {
    if ps == [] then "" else "; " + ParamText(ps[0]) + Appended(ps[1..])
  }

  lemma JoinAppends(first: string, ps: seq<Param>, qs: seq<Param>)
    ensures Join([first] + ParamTexts(ps + qs), "; ") == Join([first] + ParamTexts(ps), "; ") + Appended(qs)
    ensures Join([first] + ParamTexts([]), "; ") == first
  {
    hide ParamText, Join, ParamTexts;
    JoinIsAppended(first, []);
    JoinIsAppended(first, ps);
    JoinIsAppended(first, ps + qs);
    AppendedBoth(ps, qs);
    assert first + "" == first;
    assert first + (Appended(ps) + Appended(qs)) == first + Appended(ps) + Appended(qs);
  }

  lemma {:induction false} JoinIsAppended(first: string, ps: seq<Param>)
    ensures Join([first] + ParamTexts(ps), "; ") == first + Appended(ps)
    decreases |ps|
  {
    hide ParamText;
    if ps != [] {
      var texts := [first] + ParamTexts(ps);
      assert texts[1..] == [ParamText(ps[0])] + ParamTexts(ps[1..]);
      JoinIsAppended(ParamText(ps[0]), ps[1..]);
      assert first + "; " + (ParamText(ps[0]) + Appended(ps[1..])) == first + ("; " + ParamText(ps[0]) + Appended(ps[1..]));
    }
  }

  lemma {:induction false} AppendedBoth(ps: seq<Param>, qs: seq<Param>)
    ensures Appended(ps + qs) == Appended(ps) + Appended(qs)
    decreases |ps|
  {
    hide ParamText;
    if ps == [] {
      assert ps + qs == qs;
    } else {
      assert (ps + qs)[0] == ps[0] && (ps + qs)[1..] == ps[1..] + qs;
      AppendedBoth(ps[1..], qs);
    }
  }
}
