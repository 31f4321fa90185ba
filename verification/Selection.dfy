/** The server's choice among permessage-deflate offers, and the response header. */
module Selection {
  import opened Octets
  import opened Negotiation

  datatype DeflateConfig = DeflateConfig(serverBits: WindowBits, clientBits: WindowBits,
                                         serverNoTakeover: bool, clientNoTakeover: bool, level: nat, threshold: nat)

  /** The codec configuration, and the limits announced in the response. */
  datatype Negotiated = Negotiated(config: DeflateConfig, serverLimit: Option<nat>, clientLimit: Option<nat>)

  /** A declined offer lets the next one be tried; an aborted negotiation does not. */
  datatype Verdict = Declined | Aborted | Chosen(result: Negotiated)

  function Min(a: nat, b: nat): nat {
    if a < b then a else b
  }

  function Announced(bits: nat): Option<nat> {
    if bits < MaxBits then Some(bits) else None
  }

  /** The client's window: what the decoder must hold, and what is announced. */
  function SelectClient(offered: Option<Option<nat>>, policy: WindowBits): Option<(Option<WindowBits>, Option<nat>)> {
    if offered.None? then
      if policy == MaxBits then Some((Some(policy), None)) else None
    else if offered.value.None? then Some((Some(policy), Announced(policy)))
    else
      var selected := Min(policy, offered.value.value);
      Some((if selected == MinRfcBits then Some(9) else TryWindowBits(selected), Announced(selected)))
  }

  function Select(o: Offer, policy: DeflateConfig): Verdict {
    var limit: Option<WindowBits> := if o.serverBits.Some? then TryWindowBits(o.serverBits.value) else Some(policy.serverBits);
    if limit.None? then Declined
    else
      var server: WindowBits := Min(policy.serverBits, limit.value);
      var client := SelectClient(o.clientBits, policy.clientBits);
      if client.None? then Declined
      else if client.value.0.None? then Aborted
      else
        var config := DeflateConfig(server, client.value.0.value, policy.serverNoTakeover || o.serverNoTakeover,
                                    policy.clientNoTakeover || o.clientNoTakeover, policy.level, policy.threshold);
        Chosen(Negotiated(config, if o.serverBits.Some? then Some(server) else Announced(server), client.value.1))
  }

  function Parsed(text: string): Option<Offer> {
    var params := OfferParams(Trim(text));
    if params.None? then None else OfferOf(params.value)
  }

  function Judge(text: string, policy: DeflateConfig): Verdict {
    if Parsed(text).None? then Declined else Select(Parsed(text).value, policy)
  }

  function FirstChosen(texts: seq<string>, policy: DeflateConfig): Option<Negotiated> {
    if texts == [] then None
    else
      var v := Judge(texts[0], policy);
      if v.Chosen? then Some(v.result) else if v.Aborted? then None else FirstChosen(texts[1..], policy)
  }

  method NegotiateServerDeflate(offers: string, policy: DeflateConfig) returns (r: Option<Negotiated>)
    ensures r == FirstChosen(Split(offers, ','), policy)
  {
    hide Select, OfferParams, OfferOf, Trim, Split;
    var texts := Split(offers, ',');
    var i := 0;
    while i < |texts|
      invariant 0 <= i <= |texts|
      invariant FirstChosen(texts, policy) == FirstChosen(texts[i..], policy)
    {
      var params := ParseDeflateOffer(Trim(texts[i]));
      if params.Some? {
        var offer := FromParams(params.value);
        if offer.Some? {
          var v := Select(offer.value, policy);
          if v.Aborted? {
            return None;
          }
          if v.Chosen? {
            return Some(v.result);
          }
        }
      }
      assert texts[i..][1..] == texts[i + 1..];
      i := i + 1;
    }
    r := None;
  }

  // ---------------------------------------------------------------------
  // What is chosen
  // ---------------------------------------------------------------------

  predicate BitsInRange(o: Offer) {
    && (o.serverBits.Some? ==> 8 <= o.serverBits.value <= 15)
    && (o.clientBits.Some? && o.clientBits.value.Some? ==> 8 <= o.clientBits.value.value <= 15)
  }

  lemma {:induction false} ParsedBitsInRange(params: seq<Param>)
    requires OfferOf(params).Some?
    ensures BitsInRange(OfferOf(params).value)
    decreases |params|
  {
    hide AddParam;
    if params != [] {
      ParsedBitsInRange(params[..|params| - 1]);
      AddedBitsInRange(OfferOf(params[..|params| - 1]).value, params[|params| - 1]);
    }
  }

  lemma AddedBitsInRange(o: Offer, p: Param)
    requires BitsInRange(o) && AddParam(o, p).Some?
    ensures BitsInRange(AddParam(o, p).value)
  {
    hide DecimalValue;
  }

  /** An offer that parses never aborts the negotiation. */
  lemma NeverAborts(text: string, policy: DeflateConfig)
    ensures !Judge(text, policy).Aborted?
  {
    hide OfferParams, OfferOf, Trim;
    if Parsed(text).Some? {
      ParsedBitsInRange(OfferParams(Trim(text)).value);
    }
  }

  /** The negotiation ends with the first acceptable offer, and fails exactly if there is none. */
  lemma {:induction false} FirstAcceptableIsChosen(texts: seq<string>, policy: DeflateConfig)
    ensures var r := FirstChosen(texts, policy);
            if r.None? then forall j :: 0 <= j < |texts| ==> Judge(texts[j], policy).Declined?
            else exists i :: 0 <= i < |texts| && Judge(texts[i], policy) == Chosen(r.value)
                             && forall j :: 0 <= j < i ==> Judge(texts[j], policy).Declined?
    decreases |texts|
  {
    hide Judge;
    if texts != [] {
      NeverAborts(texts[0], policy);
      if Judge(texts[0], policy).Declined? {
        var rest := texts[1..];
        FirstAcceptableIsChosen(rest, policy);
        var r := FirstChosen(texts, policy);
        if r.Some? {
          var i :| 0 <= i < |rest| && Judge(rest[i], policy) == Chosen(r.value) && forall j :: 0 <= j < i ==> Judge(rest[j], policy).Declined?;
          forall j | 0 <= j < i + 1 ensures Judge(texts[j], policy).Declined? {
            assert j > 0 ==> texts[j] == rest[j - 1];
          }
          assert texts[i + 1] == rest[i];
        } else {
          forall j | 0 <= j < |texts| ensures Judge(texts[j], policy).Declined? {
            assert j > 0 ==> texts[j] == rest[j - 1];
          }
        }
      }
    }
  }

  /** The window the client may use after the response: what is announced to it, or the largest. */
  function ClientMayUse(n: Negotiated): nat {
    if n.clientLimit.Some? then n.clientLimit.value else MaxBits
  }

  /** An offer is acceptable exactly if the backend can keep its server limit and the policy its client limit; the choice keeps every limit. */
  lemma ChoiceKeepsLimits(o: Offer, policy: DeflateConfig)
    requires BitsInRange(o)
    ensures Select(o, policy).Chosen? <==> o.serverBits != Some(8) && (o.clientBits.Some? || policy.clientBits == MaxBits)
    ensures Select(o, policy).Chosen? ==>
              var n := Select(o, policy).result;
              && n.config.serverBits <= policy.serverBits
              && (o.serverBits.Some? ==> n.config.serverBits <= o.serverBits.value && n.serverLimit == Some(n.config.serverBits))
              && n.config.serverBits == (if n.serverLimit.Some? then n.serverLimit.value else MaxBits)
              && ClientMayUse(n) <= n.config.clientBits
              && ClientMayUse(n) <= policy.clientBits
              && (o.clientBits.Some? && o.clientBits.value.Some? ==> ClientMayUse(n) <= o.clientBits.value.value)
              && (n.clientLimit.Some? ==> o.clientBits.Some?)
              && (policy.serverNoTakeover || o.serverNoTakeover ==> n.config.serverNoTakeover)
              && (policy.clientNoTakeover || o.clientNoTakeover ==> n.config.clientNoTakeover)
              && n.config.level == policy.level && n.config.threshold == policy.threshold
  {
  }

  // ---------------------------------------------------------------------
  // Response header
  // ---------------------------------------------------------------------

  function ParamText(p: Param): string {
    if p.value.None? then p.name else p.name + "=" + p.value.value
  }

  function ParamTexts(ps: seq<Param>): seq<string> {
    if ps == [] then [] else [ParamText(ps[0])] + ParamTexts(ps[1..])
  }

  predicate ValidLimit(limit: Option<nat>) {
    limit.Some? ==> 8 <= limit.value <= 15
  }

  function Flag(name: string, present: bool): seq<Param> {
    if present then [Param(name, None)] else []
  }

  function Limit(name: string, limit: Option<nat>): seq<Param>
    requires ValidLimit(limit)
  {
    if limit.Some? then [Param(name, Some(PrintBits(limit.value)))] else []
  }

  function HeaderParams(sn: bool, cn: bool, server: Option<nat>, client: Option<nat>): seq<Param>
    requires ValidLimit(server) && ValidLimit(client)
  {
    Flag(ServerNoTakeover, sn) + Flag(ClientNoTakeover, cn) + Limit(ServerBits, server) + Limit(ClientBits, client)
  }

  function ResponseHeader(sn: bool, cn: bool, server: Option<nat>, client: Option<nat>): string
    requires ValidLimit(server) && ValidLimit(client)
  {
    Join([Extension] + ParamTexts(HeaderParams(sn, cn, server, client)), "; ")
  }

  function ToResponseHeader(c: DeflateConfig): string {
    ResponseHeader(c.serverNoTakeover, c.clientNoTakeover, Announced(c.serverBits), Announced(c.clientBits))
  }

  /** A codec configuration from parsed parameters, with defaults for the rest. */
  function ConfigOf(o: Offer): Option<DeflateConfig> {
    var server: Option<WindowBits> := if o.serverBits.Some? then TryWindowBits(o.serverBits.value) else Some(15);
    var client: Option<WindowBits> := if o.clientBits.Some? && o.clientBits.value.Some? then TryWindowBits(o.clientBits.value.value) else Some(15);
    if server.None? || client.None? then None
    else Some(DeflateConfig(server.value, client.value, o.serverNoTakeover, o.clientNoTakeover, 6, 32))
  }

  // --- Names and values are tidy.

  predicate CleanParam(p: Param) {
    && Tidy(p.name, ';') && '=' !in p.name
    && (p.value.Some? ==> Tidy(p.value.value, ';') && '"' !in p.value.value)
  }

  lemma ExtensionNameIsClean()
    ensures Tidy(Extension, ';') && '=' !in Extension
  {
  }

  lemma ServerFlagIsClean()
    ensures Tidy(ServerNoTakeover, ';') && '=' !in ServerNoTakeover
  {
  }

  lemma ClientFlagIsClean()
    ensures Tidy(ClientNoTakeover, ';') && '=' !in ClientNoTakeover
  {
  }

  lemma ServerLimitNameIsClean()
    ensures Tidy(ServerBits, ';') && '=' !in ServerBits
  {
  }

  lemma ClientLimitNameIsClean()
    ensures Tidy(ClientBits, ';') && '=' !in ClientBits
  {
  }

  lemma NamesAreClean()
    ensures Tidy(Extension, ';')
    ensures Tidy(ServerNoTakeover, ';') && '=' !in ServerNoTakeover
    ensures Tidy(ClientNoTakeover, ';') && '=' !in ClientNoTakeover
    ensures Tidy(ServerBits, ';') && '=' !in ServerBits
    ensures Tidy(ClientBits, ';') && '=' !in ClientBits
  {
    hide Tidy;
    ExtensionNameIsClean();
    ServerFlagIsClean();
    ClientFlagIsClean();
    ServerLimitNameIsClean();
    ClientLimitNameIsClean();
  }

  lemma CleanParamIsTidy(p: Param)
    requires CleanParam(p)
    ensures Tidy(ParamText(p), ';')
    ensures ParsePart(ParamText(p)) == Some(p)
  {
    if p.value.None? {
      NothingToSplit(p.name, '=');
    } else {
      SplitOnceAt(p.name, p.value.value, '=');
      TrimTidy(p.name, ';');
      TrimTidy(p.value.value, ';');
      assert ParamText(p) == p.name + ['='] + p.value.value;
    }
  }

  lemma {:induction false} PartsParse(raw: seq<string>, ps: seq<Param>)
    requires |raw| == |ps| && forall i :: 0 <= i < |raw| ==> ParseParam(raw[i]) == Some(ps[i])
    ensures ParseParams(raw) == Some(ps)
    decreases |raw|
  {
    hide ParseParam;
    if raw != [] {
      PartsParse(raw[..|raw| - 1], ps[..|ps| - 1]);
      assert ps[..|ps| - 1] + [ps[|ps| - 1]] == ps;
    }
  }

  lemma {:induction false} TrimAllAt(parts: seq<string>, i: nat)
    requires i < |parts|
    ensures |TrimAll(parts)| == |parts| && TrimAll(parts)[i] == Trim(parts[i])
    decreases |parts|
  {
    hide Trim;
    if i > 0 {
      TrimAllAt(parts[1..], i - 1);
    } else if |parts| > 1 {
      TrimAllAt(parts[1..], 0);
    }
  }

  lemma {:induction false} ParamTextsAt(ps: seq<Param>)
    ensures |ParamTexts(ps)| == |ps| && forall i :: 0 <= i < |ps| ==> ParamTexts(ps)[i] == ParamText(ps[i])
    decreases |ps|
  {
    hide ParamText;
    if ps != [] {
      ParamTextsAt(ps[1..]);
    }
  }

  /** A printed header parses back into its parameters. */
  lemma HeaderParses(ps: seq<Param>)
    requires forall i :: 0 <= i < |ps| ==> CleanParam(ps[i])
    ensures OfferParams(Join([Extension] + ParamTexts(ps), "; ")) == Some(ps)
  {
    hide Trim, Split, ParamText, Join, Tidy, ParsePart;
    var parts := [Extension] + ParamTexts(ps);
    var raw := Split(Join(parts, "; "), ';');
    ParamTextsAt(ps);
    NamesAreClean();
    forall i | 0 <= i < |parts| ensures Tidy(parts[i], ';') {
      if i > 0 {
        CleanParamIsTidy(ps[i - 1]);
      }
    }
    assert "; " == [';', ' '];
    SplitJoined(parts, ';');
    TrimAllAt(raw, 0);
    forall i | 0 <= i < |raw[1..]| ensures ParseParam(raw[1..][i]) == Some(ps[i]) {
      TrimAllAt(raw, i + 1);
      CleanParamIsTidy(ps[i]);
    }
    PartsParse(raw[1..], ps);
  }

  lemma OfferSnoc(ps: seq<Param>, p: Param)
    requires OfferOf(ps).Some?
    ensures OfferOf(ps + [p]) == AddParam(OfferOf(ps).value, p)
  {
    assert (ps + [p])[..|ps|] == ps;
  }

  lemma FlagIsRead(ps: seq<Param>, o: Offer, present: bool, server: bool)
    requires OfferOf(ps) == Some(o) && if server then !o.serverNoTakeover else !o.clientNoTakeover
    ensures OfferOf(ps + Flag(if server then ServerNoTakeover else ClientNoTakeover, present))
         == Some(if server then o.(serverNoTakeover := present) else o.(clientNoTakeover := present))
  {
    DifferentNames();
    if present {
      OfferSnoc(ps, Param(if server then ServerNoTakeover else ClientNoTakeover, None));
    } else {
      assert ps + [] == ps;
    }
  }

  lemma LimitIsRead(ps: seq<Param>, o: Offer, limit: Option<nat>, server: bool)
    requires ValidLimit(limit) && OfferOf(ps) == Some(o) && if server then o.serverBits.None? else o.clientBits.None?
    ensures OfferOf(ps + Limit(if server then ServerBits else ClientBits, limit))
         == Some(if server then o.(serverBits := limit) else o.(clientBits := if limit.Some? then Some(limit) else None))
  {
    hide ParseWindowBits, PrintBits;
    DifferentNames();
    if limit.Some? {
      BitsRoundTrip(limit.value);
      OfferSnoc(ps, Param(if server then ServerBits else ClientBits, Some(PrintBits(limit.value))));
    } else {
      assert ps + [] == ps;
    }
  }

  lemma HeaderParamsAreRead(sn: bool, cn: bool, server: Option<nat>, client: Option<nat>)
    requires ValidLimit(server) && ValidLimit(client)
    ensures OfferOf(HeaderParams(sn, cn, server, client))
         == Some(Offer(sn, cn, server, if client.Some? then Some(client) else None))
  {
    hide AddParam, Flag, Limit;
    var p1 := Flag(ServerNoTakeover, sn);
    var p2 := p1 + Flag(ClientNoTakeover, cn);
    var p3 := p2 + Limit(ServerBits, server);
    assert [] + p1 == p1;
    FlagIsRead([], NoParams, sn, true);
    FlagIsRead(p1, NoParams.(serverNoTakeover := sn), cn, false);
    LimitIsRead(p2, Offer(sn, cn, None, None), server, true);
    LimitIsRead(p3, Offer(sn, cn, server, None), client, false);
  }

  lemma HeaderParamsAreClean(sn: bool, cn: bool, server: Option<nat>, client: Option<nat>)
    requires ValidLimit(server) && ValidLimit(client)
    ensures forall i :: 0 <= i < |HeaderParams(sn, cn, server, client)| ==> CleanParam(HeaderParams(sn, cn, server, client)[i])
  {
    hide Tidy, PrintBits;
    NamesAreClean();
    if server.Some? {
      BitsRoundTrip(server.value);
    }
    if client.Some? {
      BitsRoundTrip(client.value);
    }
  }

  /** Every response header parses back into exactly what it announces. */
  lemma HeaderRoundTrip(sn: bool, cn: bool, server: Option<nat>, client: Option<nat>)
    requires ValidLimit(server) && ValidLimit(client)
    ensures var params := OfferParams(ResponseHeader(sn, cn, server, client));
            params.Some? && OfferOf(params.value) == Some(Offer(sn, cn, server, if client.Some? then Some(client) else None))
  {
    hide OfferParams, OfferOf, Join, CleanParam;
    HeaderParamsAreClean(sn, cn, server, client);
    HeaderParses(HeaderParams(sn, cn, server, client));
    HeaderParamsAreRead(sn, cn, server, client);
  }

  /** Printing a configuration and parsing it back recovers its four negotiated parameters. */
  lemma ConfigRoundTrip(c: DeflateConfig)
    ensures var params := OfferParams(ToResponseHeader(c));
            && params.Some? && OfferOf(params.value).Some? && ConfigOf(OfferOf(params.value).value).Some?
            && var d := ConfigOf(OfferOf(params.value).value).value;
               d.serverBits == c.serverBits && d.clientBits == c.clientBits
               && d.serverNoTakeover == c.serverNoTakeover && d.clientNoTakeover == c.clientNoTakeover
  {
    hide OfferParams, OfferOf, ResponseHeader;
    HeaderRoundTrip(c.serverNoTakeover, c.clientNoTakeover, Announced(c.serverBits), Announced(c.clientBits));
  }
}
