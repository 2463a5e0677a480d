/** The request filter of the browser's RequestHandler: which resource
    requests are left to the default handling, which custom-protocol links
    are handed to the operating system, and which loads are blocked because
    a turbolinks-style partial page load or a refused protocol is asked for.
    System properties are string parameters (empty when unset); the
    request's headers are a list of name/value pairs. */
module RequestFilter {
  import opened Wrappers
  import opened Seqs

  /** The URL prefixes that are never treated as custom protocols. */
  predicate StandardScheme(url: string) {
    || StartsWith(url, "http")
    || StartsWith(url, "data")
    || StartsWith(url, "file")
    || StartsWith(url, "chrome")
    || StartsWith(url, "about")
    || StartsWith(url, "devtools")
  }

  /** allowTurboLink: the chromium.turbolinks property enables the turbolinks
      filter when its first ';'-separated entry is "true" or a header rule
      ("name=value"). None when the property consists of ';' only: the split
      is then empty and reading its first entry throws. */
  function AllowTurboLink(prop: string): (r: Option<bool>)
    ensures r.None? <==> |prop| > 0 && forall i :: 0 <= i < |prop| ==> prop[i] == ';'
  {
    var entries := JavaSplit(prop, ';');
    JavaSplitEmpty(prop, ';');
    if |entries| == 0 then None
    else Some(entries[0] == "true" || '=' in entries[0])
  }

  /** Turbolinks are off while the property is unset. */
  lemma TurboLinksOffByDefault()
    ensures AllowTurboLink("") == Some(false)
  {
    assert JavaSplit("", ';') == [""];
  }

  /** For a property written as a list of entries, only the first entry
      decides whether turbolinks are on. */
  lemma TurboLinksFirstEntry(entries: seq<string>)
    requires |entries| >= 1 && entries[|entries| - 1] != ""
    requires forall i :: 0 <= i < |entries| ==> ';' !in entries[i]
    ensures AllowTurboLink(Join(entries, ';')) == Some(entries[0] == "true" || '=' in entries[0])
  {
    JavaSplitOfJoin(entries, ';');
  }

  /** A request header. */
  datatype Header = Header(name: string, value: string)

  /** The lower-cased names of the headers. */
  function LowerNames(headers: seq<Header>): (r: set<string>)
    ensures forall i :: 0 <= i < |headers| ==> Lower(headers[i].name) in r
    ensures forall key :: key in r ==> exists i :: 0 <= i < |headers| && Lower(headers[i].name) == key
    decreases |headers|
  {
    if |headers| == 0 then {}
    else
      var rest := headers[1..];
      assert forall i :: 0 <= i < |rest| ==> rest[i] == headers[i + 1];
      {Lower(headers[0].name)} + LowerNames(rest)
  }

  /** The headers re-keyed by their lower-cased names. None when two names
      lower-case to the same key: collecting into a map then throws. */
  function LowerCaseKeys(headers: seq<Header>): (r: Option<map<string, string>>)
    ensures r.Some? <==>
      forall i, j :: 0 <= i < j < |headers| ==> Lower(headers[i].name) != Lower(headers[j].name)
    ensures r.Some? ==> forall i :: 0 <= i < |headers| ==> Lower(headers[i].name) in r.value
    ensures r.Some? ==> forall i :: 0 <= i < |headers| ==> r.value[Lower(headers[i].name)] == headers[i].value
    decreases |headers|, 0
  {
    if |headers| == 0 then Some(map[])
    else
      var rest := headers[1..];
      var key := Lower(headers[0].name);
      assert forall i :: 0 <= i < |rest| ==> rest[i] == headers[i + 1];
      match LowerCaseKeys(rest)
      case None => None
      case Some(m) =>
        if key in m then
          LowerCaseKeysDomain(rest);
          assert exists j :: 0 <= j < |rest| && Lower(rest[j].name) == key;
          None
        else Some(m[key := headers[0].value])
  }

  /** The re-keyed map has exactly the lower-cased names as keys. */
  lemma {:induction false} LowerCaseKeysDomain(headers: seq<Header>)
    requires LowerCaseKeys(headers).Some?
    ensures LowerCaseKeys(headers).value.Keys == LowerNames(headers)
    decreases |headers|, 1
  {
    if |headers| > 0 {
      LowerCaseKeysDomain(headers[1..]);
    }
  }

  /** One ';'-separated entry of the turbolinks property: no rule when it
      has no '=', a header rule with the lower-cased key and the value
      otherwise, Malformed when `split("=")` yields fewer than two parts and
      indexing them throws. */
  datatype Rule = NotARule | HeaderRule(key: string, value: string) | Malformed

  function ParseRule(entry: string): (r: Rule)
    ensures r.NotARule? <==> '=' !in entry
  {
    if '=' !in entry then NotARule
    else
      var parts := JavaSplit(entry, '=');
      if |parts| < 2 then Malformed else HeaderRule(Lower(parts[0]), parts[1])
  }

  /** "name=value" gives a rule keyed by the lower-cased name; the value is
      kept exactly. */
  lemma RuleOfPair(name: string, value: string)
    requires '=' !in name && '=' !in value && value != ""
    ensures ParseRule(name + "=" + value) == HeaderRule(Lower(name), value)
  {
    assert Join([name, value], '=') == name + "=" + value;
    JavaSplitOfJoin([name, value], '=');
    JoinHasSeparator([name, value], '=');
  }

  /** "name=" has no value to read, so the rule throws. */
  lemma RuleWithoutValue(name: string)
    requires '=' !in name
    ensures ParseRule(name + "=").Malformed?
  {
    var entry := name + "=";
    assert entry[|name|] == '=';
    assert Join([name, ""], '=') == entry;
    PiecesOfJoin([name, ""], '=');
    assert Pieces("", '=') == [""];
    assert Pieces(entry, '=') == [name, ""];
  }

  /** The rule names a header present with exactly that value. */
  predicate RuleMatches(rule: Rule, headers: map<string, string>) {
    rule.HeaderRule? && rule.key in headers && headers[rule.key] == rule.value
  }

  /** The loop over the property's entries: true at the first matching rule,
      None at a malformed entry met before any match, false at the end. */
  function MatchRules(entries: seq<string>, headers: map<string, string>): (r: Option<bool>)
    ensures r == Some(true) ==>
      exists i :: 0 <= i < |entries| && RuleMatches(ParseRule(entries[i]), headers)
    ensures r.None? ==> exists i :: 0 <= i < |entries| && ParseRule(entries[i]).Malformed?
    ensures (forall i :: 0 <= i < |entries| ==> !ParseRule(entries[i]).Malformed?)
      ==> r == Some(exists i :: 0 <= i < |entries| && RuleMatches(ParseRule(entries[i]), headers))
    decreases |entries|
  {
    if |entries| == 0 then Some(false)
    else
      var rest := entries[1..];
      assert forall i :: 0 <= i < |rest| ==> rest[i] == entries[i + 1];
      var rule := ParseRule(entries[0]);
      if rule.Malformed? then None
      else if RuleMatches(rule, headers) then Some(true)
      else
        var r := MatchRules(rest, headers);
        assert r == Some(true) ==> exists i :: 0 <= i < |entries| && RuleMatches(ParseRule(entries[i]), headers) by {
          if r == Some(true) {
            var i :| 0 <= i < |rest| && RuleMatches(ParseRule(rest[i]), headers);
            assert entries[i + 1] == rest[i];
          }
        }
        assert r.None? ==> exists i :: 0 <= i < |entries| && ParseRule(entries[i]).Malformed? by {
          if r.None? {
            var i :| 0 <= i < |rest| && ParseRule(rest[i]).Malformed?;
            assert entries[i + 1] == rest[i];
          }
        }
        r
  }

  /** The header tests after the rules: an x-pjax request, a Turbo frame, or
      a fetch for an empty destination that is neither a navigation nor a
      websocket. `headerByName` is the request's header lookup, "" for an
      absent header. */
  predicate PartialLoadHeaders(headerByName: string -> string) {
    || headerByName("x-pjax") == "true"
    || headerByName("Turbo-Frame") != ""
    || (&& headerByName("sec-fetch-dest") == "empty"
        && headerByName("Sec-Fetch-Mode") != "navigate"
        && headerByName("Sec-Fetch-Mode") != "websocket")
  }

  /** containsTurbolinkHeader: a rule of the turbolinks property matches a
      header (names compared lower-cased, values exactly), or the partial-load
      headers are present. None when it throws. */
  function ContainsTurbolinkHeader(headers: seq<Header>, prop: string, headerByName: string -> string): (r: Option<bool>)
    ensures LowerCaseKeys(headers).None? ==> r.None?
    ensures r == Some(false) ==> !PartialLoadHeaders(headerByName)
    ensures (&& LowerCaseKeys(headers).Some?
             && PartialLoadHeaders(headerByName)
             && (forall e :: e in JavaSplit(prop, ';') ==> !ParseRule(e).Malformed?))
      ==> r == Some(true)
    ensures (&& LowerCaseKeys(headers).Some?
             && (forall e :: e in JavaSplit(prop, ';') ==> !ParseRule(e).Malformed?))
      ==> r == Some((exists i :: 0 <= i < |JavaSplit(prop, ';')|
                       && RuleMatches(ParseRule(JavaSplit(prop, ';')[i]), LowerCaseKeys(headers).value))
                    || PartialLoadHeaders(headerByName))
  {
    match LowerCaseKeys(headers)
    case None => None
    case Some(lowered) =>
      match MatchRules(JavaSplit(prop, ';'), lowered)
      case None => None
      case Some(matched) => Some(matched || PartialLoadHeaders(headerByName))
  }

  /** A single "name=value" rule finds its header whatever the case of the
      header's name, as long as the value is exactly the same. */
  lemma RuleMatchesAnyCase(headers: seq<Header>, name: string, value: string, headerByName: string -> string, k: nat)
    requires '=' !in name && '=' !in value && value != ""
    requires ';' !in name && ';' !in value
    requires LowerCaseKeys(headers).Some?
    requires k < |headers| && Lower(headers[k].name) == Lower(name) && headers[k].value == value
    ensures ContainsTurbolinkHeader(headers, name + "=" + value, headerByName) == Some(true)
  {
    var entry := name + "=" + value;
    var lowered := LowerCaseKeys(headers).value;
    PairAvoids(name, value, ';');
    RuleOfPair(name, value);
    HeaderFound(headers, k, name, value);
    SingleRuleDecides(entry, lowered);
    assert MatchRules(JavaSplit(entry, ';'), lowered) == Some(true);
  }

  /** A "name=value" pair avoids a character other than '=' that neither
      half contains. */
  lemma PairAvoids(name: string, value: string, c: char)
    requires c != '=' && c !in name && c !in value
    ensures c !in name + "=" + value
  {
  }

  /** The lower-cased header map holds the value under the lower-cased name. */
  lemma HeaderFound(headers: seq<Header>, k: nat, name: string, value: string)
    requires LowerCaseKeys(headers).Some?
    requires k < |headers| && Lower(headers[k].name) == Lower(name) && headers[k].value == value
    ensures RuleMatches(HeaderRule(Lower(name), value), LowerCaseKeys(headers).value)
  {
  }

  /** A property without ';' is a single rule, and that rule decides. */
  lemma SingleRuleDecides(entry: string, headers: map<string, string>)
    requires ';' !in entry && !ParseRule(entry).Malformed?
    ensures MatchRules(JavaSplit(entry, ';'), headers) == Some(RuleMatches(ParseRule(entry), headers))
  {
    assert JavaSplit(entry, ';') == [entry];
  }

  /** A rule without a value makes the whole check throw when no earlier
      rule matched. */
  lemma RuleWithoutValueThrows(headers: seq<Header>, name: string, headerByName: string -> string)
    requires '=' !in name && ';' !in name
    ensures ContainsTurbolinkHeader(headers, name + "=", headerByName).None?
  {
    var entry := name + "=";
    assert ';' !in entry;
    assert JavaSplit(entry, ';') == [entry];
    RuleWithoutValue(name);
  }

  /** shouldAllowProtocol without its dialog: with two or more entries in
      chromium.custom_protocol, a URL is allowed when it starts with one of
      them; a single entry is a keyword, "true" (any case) allowing every
      protocol and "confirm" leaving it to the user's answer `confirmed`.
      None when the property consists of ';' only and reading its first
      entry throws. */
  function ShouldAllowProtocol(url: string, prop: string, confirmed: bool): (r: Option<bool>)
    ensures r.None? <==> |prop| > 0 && forall i :: 0 <= i < |prop| ==> prop[i] == ';'
    ensures |JavaSplit(prop, ';')| == 1 ==>
      r == Some(Lower(JavaSplit(prop, ';')[0]) == "true" || (Lower(JavaSplit(prop, ';')[0]) == "confirm" && confirmed))
  {
    var entries := JavaSplit(prop, ';');
    JavaSplitEmpty(prop, ';');
    if |entries| > 1 then Some(exists i :: 0 <= i < |entries| && StartsWith(url, entries[i]))
    else if |entries| == 0 then None
    else
      var allowType := Lower(entries[0]);
      Some(allowType == "true" || (allowType == "confirm" && confirmed))
  }

  /** Custom protocols are refused while the property is unset. */
  lemma CustomProtocolsOffByDefault(url: string, confirmed: bool)
    ensures ShouldAllowProtocol(url, "", confirmed) == Some(false)
  {
    assert JavaSplit("", ';') == [""];
  }

  /** A list of two or more prefixes allows exactly the URLs that start with
      one of them. */
  lemma ProtocolListAllowsPrefixes(url: string, prefixes: seq<string>, confirmed: bool)
    requires |prefixes| >= 2 && prefixes[|prefixes| - 1] != ""
    requires forall i :: 0 <= i < |prefixes| ==> ';' !in prefixes[i]
    ensures ShouldAllowProtocol(url, Join(prefixes, ';'), confirmed)
            == Some(exists i :: 0 <= i < |prefixes| && StartsWith(url, prefixes[i]))
  {
    JavaSplitOfJoin(prefixes, ';');
  }

  /** An empty entry inside the list is a prefix of every URL. */
  lemma EmptyProtocolEntryAllowsAll(url: string, first: string, last: string, confirmed: bool)
    requires ';' !in first && ';' !in last && last != ""
    ensures ShouldAllowProtocol(url, Join([first, "", last], ';'), confirmed) == Some(true)
  {
    ProtocolListAllowsPrefixes(url, [first, "", last], confirmed);
    assert StartsWith(url, [first, "", last][1]);
  }

  /** A single prefix is read as a keyword, so a URL starting with it is
      refused unless the prefix is itself "true" or "confirm". */
  lemma SinglePrefixIsKeyword(url: string, prefix: string, confirmed: bool)
    requires ';' !in prefix
    requires Lower(prefix) != "true" && Lower(prefix) != "confirm"
    ensures ShouldAllowProtocol(url, prefix, confirmed) == Some(false)
  {
    assert JavaSplit(prefix, ';') == [prefix];
  }

  /** What getResourceRequestHandler gives a request: the default handling
      (no handler), a handler that launches the URL with the operating
      system, or one that cancels the load. */
  datatype Handling = DefaultHandling | LaunchExternally | BlockLoad

  /** getResourceRequestHandler: browser-function calls and registered
      protocols keep the default handling; any other URL outside the
      standard schemes is launched externally when allowed and blocked when
      not; turbolinks partial loads are blocked. None when one of the
      property or header checks throws. */
  function ResourceHandling(isFunction: bool, isRegisteredProtocol: bool, url: string,
                            protocolProp: string, turboProp: string, confirmed: bool,
                            headers: seq<Header>, headerByName: string -> string): (r: Option<Handling>)
    ensures isFunction || isRegisteredProtocol ==> r == Some(DefaultHandling)
    ensures r == Some(LaunchExternally) <==>
      !isFunction && !isRegisteredProtocol && !StandardScheme(url)
      && ShouldAllowProtocol(url, protocolProp, confirmed) == Some(true)
    ensures (&& !isFunction && !isRegisteredProtocol && !StandardScheme(url)
             && ShouldAllowProtocol(url, protocolProp, confirmed) == Some(false))
      ==> r.None? || r == Some(BlockLoad)
    ensures (&& !isFunction && !isRegisteredProtocol && StandardScheme(url)
             && AllowTurboLink(turboProp) == Some(false))
      ==> r == Some(DefaultHandling)
    ensures (&& !isFunction && !isRegisteredProtocol && StandardScheme(url)
             && AllowTurboLink(turboProp) == Some(true))
      ==> r == (match ContainsTurbolinkHeader(headers, turboProp, headerByName)
                case None => None
                case Some(partial) => Some(if partial then BlockLoad else DefaultHandling))
    ensures (&& !isFunction && !isRegisteredProtocol && !StandardScheme(url)
             && ShouldAllowProtocol(url, protocolProp, confirmed) == Some(false)
             && AllowTurboLink(turboProp).Some?
             && (AllowTurboLink(turboProp) == Some(true) ==> ContainsTurbolinkHeader(headers, turboProp, headerByName).Some?))
      ==> r == Some(BlockLoad)
    ensures r.None? <==>
      && !isFunction && !isRegisteredProtocol
      && ( || (!StandardScheme(url) && ShouldAllowProtocol(url, protocolProp, confirmed).None?)
           || (&& (StandardScheme(url) || ShouldAllowProtocol(url, protocolProp, confirmed) == Some(false))
               && (|| AllowTurboLink(turboProp).None?
                   || (&& AllowTurboLink(turboProp) == Some(true)
                       && ContainsTurbolinkHeader(headers, turboProp, headerByName).None?))))
  {
    if isFunction || isRegisteredProtocol then Some(DefaultHandling)
    else
      var refused :=
        if StandardScheme(url) then Some(false)
        else match ShouldAllowProtocol(url, protocolProp, confirmed)
          case None => None
          case Some(allowed) => Some(!allowed);
      match refused
      case None => None
      case Some(isCustomProtocol) =>
        if !StandardScheme(url) && !isCustomProtocol then Some(LaunchExternally)
        else
          match AllowTurboLink(turboProp)
          case None => None
          case Some(allow) =>
            var partial := if allow then ContainsTurbolinkHeader(headers, turboProp, headerByName) else Some(false);
            match partial
            case None => None
            case Some(isPartial) => Some(if isPartial || isCustomProtocol then BlockLoad else DefaultHandling)
  }

  /** With a single keyword entry, "true" in any case allows every protocol. */
  lemma TrueKeywordAllowsAll(url: string, prop: string, confirmed: bool)
    requires ';' !in prop && Lower(prop) == "true"
    ensures ShouldAllowProtocol(url, prop, confirmed) == Some(true)
  {
    assert JavaSplit(prop, ';') == [prop];
  }

  /** With the single keyword "confirm" in any case, the user's answer decides. */
  lemma ConfirmKeywordAsksUser(url: string, prop: string, confirmed: bool)
    requires ';' !in prop && Lower(prop) == "confirm"
    ensures ShouldAllowProtocol(url, prop, confirmed) == Some(confirmed)
  {
    assert JavaSplit(prop, ';') == [prop];
  }

  /** A pjax navigation on a web page is blocked while turbolinks are on. */
  lemma PjaxRequestBlocked(url: string, protocolProp: string, confirmed: bool,
                           headers: seq<Header>, headerByName: string -> string)
    requires StartsWith(url, "http")
    requires LowerCaseKeys(headers).Some?
    requires headerByName("x-pjax") == "true"
    ensures ResourceHandling(false, false, url, protocolProp, "true", confirmed, headers, headerByName) == Some(BlockLoad)
  {
    TurboLinksTrue();
    assert JavaSplit("true", ';') == ["true"];
    assert ParseRule("true").NotARule?;
  }

  /** The property "true" turns turbolinks on. */
  lemma TurboLinksTrue()
    ensures AllowTurboLink("true") == Some(true)
  {
    assert JavaSplit("true", ';') == ["true"];
  }
}
