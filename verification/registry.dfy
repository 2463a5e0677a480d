/** The page's table of script-callable host functions: registration by
    createFunction (replacing an earlier function of the same name), the stub
    string handed to the script side, and the test that recognises a call to
    one of them (RequestHandler.isFunction / getFunctionIndex). The table and
    its index counter belong to SWT's WebBrowser, which is not part of this
    model; they are modelled as a map and a counter. */
module FunctionRegistry {
  import opened Wrappers
  import opened Seqs
  import opened Decimal

  /** A BrowserFunction as the registry sees it: its script-visible name, its
      secret token, whether it is exposed to the top frame, and the frame
      names it is limited to (None for a Java null array). */
  datatype BrowserFunction = BrowserFunction(
    name: string,
    token: string,
    top: bool,
    frameNames: Option<seq<string>>)

  /** The function table keyed by index and the next index to hand out. */
  datatype Registry = Registry(functions: map<int, BrowserFunction>, nextIndex: int)

  /** The reserved host name that marks a function-call request. */
  const FUNCTION_HOST: string := "functions"

  /** At most one registered function carries a given name. */
  ghost predicate NamesUnique(reg: Registry) {
    forall i, j :: i in reg.functions && j in reg.functions && reg.functions[i].name == reg.functions[j].name ==> i == j
  }

  /** Every registered index was handed out before the counter's value. */
  ghost predicate IndicesIssued(reg: Registry) {
    forall i :: i in reg.functions ==> i < reg.nextIndex
  }

  ghost predicate Valid(reg: Registry) {
    NamesUnique(reg) && IndicesIssued(reg)
  }

  /** What createFunction did. */
  datatype CreateOutcome =
    | Skipped
    | Registered(registry: Registry, index: int, encoded: string)

  /** Each frame name followed by ';' (Collectors.joining(";", "", ";")). */
  function JoinTerminated(names: seq<string>): (r: string)
    ensures |names| > 0 ==> |r| > 0 && r[|r| - 1] == ';'
  {
    if |names| == 0 then "" else names[0] + ";" + JoinTerminated(names[1..])
  }

  /** The frame list written into the stub: the names each ended by ';', or
      a lone ";" when there are no names and the function is not top-only,
      or nothing for a top-frame function with an empty list. */
  function FramesString(frameNames: Option<seq<string>>, top: bool): string {
    if frameNames.Some? && |frameNames.value| > 0 then JoinTerminated(frameNames.value)
    else if frameNames.None? || !top then ";"
    else ""
  }

  function BoolString(b: bool): string {
    if b then "true" else "false"
  }

  /** The configuration string of the function's message router: marker,
      index, token, host, browser id, top flag and frames, ';'-separated. */
  function EncodedFunction(fn: BrowserFunction, index: int, browserId: int): string {
    Join(["__browserFunction", IntToString(index), fn.token, FUNCTION_HOST,
          IntToString(browserId), BoolString(fn.top), FramesString(fn.frameNames, fn.top)], ';')
  }

  /** The frame list reads back as the frame names followed by one empty
      piece, provided no name contains the separator. */
  lemma {:induction false} FramesRoundTrip(names: seq<string>)
    requires forall i :: 0 <= i < |names| ==> ';' !in names[i]
    ensures Pieces(JoinTerminated(names), ';') == names + [""]
    decreases |names|
  {
    if |names| == 0 {
      assert FirstIndex("", ';') == None;
    } else {
      var head := names[0];
      var tailNames := names[1..];
      assert forall i :: 0 <= i < |tailNames| ==> ';' !in tailNames[i] by {
        assert forall i :: 0 <= i < |tailNames| ==> tailNames[i] == names[i + 1];
      }
      FramesRoundTrip(tailNames);
      assert names == [head] + tailNames;
      FramesStep(head, tailNames);
    }
  }

  /** One more name in front of the frame list. */
  lemma FramesStep(head: string, names: seq<string>)
    requires ';' !in head
    requires Pieces(JoinTerminated(names), ';') == names + [""]
    ensures Pieces(JoinTerminated([head] + names), ';') == [head] + names + [""]
  {
    var rest := JoinTerminated(names);
    assert ([head] + names)[1..] == names;
    assert JoinTerminated([head] + names) == head + [';'] + rest;
    PiecesCons(head, ';', rest);
  }

  /** Decimal text never contains a character other than digits and '-'. */
  lemma IntTextAvoids(n: int, c: char)
    requires c != '-' && !IsDigit(c)
    ensures c !in IntToString(n)
  {
    var t := IntToString(n);
    if n < 0 {
      assert forall k :: 1 <= k < |t| ==> t[k] == NatToDigits(-n)[k - 1];
    }
  }

  /** The script side can read the stub back: split at ';', its first fields
      are the marker, the index, the token and the function host. */
  lemma EncodedFunctionFields(fn: BrowserFunction, index: int, browserId: int)
    requires IsInt32(index)
    requires ';' !in fn.token
    ensures var p := Pieces(EncodedFunction(fn, index, browserId), ';');
      && |p| >= 5
      && p[0] == "__browserFunction"
      && ParseInt(p[1]) == Some(index)
      && p[2] == fn.token
      && p[3] == FUNCTION_HOST
  {
    var fields := ["__browserFunction", IntToString(index), fn.token, FUNCTION_HOST,
                   IntToString(browserId), BoolString(fn.top), FramesString(fn.frameNames, fn.top)];
    IntTextAvoids(index, ';');
    IntTextAvoids(browserId, ';');
    assert ';' !in fields[0] && ';' !in fields[3] && ';' !in fields[5];
    PiecesOfJoin(fields, ';');
    var p := Pieces(EncodedFunction(fn, index, browserId), ';');
    assert p == fields[..6] + Pieces(fields[6], ';');
    assert p[1] == IntToString(index);
    ParseIntToString(index);
  }

  /** destroyFunction: the function's index leaves the table. */
  function DestroyFunction(reg: Registry, index: int): (r: Registry)
    ensures index !in r.functions
    ensures forall i :: i in reg.functions && i != index ==> i in r.functions && r.functions[i] == reg.functions[i]
    ensures r.functions.Keys <= reg.functions.Keys && r.nextIndex == reg.nextIndex
  {
    reg.(functions := reg.functions - {index})
  }

  /** createFunction once the page has loaded: a function with no frame list
      that is not for the top frame is skipped; otherwise a registered function
      with the same name is destroyed, the new one gets the next index and is
      entered in the table, and its stub string is produced. */
  function CreateFunction(reg: Registry, fn: BrowserFunction, browserId: int): (r: CreateOutcome)
    requires NamesUnique(reg)
    ensures fn.frameNames.None? && !fn.top <==> r.Skipped?
    ensures r.Registered? ==>
      && r.index == reg.nextIndex
      && r.registry.nextIndex == reg.nextIndex + 1
      && r.index in r.registry.functions && r.registry.functions[r.index] == fn
      && (forall i :: i in r.registry.functions && i != r.index ==> r.registry.functions[i].name != fn.name)
      && (forall i :: i in reg.functions && reg.functions[i].name != fn.name && i != r.index
            ==> i in r.registry.functions && r.registry.functions[i] == reg.functions[i])
      && (forall i :: i in r.registry.functions && i != r.index
            ==> i in reg.functions && r.registry.functions[i] == reg.functions[i])
  {
    if fn.frameNames.None? && !fn.top then Skipped
    else
      var sameName := set i | i in reg.functions && reg.functions[i].name == fn.name;
      var index := reg.nextIndex;
      var table := (reg.functions - sameName)[index := fn];
      Registered(Registry(table, index + 1), index, EncodedFunction(fn, index, browserId))
  }

  /** Registration keeps names unique and indices issued. */
  lemma CreateFunctionKeepsValid(reg: Registry, fn: BrowserFunction, browserId: int)
    requires Valid(reg)
    ensures CreateFunction(reg, fn, browserId).Registered? ==> Valid(CreateFunction(reg, fn, browserId).registry)
  {
  }

  /** Re-registering a name retires the index it had: that index is gone from
      the table, and no later registration hands it out again. */
  lemma ReplacedIndexRetired(reg: Registry, fn: BrowserFunction, browserId: int, previous: int)
    requires Valid(reg)
    requires previous in reg.functions && reg.functions[previous].name == fn.name
    requires !(fn.frameNames.None? && !fn.top)
    ensures var r := CreateFunction(reg, fn, browserId);
      previous !in r.registry.functions && previous < r.registry.nextIndex
  {
  }

  /** A character java.net.URI allows in a scheme name after its first letter. */
  predicate SchemeChar(c: char) {
    'a' <= c <= 'z' || 'A' <= c <= 'Z' || '0' <= c <= '9' || c == '+' || c == '-' || c == '.'
  }

  /** The colon that ends the URL's scheme: the first ':', provided no '/', '?'
      or '#' comes before it (java.net.URI scans for it the same way). */
  function SchemeColon(url: string): (r: Option<nat>)
    ensures r.Some? ==> r.value < |url| && url[r.value] == ':' && ':' !in url[..r.value]
    ensures r.Some? ==> '/' !in url[..r.value] && '?' !in url[..r.value] && '#' !in url[..r.value]
  {
    match FirstIndex(url, ':')
    case None => None
    case Some(p) =>
      if '/' in url[..p] || '?' in url[..p] || '#' in url[..p] then None else Some(p)
  }

  /** java.net.URI parses the URL as a hierarchical URI, the only kind with a
      query: it has no scheme, or a well-formed scheme followed by '/'. After
      a scheme, anything else is an opaque URI such as "mailto:x?1", whose
      query is null, or a URISyntaxException (a malformed scheme name, an
      empty scheme-specific part). */
  predicate Hierarchical(url: string) {
    match SchemeColon(url)
    case None => true
    case Some(p) =>
      && p > 0
      && ('a' <= url[0] <= 'z' || 'A' <= url[0] <= 'Z')
      && (forall k :: 0 <= k < p ==> SchemeChar(url[k]))
      && p + 1 < |url| && url[p + 1] == '/'
  }

  /** The query part of a URL: for a hierarchical URL, the text after the
      first '?' and before the fragment. None when the URL is not
      hierarchical or has no '?': getQuery returns null or the URI
      constructor throws, which callers treat alike. */
  function UriQuery(url: string): (r: Option<string>)
    ensures r.Some? ==> '#' !in r.value
    ensures r.Some? <==> Hierarchical(url) && '?' in SplitFirst(url, '#')[0]
    ensures r.Some? ==>
      var b := SplitFirst(url, '#')[0];
      exists i :: 0 <= i < |b| && b[i] == '?' && '?' !in b[..i] && r.value == b[i + 1..]
  {
    if !Hierarchical(url) then None
    else
      var beforeFragment := SplitFirst(url, '#')[0];
      match FirstIndex(beforeFragment, '?')
      case None => None
      case Some(i) => Some(beforeFragment[i + 1..])
  }

  /** Appending text that starts with neither '/' nor ':' and holds no ':'
      does not change whether a URL is hierarchical. */
  lemma {:induction false} HierarchicalExtend(base: string, t: string)
    requires |t| > 0 && t[0] != '/' && ':' !in t
    ensures Hierarchical(base + t) == Hierarchical(base)
  {
    var url := base + t;
    if ':' in base {
      var p := FirstIndex(base, ':').value;
      assert forall k :: 0 <= k < |base| ==> url[k] == base[k];
      FirstIndexIs(url, ':', p);
      assert url[..p] == base[..p];
      assert SchemeColon(url) == SchemeColon(base);
      if SchemeColon(base).Some? {
        assert p + 1 < |url|;
        if p + 1 == |base| {
          assert url[p + 1] == t[0];
        }
      }
    } else {
      assert forall k :: 0 <= k < |url| ==> url[k] in base || url[k] in t;
      assert ':' !in url;
    }
  }

  /** A URL that starts with a scheme name and ':' has its scheme colon there. */
  lemma SchemeColonAfter(scheme: string, rest: string)
    requires forall k :: 0 <= k < |scheme| ==> SchemeChar(scheme[k])
    ensures SchemeColon(scheme + ":" + rest) == Some(|scheme|)
  {
    var url := scheme + ":" + rest;
    assert forall k :: 0 <= k < |scheme| ==> url[k] == scheme[k];
    FirstIndexIs(url, ':', |scheme|);
    assert url[..|scheme|] == scheme;
  }

  /** "https://" opens a hierarchical URL. */
  lemma HttpsHierarchical()
    ensures Hierarchical("https://")
  {
    var url := "https://";
    SchemeColonAfter("https", "//");
    assert "https" + ":" + "//" == url;
    assert SchemeColon(url) == Some(5);
    assert forall k :: 0 <= k < 5 ==> SchemeChar(url[k]);
    assert url[6] == '/';
  }

  /** An opaque "mailto:" URL has no query, whatever follows, so it never
      names a function even when it mentions the function host. */
  lemma OpaqueUrlNoFunction(httpMethod: string, rest: string, isPopup: bool, reg: Registry)
    requires |rest| == 0 || rest[0] != '/'
    ensures UriQuery("mailto:" + rest).None?
    ensures !IsFunction(httpMethod, "mailto:" + rest, isPopup, reg)
  {
    var url := "mailto:" + rest;
    SchemeColonAfter("mailto", rest);
    assert "mailto" + ":" + rest == url;
    assert !Hierarchical(url) by {
      if |rest| > 0 {
        assert url[7] == rest[0];
      }
    }
  }

  /** getFunctionIndex: the query parsed as an int; None stands for the
      NumberFormatException (also thrown for a missing query). */
  function FunctionIndex(url: string): Option<int> {
    match UriQuery(url)
    case None => None
    case Some(q) => ParseInt(q)
  }

  /** isFunction: a POST whose URL mentions the function host and whose query
      names a registered index, from a browser that is not a popup. */
  predicate IsFunction(httpMethod: string, url: string, isPopup: bool, reg: Registry) {
    && httpMethod == "POST"
    && Contains(url, FUNCTION_HOST)
    && match FunctionIndex(url)
       case None => false
       case Some(i) => !isPopup && i in reg.functions
  }

  /** A recognised call always carries a registered index. */
  lemma IsFunctionIndexRegistered(httpMethod: string, url: string, isPopup: bool, reg: Registry)
    requires IsFunction(httpMethod, url, isPopup, reg)
    ensures FunctionIndex(url).Some? && FunctionIndex(url).value in reg.functions
    ensures httpMethod == "POST" && !isPopup
  {
  }

  /** A URL whose query is the decimal text of an index yields that index. */
  lemma FunctionIndexOfQuery(base: string, index: int)
    requires IsInt32(index)
    requires '?' !in base && '#' !in base && Hierarchical(base)
    ensures FunctionIndex(base + "?" + IntToString(index)) == Some(index)
  {
    var url := base + "?" + IntToString(index);
    var digits := IntToString(index);
    assert Hierarchical(url) by {
      IntTextAvoids(index, ':');
      assert ':' !in "?" + digits;
      HierarchicalExtend(base, "?" + digits);
      assert url == base + ("?" + digits);
    }
    assert '#' !in digits by {
      if index < 0 {
        assert forall k :: 1 <= k < |digits| ==> digits[k] == NatToDigits(-index)[k - 1];
      }
    }
    assert '#' !in url;
    assert SplitFirst(url, '#')[0] == url;
    assert url[|base|] == '?';
    assert forall k :: 0 <= k < |base| ==> url[k] == base[k];
    assert FirstIndex(url, '?') == Some(|base|);
    assert url[|base| + 1..] == digits;
    assert UriQuery(url) == Some(digits);
    ParseIntToString(index);
  }

  /** A URL naming the function host, followed by "/?" and the decimal text
      of a registered index, is recognised as a call of that index. */
  lemma FunctionUrlRecognised(prefix: string, index: int, reg: Registry)
    requires '?' !in prefix && '#' !in prefix && Hierarchical(prefix)
    requires IsInt32(index) && index in reg.functions
    ensures FunctionIndex(prefix + FUNCTION_HOST + "/?" + IntToString(index)) == Some(index)
    ensures IsFunction("POST", prefix + FUNCTION_HOST + "/?" + IntToString(index), false, reg)
  {
    var digits := IntToString(index);
    HostBaseUnmarked(prefix);
    HierarchicalExtend(prefix, FUNCTION_HOST + "/");
    assert prefix + (FUNCTION_HOST + "/") == prefix + FUNCTION_HOST + "/";
    FunctionIndexOfQuery(prefix + FUNCTION_HOST + "/", index);
    UrlShape(prefix, digits);
    ContainsInfix(prefix, FUNCTION_HOST, "/?" + digits);
  }

  /** The part of such a URL before its '?' holds no '?' and no '#'. */
  lemma HostBaseUnmarked(prefix: string)
    requires '?' !in prefix && '#' !in prefix
    ensures '?' !in prefix + FUNCTION_HOST + "/" && '#' !in prefix + FUNCTION_HOST + "/"
  {
    var base := prefix + FUNCTION_HOST + "/";
    assert forall k :: 0 <= k < |base| ==> base[k] in prefix || base[k] in FUNCTION_HOST + "/";
  }

  lemma UrlShape(prefix: string, digits: string)
    ensures prefix + FUNCTION_HOST + "/" + "?" + digits == prefix + FUNCTION_HOST + "/?" + digits
    ensures prefix + FUNCTION_HOST + ("/?" + digits) == prefix + FUNCTION_HOST + "/?" + digits
  {
  }
}
