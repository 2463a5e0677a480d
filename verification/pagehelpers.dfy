/** Page-level helpers of the Chromium widget: the context-menu clean-up,
    the URL shown in debug output, the focus hand-over when the browser
    gives focus away, and the load that setUrl finally issues. */
module PageHelpers {
  import opened Wrappers
  import opened Seqs
  import ResourceHandler

  /** A context-menu entry: its label text, whether it is a separator, and
      whether it carries an accelerator. */
  datatype MenuItem = MenuItem(text: string, isSeparator: bool, hasAccelerator: bool)

  /** The entries clearExtraMenuItem removes by label: saving, casting, QR
      codes, the inspector and searching with Google, matched in the
      lower-cased label. */
  predicate IsExtra(item: MenuItem) {
    var text := Lower(item.text);
    || Contains(text, "save")
    || Contains(text, "cast")
    || Contains(text, "qr")
    || Contains(text, "nspect")
    || Contains(text, "search google")
  }

  /** The entries that survive the clean-up. */
  predicate Kept(item: MenuItem) {
    !IsExtra(item) && !item.isSeparator
  }

  /** The reference filter: the surviving entries, in menu order. */
  function KeptItems(menu: seq<MenuItem>): (r: seq<MenuItem>)
    ensures |r| <= |menu|
    ensures forall i :: 0 <= i < |r| ==> Kept(r[i])
    decreases |menu|
  {
    if |menu| == 0 then []
    else (if Kept(menu[0]) then [menu[0]] else []) + KeptItems(menu[1..])
  }

  /** The filter keeps exactly the surviving entries of the menu: each of
      its entries is one, and each surviving entry is among them. */
  lemma {:induction false} KeptItemsExact(menu: seq<MenuItem>, item: MenuItem)
    ensures item in KeptItems(menu) <==> item in menu && Kept(item)
    decreases |menu|
  {
    if |menu| > 0 {
      KeptItemsExact(menu[1..], item);
      assert menu == [menu[0]] + menu[1..];
    }
  }

  /** Filtering a suffix one entry longer. */
  lemma KeptItemsStep(menu: seq<MenuItem>, i: nat)
    requires i < |menu|
    ensures KeptItems(menu[i..]) == (if Kept(menu[i]) then [menu[i]] else []) + KeptItems(menu[i + 1..])
  {
    assert menu[i..][1..] == menu[i + 1..];
  }

  /** clearExtraMenuItem: walks the menu from the last entry to the first,
      removing each extra entry (with its accelerator) and each separator. */
  method ClearExtraMenuItems(menu: seq<MenuItem>) returns (r: seq<MenuItem>)
    ensures r == KeptItems(menu)
  {
    r := menu;
    var i := |menu|;
    while i > 0
      invariant 0 <= i <= |menu|
      invariant r == menu[..i] + KeptItems(menu[i..])
    {
      i := i - 1;
      ClearStep(menu, i, r);
      if IsExtra(r[i]) {
        r := r[..i] + r[i + 1..];
      } else if r[i].isSeparator {
        r := r[..i] + r[i + 1..];
      }
    }
    assert menu[0..] == menu;
  }

  /** One step of the backward walk: the entry at `i` is the menu's own,
      and removing it exactly when it does not survive extends the filtered
      suffix by one. */
  lemma ClearStep(menu: seq<MenuItem>, i: nat, r: seq<MenuItem>)
    requires i < |menu|
    requires r == menu[..i + 1] + KeptItems(menu[i + 1..])
    ensures i < |r| && r[i] == menu[i]
    ensures Kept(r[i]) ==> r == menu[..i] + KeptItems(menu[i..])
    ensures !Kept(r[i]) ==> r[..i] + r[i + 1..] == menu[..i] + KeptItems(menu[i..])
  {
    KeptItemsStep(menu, i);
    var tail := KeptItems(menu[i + 1..]);
    assert menu[..i + 1] == menu[..i] + [menu[i]];
    assert r == menu[..i] + [menu[i]] + tail;
    assert r[..i] == menu[..i] && r[i + 1..] == tail;
  }

  /** Cleaning a cleaned menu changes nothing. */
  lemma {:induction false} ClearingTwiceChangesNothing(menu: seq<MenuItem>)
    ensures KeptItems(KeptItems(menu)) == KeptItems(menu)
    decreases |menu|
  {
    if |menu| > 0 {
      ClearingTwiceChangesNothing(menu[1..]);
      var rest := KeptItems(menu[1..]);
      if Kept(menu[0]) {
        assert ([menu[0]] + rest)[1..] == rest;
      } else {
        assert [] + rest == rest;
      }
    }
  }

  const DATA_TEXT_URL: string := "data:text/html"
  const ABOUT_BLANK: string := "about:blank"
  const DATA_TEXT_BASE64_URL: string := DATA_TEXT_URL + ";base64,"

  /** getPlainUrl: the URL as it is shown in debug output. A page set from
      text (a base64 data URL) shows as the bare data URL; with the
      chromium.setTextAsUrl property set, a file in the browser's temporary
      folder (whose URI is `tempFolderUri`) shows as about:blank; any other
      URL, and a missing one, shows as it is. */
  function GetPlainUrl(url: Option<string>, setTextAsUrl: string, tempFolderUri: string): (r: Option<string>)
    ensures url.None? ==> r.None?
    ensures url.Some? ==> r.Some?
    ensures url.Some? && StartsWith(url.value, DATA_TEXT_BASE64_URL) ==> r == Some(DATA_TEXT_URL)
    ensures url.Some? && !StartsWith(url.value, DATA_TEXT_BASE64_URL) && !StartsWith(url.value, "file:") ==> r == url
    ensures r.Some? && r.value != url.value ==>
      (r.value == DATA_TEXT_URL && StartsWith(url.value, DATA_TEXT_BASE64_URL))
      || (r.value == ABOUT_BLANK && setTextAsUrl != "" && StartsWith(url.value, "file:"))
  {
    match url
    case None => None
    case Some(u) =>
      if StartsWith(u, DATA_TEXT_BASE64_URL) then Some(DATA_TEXT_URL)
      else if setTextAsUrl != "" && StartsWith(u, "file:") && Contains(u, tempFolderUri) then Some(ABOUT_BLANK)
      else url
  }

  /** A page set from text never shows its payload. */
  lemma PlainUrlHidesText(text: string, setTextAsUrl: string, tempFolderUri: string)
    ensures GetPlainUrl(Some(DATA_TEXT_BASE64_URL + text), setTextAsUrl, tempFolderUri) == Some(DATA_TEXT_URL)
  {
    var u := DATA_TEXT_BASE64_URL + text;
    assert u[..|DATA_TEXT_BASE64_URL|] == DATA_TEXT_BASE64_URL;
  }

  /** A web URL shows as it is. */
  lemma PlainUrlKeepsWebUrl(url: string, setTextAsUrl: string, tempFolderUri: string)
    requires StartsWith(url, "http")
    ensures GetPlainUrl(Some(url), setTextAsUrl, tempFolderUri) == Some(url)
  {
    assert url[0] == 'h';
  }

  /** Without the setTextAsUrl property a file URL shows as it is. */
  lemma PlainUrlKeepsFileUrl(url: string, tempFolderUri: string)
    requires StartsWith(url, "file:")
    ensures GetPlainUrl(Some(url), "", tempFolderUri) == Some(url)
  {
    assert url[0] == 'f';
  }

  /** A control in the parent's tab order. */
  type ControlId = nat

  /** Where onTakeFocus moves the focus: to the control at an index of the
      tab order, or nowhere. */
  datatype FocusMove = FocusAt(index: nat) | NoFocusChange

  /** The neighbour onTakeFocus tries first: the next or previous control
      in the tab order, when the browser is in it, the index is above 0 (the
      test is strict) and inside the list, and that control is not
      disposed. */
  function Neighbour(tabOrder: seq<ControlId>, self: ControlId, next: bool, disposed: set<ControlId>): (r: Option<nat>)
    ensures r.Some? ==> 0 < r.value < |tabOrder| && tabOrder[r.value] !in disposed
    ensures r.Some? ==> FirstIndex(tabOrder, self).Some?
    ensures r.Some? ==> r.value as int == FirstIndex(tabOrder, self).value + (if next then 1 else -1)
  {
    match FirstIndex(tabOrder, self)
    case None => None
    case Some(i) =>
      var n: int := if next then i + 1 else i - 1;
      if n > 0 && n < |tabOrder| && tabOrder[n] !in disposed then Some(n) else None
  }

  /** onTakeFocus: nothing when the browser is already disposed on entry
      (`disposedAtEntry`). Otherwise the neighbour when there is one, else
      the first control of the tab order unless it, the browser or its parent
      is disposed by the time the focus is moved (`hostDisposed`). None when
      the tab order is empty and reading its first control throws. */
  function TakeFocus(tabOrder: seq<ControlId>, self: ControlId, next: bool, disposed: set<ControlId>,
                     disposedAtEntry: bool, hostDisposed: bool): (r: Option<FocusMove>)
    ensures r.None? <==> !disposedAtEntry && |tabOrder| == 0
    ensures disposedAtEntry ==> r == Some(NoFocusChange)
    ensures r.Some? && r.value.FocusAt? ==> r.value.index < |tabOrder| && tabOrder[r.value.index] !in disposed
    ensures r.Some? && r.value.FocusAt? && r.value.index > 0 ==> Neighbour(tabOrder, self, next, disposed) == Some(r.value.index)
    ensures !disposedAtEntry && Neighbour(tabOrder, self, next, disposed).Some? ==>
      r == Some(FocusAt(Neighbour(tabOrder, self, next, disposed).value))
    ensures r == Some(NoFocusChange) <==>
      disposedAtEntry
      || (&& Neighbour(tabOrder, self, next, disposed).None? && |tabOrder| > 0
          && (hostDisposed || tabOrder[0] in disposed))
  {
    if disposedAtEntry then Some(NoFocusChange)
    else
      match Neighbour(tabOrder, self, next, disposed)
      case Some(n) => Some(FocusAt(n))
      case None =>
        if |tabOrder| == 0 then None
        else if !hostDisposed && tabOrder[0] !in disposed then Some(FocusAt(0))
        else Some(NoFocusChange)
  }

  /** Tabbing forward from the browser reaches the control after it. */
  lemma TabForwardReachesNext(tabOrder: seq<ControlId>, i: nat, disposed: set<ControlId>, hostDisposed: bool)
    requires i + 1 < |tabOrder| && tabOrder[i + 1] !in disposed
    requires tabOrder[i] !in tabOrder[..i]
    ensures TakeFocus(tabOrder, tabOrder[i], true, disposed, false, hostDisposed) == Some(FocusAt(i + 1))
  {
    FirstIndexAt(tabOrder, i);
  }

  /** Tabbing forward from the last control wraps round to the first. */
  lemma TabForwardFromLastWraps(tabOrder: seq<ControlId>, disposed: set<ControlId>)
    requires |tabOrder| > 0
    requires tabOrder[|tabOrder| - 1] !in tabOrder[..|tabOrder| - 1]
    requires tabOrder[0] !in disposed
    ensures TakeFocus(tabOrder, tabOrder[|tabOrder| - 1], true, disposed, false, false) == Some(FocusAt(0))
  {
    FirstIndexAt(tabOrder, |tabOrder| - 1);
  }

  /** Tabbing back from the second control does not count the first as a
      neighbour (index 0 fails the strict test): the first control gets the
      focus only through the fallback, so not when the host is disposed. */
  lemma TabBackFromSecond(tabOrder: seq<ControlId>, disposed: set<ControlId>, hostDisposed: bool)
    requires |tabOrder| >= 2 && tabOrder[1] != tabOrder[0]
    ensures TakeFocus(tabOrder, tabOrder[1], false, disposed, false, hostDisposed)
            == Some(if !hostDisposed && tabOrder[0] !in disposed then FocusAt(0) else NoFocusChange)
  {
    assert tabOrder[..1] == [tabOrder[0]];
    FirstIndexAt(tabOrder, 1);
  }

  /** The first occurrence of an element is found where it is. */
  lemma FirstIndexAt(s: seq<ControlId>, i: nat)
    requires i < |s| && s[i] !in s[..i]
    ensures FirstIndex(s, s[i]) == Some(i)
  {
    forall k | 0 <= k < i
      ensures s[k] != s[i]
    {
      assert s[..i][k] == s[k];
    }
    FirstIndexIs(s, s[i], i);
  }

  type byte = ResourceHandler.byte

  /** `String.getBytes` in ASCII: a character outside ASCII becomes '?'. */
  function AsciiBytes(s: string): (r: seq<byte>)
    ensures |r| == |s|
    ensures forall i :: 0 <= i < |s| && s[i] as int < 128 ==> r[i] as int == s[i] as int
    ensures forall i :: 0 <= i < |s| && s[i] as int >= 128 ==> r[i] as int == '?' as int
  {
    seq(|s|, i requires 0 <= i < |s| => if s[i] as int < 128 then s[i] as int as byte else '?' as int as byte)
  }

  /** Reading bytes back as characters. */
  function AsciiChars(b: seq<byte>): (r: string)
    ensures |r| == |b|
  {
    seq(|b|, i requires 0 <= i < |b| => b[i] as int as char)
  }

  /** ASCII post data reaches the request unchanged. */
  lemma AsciiRoundTrip(s: string)
    requires forall i :: 0 <= i < |s| ==> s[i] as int < 128
    ensures AsciiChars(AsciiBytes(s)) == s
  {
  }

  /** The key of a header line: the part before its first ':'. */
  function HeaderKey(line: string): string {
    SplitFirst(line, ':')[0]
  }

  /** The value of a header line: everything after its first ':'. */
  function HeaderValue(line: string): string
    requires ':' in line
  {
    SplitFirst(line, ':')[1]
  }

  /** The header map doSetUrl builds from "key:value" lines, split at the
      first ':' only. None when a line has no ':' (its value cannot be read)
      or two lines have the same key (collecting into a map throws). */
  function HeaderMap(lines: seq<string>): (r: Option<map<string, string>>)
    ensures r.Some? ==> forall i :: 0 <= i < |lines| ==> ':' in lines[i]
    ensures r.Some? ==> forall i :: 0 <= i < |lines| ==> HeaderKey(lines[i]) in r.value
    ensures r.Some? ==> forall i :: 0 <= i < |lines| ==> r.value[HeaderKey(lines[i])] == HeaderValue(lines[i])
    decreases |lines|
  {
    if |lines| == 0 then Some(map[])
    else
      var rest := lines[1..];
      assert forall i :: 0 <= i < |rest| ==> rest[i] == lines[i + 1];
      if ':' !in lines[0] then None
      else
        match HeaderMap(rest)
        case None => None
        case Some(m) =>
          var key := HeaderKey(lines[0]);
          if key in m then None else Some(m[key := HeaderValue(lines[0])])
  }

  /** Some line carries `key`. */
  predicate KeyAmong(key: string, lines: seq<string>) {
    exists i :: 0 <= i < |lines| && HeaderKey(lines[i]) == key
  }

  /** Every line has a ':'. */
  predicate ColonInEvery(lines: seq<string>) {
    forall i :: 0 <= i < |lines| ==> ':' in lines[i]
  }

  /** No two lines carry the same key. */
  predicate KeysDistinct(lines: seq<string>) {
    forall i, j :: 0 <= i < j < |lines| ==> HeaderKey(lines[i]) != HeaderKey(lines[j])
  }

  /** The keys of the header map are exactly the keys of the lines. */
  lemma {:induction false} HeaderMapDomain(lines: seq<string>)
    requires HeaderMap(lines).Some?
    ensures forall key :: key in HeaderMap(lines).value <==> KeyAmong(key, lines)
    decreases |lines|
  {
    if |lines| > 0 {
      var rest := lines[1..];
      HeaderMapDomain(rest);
      forall key | key in HeaderMap(lines).value
        ensures KeyAmong(key, lines)
      {
        if key != HeaderKey(lines[0]) {
          var i :| 0 <= i < |rest| && HeaderKey(rest[i]) == key;
          assert lines[i + 1] == rest[i];
        } else {
          assert HeaderKey(lines[0]) == key;
        }
      }
    }
  }

  /** The two conditions on lines, split into the first line and the rest. */
  lemma HeaderLinesCons(lines: seq<string>)
    requires |lines| > 0
    ensures ColonInEvery(lines) <==> ':' in lines[0] && ColonInEvery(lines[1..])
    ensures KeysDistinct(lines) <==> KeysDistinct(lines[1..]) && !KeyAmong(HeaderKey(lines[0]), lines[1..])
  {
    var rest := lines[1..];
    assert forall i :: 0 <= i < |rest| ==> rest[i] == lines[i + 1];
    if KeyAmong(HeaderKey(lines[0]), rest) {
      var i :| 0 <= i < |rest| && HeaderKey(rest[i]) == HeaderKey(lines[0]);
      assert HeaderKey(lines[0]) == HeaderKey(lines[i + 1]);
    }
    if KeysDistinct(rest) && !KeyAmong(HeaderKey(lines[0]), rest) {
      forall i, j | 0 <= i < j < |lines|
        ensures HeaderKey(lines[i]) != HeaderKey(lines[j])
      {
        if i == 0 {
          assert lines[j] == rest[j - 1];
        } else {
          assert lines[i] == rest[i - 1] && lines[j] == rest[j - 1];
        }
      }
    }
  }

  /** The header map is built exactly when every line has a ':' and no two
      lines have the same key. */
  lemma {:induction false} HeaderMapDefined(lines: seq<string>)
    ensures HeaderMap(lines).Some? <==> ColonInEvery(lines) && KeysDistinct(lines)
    decreases |lines|
  {
    if |lines| > 0 {
      var rest := lines[1..];
      HeaderMapDefined(rest);
      HeaderLinesCons(lines);
      if HeaderMap(rest).Some? {
        HeaderMapDomain(rest);
      }
    }
  }

  /** "name:value" lines with distinct names give back each name's value,
      even when the value itself holds ':'. */
  lemma HeaderLinesRoundTrip(names: seq<string>, values: seq<string>)
    requires |names| == |values|
    requires forall i :: 0 <= i < |names| ==> ':' !in names[i]
    requires forall i, j :: 0 <= i < j < |names| ==> names[i] != names[j]
    ensures var lines := seq(|names|, i requires 0 <= i < |names| => names[i] + ":" + values[i]);
      && HeaderMap(lines).Some?
      && forall i :: 0 <= i < |names| ==>
        names[i] in HeaderMap(lines).value && HeaderMap(lines).value[names[i]] == values[i]
  {
    var lines := seq(|names|, i requires 0 <= i < |names| => names[i] + ":" + values[i]);
    forall i | 0 <= i < |names|
      ensures ':' in lines[i] && HeaderKey(lines[i]) == names[i] && HeaderValue(lines[i]) == values[i]
    {
      HeaderLine(names[i], values[i]);
    }
    HeaderMapDefined(lines);
  }

  /** One "name:value" line splits back into its name and value. */
  lemma HeaderLine(name: string, value: string)
    requires ':' !in name
    ensures var line := name + ":" + value;
      ':' in line && HeaderKey(line) == name && HeaderValue(line) == value
  {
    var line := name + ":" + value;
    assert forall k :: 0 <= k < |name| ==> line[k] == name[k];
    FirstIndexIs(line, ':', |name|);
    assert line[..|name|] == name && line[|name| + 1..] == value;
  }

  /** What doSetUrl asks the browser to do: load a URL, or load a request
      with post data and headers. */
  datatype Load =
    | LoadUrl(url: string)
    | LoadRequest(url: string, postData: Option<seq<byte>>, headers: Option<map<string, string>>)

  /** doSetUrl: a plain load when there is neither post data nor headers, or
      when the URL is a file; otherwise a request carrying the post data as
      ASCII bytes and the header map. None when building the header map
      throws. */
  function DoSetUrl(url: string, postData: Option<string>, headers: Option<seq<string>>): (r: Option<Load>)
    ensures (postData.None? && headers.None?) || StartsWith(url, "file:") ==> r == Some(LoadUrl(url))
    ensures r.None? <==>
      !((postData.None? && headers.None?) || StartsWith(url, "file:"))
      && headers.Some? && HeaderMap(headers.value).None?
    ensures r.Some? && r.value.LoadRequest? ==>
      && r.value.url == url
      && r.value.postData == (if postData.Some? then Some(AsciiBytes(postData.value)) else None)
      && r.value.headers == (if headers.Some? then HeaderMap(headers.value) else None)
  {
    if (postData.None? && headers.None?) || StartsWith(url, "file:") then Some(LoadUrl(url))
    else
      var body := match postData
        case None => None
        case Some(text) => Some(AsciiBytes(text));
      match headers
      case None => Some(LoadRequest(url, body, None))
      case Some(lines) =>
        match HeaderMap(lines)
        case None => None
        case Some(m) => Some(LoadRequest(url, body, Some(m)))
  }

  /** A request set with ASCII post data and `name:value` header lines of
      distinct names carries the post data byte for byte and maps each name
      to its value. */
  lemma SetUrlCarriesRequest(url: string, text: string, names: seq<string>, values: seq<string>)
    requires !StartsWith(url, "file:")
    requires forall i :: 0 <= i < |text| ==> text[i] as int < 128
    requires |names| == |values|
    requires forall i :: 0 <= i < |names| ==> ':' !in names[i]
    requires forall i, j :: 0 <= i < j < |names| ==> names[i] != names[j]
    ensures var lines := seq(|names|, i requires 0 <= i < |names| => names[i] + ":" + values[i]);
      var r := DoSetUrl(url, Some(text), Some(lines));
      && r.Some? && r.value.LoadRequest? && r.value.url == url
      && r.value.postData.Some? && AsciiChars(r.value.postData.value) == text
      && r.value.headers.Some?
      && forall i :: 0 <= i < |names| ==>
        names[i] in r.value.headers.value && r.value.headers.value[names[i]] == values[i]
  {
    AsciiRoundTrip(text);
    HeaderLinesRoundTrip(names, values);
  }
}
