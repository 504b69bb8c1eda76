/** rh_parse_url: a URL text is split into scheme, host, port and URI. */
module Urls {
  import opened CStrings
  import opened Numbers

  const MAX_CHAR_ON_HOST := 253
  const MAX_URI_LENGTH := 1024

  datatype Url = Url(secured: bool, host: CString, port: nat, uri: CString)

  predicate EndsHost(c: char) {
    c == '/' || c == '?' || c == '#' || c == ':'
  }

  predicate HostText(s: seq<char>) {
    forall k :: 0 <= k < |s| ==> !EndsHost(s[k])
  }

  /** The length of the host at the beginning of the text. */
  function HostLength(s: seq<char>): (n: nat)
    ensures n <= |s| && (n < |s| ==> EndsHost(s[n]))
    ensures forall k :: 0 <= k < n ==> !EndsHost(s[k])
  {
    if s == [] || EndsHost(s[0]) then 0 else 1 + HostLength(s[1..])
  }

  function DefaultPort(secured: bool): nat {
    if secured then 443 else 80
  }

  function Scheme(secured: bool): CString {
    if secured then "https://" else "http://"
  }

  /** The port behind a colon: at most 7 digits are read, zero means the default, and a text without
      digits or a number above 65535 is an error. */
  function PortOf(digits: CString, default: nat): Option<nat> {
    var n := StrToUint64(digits);
    if n > 0xFFFF then None else if n == 0 then Some(default) else Some(n)
  }

  /** What is left behind host and port: the URI up to a fragment, `/` if there is none. */
  function UriOf(s: CString): Option<CString> {
    if s != [] && !EndsHost(s[0]) then None
    else
      var n := Span(s, '#');
      if n > MAX_URI_LENGTH then None else if n == 0 then Some("/") else Some(s[..n])
  }

  function AuthorityOf(secured: bool, s: CString): Option<Url> {
    var n := HostLength(s);
    if n > MAX_CHAR_ON_HOST then None
    else
      var host, rest := s[..n], s[n..];
      if rest == [] || rest[0] != ':' then
        match UriOf(rest)
        case None => None
        case Some(uri) => Some(Url(secured, host, DefaultPort(secured), uri))
      else
        var digits := LeadingDigits(rest[1..], 7);
        match PortOf(digits, DefaultPort(secured))
        case None => None
        case Some(port) =>
          match UriOf(rest[1 + |digits|..])
          case None => None
          case Some(uri) => Some(Url(secured, host, port, uri))
  }

  /** The result of rh_parse_url. */
  function UrlOf(url: CString): Option<Url> {
    if "https://" <= url then AuthorityOf(true, url[8..])
    else if "http://" <= url then AuthorityOf(false, url[7..])
    else None
  }

  // ------------------------------------------------------------------------------------------
  // The parser

  class UrlSplitted {
    const host: array<char>
    const uri: array<char>
    var port: nat
    var secured: bool

    constructor ()
      ensures host.Length == MAX_CHAR_ON_HOST + 1 && uri.Length == MAX_URI_LENGTH + 1 && host != uri
      ensures fresh(host) && fresh(uri)
    {
      host, uri := new char[MAX_CHAR_ON_HOST + 1], new char[MAX_URI_LENGTH + 1];
      port, secured := 0, false;
    }

    ghost predicate Valid() {
      host.Length == MAX_CHAR_ON_HOST + 1 && uri.Length == MAX_URI_LENGTH + 1 && host != uri
    }

    ghost predicate Holds(u: Url)
      reads this, host, uri
    {
      && Valid() && secured == u.secured && port == u.port
      && Terminated(host[..]) && CStr(host[..]) == u.host
      && Terminated(uri[..]) && CStr(uri[..]) == u.uri
    }
  }

  method CopyHost(host: array<char>, url: CString, p: nat) returns (n: nat)
    requires host.Length == MAX_CHAR_ON_HOST + 1 && p <= |url|
    modifies host
    ensures n == (if HostLength(url[p..]) < MAX_CHAR_ON_HOST then HostLength(url[p..]) else MAX_CHAR_ON_HOST)
    ensures Terminated(host[..]) && CStr(host[..]) == url[p..p + n]
  {
    n := 0;
    ghost var s := url[p..];
    assert s[0..] == s;
    while n < MAX_CHAR_ON_HOST && At(url, p + n) != '\0' && !EndsHost(At(url, p + n))
      invariant n <= MAX_CHAR_ON_HOST && p + n <= |url|
      invariant forall k :: 0 <= k < n ==> host[k] == s[k] && !EndsHost(s[k])
      decreases MAX_CHAR_ON_HOST - n
    {
      assert s[n] == url[p + n];
      host[n] := url[p + n];
      n := n + 1;
    }
    host[n] := '\0';
    assert n < |s| ==> s[n] == url[p + n];
    assert host[..][..n] == s[..n] == url[p..p + n];
    CStrUnique(host[..], n);
  }

  /** At most 7 digits are copied. */
  method CopyPort(url: CString, p: nat) returns (portStr: array<char>, n: nat)
    requires p <= |url|
    ensures fresh(portStr) && portStr.Length == 8
    ensures Terminated(portStr[..]) && CStr(portStr[..]) == LeadingDigits(url[p..], 7)
    ensures n == |LeadingDigits(url[p..], 7)| && p + n <= |url|
  {
    portStr := new char[8];
    n := 0;
    ghost var s := url[p..];
    while n < 7 && IsDigit(At(url, p + n))
      invariant n <= 7 && p + n <= |url|
      invariant forall k :: 0 <= k < n ==> portStr[k] == s[k] && IsDigit(s[k])
      decreases 7 - n
    {
      assert s[n] == url[p + n];
      portStr[n] := url[p + n];
      n := n + 1;
    }
    portStr[n] := '\0';
    assert n < |s| ==> s[n] == url[p + n];
    assert portStr[..][..n] == s[..n];
    LeadingDigitsAre(s, 7, n);
    CStrUnique(portStr[..], n);
  }

  /** The URI is copied up to a fragment; an empty one becomes `/`. */
  method CopyUri(uri: array<char>, url: CString, p0: nat) returns (p: nat)
    requires uri.Length == MAX_URI_LENGTH + 1 && p0 <= |url|
    modifies uri
    ensures p0 <= p <= |url|
    ensures var n := Span(url[p0..], '#');
            && p == p0 + (if n < MAX_URI_LENGTH then n else MAX_URI_LENGTH)
            && (n <= MAX_URI_LENGTH ==> Terminated(uri[..]) && CStr(uri[..]) == if n == 0 then "/" else url[p0..][..n])
  {
    p := p0;
    ghost var s := url[p0..];
    var i := 0;
    while i < MAX_URI_LENGTH && At(url, p) != '\0' && At(url, p) != '#'
      invariant i <= MAX_URI_LENGTH && p == p0 + i <= |url|
      invariant forall k :: 0 <= k < i ==> uri[k] == s[k] && s[k] != '#'
      decreases MAX_URI_LENGTH - i
    {
      assert s[i] == url[p];
      uri[i] := url[p];
      i := i + 1;
      p := p + 1;
    }
    assert i < |s| ==> s[i] == url[p];
    SpanIs(s, '#', i);
    ghost var n := i;
    if i == 0 {
      uri[i] := '/';
      i := i + 1;
    }
    uri[i] := '\0';
    assert uri[..][..i] == if n == 0 then "/" else s[..n];
    CStrUnique(uri[..], i);
  }

  method ParseUrl(url: CString, out: UrlSplitted) returns (ok: bool)
    requires out.Valid()
    modifies out, out.host, out.uri
    ensures ok == UrlOf(url).Some?
    ensures ok ==> out.Holds(UrlOf(url).value)
  {
    hide Terminated, CStr, LeadingDigits, Span, HostLength, PortOf;
    var p;
    var https := StartsWith(url, "https://");
    var http := StartsWith(url, "http://");
    CStrOfCString(url);
    if https {
      out.secured := true;
      out.port := 443;
      p := 8;
    } else if http {
      out.secured := false;
      out.port := 80;
      p := 7;
    } else {
      return false;
    }
    ok := ParseAuthority(url, p, out);
  }

  /** The rest of rh_parse_url, behind the scheme. */
  method ParseAuthority(url: CString, p0: nat, out: UrlSplitted) returns (ok: bool)
    requires out.Valid() && p0 <= |url| && out.port == DefaultPort(out.secured)
    modifies out`port, out.host, out.uri
    ensures ok == AuthorityOf(out.secured, url[p0..]).Some?
    ensures ok ==> out.Holds(AuthorityOf(out.secured, url[p0..]).value)
  {
    hide Terminated, CStr, LeadingDigits, HostLength, AuthorityOf, PortOf, UriOf, StrToUint64;
    ghost var s := url[p0..];
    var n := CopyHost(out.host, url, p0);
    var p := p0 + n;
    assert s[n..] == url[p..];
    assert n < |s| ==> s[n] == url[p];
    if At(url, p) == ':' {
      p := p + 1;
      var portStr, digits := CopyPort(url, p);
      assert s[n + 1..] == url[p..];
      AuthorityWithPort(out.secured, s, n);
      var tempPort := ReadUint64(portStr[..]);
      PortOfParts(LeadingDigits(url[p..], 7), DefaultPort(out.secured));
      if tempPort > 0xFFFF {
        return false;
      }
      if tempPort != 0 {
        out.port := tempPort;
      }
      p := p + digits;
      assert s[n + 1 + digits..] == url[p..];
    } else {
      AuthorityWithoutPort(out.secured, s, n);
    }
    ok := ParseUri(url, p, out.uri);
  }

  /** The URI part: refused unless it begins with a delimiter and fits the buffer. */
  method ParseUri(url: CString, p0: nat, uri: array<char>) returns (ok: bool)
    requires uri.Length == MAX_URI_LENGTH + 1 && p0 <= |url|
    modifies uri
    ensures ok == UriOf(url[p0..]).Some?
    ensures ok ==> Terminated(uri[..]) && CStr(uri[..]) == UriOf(url[p0..]).value
  {
    hide Terminated, CStr, Span;
    ghost var s := url[p0..];
    assert s != [] ==> s[0] == url[p0];
    if At(url, p0) != '\0' && !EndsHost(At(url, p0)) {
      return false;
    }
    var p := CopyUri(uri, url, p0);
    assert p < |url| ==> s[p - p0] == url[p];
    return At(url, p) == '\0' || At(url, p) == '#';
  }

  lemma PortOfParts(digits: CString, default: nat)
    ensures var n := StrToUint64(digits);
            PortOf(digits, default) == if n > 0xFFFF then None else if n == 0 then Some(default) else Some(n)
  {
  }

  lemma AuthorityWithoutPort(secured: bool, s: CString, n: nat)
    requires n == if HostLength(s) < MAX_CHAR_ON_HOST then HostLength(s) else MAX_CHAR_ON_HOST
    requires n < |s| ==> s[n] != ':'
    ensures AuthorityOf(secured, s) ==
              match UriOf(s[n..])
              case None => None
              case Some(uri) => Some(Url(secured, s[..n], DefaultPort(secured), uri))
  {
    hide HostLength, Span;
  }

  lemma AuthorityWithPort(secured: bool, s: CString, n: nat)
    requires n == HostLength(s) <= MAX_CHAR_ON_HOST && n < |s| && s[n] == ':'
    ensures var digits := LeadingDigits(s[n + 1..], 7);
            AuthorityOf(secured, s) ==
              match PortOf(digits, DefaultPort(secured))
              case None => None
              case Some(port) =>
                match UriOf(s[n + 1 + |digits|..])
                case None => None
                case Some(uri) => Some(Url(secured, s[..n], port, uri))
  {
    hide HostLength, UriOf, LeadingDigits, PortOf;
    assert s[n..][1..] == s[n + 1..];
    var digits := LeadingDigits(s[n + 1..], 7);
    assert s[n + 1..][|digits|..] == s[n + 1 + |digits|..];
  }

  // ------------------------------------------------------------------------------------------
  // Accepting loses nothing, and every written URL is accepted

  /** The text of a port: nothing for the default, or a colon and up to 7 digits; 0 is the default too. */
  predicate PortText(text: CString, secured: bool, port: nat) {
    if text == [] then port == DefaultPort(secured)
    else
      && text[0] == ':' && 2 <= |text| <= 8 && AllDigits(text[1..])
      && DecimalValue(text[1..]) <= 0xFFFF
      && port == if DecimalValue(text[1..]) == 0 then DefaultPort(secured) else DecimalValue(text[1..])
  }

  /** The text of a URI, empty for `/`. A colon may only follow a port. */
  predicate UriText(text: CString, uri: CString, portText: CString) {
    && uri == (if text == [] then "/" else text)
    && |text| <= MAX_URI_LENGTH && '#' !in text
    && (text != [] ==> EndsHost(text[0]) && (text[0] == ':' ==> portText != []))
  }

  /** These are the parts of a URL's text, whole and in order. */
  predicate Written(url: CString, u: Url, portText: CString, uriText: CString, fragment: CString) {
    && url == Scheme(u.secured) + (u.host + (portText + (uriText + fragment)))
    && HostText(u.host) && |u.host| <= MAX_CHAR_ON_HOST
    && PortText(portText, u.secured, u.port)
    && UriText(uriText, u.uri, portText)
    && (fragment != [] ==> fragment[0] == '#')
  }

  lemma ReadSevenDigits(s: CString)
    requires AllDigits(s) && |s| <= 7
    ensures StrToUint64(s) == if s == [] then UINT64_MAX else DecimalValue(s)
  {
    DigitsBound(s, 7);
    assert Pow10(7) == 10 * (10 * (10 * (10 * (10 * (10 * (10 * Pow10(0)))))));
  }

  lemma {:induction false} HostLengthIs(s: seq<char>, n: nat)
    requires n <= |s| && HostText(s[..n]) && (n < |s| ==> EndsHost(s[n]))
    ensures HostLength(s) == n
    decreases n
  {
    if n > 0 {
      assert !EndsHost(s[..n][0]);
      assert s[1..][..n - 1] == s[..n][1..];
      HostLengthIs(s[1..], n - 1);
    }
  }

  /** The URI part alone: accepted if and only if it is URI text and a fragment. */
  lemma UriParts(s: CString, uriText: CString, fragment: CString)
    requires s == uriText + fragment && '#' !in uriText && (fragment != [] ==> fragment[0] == '#')
    ensures UriOf(s) == if |uriText| <= MAX_URI_LENGTH && (uriText != [] ==> EndsHost(uriText[0]))
                        then Some(if uriText == [] then "/" else uriText) else None
  {
    SpanIs(s, '#', |uriText|);
    assert s[..|uriText|] == uriText;
  }

  lemma HostOf(host: CString, rest: CString)
    requires HostText(host) && (rest != [] ==> EndsHost(rest[0]))
    ensures var s := host + rest; HostLength(s) == |host| && s[..|host|] == host && s[|host|..] == rest
  {
    hide HostLength;
    var s := host + rest;
    assert s[..|host|] == host;
    HostLengthIs(s, |host|);
  }

  lemma PortReads(text: CString, secured: bool, port: nat, tail: CString)
    requires PortText(text, secured, port) && text != [] && (tail != [] ==> EndsHost(tail[0]))
    ensures var digits := text[1..];
            && text == ":" + digits && LeadingDigits(digits + tail, 7) == digits
            && PortOf(digits, DefaultPort(secured)) == Some(port)
  {
    hide LeadingDigits, StrToUint64, DecimalValue;
    var digits := text[1..];
    var s := digits + tail;
    assert s[..|digits|] == digits;
    LeadingDigitsAre(s, 7, |digits|);
    ReadSevenDigits(digits);
  }

  lemma HostWithoutPort(secured: bool, s: CString, host: CString, tail: CString)
    requires s == host + tail && HostText(host) && |host| <= MAX_CHAR_ON_HOST
    requires tail != [] ==> EndsHost(tail[0]) && tail[0] != ':'
    ensures AuthorityOf(secured, s) ==
              match UriOf(tail)
              case None => None
              case Some(uri) => Some(Url(secured, host, DefaultPort(secured), uri))
  {
    hide AuthorityOf, HostLength, UriOf, HostText;
    HostOf(host, tail);
    AuthorityWithoutPort(secured, s, |host|);
  }

  lemma HostWithPort(secured: bool, s: CString, host: CString, digits: CString, tail: CString)
    requires s == host + (":" + (digits + tail)) && LeadingDigits(digits + tail, 7) == digits
    requires HostText(host) && |host| <= MAX_CHAR_ON_HOST
    ensures AuthorityOf(secured, s) ==
              match PortOf(digits, DefaultPort(secured))
              case None => None
              case Some(port) =>
                match UriOf(tail)
                case None => None
                case Some(uri) => Some(Url(secured, host, port, uri))
  {
    hide AuthorityOf, HostLength, UriOf, LeadingDigits, PortOf, HostText;
    var n := |host|;
    HostOf(host, ":" + (digits + tail));
    AuthorityWithPort(secured, s, n);
    assert s[..n] == host && s[n + 1..] == digits + tail && s[n + 1 + |digits|..] == tail;
  }

  /** Behind a written host and port the URI part alone decides. */
  lemma OriginParses(secured: bool, host: CString, port: nat, portText: CString, tail: CString)
    requires HostText(host) && |host| <= MAX_CHAR_ON_HOST && PortText(portText, secured, port)
    requires tail != [] ==> EndsHost(tail[0]) && (tail[0] == ':' ==> portText != [])
    ensures UrlOf(Scheme(secured) + (host + (portText + tail))) ==
            match UriOf(tail)
            case None => None
            case Some(uri) => Some(Url(secured, host, port, uri))
  {
    hide AuthorityOf, UriOf, LeadingDigits, PortOf, PortText, HostText, UrlOf, Scheme;
    var rest := portText + tail;
    var s := host + rest;
    SchemeOf(Scheme(secured) + s, secured, s);
    PortTextStarts(portText, secured, port);
    if portText == [] {
      assert rest == tail;
      HostWithoutPort(secured, s, host, tail);
    } else {
      var digits := portText[1..];
      PortReads(portText, secured, port, tail);
      assert rest == ":" + (digits + tail);
      HostWithPort(secured, s, host, digits, tail);
    }
  }

  lemma PortTextStarts(text: CString, secured: bool, port: nat)
    requires PortText(text, secured, port)
    ensures if text == [] then port == DefaultPort(secured) else text[0] == ':'
  {
  }

  lemma WrittenIsAccepted(url: CString, u: Url, portText: CString, uriText: CString, fragment: CString)
    requires Written(url, u, portText, uriText, fragment)
    ensures UrlOf(url) == Some(u)
  {
    hide AuthorityOf, UriOf, UrlOf, PortText, HostText;
    var tail := uriText + fragment;
    UriParts(tail, uriText, fragment);
    OriginParses(u.secured, u.host, u.port, portText, tail);
  }

  lemma SchemeOf(url: CString, secured: bool, s: CString)
    requires url == Scheme(secured) + s
    ensures UrlOf(url) == AuthorityOf(secured, s)
  {
    hide AuthorityOf;
    assert url[|Scheme(secured)|..] == s;
    assert url[4] == Scheme(secured)[4];
  }

  lemma HostFits(secured: bool, s: CString)
    requires AuthorityOf(secured, s).Some?
    ensures HostLength(s) <= MAX_CHAR_ON_HOST
  {
  }

  lemma UriSplits(s: CString) returns (uriText: CString, fragment: CString)
    requires UriOf(s).Some?
    ensures s == uriText + fragment && '#' !in uriText && (fragment != [] ==> fragment[0] == '#')
    ensures |uriText| <= MAX_URI_LENGTH && (uriText != [] ==> EndsHost(uriText[0]))
    ensures UriOf(s) == Some(if uriText == [] then "/" else uriText)
  {
    hide UriOf, Span;
    var m := Span(s, '#');
    uriText, fragment := s[..m], s[m..];
    UriParts(s, uriText, fragment);
  }

  lemma PortSplits(s: CString, n: nat, secured: bool, port: nat) returns (text: CString, tail: CString)
    requires n < |s| && s[n] == ':'
    requires PortOf(LeadingDigits(s[n + 1..], 7), DefaultPort(secured)) == Some(port)
    ensures PortText(text, secured, port) && text != [] && s[n..] == text + tail
    ensures tail == s[n + 1 + |LeadingDigits(s[n + 1..], 7)|..]
  {
    hide LeadingDigits, StrToUint64, DecimalValue;
    var digits := LeadingDigits(s[n + 1..], 7);
    ReadSevenDigits(digits);
    text, tail := ":" + digits, s[n + 1 + |digits|..];
    assert text[1..] == digits;
    assert s[n + 1..] == digits + tail;
  }

  lemma AuthorityParts(secured: bool, s: CString, u: Url)
    returns (portText: CString, uriText: CString, fragment: CString)
    requires AuthorityOf(secured, s) == Some(u)
    ensures u.secured == secured && Written(Scheme(secured) + s, u, portText, uriText, fragment)
  {
    hide AuthorityOf, UriOf, HostLength, LeadingDigits, PortOf, StrToUint64, DecimalValue, PortText, Written, UriText;
    var n := HostLength(s);
    HostFits(secured, s);
    var rest, tail := s[n..], s[n..];
    if n < |s| && s[n] == ':' {
      AuthorityWithPort(secured, s, n);
      portText, tail := PortSplits(s, n, secured, u.port);
    } else {
      AuthorityWithoutPort(secured, s, n);
      portText := [];
      NoPort(secured);
      assert rest == portText + tail;
    }
    uriText, fragment := UriSplits(tail);
    Assemble(s, u, portText, uriText, fragment, rest, tail);
  }

  lemma Assemble(s: CString, u: Url, portText: CString, uriText: CString, fragment: CString,
                 rest: CString, tail: CString)
    requires HostText(u.host) && |u.host| <= MAX_CHAR_ON_HOST && |u.host| <= |s|
    requires s[..|u.host|] == u.host && s[|u.host|..] == rest
    requires rest == portText + tail && tail == uriText + fragment
    requires PortText(portText, u.secured, u.port)
    requires |uriText| <= MAX_URI_LENGTH && '#' !in uriText && (fragment != [] ==> fragment[0] == '#')
    requires uriText != [] ==> EndsHost(uriText[0])
    requires portText == [] && rest != [] ==> rest[0] != ':'
    requires u.uri == if uriText == [] then "/" else uriText
    ensures Written(Scheme(u.secured) + s, u, portText, uriText, fragment)
  {
    hide PortText;
    assert s == u.host + rest;
  }

  lemma NoPort(secured: bool)
    ensures PortText([], secured, DefaultPort(secured))
  {
  }

  lemma AcceptedIsWritten(url: CString, u: Url) returns (portText: CString, uriText: CString, fragment: CString)
    requires UrlOf(url) == Some(u)
    ensures Written(url, u, portText, uriText, fragment)
  {
    hide AuthorityOf, Written;
    var secured := "https://" <= url;
    var s := url[|Scheme(secured)|..];
    assert url == Scheme(secured) + s;
    portText, uriText, fragment := AuthorityParts(secured, s, u);
  }

  /** rh_parse_url accepts a text as u if and only if the text is that of u: nothing is cut off. */
  lemma AcceptsExactlyTheWritten(url: CString, u: Url)
    ensures UrlOf(url) == Some(u) <==>
            exists portText: CString, uriText: CString, fragment: CString ::
              Written(url, u, portText, uriText, fragment)
  {
    hide UrlOf, Written;
    if UrlOf(url) == Some(u) {
      var portText, uriText, fragment := AcceptedIsWritten(url, u);
    }
    forall portText: CString, uriText: CString, fragment: CString | Written(url, u, portText, uriText, fragment)
      ensures UrlOf(url) == Some(u)
    {
      WrittenIsAccepted(url, u, portText, uriText, fragment);
    }
  }

  // ------------------------------------------------------------------------------------------
  // Usual URLs, with every limit

  /** None of the characters that end a host. */
  predicate HostName(s: seq<char>) {
    '/' !in s && '?' !in s && '#' !in s && ':' !in s
  }

  lemma HostNameIsText(s: seq<char>)
    ensures HostName(s) <==> HostText(s)
  {
  }

  lemma LongHost(secured: bool, s: CString, host: CString, rest: CString)
    requires s == host + rest && HostText(host) && (rest != [] ==> EndsHost(rest[0])) && |host| > 253
    ensures AuthorityOf(secured, s) == None
  {
    hide HostLength, HostText, EndsHost;
    HostOf(host, rest);
  }

  /** A URI, which may be empty, and a fragment, which may be empty. */
  predicate UriAndFragment(uri: seq<char>, fragment: seq<char>) {
    '#' !in uri && (fragment != [] ==> fragment[0] == '#')
  }

  lemma UriRead(uri: CString, fragment: CString)
    requires UriAndFragment(uri, fragment)
    ensures UriOf(uri + fragment) ==
            if |uri| <= 1024 && (uri == [] || uri[0] in {'/', '?', ':'}) then Some(if uri == [] then "/" else uri)
            else None
  {
    hide UriOf;
    UriParts(uri + fragment, uri, fragment);
  }

  /** Without a port: 443 for https and 80 for http, a host of at most 253 characters, a URI of at most 1024,
      `/` if it is empty, and any fragment, which is dropped. */
  lemma UsualUrl(secured: bool, host: CString, uri: CString, fragment: CString)
    requires HostName(host) && UriAndFragment(uri, fragment) && (uri == [] || uri[0] == '/' || uri[0] == '?')
    ensures UrlOf((if secured then "https://" else "http://") + (host + (uri + fragment))) ==
            if |host| <= 253 && |uri| <= 1024
            then Some(Url(secured, host, if secured then 443 else 80, if uri == [] then "/" else uri))
            else None
  {
    hide AuthorityOf, UriOf, UrlOf, HostName, HostText, UriAndFragment;
    var tail := uri + fragment;
    var s := host + tail;
    TailStarts(uri, fragment);
    HostNameIsText(host);
    UriRead(uri, fragment);
    SchemeOf(Scheme(secured) + s, secured, s);
    if |host| > 253 {
      LongHost(secured, s, host, tail);
    } else {
      HostWithoutPort(secured, s, host, tail);
    }
  }

  lemma TailStarts(uri: CString, fragment: CString)
    requires UriAndFragment(uri, fragment)
    ensures uri + fragment != [] ==> (uri + fragment)[0] == if uri == [] then '#' else uri[0]
  {
  }

  /** With a port: one to seven digits of a value of at most 65535, of which 0 stands for the port of the
      scheme. What follows them is no URI unless it begins with a slash, a question mark or a colon. */
  lemma UrlWithPort(secured: bool, host: CString, digits: CString, uri: CString, fragment: CString)
    requires HostName(host) && AllDigits(digits) && UriAndFragment(uri, fragment) && (uri == [] || !IsDigit(uri[0]))
    ensures UrlOf((if secured then "https://" else "http://") + (host + (":" + (digits + (uri + fragment))))) ==
            if && |host| <= 253 && 1 <= |digits| <= 7 && DecimalValue(digits) <= 65535
               && |uri| <= 1024 && (uri == [] || uri[0] in {'/', '?', ':'})
            then Some(Url(secured, host,
                          if DecimalValue(digits) > 0 then DecimalValue(digits) else if secured then 443 else 80,
                          if uri == [] then "/" else uri))
            else None
  {
    hide AuthorityOf, UrlOf, HostName, DecimalValue, AllDigits, UriAndFragment;
    var s := host + (":" + (digits + (uri + fragment)));
    SchemeOf(Scheme(secured) + s, secured, s);
    AuthorityWithDigits(secured, host, digits, uri, fragment);
  }

  lemma AuthorityWithDigits(secured: bool, host: CString, digits: CString, uri: CString, fragment: CString)
    requires HostName(host) && AllDigits(digits) && UriAndFragment(uri, fragment) && (uri == [] || !IsDigit(uri[0]))
    ensures AuthorityOf(secured, host + (":" + (digits + (uri + fragment)))) ==
            if && |host| <= 253 && 1 <= |digits| <= 7 && DecimalValue(digits) <= 65535
               && |uri| <= 1024 && (uri == [] || uri[0] in {'/', '?', ':'})
            then Some(Url(secured, host, if DecimalValue(digits) > 0 then DecimalValue(digits) else DefaultPort(secured),
                          if uri == [] then "/" else uri))
            else None
  {
    hide AuthorityOf, UriOf, HostName, HostText, DecimalValue, AllDigits, LeadingDigits, PortOf, DefaultPort,
      UriAndFragment;
    var rest := uri + fragment;
    var s := host + (":" + (digits + rest));
    HostNameIsText(host);
    TailStarts(uri, fragment);
    if |host| > 253 {
      LongHost(secured, s, host, ":" + (digits + rest));
    } else if |digits| <= 7 {
      ShortPort(digits, rest, secured);
      UriRead(uri, fragment);
      HostWithPort(secured, s, host, digits, rest);
    } else {
      LongPort(digits, rest);
      assert digits + rest == digits[..7] + (digits[7..] + rest);
      HostWithPort(secured, s, host, digits[..7], digits[7..] + rest);
    }
  }

  lemma ShortPort(digits: CString, tail: CString, secured: bool)
    requires AllDigits(digits) && |digits| <= 7 && (tail != [] ==> !IsDigit(tail[0]))
    ensures LeadingDigits(digits + tail, 7) == digits
    ensures PortOf(digits, DefaultPort(secured)) ==
            if digits == [] || DecimalValue(digits) > 65535 then None
            else if DecimalValue(digits) == 0 then Some(DefaultPort(secured)) else Some(DecimalValue(digits))
  {
    hide DecimalValue, LeadingDigits, StrToUint64;
    assert (digits + tail)[..|digits|] == digits;
    LeadingDigitsAre(digits + tail, 7, |digits|);
    ReadSevenDigits(digits);
    PortOfParts(digits, DefaultPort(secured));
  }

  lemma LongPort(digits: CString, tail: CString)
    requires AllDigits(digits) && |digits| > 7
    ensures LeadingDigits(digits[..7] + (digits[7..] + tail), 7) == digits[..7]
    ensures UriOf(digits[7..] + tail) == None
  {
    hide LeadingDigits;
    var s := digits[..7] + (digits[7..] + tail);
    assert s[..7] == digits[..7];
    LeadingDigitsAre(s, 7, 7);
    assert (digits[7..] + tail)[0] == digits[7];
  }

  /** The port as the redirect code prints it: not at all if it is the default. */
  function PrintPort(secured: bool, port: nat): CString {
    if port == DefaultPort(secured) then [] else ":" + Decimal(port)
  }

  function PrintUrl(u: Url): CString {
    Scheme(u.secured) + (u.host + (PrintPort(u.secured, u.port) + u.uri))
  }

  /** A URL that can be printed and read back. */
  predicate Canonical(u: Url) {
    && HostText(u.host) && |u.host| <= MAX_CHAR_ON_HOST && 0 < u.port <= 0xFFFF
    && 1 <= |u.uri| <= MAX_URI_LENGTH && u.uri[0] == '/' && '#' !in u.uri
  }

  lemma PrintedPort(secured: bool, port: nat)
    requires 0 < port <= 0xFFFF
    ensures PortText(PrintPort(secured, port), secured, port) && |PrintPort(secured, port)| <= 6
  {
    hide Decimal, Pow10;
    if port != DefaultPort(secured) {
      FiveDigits();
      DecimalLength(port, 5);
      var text := PrintPort(secured, port);
      assert text[1..] == Decimal(port);
    }
  }

  lemma FiveDigits()
    ensures Pow10(5) == 100000
  {
    assert Pow10(5) == 10 * (10 * (10 * (10 * (10 * Pow10(0)))));
  }

  /** Parsing undoes printing. */
  lemma ParseUndoesPrint(u: Url)
    requires Canonical(u)
    ensures UrlOf(PrintUrl(u)) == Some(u)
  {
    hide UrlOf, PortText, PrintPort;
    PrintedPort(u.secured, u.port);
    assert u.uri + [] == u.uri;
    WrittenIsAccepted(PrintUrl(u), u, PrintPort(u.secured, u.port), u.uri, []);
  }
}
