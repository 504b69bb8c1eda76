/** The request that req_request sends: how its text is put together, that it fits the buffer, and what
    a reader of its head makes of it. */
module Requests {
  import opened CStrings
  import opened Numbers
  import opened ParserTree
  import opened HeadCoding
  import opened HeadPrinting
  import opened Connection

  const HEADERS_LENGTH := 300

  const FORM: CString := "application/x-www-form-urlencoded"
  const CONTENT_TYPE: Header := Header("Content-Type", " " + FORM)
  const ACCEPT: Header := Header("Accept", " " + "*/*")
  const MOZILLA: CString := "Mozilla/5.0 (X11; Linux x86_64)"
  const WEB_KIT: CString := " AppleWebKit/537.36 (KHTML, like Gecko)"
  const CHROME: CString := " Chrome/51.0.2704.103 Safari/537.36"
  const AGENT: CString := MOZILLA + WEB_KIT + CHROME
  const USER_AGENT: Header := Header("User-Agent", " " + AGENT)
  const CONNECTION: Header := Header("Connection", " " + "keep-alive")
  const ACCEPT_ENCODING: Header := Header("Accept-Encoding", " " + "identity")

  /** A header line as text without NUL. */
  function Line(h: Header): CString {
    h.name + ":" + h.value + "\r\n"
  }

  /** A default line, unless its name is found in the caller's headers. */
  function Unless(additional: CString, name: CString, h: Header): CString {
    if Search(additional, name, 0, 0) == -1 then Line(h) else []
  }

  function Defaults(additional: CString): CString {
    Unless(additional, "content-type", CONTENT_TYPE)
    + Unless(additional, "accept", ACCEPT)
    + Unless(additional, "user-agent", USER_AGENT)
    + Unless(additional, "connection", CONNECTION)
    + Unless(additional, "accept-encoding", ACCEPT_ENCODING)
  }

  function RequestStart(verb: CString, uri: CString, host: CString, length: nat): CString {
    verb + uri + " HTTP/1.1\r\nHost: " + host + "\r\nContent-Length: " + Decimal(length) + "\r\n"
  }

  function RequestText(verb: CString, uri: CString, host: CString, data: CString, additional: CString): CString {
    RequestStart(verb, uri, host, |data|) + Defaults(additional) + additional + "\r\n" + data
  }

  // ------------------------------------------------------------------------------------------
  // The code

  method WriteStart(headers: array<char>, verb: CString, uri: CString, host: CString, length: nat)
    requires length < TWO_64 && |RequestStart(verb, uri, host, length)| < headers.Length
    modifies headers
    ensures Terminated(headers[..]) && CStr(headers[..]) == RequestStart(verb, uri, host, length)
  {
    hide CStr, Decimal, Terminated;
    Uint64HasAtMost20Digits(length);
    var contentLength := new char[30];
    Uint64ToStr(contentLength, 0, length);
    ghost var digits := |Decimal(length)|;
    assert contentLength[..][..digits] == contentLength[0..digits];
    CStrUnique(contentLength[..], digits);
    var n := StrCpy(headers, 0, verb);
    assert headers[..][..n] == headers[0..n];
    TerminatedAt(headers[..], n);
    CStrUnique(headers[..], n);
    StrCat(headers, uri);
    StrCat(headers, " HTTP/1.1\r\nHost: ");
    StrCat(headers, host);
    StrCat(headers, "\r\nContent-Length: ");
    StrCat(headers, CStr(contentLength[..]));
    StrCat(headers, "\r\n");
  }

  method AddUnless(headers: array<char>, additional: CString, name: CString, h: Header)
    requires Terminated(headers[..]) && |CStr(headers[..])| + |Line(h)| < headers.Length
    modifies headers
    ensures Terminated(headers[..])
    ensures CStr(headers[..]) == CStr(old(headers[..])) + Unless(additional, name, h)
  {
    hide CStr, Terminated, Search, OccursAt;
    var found := StrSearchCaseUnsensitive(additional, name);
    if found == -1 {
      StrCat(headers, Line(h));
    }
  }

  method WriteDefaults(headers: array<char>, additional: CString)
    requires Terminated(headers[..]) && |CStr(headers[..])| + 232 < headers.Length
    modifies headers
    ensures Terminated(headers[..])
    ensures CStr(headers[..]) == CStr(old(headers[..])) + Defaults(additional)
  {
    hide CStr, Terminated, Unless, Line;
    LineLengths(additional);
    ghost var start := CStr(headers[..]);
    AddUnless(headers, additional, "content-type", CONTENT_TYPE);
    AddUnless(headers, additional, "accept", ACCEPT);
    AddUnless(headers, additional, "user-agent", USER_AGENT);
    AddUnless(headers, additional, "connection", CONNECTION);
    AddUnless(headers, additional, "accept-encoding", ACCEPT_ENCODING);
  }

  lemma LineLengths(additional: CString)
    ensures |Line(CONTENT_TYPE)| == 49 && |Line(ACCEPT)| == 13 && |Line(USER_AGENT)| == 119
    ensures |Line(CONNECTION)| == 24 && |Line(ACCEPT_ENCODING)| == 27
    ensures |Unless(additional, "content-type", CONTENT_TYPE)| <= 49 && |Unless(additional, "accept", ACCEPT)| <= 13
    ensures |Unless(additional, "user-agent", USER_AGENT)| <= 119 && |Unless(additional, "connection", CONNECTION)| <= 24
    ensures |Unless(additional, "accept-encoding", ACCEPT_ENCODING)| <= 27
  {
    hide Search;
  }

  /** The request is written into a buffer of exactly the size that the code reserves: it never
      overflows, whatever the five texts are. */
  method BuildRequest(verb: CString, uri: CString, host: CString, data: CString, additional: CString)
    returns (headers: array<char>)
    requires |data| < TWO_64
    ensures headers.Length == 300 + |verb| + |uri| + |host| + |Decimal(|data|)| + |data| + |additional|
    ensures Terminated(headers[..]) && CStr(headers[..]) == RequestText(verb, uri, host, data, additional)
  {
    hide CStr, Terminated, Decimal, Unless;
    LineLengths(additional);
    headers := new char[HEADERS_LENGTH + |verb| + |uri| + |host| + |Decimal(|data|)| + |data| + |additional|];
    WriteStart(headers, verb, uri, host, |data|);
    WriteDefaults(headers, additional);
    StrCat(headers, additional);
    StrCat(headers, "\r\n");
    StrCat(headers, data);
  }

  // ------------------------------------------------------------------------------------------
  // What the request says

  function Kept(additional: CString, name: CString, h: Header): seq<Header> {
    if Search(additional, name, 0, 0) == -1 then [h] else []
  }

  function DefaultFields(additional: CString): seq<Header> {
    Kept(additional, "content-type", CONTENT_TYPE)
    + (Kept(additional, "accept", ACCEPT)
    + (Kept(additional, "user-agent", USER_AGENT)
    + (Kept(additional, "connection", CONNECTION)
    + Kept(additional, "accept-encoding", ACCEPT_ENCODING))))
  }

  function RequestFields(host: CString, length: nat, additional: CString): seq<Header> {
    [Header("Host", " " + host), Header("Content-Length", " " + Decimal(length))] + DefaultFields(additional)
  }

  lemma {:induction false} LinesAppend(a: seq<Header>, b: seq<Header>)
    ensures HeaderLines(a + b) == HeaderLines(a) + HeaderLines(b)
    decreases |a|
  {
    if a == [] {
      assert a + b == b;
    } else {
      assert (a + b)[1..] == a[1..] + b;
      LinesAppend(a[1..], b);
    }
  }

  lemma LineOf(h: Header)
    ensures HeaderLine(h) == Line(h) && HeaderLines([h]) == Line(h)
  {
    assert [h][1..] == [] && Line(h) + [] == Line(h);
  }

  lemma KeptLines(additional: CString, name: CString, h: Header, rest: seq<Header>)
    ensures HeaderLines(Kept(additional, name, h) + rest) == Unless(additional, name, h) + HeaderLines(rest)
  {
    hide Search, Line, HeaderLines;
    LinesAppend(Kept(additional, name, h), rest);
    LineOf(h);
    NoLines();
  }

  lemma NoLines()
    ensures HeaderLines([]) == []
  {
  }

  lemma DefaultLines(additional: CString)
    ensures HeaderLines(DefaultFields(additional)) == Defaults(additional)
  {
    hide Unless, Kept, HeaderLines;
    var e := Kept(additional, "accept-encoding", ACCEPT_ENCODING);
    var d := Kept(additional, "connection", CONNECTION) + e;
    var c := Kept(additional, "user-agent", USER_AGENT) + d;
    var b := Kept(additional, "accept", ACCEPT) + c;
    KeptLines(additional, "content-type", CONTENT_TYPE, b);
    KeptLines(additional, "accept", ACCEPT, c);
    KeptLines(additional, "user-agent", USER_AGENT, d);
    KeptLines(additional, "connection", CONNECTION, e);
    KeptLines(additional, "accept-encoding", ACCEPT_ENCODING, []);
    NoLines();
    assert e + [] == e;
    var last := Unless(additional, "accept-encoding", ACCEPT_ENCODING);
    assert last + [] == last;
  }

  /** The request is a printed head: a request line, these fields, the caller's, and the data. */
  lemma RequestIsHead(verb: CString, uri: CString, host: CString, data: CString, hs: seq<Header>, additional: CString)
    requires additional == HeaderLines(hs)
    ensures RequestText(verb, uri, host, data, additional) ==
            PrintHead(verb + uri + " HTTP/1.1", RequestFields(host, |data|, additional) + hs) + data
  {
    hide HeaderLines, Defaults, DefaultFields, Decimal, RequestStart, Line;
    var first, second := Header("Host", " " + host), Header("Content-Length", " " + Decimal(|data|));
    var start, defaults := [first, second], DefaultFields(additional);
    LinesAppend(start + defaults, hs);
    LinesAppend(start, defaults);
    assert start == [first] + [second];
    LinesAppend([first], [second]);
    LineOf(first);
    LineOf(second);
    DefaultLines(additional);
    StartText(verb, uri, host, |data|);
    Regroup(verb + uri + " HTTP/1.1" + "\r", "\n", Line(first) + Line(second),
            Defaults(additional), additional, "\r\n", data);
  }

  lemma Regroup(p: seq<char>, q: seq<char>, l: seq<char>, d: seq<char>, x: seq<char>, e: seq<char>, data: seq<char>)
    ensures (p + (q + l)) + d + x + e + data == (p + (q + (((l + d) + x) + e))) + data
  {
  }

  lemma StartText(verb: CString, uri: CString, host: CString, length: nat)
    ensures RequestStart(verb, uri, host, length) ==
            (verb + uri + " HTTP/1.1" + "\r") + ("\n" + (Line(Header("Host", " " + host)) +
                                                         Line(Header("Content-Length", " " + Decimal(length)))))
  {
    hide Decimal;
    assert " HTTP/1.1\r\nHost: " == " HTTP/1.1" + "\r" + "\n" + "Host" + ":" + " ";
    assert "\r\nContent-Length: " == "\r\n" + "Content-Length" + ":" + " ";
    RegroupStart(verb + uri, " HTTP/1.1", "\r", "\n", "Host", ":", " ", host, "\r\n", "Content-Length", Decimal(length));
  }

  lemma RegroupStart(a: seq<char>, b: seq<char>, c: seq<char>, d: seq<char>, e: seq<char>, f: seq<char>, g: seq<char>,
                     h: seq<char>, i: seq<char>, j: seq<char>, k: seq<char>)
    ensures a + (b + c + d + e + f + g) + h + (i + j + f + g) + k + i ==
            (a + b + c) + (d + ((e + f + (g + h) + i) + (j + f + (g + k) + i)))
  {
  }

  lemma {:induction false} LinesEnd(hs: seq<Header>)
    requires hs != []
    ensures var t := HeaderLines(hs); t != [] && t[|t| - 1] == '\n'
    decreases |hs|
  {
    if |hs| == 1 {
      assert hs[1..] == [];
    } else {
      LinesEnd(hs[1..]);
    }
  }

  /** Where a header's line stands in the text of the list. */
  lemma LineAt(hs: seq<Header>, k: nat) returns (tail: seq<char>)
    requires k < |hs|
    ensures HeaderLines(hs) == HeaderLines(hs[..k]) + (hs[k].name + tail)
    ensures k > 0 ==> HeaderLines(hs[..k]) != [] && HeaderLines(hs[..k])[|HeaderLines(hs[..k])| - 1] == '\n'
    ensures k == 0 ==> HeaderLines(hs[..k]) == []
  {
    hide HeaderLines;
    var h, after := hs[k], HeaderLines(hs[k + 1..]);
    assert hs == hs[..k] + ([h] + hs[k + 1..]);
    LinesAppend(hs[..k], [h] + hs[k + 1..]);
    LinesAppend([h], hs[k + 1..]);
    LineOf(h);
    if k > 0 {
      LinesEnd(hs[..k]);
    } else {
      NoLines();
    }
    tail := ":" + ((h.value + "\r") + "\n") + after;
    assert HeaderLine(h) + after == h.name + tail;
  }

  lemma FoundAtLine(text: CString, name: CString, before: seq<char>)
    requires before <= text && OccursAt(text, name, |before|) && '\n' !in name
    requires before != [] ==> before[|before| - 1] == '\n'
    ensures Search(text, name, 0, 0) >= 0
  {
    hide OccursAt, Search;
    SearchFinds(text, name, |before|);
  }

  /** A default line is sent if and only if its name occurs nowhere in the caller's headers where the
      search has no progress. */
  lemma DefaultSentIff(additional: CString, name: CString, h: Header)
    ensures Kept(additional, name, h) == [h] <==>
            forall k :: 0 <= k <= |additional| && Progress(additional, name, k) == 0 ==> !OccursAt(additional, name, k)
  {
    hide Search, OccursAt;
    SearchExact(additional, name);
  }

  /** So one that the caller does not give can be missing: `Accept-Encoding` holds `Accept`. */
  lemma AcceptIsSuppressed()
    ensures Kept(Line(Header("Accept-Encoding", " gzip")), "accept", ACCEPT) == []
  {
    hide Search, Line;
    var text := Line(Header("Accept-Encoding", " gzip"));
    LineStarts(Header("Accept-Encoding", " gzip"));
    assert "Accept-Encoding"[..6] == "Accept";
    SameWhenFolded("Accept", "accept");
    NameOccurs([], "Accept", text[6..], "accept", text);
    SearchFinds(text, "accept", 0);
  }

  lemma LineStarts(h: Header)
    ensures h.name <= Line(h)
  {
  }

  /** No default line repeats a header of the caller: the search finds every name at the start of a line. */
  lemma DefaultsDoNotRepeat(hs: seq<Header>, additional: CString, k: nat, name: CString, h: Header)
    requires additional == HeaderLines(hs) && k < |hs| && '\n' !in name
    requires SameAsideCase(hs[k].name, name)
    ensures Kept(additional, name, h) == []
  {
    hide Search, SameAsideCase, HeaderLines, OccursAt, HeaderLine;
    var before := HeaderLines(hs[..k]);
    var tail := LineAt(hs, k);
    NameOccurs(before, hs[k].name, tail, name, additional);
    FoundAtLine(additional, name, before);
  }

  lemma NameOccurs(before: seq<char>, name: CString, after: seq<char>, expr: CString, text: CString)
    requires SameAsideCase(name, expr) && text == before + (name + after)
    ensures OccursAt(text, expr, |before|)
  {
    hide SameLetter;
    var p := |before|;
    assert text[p..p + |expr|] == name;
  }

  /** The caller's headers leave the framing of the message to the code. */
  predicate FramesNothing(hs: seq<Header>) {
    Misses(hs, "Content-Length") && Misses(hs, "Transfer-Encoding")
  }

  /** The names and values of the fixed fields, as a parser stores them. */
  lemma FixedNames(h: Header)
    requires h.name in {"Host", "Content-Length", "Content-Type", "Accept", "User-Agent", "Connection", "Accept-Encoding"}
    ensures BlockTrim(h.name) == h.name && Plain(false, h.name) && !Low(h.name)
  {
    hide Trim;
    TrimSame(h.name);
    BlockTrimShort(h.name);
    assert h.name[0] >= '0';
  }

  // ------------------------------------------------------------------------------------------
  // What looking a name up in the request gives

  function DefaultValue(additional: CString, name: CString, value: CString): Option<CString> {
    if Search(additional, name, 0, 0) == -1 then Some(value) else None
  }

  /** The value of each name among the default lines. */
  function DefaultSent(additional: CString, k: CString): Option<CString> {
    if SameAsideCase("Content-Type", k) then
      DefaultValue(additional, "content-type", "application/x-www-form-urlencoded")
    else if SameAsideCase("Accept", k) then DefaultValue(additional, "accept", "*/*")
    else if SameAsideCase("User-Agent", k) then DefaultValue(additional, "user-agent", AGENT)
    else if SameAsideCase("Connection", k) then DefaultValue(additional, "connection", "keep-alive")
    else if SameAsideCase("Accept-Encoding", k) then DefaultValue(additional, "accept-encoding", "identity")
    else None
  }

  /** The value of each name among the fields that the library writes. */
  function SentValue(host: CString, length: nat, additional: CString, k: CString): Option<CString> {
    if SameAsideCase("Host", k) then Some(host)
    else if SameAsideCase("Content-Length", k) then Some(Decimal(length))
    else DefaultSent(additional, k)
  }

  lemma {:induction false} LastValueAppend(a: seq<Header>, b: seq<Header>, k: CString)
    ensures LastValue(a + b, k) == if LastValue(b, k).Some? then LastValue(b, k) else LastValue(a, k)
    decreases |b|
  {
    hide BlockTrim, SameAsideCase, RawValue;
    if b == [] {
      assert a + b == a;
    } else {
      var front := b[..|b| - 1];
      assert (a + b)[..|a + b| - 1] == a + front;
      LastValueAppend(a, front, k);
    }
  }

  lemma LastOne(h: Header, k: CString)
    ensures LastValue([h], k) == if SameAsideCase(BlockTrim(h.name), k) then Some(BlockTrim(RawValue(h))) else None
  {
    hide BlockTrim, SameAsideCase, RawValue;
    assert [h][..0] == [];
  }

  lemma NoValue(k: CString)
    ensures LastValue([], k) == None
  {
  }

  lemma KeptValue(additional: CString, name: CString, h: Header, value: CString, k: CString)
    requires BlockTrim(h.name) == h.name && BlockTrim(RawValue(h)) == value
    ensures LastValue(Kept(additional, name, h), k) ==
            if SameAsideCase(h.name, k) then DefaultValue(additional, name, value) else None
  {
    hide BlockTrim, SameAsideCase, RawValue, Search, LastValue;
    LastOne(h, k);
    NoValue(k);
  }

  /** A blank in front of a value is not stored. */
  lemma ValueIsStored(h: Header, value: CString)
    requires h.value == " " + value && |value| < 1000
    requires value != [] && Visible(value[0]) && Visible(value[|value| - 1])
    ensures BlockTrim(RawValue(h)) == value
  {
    hide BlockTrim, Trim;
    assert " " + value + [] == h.value;
    WhitespaceIsPadding(" ", value, []);
    ShortValueIsTrimmed(h);
  }

  lemma LengthValue(n: nat)
    requires n < TWO_64
    ensures BlockTrim(RawValue(Header("Content-Length", " " + Decimal(n)))) == Decimal(n)
  {
    hide Decimal, BlockTrim;
    var d := Decimal(n);
    Uint64HasAtMost20Digits(n);
    assert IsDigit(d[0]) && IsDigit(d[|d| - 1]);
    ValueIsStored(Header("Content-Length", " " + d), d);
  }

  lemma FormStored()
    ensures BlockTrim(RawValue(CONTENT_TYPE)) == "application/x-www-form-urlencoded"
  {
    hide BlockTrim, RawValue;
    ValueIsStored(CONTENT_TYPE, FORM);
  }

  lemma AcceptStored()
    ensures BlockTrim(RawValue(ACCEPT)) == "*/*"
  {
    hide BlockTrim, RawValue;
    ValueIsStored(ACCEPT, "*/*");
  }

  lemma AgentStored()
    ensures BlockTrim(RawValue(USER_AGENT)) == AGENT
  {
    hide BlockTrim, RawValue, AGENT;
    AgentText();
    ValueIsStored(USER_AGENT, AGENT);
  }

  lemma ConnectionStored()
    ensures BlockTrim(RawValue(CONNECTION)) == "keep-alive"
  {
    hide BlockTrim, RawValue;
    ValueIsStored(CONNECTION, "keep-alive");
  }

  lemma EncodingStored()
    ensures BlockTrim(RawValue(ACCEPT_ENCODING)) == "identity"
  {
    hide BlockTrim, RawValue;
    ValueIsStored(ACCEPT_ENCODING, "identity");
  }

  lemma AgentText()
    ensures AGENT != [] && |AGENT| < 1000 && Visible(AGENT[0]) && Visible(AGENT[|AGENT| - 1])
  {
    var n := |AGENT|;
    assert AGENT[0] == 'M' && AGENT[n - 1] == '6';
  }

  lemma HostValue(host: CString)
    requires |host| <= 253
    ensures BlockTrim(RawValue(Header("Host", " " + host))) == Trim(host)
  {
    hide BlockTrim, Trim, RawValue;
    ShortValueIsTrimmed(Header("Host", " " + host));
    TrimAppend(" ", host);
  }

  /** No two of the names are the same case aside. */
  lemma NamesDiffer(k: CString)
    ensures SameAsideCase("Connection", k) ==> !SameAsideCase("User-Agent", k)
  {
    hide SameLetter;
    if |k| == 10 {
      SameLetterIff('C', k[0]);
      SameLetterIff('U', k[0]);
    }
  }

  lemma SameLength(name: CString, k: CString)
    ensures SameAsideCase(name, k) ==> |name| == |k|
  {
  }

  lemma DefaultsValue(additional: CString, k: CString)
    ensures LastValue(DefaultFields(additional), k) == DefaultSent(additional, k)
  {
    hide BlockTrim, RawValue, SameAsideCase, Kept, LastValue, DefaultValue, AGENT;
    var e := Kept(additional, "accept-encoding", ACCEPT_ENCODING);
    var d := Kept(additional, "connection", CONNECTION) + e;
    var c := Kept(additional, "user-agent", USER_AGENT) + d;
    var b := Kept(additional, "accept", ACCEPT) + c;
    FixedNames(CONTENT_TYPE);
    FixedNames(ACCEPT);
    FixedNames(USER_AGENT);
    FixedNames(CONNECTION);
    FixedNames(ACCEPT_ENCODING);
    FormStored();
    AcceptStored();
    AgentStored();
    ConnectionStored();
    EncodingStored();
    KeptValue(additional, "content-type", CONTENT_TYPE, "application/x-www-form-urlencoded", k);
    KeptValue(additional, "accept", ACCEPT, "*/*", k);
    KeptValue(additional, "user-agent", USER_AGENT, AGENT, k);
    KeptValue(additional, "connection", CONNECTION, "keep-alive", k);
    KeptValue(additional, "accept-encoding", ACCEPT_ENCODING, "identity", k);
    LastValueAppend(Kept(additional, "content-type", CONTENT_TYPE), b, k);
    LastValueAppend(Kept(additional, "accept", ACCEPT), c, k);
    LastValueAppend(Kept(additional, "user-agent", USER_AGENT), d, k);
    LastValueAppend(Kept(additional, "connection", CONNECTION), e, k);
    NamesDiffer(k);
    SameLength("Content-Type", k);
    SameLength("Accept", k);
    SameLength("User-Agent", k);
    SameLength("Connection", k);
    SameLength("Accept-Encoding", k);
  }

  lemma FieldsAre(host: CString, length: nat, additional: CString, first: Header, second: Header)
    requires first == Header("Host", " " + host) && second == Header("Content-Length", " " + Decimal(length))
    ensures RequestFields(host, length, additional) == ([first] + [second]) + DefaultFields(additional)
  {
    hide Decimal, DefaultFields;
  }

  function StoredHost(host: CString): CString {
    BlockTrim(RawValue(Header("Host", " " + host)))
  }

  lemma FieldsValue(host: CString, length: nat, additional: CString, k: CString)
    requires length < TWO_64
    ensures LastValue(RequestFields(host, length, additional), k) == SentValue(StoredHost(host), length, additional, k)
  {
    hide BlockTrim, RawValue, SameAsideCase, LastValue, DefaultSent, DefaultFields, RequestFields, Decimal;
    var first, second := Header("Host", " " + host), Header("Content-Length", " " + Decimal(length));
    FieldsAre(host, length, additional, first, second);
    FixedNames(first);
    FixedNames(second);
    LengthValue(length);
    LastOne(first, k);
    LastOne(second, k);
    LastValueAppend([first], [second], k);
    LastValueAppend([first] + [second], DefaultFields(additional), k);
    DefaultsValue(additional, k);
    SameLength("Host", k);
    SameLength("Content-Length", k);
    if SameAsideCase("Host", k) || SameAsideCase("Content-Length", k) {
      NotADefault(additional, k);
    }
  }

  /** Host and Content-Length are not among the default lines, nor is Transfer-Encoding. */
  lemma NotADefault(additional: CString, k: CString)
    requires |k| == 4 || |k| == 14 || |k| == 17
    ensures DefaultSent(additional, k) == None
  {
    hide SameAsideCase, DefaultValue, AGENT;
    SameLength("Content-Type", k);
    SameLength("Accept", k);
    SameLength("User-Agent", k);
    SameLength("Connection", k);
    SameLength("Accept-Encoding", k);
  }

  /** With the caller's headers behind them. */
  lemma FieldsThen(host: CString, length: nat, additional: CString, hs: seq<Header>, k: CString)
    requires length < TWO_64 && Misses(hs, k)
    ensures LastValue(RequestFields(host, length, additional) + hs, k) ==
            SentValue(StoredHost(host), length, additional, k)
  {
    hide *;
    NoneOfTheNames(hs, k);
    LastValueAppend(RequestFields(host, length, additional), hs, k);
    FieldsValue(host, length, additional, k);
  }

  lemma LengthIsSent(host: CString, length: nat, additional: CString)
    ensures SentValue(host, length, additional, "Content-Length") == Some(Decimal(length))
  {
    hide SameAsideCase, DefaultSent, Decimal;
    SameLength("Host", "Content-Length");
    SameItself("Content-Length");
  }

  lemma CodingIsNotSent(host: CString, length: nat, additional: CString)
    ensures SentValue(host, length, additional, "Transfer-Encoding") == None
  {
    hide SameAsideCase, DefaultSent, Decimal;
    SameLength("Host", "Transfer-Encoding");
    SameLength("Content-Length", "Transfer-Encoding");
    NotADefault(additional, "Transfer-Encoding");
  }

  lemma NoneOfTheNames(hs: seq<Header>, k: CString)
    requires Misses(hs, k)
    ensures LastValue(hs, k) == None
  {
    hide Misses, LastValue;
    LastValueBefore([], hs, k);
    NoValue(k);
    assert [] + hs == hs;
  }

  predicate Sendable(hs: seq<Header>) {
    GoodHeaders(hs) && AllLive(hs)
  }

  lemma OneSendable(h: Header)
    requires Plain(false, h.name) && Plain(true, h.value) && !Low(h.name)
    ensures Sendable([h])
  {
    hide Plain, Low;
  }

  lemma SendableAppend(a: seq<Header>, b: seq<Header>)
    requires Sendable(a) && Sendable(b)
    ensures Sendable(a + b)
  {
    hide GoodHeader, Live;
  }

  lemma KeptSendable(additional: CString, name: CString, h: Header, rest: seq<Header>)
    requires Plain(false, h.name) && Plain(true, h.value) && !Low(h.name) && Sendable(rest)
    ensures Sendable(Kept(additional, name, h) + rest)
  {
    hide Plain, Low, Search, Sendable;
    OneSendable(h);
    SendableAppend([h], rest);
    assert [] + rest == rest;
  }

  lemma DefaultsAre(additional: CString)
    ensures DefaultFields(additional) ==
            Kept(additional, "content-type", CONTENT_TYPE)
            + (Kept(additional, "accept", ACCEPT)
            + (Kept(additional, "user-agent", USER_AGENT)
            + (Kept(additional, "connection", CONNECTION)
            + (Kept(additional, "accept-encoding", ACCEPT_ENCODING) + []))))
  {
    hide Kept;
    var e := Kept(additional, "accept-encoding", ACCEPT_ENCODING);
    assert e + [] == e;
  }

  lemma DefaultsSendable(additional: CString)
    ensures Sendable(DefaultFields(additional))
  {
    hide *;
    NoneSendable();
    ConstantsSendable();
    DefaultsAre(additional);
    var e := Kept(additional, "accept-encoding", ACCEPT_ENCODING) + [];
    var d := Kept(additional, "connection", CONNECTION) + e;
    var c := Kept(additional, "user-agent", USER_AGENT) + d;
    KeptSendable(additional, "accept-encoding", ACCEPT_ENCODING, []);
    KeptSendable(additional, "connection", CONNECTION, e);
    KeptSendable(additional, "user-agent", USER_AGENT, d);
    KeptSendable(additional, "accept", ACCEPT, c);
    KeptSendable(additional, "content-type", CONTENT_TYPE, Kept(additional, "accept", ACCEPT) + c);
  }

  lemma NoneSendable()
    ensures Sendable([])
  {
  }

  lemma ConstantsSendable()
    ensures Plain(false, CONTENT_TYPE.name) && Plain(true, CONTENT_TYPE.value) && !Low(CONTENT_TYPE.name)
    ensures Plain(false, ACCEPT.name) && Plain(true, ACCEPT.value) && !Low(ACCEPT.name)
    ensures Plain(false, USER_AGENT.name) && Plain(true, USER_AGENT.value) && !Low(USER_AGENT.name)
    ensures Plain(false, CONNECTION.name) && Plain(true, CONNECTION.value) && !Low(CONNECTION.name)
    ensures Plain(false, ACCEPT_ENCODING.name) && Plain(true, ACCEPT_ENCODING.value) && !Low(ACCEPT_ENCODING.name)
  {
    hide Plain, Low, BlockTrim;
    FixedNames(CONTENT_TYPE);
    FixedNames(ACCEPT);
    FixedNames(USER_AGENT);
    FixedNames(CONNECTION);
    FixedNames(ACCEPT_ENCODING);
    FixedValues();
  }

  lemma FixedValues()
    ensures Plain(true, CONTENT_TYPE.value) && Plain(true, ACCEPT.value) && Plain(true, CONNECTION.value)
    ensures Plain(true, ACCEPT_ENCODING.value) && Plain(true, USER_AGENT.value)
  {
    UserAgentPlain();
  }

  lemma UserAgentPlain()
    ensures Plain(true, MOZILLA + WEB_KIT + CHROME)
  {
    assert Plain(true, MOZILLA) && Plain(true, WEB_KIT) && Plain(true, CHROME);
    hide MOZILLA, WEB_KIT, CHROME;
  }

  lemma FieldsSendable(host: CString, length: nat, additional: CString, hs: seq<Header>)
    requires Plain(true, host) && Sendable(hs)
    ensures Sendable(RequestFields(host, length, additional) + hs)
  {
    hide Low, Sendable, DefaultFields, Decimal, Plain, RequestFields;
    var first, second := Header("Host", " " + host), Header("Content-Length", " " + Decimal(length));
    FixedNames(first);
    FixedNames(second);
    DigitsPlain(Decimal(length));
    BlankPlain(host);
    BlankPlain(Decimal(length));
    OneSendable(first);
    OneSendable(second);
    DefaultsSendable(additional);
    FieldsAre(host, length, additional, first, second);
    SendableAppend([first], [second]);
    SendableAppend([first] + [second], DefaultFields(additional));
    SendableAppend(RequestFields(host, length, additional), hs);
  }

  lemma BlankPlain(s: CString)
    requires Plain(true, s)
    ensures Plain(true, " " + s)
  {
  }

  lemma DigitsPlain(s: CString)
    requires AllDigits(s)
    ensures Plain(true, s)
  {
    forall k | 0 <= k < |s|
      ensures s[k] != '\n'
    {
      assert IsDigit(s[k]);
    }
  }

  /** The request line, if it holds a colon, is not taken for a Transfer-Encoding. */
  predicate HarmlessLine(line: CString) {
    NotCalled(line, "Transfer-Encoding")
  }

  /** The request line does not make a pair of this name. */
  predicate NotCalled(line: CString, k: CString) {
    ':' in line ==> !SameAsideCase(BlockTrim(ColonPair(line).name), k)
  }

  /** The pair that a first line with a colon is taken for. */
  function LinePair(line: CString): seq<Header> {
    if ':' in line then [ColonPair(line)] else []
  }

  function RequestLine(verb: CString, uri: CString): CString {
    verb + uri + " HTTP/1.1"
  }

  /** Reading the request's head as a message stops exactly at the data, with a pair for every field. */
  lemma RequestIndex(verb: CString, uri: CString, host: CString, data: CString, hs: seq<Header>, additional: CString)
    requires additional == HeaderLines(hs) && Sendable(hs)
    requires Plain(true, verb) && Plain(true, uri) && Plain(true, host)
    ensures var r := HeadRun(Initial(0), '\0', RequestText(verb, uri, host, data, additional));
            var fields := RequestFields(host, |data|, additional) + hs;
            r.Found? && r.rest == data && r.state.index == WriteAll(map[], LinePair(RequestLine(verb, uri)) + fields)
  {
    hide *;
    RequestIsHead(verb, uri, host, data, hs, additional);
    LineIs(verb, uri);
    FieldsSendable(host, |data|, additional, hs);
    LineThenFields(RequestLine(verb, uri), RequestFields(host, |data|, additional) + hs, data);
  }

  /** The fields frame exactly the data, whatever sendable headers of the caller stand among them, if these
      frame nothing themselves. */
  lemma RequestAnnouncesData(verb: CString, uri: CString, host: CString, data: CString,
                             hs: seq<Header>, additional: CString)
    requires additional == HeaderLines(hs) && Sendable(hs)
    requires FramesNothing(hs)
    requires Plain(true, verb) && Plain(true, uri) && HarmlessLine(RequestLine(verb, uri))
    requires Plain(true, host) && |data| <= 9223372036854775807
    ensures var r := HeadRun(Initial(0), '\0', RequestText(verb, uri, host, data, additional));
            r.Found? && r.rest == data && FramingOf(r.state.index) == ByLength(|data|)
  {
    hide *;
    var fields, pair := RequestFields(host, |data|, additional) + hs, LinePair(RequestLine(verb, uri));
    RequestIndex(verb, uri, host, data, hs, additional);
    Below(|data|);
    FramesNothingParts(hs);
    FieldsThen(host, |data|, additional, hs, "Content-Length");
    FieldsThen(host, |data|, additional, hs, "Transfer-Encoding");
    LengthIsSent(StoredHost(host), |data|, additional);
    CodingIsNotSent(StoredHost(host), |data|, additional);
    LastValueAppend(pair, fields, "Content-Length");
    HarmlessPair(RequestLine(verb, uri));
    LastValueAppend(pair, fields, "Transfer-Encoding");
    NotChunked(pair + fields);
    FramedByLength(pair + fields, Decimal(|data|));
  }

  lemma FramesNothingParts(hs: seq<Header>)
    requires FramesNothing(hs)
    ensures Misses(hs, "Content-Length") && Misses(hs, "Transfer-Encoding")
  {
  }

  lemma NotChunked(hs: seq<Header>)
    requires LastValue(hs, "Transfer-Encoding") == None
    ensures !SaysChunked(hs)
  {
  }

  lemma HarmlessPair(line: CString)
    requires HarmlessLine(line)
    ensures LastValue(LinePair(line), "Transfer-Encoding") == None
  {
    NotCalledPair(line, "Transfer-Encoding");
  }

  lemma NotCalledPair(line: CString, k: CString)
    requires NotCalled(line, k)
    ensures LastValue(LinePair(line), k) == None
  {
    hide BlockTrim, SameAsideCase, RawValue, LastValue, ColonPair;
    NoValue(k);
    if ':' in line {
      LastOne(ColonPair(line), k);
    }
  }

  /** What any name is looked up as: the caller's last value of it, else the library's. */
  lemma RequestLookup(verb: CString, uri: CString, host: CString, data: CString,
                      hs: seq<Header>, additional: CString, k: CString)
    requires additional == HeaderLines(hs) && Sendable(hs)
    requires Plain(true, verb) && Plain(true, uri) && NotCalled(RequestLine(verb, uri), k)
    requires Plain(true, host) && |host| <= 253 && |data| < 18446744073709551616
    ensures var r := HeadRun(Initial(0), '\0', RequestText(verb, uri, host, data, additional));
            && r.Found?
            && MapLookup(r.state.index, k) ==
               if LastValue(hs, k).Some? then LastValue(hs, k) else SentValue(Trim(host), |data|, additional, k)
  {
    hide *;
    var sent, pair := RequestFields(host, |data|, additional), LinePair(RequestLine(verb, uri));
    RequestIndex(verb, uri, host, data, hs, additional);
    Below64(|data|);
    LookupGivesLastValue(pair + (sent + hs), k);
    LastValueAppend(pair, sent + hs, k);
    LastValueAppend(sent, hs, k);
    FieldsValue(host, |data|, additional, k);
    HostValue(host);
    HostIs(host);
    NotCalledPair(RequestLine(verb, uri), k);
  }

  lemma HostIs(host: CString)
    ensures StoredHost(host) == BlockTrim(RawValue(Header("Host", " " + host)))
  {
  }

  lemma Below64(n: nat)
    requires n < 18446744073709551616
    ensures n < TWO_64
  {
  }

  lemma LineIs(verb: CString, uri: CString)
    requires Plain(true, verb) && Plain(true, uri)
    ensures RequestLine(verb, uri) == verb + uri + " HTTP/1.1" && Plain(true, RequestLine(verb, uri))
  {
  }

  /** A first line without a colon leaves no pair, one with a colon one more. */
  lemma LineThenFields(line: CString, fields: seq<Header>, data: seq<char>)
    requires Plain(true, line) && Sendable(fields)
    ensures var r := HeadRun(Initial(0), '\0', PrintHead(line, fields) + data);
            r.Found? && r.rest == data && r.state.index == WriteAll(map[], LinePair(line) + fields)
  {
    hide HeadRun, PrintHead, WriteAll, Low, HeaderLine, HeaderLines, GoodHeader, AllLive, Write, ColonPair, Live, Plain;
    SendableParts(fields);
    PlainWithoutColon(line);
    if ':' !in line {
      ParseUndoesPrint(Initial(0), '\0', line, fields, data);
      assert [] + fields == fields;
    } else {
      RunColonLine(Initial(0), '\0', line, fields, data);
    }
  }

  /** No request line of the library makes a pair of a name without slash and question mark: its method has
      no colon, and its URI begins with a slash or a question mark. */
  lemma UriIsHarmless(verb: CString, uri: CString, k: CString)
    requires ':' !in verb && uri != [] && (uri[0] == '/' || uri[0] == '?')
    requires '/' !in k && '?' !in k
    ensures NotCalled(RequestLine(verb, uri), k)
    ensures HarmlessLine(RequestLine(verb, uri))
  {
    hide BlockTrim, SameAsideCase;
    var line := RequestLine(verb, uri);
    var n := Span(line, ':');
    if ':' in line {
      assert line[|verb|] == uri[0];
      assert n > |verb|;
      var c := line[..n][|verb|];
      BlockTrimKeeps(line[..n], c);
      NotInName(BlockTrim(line[..n]), c, k);
      NotInName(BlockTrim(line[..n]), c, "Transfer-Encoding");
    }
  }

  lemma NotInName(text: CString, c: char, name: CString)
    requires c in text && (c == '/' || c == '?') && '/' !in name && '?' !in name
    ensures !SameAsideCase(text, name)
  {
    hide SameLetter;
    var k :| 0 <= k < |text| && text[k] == c;
    if k < |name| {
      SameLetterIff(c, name[k]);
      assert name[k] in name;
    }
  }

  lemma {:induction false} BlockTrimKeeps(text: CString, c: char)
    requires c in text && !IsBlank(c)
    ensures c in BlockTrim(text)
    decreases |text|
  {
    hide Trim;
    if |text| < BLOCK {
      TrimKeeps(text, c);
    } else if c in text[..BLOCK] {
      TrimKeeps(text[..BLOCK], c);
    } else {
      assert text == text[..BLOCK] + text[BLOCK..];
      BlockTrimKeeps(text[BLOCK..], c);
    }
  }

  lemma AllBlankMisses(s: seq<char>, c: char)
    requires !IsBlank(c) && AllBlank(s)
    ensures c !in s
  {
  }

  lemma TrimKeeps(text: CString, c: char)
    requires c in text && !IsBlank(c)
    ensures c in Trim(text)
  {
    hide Trim, AllBlank, Padded;
    var left, right := TrimMeaning(text);
    PaddedIff(text, left, Trim(text), right);
    assert c !in left && c !in right by {
      AllBlankMisses(left, c);
      AllBlankMisses(right, c);
    }
  }

  lemma Below(n: nat)
    requires n <= 9223372036854775807
    ensures n < TWO_64
  {
  }

  lemma SendableParts(hs: seq<Header>)
    requires Sendable(hs)
    ensures GoodHeaders(hs) && AllLive(hs)
  {
  }
}
