/** Printed response heads and what parsing them gives back. */
module HeadPrinting {
  import opened CStrings
  import opened Numbers
  import opened ParserTree
  import opened HeadCoding

  /** `value` is everything between the colon and the CR LF, surrounding blanks included. */
  datatype Header = Header(name: CString, value: CString)

  predicate GoodHeader(h: Header) {
    Plain(false, h.name) && Plain(true, h.value)
  }

  predicate GoodHeaders(hs: seq<Header>) {
    forall k :: 0 <= k < |hs| ==> GoodHeader(hs[k])
  }

  function HeaderLine(h: Header): seq<char> {
    h.name + (":" + ((h.value + "\r") + "\n"))
  }

  function HeaderLines(hs: seq<Header>): seq<char> {
    if hs == [] then [] else HeaderLine(hs[0]) + HeaderLines(hs[1..])
  }

  function PrintHead(statusLine: CString, hs: seq<Header>): seq<char> {
    (statusLine + "\r") + ("\n" + (HeaderLines(hs) + "\r\n"))
  }

  /** The guard that the newline test of req_parse_headers needs: some character of the line, its
      first colon aside, is '0' or above. */
  predicate Live(h: Header) {
    !Low(h.name) || !Low(h.value)
  }

  predicate AllLive(hs: seq<Header>) {
    forall k :: 0 <= k < |hs| ==> Live(hs[k])
  }

  function RawValue(h: Header): CString {
    h.value + "\r"
  }

  function Write(m: Index, h: Header): Index {
    m[Fold(BlockTrim(h.name)) := Some(BlockTrim(RawValue(h)))]
  }

  function WriteAll(m: Index, hs: seq<Header>): Index
    decreases |hs|
  {
    if hs == [] then m else WriteAll(Write(m, hs[0]), hs[1..])
  }

  // ------------------------------------------------------------------------------------------
  // Lines

  /** Nothing of a line has been read yet. */
  predicate Idle(st: HeadState) {
    !st.inValue && st.keyValue == [] && st.key == None && st.value == None
  }

  lemma FlushAndTrim(st: HeadState)
    requires '\0' !in st.keyValue
    ensures var f := Flush(st);
            Stored(f) + Trim(CStr(f.keyValue)) == Stored(st) + BlockTrim(st.keyValue)
    ensures Flush(st).keyValue == LastBlock(st.keyValue) && '\0' !in Flush(st).keyValue
  {
    var kv := st.keyValue;
    CStrOfCString(kv);
    if |kv| == BLOCK {
      BlockTrimShort(kv);
      FullBlock(kv, []);
      assert kv + [] == kv && Trim([]) == [];
      Assoc(Stored(st), Trim(kv), []);
    }
  }

  lemma Neutral(text: seq<char>)
    ensures [] + text == text && text + [] == text
  {
  }

  /** The name of a header, up to and including its colon. */
  lemma RunName(st: HeadState, keepAlive: char, name: CString, rest: seq<char>)
    requires Idle(st) && Plain(false, name)
    ensures HeadRun(st, keepAlive, name + (":" + rest)) ==
            HeadRun(st.(cReturn := st.cReturn && Low(name), inValue := true, key := Some(BlockTrim(name))), keepAlive, rest)
  {
    RunText(st, keepAlive, name, ":" + rest);
    TextEffect(st, name);
    var r := AfterText(st, name);
    Neutral(name);
    FlushAndTrim(r);
    Neutral(BlockTrim(name));
    Neutral(BlockTrim(r.keyValue));
    assert (":" + rest)[1..] == rest;
    hide BlockTrim, AfterText, Low, LastBlock, Trim;
    var n := HeadStep(r, keepAlive, ':');
    assert n.key == Some(BlockTrim(name));
    assert HeadRun(r, keepAlive, ":" + rest) == HeadRun(n, keepAlive, rest);
  }

  /** The value of a header, up to and including its newline. */
  lemma RunValue(st: HeadState, keepAlive: char, value: CString, rest: seq<char>)
    requires st.inValue && st.key.Some? && st.keyValue == [] && st.value == None && Plain(true, value)
    ensures var r := HeadRun(st, keepAlive, value + ("\n" + rest));
            if st.cReturn && Low(value) then r.Found? && r.rest == rest
            else r == HeadRun(HeadState(true, false, [], None, None,
                                        st.index[Fold(st.key.value) := Some(BlockTrim(value))], st.status), keepAlive, rest)
  {
    RunText(st, keepAlive, value, "\n" + rest);
    TextEffect(st, value);
    var r := AfterText(st, value);
    Neutral(value);
    FlushAndTrim(r);
    Neutral(BlockTrim(value));
    Neutral(BlockTrim(r.keyValue));
    assert ("\n" + rest)[1..] == rest;
    hide BlockTrim, AfterText, Low, LastBlock, Trim;
    if !r.cReturn {
      var n := HeadStep(r, keepAlive, '\n');
      assert HeadRun(r, keepAlive, "\n" + rest) == HeadRun(n, keepAlive, rest);
    }
  }

  lemma HeaderLineThen(h: Header, rest: seq<char>)
    ensures HeaderLine(h) + rest == h.name + (":" + (RawValue(h) + ("\n" + rest)))
  {
  }

  lemma WithCR(inValue: bool, text: CString)
    ensures Low(text + "\r") <==> Low(text)
    ensures Plain(inValue, text) ==> Plain(inValue, text + "\r")
  {
    var t := text + "\r";
    assert t[|text|] == '\r';
    assert forall k :: 0 <= k < |text| ==> t[k] == text[k];
  }

  /** A header line either is pushed, or, when it is not live and not the first line, is taken for the
      end of the head. */
  lemma RunHeader(st: HeadState, keepAlive: char, h: Header, rest: seq<char>)
    requires Idle(st) && GoodHeader(h)
    ensures var r := HeadRun(st, keepAlive, HeaderLine(h) + rest);
            if Live(h) || !st.cReturn then
              r == HeadRun(HeadState(true, false, [], None, None, Write(st.index, h), st.status), keepAlive, rest)
            else r.Found? && r.rest == rest
  {
    var tail := RawValue(h) + ("\n" + rest);
    HeaderLineThen(h, rest);
    WithCR(true, h.value);
    hide HeadRun, BlockTrim, Low, HeaderLine;
    RunName(st, keepAlive, h.name, tail);
    var n := st.(cReturn := st.cReturn && Low(h.name), inValue := true, key := Some(BlockTrim(h.name)));
    RunValue(n, keepAlive, RawValue(h), rest);
  }

  /** A line without a colon is looked at for a status code. */
  lemma RunStatusLine(st: HeadState, keepAlive: char, line: CString, rest: seq<char>)
    requires Idle(st) && Plain(false, line) && !(st.cReturn && Low(line))
    ensures var code := ParseStatus(LastBlock(line), keepAlive);
            HeadRun(st, keepAlive, line + ("\n" + rest)) ==
            HeadRun(HeadState(true, false, [], None, None, st.index, if code != 0 then code else st.status),
                    keepAlive, rest)
  {
    RunText(st, keepAlive, line, "\n" + rest);
    TextEffect(st, line);
    var r := AfterText(st, line);
    Neutral(line);
    FlushAndTrim(r);
    assert ("\n" + rest)[1..] == rest;
    hide BlockTrim, AfterText, Low, LastBlock, Trim;
    var n := HeadStep(r, keepAlive, '\n');
    assert HeadRun(r, keepAlive, "\n" + rest) == HeadRun(n, keepAlive, rest);
  }

  lemma RunBlankLine(st: HeadState, keepAlive: char, rest: seq<char>)
    requires Idle(st) && st.cReturn
    ensures HeadRun(st, keepAlive, "\r\n" + rest) == Found(st.(keyValue := "\r"), rest)
  {
    var t := "\r\n" + rest;
    assert t[1..] == "\n" + rest && t[1..][1..] == rest;
    assert [] + ['\r'] == "\r";
    assert HeadStep(st, keepAlive, '\r') == st.(keyValue := "\r");
  }

  lemma {:induction false} RunHeaders(st: HeadState, keepAlive: char, hs: seq<Header>, rest: seq<char>)
    requires Idle(st) && st.cReturn && GoodHeaders(hs)
    ensures var r := HeadRun(st, keepAlive, HeaderLines(hs) + ("\r\n" + rest));
            && r.Found?
            && (AllLive(hs) ==> r.rest == rest && r.state.index == WriteAll(st.index, hs) && r.state.status == st.status)
            && (!AllLive(hs) ==> |r.rest| > |rest|)
    decreases |hs|
  {
    hide HeadRun, HeaderLine, Write, Live, GoodHeader;
    var end := "\r\n" + rest;
    if hs == [] {
      Neutral(end);
      RunBlankLine(st, keepAlive, rest);
    } else {
      var tail := HeaderLines(hs[1..]) + end;
      assert HeaderLines(hs) + end == HeaderLine(hs[0]) + tail;
      RunHeader(st, keepAlive, hs[0], tail);
      assert hs == [hs[0]] + hs[1..];
      assert AllLive(hs) <==> Live(hs[0]) && AllLive(hs[1..]);
      if Live(hs[0]) {
        RunHeaders(HeadState(true, false, [], None, None, Write(st.index, hs[0]), st.status), keepAlive, hs[1..], rest);
      }
    }
  }

  // ------------------------------------------------------------------------------------------
  // A first line with a colon

  /** What a line with a colon is taken for. */
  function ColonPair(line: CString): Header
    requires ':' in line
  {
    var n := Span(line, ':');
    Header(line[..n], line[n + 1..])
  }

  lemma ColonPairIsGood(line: CString)
    requires ':' in line && Plain(true, line)
    ensures var h := ColonPair(line); GoodHeader(h) && line == h.name + (":" + h.value)
  {
    hide Span;
    var n := Span(line, ':');
    forall k | 0 <= k < n
      ensures line[..n][k] != ':' && line[..n][k] != '\n'
    {
      assert line[..n][k] in line[..n];
    }
  }

  lemma ColonText(line: CString, hs: seq<Header>, rest: seq<char>)
    requires ':' in line && Plain(true, line)
    ensures PrintHead(line, hs) + rest == HeaderLine(ColonPair(line)) + (HeaderLines(hs) + ("\r\n" + rest))
  {
    hide ColonPair, Plain, HeaderLines;
    ColonPairIsGood(line);
    Recut(ColonPair(line).name, ColonPair(line).value, HeaderLines(hs), rest);
  }

  lemma Recut(name: seq<char>, value: seq<char>, lines: seq<char>, rest: seq<char>)
    ensures ((name + (":" + value)) + "\r") + ("\n" + (lines + "\r\n")) + rest ==
            name + (":" + ((value + "\r") + "\n")) + (lines + ("\r\n" + rest))
  {
  }

  /** The pair is written, the status is not touched, and parsing stops at the end of the head. */
  lemma RunColonLine(st: HeadState, keepAlive: char, line: CString, hs: seq<Header>, rest: seq<char>)
    requires Idle(st) && ':' in line && Plain(true, line) && GoodHeaders(hs) && AllLive(hs)
    requires !st.cReturn || Live(ColonPair(line))
    ensures var r := HeadRun(st, keepAlive, PrintHead(line, hs) + rest);
            && r.Found? && r.rest == rest && r.state.status == st.status
            && r.state.index == WriteAll(st.index, [ColonPair(line)] + hs)
  {
    hide HeadRun, PrintHead, HeaderLine, HeaderLines, GoodHeader, Live, Write, ColonPair, Plain;
    var h := ColonPair(line);
    ColonPairIsGood(line);
    ColonText(line, hs, rest);
    RunHeader(st, keepAlive, h, HeaderLines(hs) + ("\r\n" + rest));
    RunHeaders(HeadState(true, false, [], None, None, Write(st.index, h), st.status), keepAlive, hs, rest);
    assert ([h] + hs)[1..] == hs;
  }

  // ------------------------------------------------------------------------------------------
  // Heads

  /** The last line with a non-zero code sets the status. */
  function StatusAfter(status: nat, line: CString, keepAlive: char): nat {
    var code := ParseStatus(LastBlock(line), keepAlive);
    if code != 0 then code else status
  }

  /** Parsing a printed head stops exactly at its end if and only if every header line is live, and
      then gives the pairs written in order and the status read from the first line. A line that is
      not live ends the head early. */
  lemma ParseUndoesPrint(st: HeadState, keepAlive: char, statusLine: CString, hs: seq<Header>, rest: seq<char>)
    requires Idle(st) && Plain(false, statusLine) && !(st.cReturn && Low(statusLine)) && GoodHeaders(hs)
    ensures var r := HeadRun(st, keepAlive, PrintHead(statusLine, hs) + rest);
            && r.Found?
            && (r.rest == rest <==> AllLive(hs))
            && (AllLive(hs) ==> r.state.index == WriteAll(st.index, hs))
            && (AllLive(hs) ==> r.state.status == StatusAfter(st.status, statusLine + "\r", keepAlive))
  {
    var line := statusLine + "\r";
    var tail := HeaderLines(hs) + ("\r\n" + rest);
    assert PrintHead(statusLine, hs) + rest == line + ("\n" + tail);
    WithCR(false, statusLine);
    hide HeadRun, Low, HeaderLines, AllLive;
    RunStatusLine(st, keepAlive, line, tail);
    var code := ParseStatus(LastBlock(line), keepAlive);
    var n := HeadState(true, false, [], None, None, st.index, if code != 0 then code else st.status);
    RunHeaders(n, keepAlive, hs, rest);
  }

  /** A head the parser cuts short: the line `-: -` holds no character from '0' upwards. */
  lemma LowHeaderEndsHead(rest: seq<char>)
    ensures var h := Header("-", " -");
            GoodHeader(h) && !Live(h) &&
            var r := HeadRun(Initial(0), '\0', PrintHead("HTTP/1.1 200 OK", [h]) + rest);
            r.Found? && r.rest != rest
  {
    var h, line := Header("-", " -"), "HTTP/1.1 200 OK";
    assert line[0] == 'H' && Plain(false, line) && GoodHeader(h);
    assert Low(h.name) && Low(h.value);
    hide HeadRun, PrintHead, StatusAfter, WriteAll, Low;
    assert [h][0] == h;
    ParseUndoesPrint(Initial(0), '\0', line, [h], rest);
  }

  // ------------------------------------------------------------------------------------------
  // Lookup

  /** The value of the last header whose name is k, case aside. */
  function LastValue(hs: seq<Header>, k: CString): Option<CString> {
    if hs == [] then None
    else
      var h := hs[|hs| - 1];
      if SameAsideCase(BlockTrim(h.name), k) then Some(BlockTrim(RawValue(h))) else LastValue(hs[..|hs| - 1], k)
  }

  lemma {:induction false} WriteAllSplit(m: Index, a: seq<Header>, b: seq<Header>)
    ensures WriteAll(m, a + b) == WriteAll(WriteAll(m, a), b)
    decreases |a|
  {
    if a == [] {
      assert a + b == b;
    } else {
      assert (a + b)[1..] == a[1..] + b;
      WriteAllSplit(Write(m, a[0]), a[1..], b);
    }
  }

  lemma WriteThenLookup(m: Index, h: Header, k: CString)
    ensures MapLookup(Write(m, h), k) ==
            if SameAsideCase(BlockTrim(h.name), k) then Some(BlockTrim(RawValue(h))) else MapLookup(m, k)
  {
    hide BlockTrim, RawValue, SameAsideCase;
    SameFold(k, BlockTrim(h.name));
    SameFold(BlockTrim(h.name), k);
  }

  /** Looking a name up after parsing gives its last value, and nothing for an absent name. */
  lemma {:induction false} LookupGivesLastValue(hs: seq<Header>, k: CString)
    ensures MapLookup(WriteAll(map[], hs), k) == LastValue(hs, k)
    decreases |hs|
  {
    hide BlockTrim, RawValue, SameAsideCase, MapLookup, Write;
    if hs == [] {
      LookupAfterWrite(map[], [], None, k);
    } else {
      var front, h := hs[..|hs| - 1], hs[|hs| - 1];
      LookupGivesLastValue(front, k);
      WriteAllSplit(map[], front, [h]);
      assert hs == front + [h];
      var m := WriteAll(map[], front);
      assert [h][1..] == [];
      assert WriteAll(m, [h]) == Write(m, h);
      WriteThenLookup(m, h, k);
    }
  }

  /** No header of the list is called k. */
  predicate Misses(hs: seq<Header>, k: CString) {
    forall i :: 0 <= i < |hs| ==> !SameAsideCase(BlockTrim(hs[i].name), k)
  }

  lemma {:induction false} LastValueBefore(a: seq<Header>, b: seq<Header>, k: CString)
    requires Misses(b, k)
    ensures LastValue(a + b, k) == LastValue(a, k)
    decreases |b|
  {
    hide BlockTrim, SameAsideCase, RawValue;
    if b == [] {
      assert a + b == a;
    } else {
      var front := b[..|b| - 1];
      assert (a + b)[..|a + b| - 1] == a + front;
      LastValueBefore(a, front, k);
    }
  }

  lemma SameNames(hs: seq<Header>, k: CString, k': CString)
    requires SameAsideCase(k, k')
    ensures LastValue(hs, k) == LastValue(hs, k')
  {
    hide Fold, SameAsideCase, LastValue, MapLookup, WriteAll;
    SameFold(k, k');
    LookupGivesLastValue(hs, k);
    LookupGivesLastValue(hs, k');
    SameLookup(WriteAll(map[], hs), k, k');
  }

  lemma SameLookup(m: Index, k: CString, k': CString)
    requires Fold(k) == Fold(k')
    ensures MapLookup(m, k) == MapLookup(m, k')
  {
  }

  /** A raw piece of at most 1023 bytes, CR included, is stored trimmed. */
  lemma ShortValueIsTrimmed(h: Header)
    requires |h.value| < BLOCK
    ensures BlockTrim(RawValue(h)) == Trim(h.value)
  {
    BlockTrimShort(RawValue(h));
    TrimWithCR(h.value);
  }

  /** A raw value of any length is stored trimmed exactly if no blank stands beside a block border in it. */
  lemma ValueIsTrimmedIff(h: Header)
    ensures BlockTrim(RawValue(h)) == Trim(h.value) <==> CleanBorders(RawValue(h))
  {
    hide BlockTrim, Trim, CleanBorders;
    TrimWithCR(h.value);
    BlockTrimIff(RawValue(h));
  }

  // ------------------------------------------------------------------------------------------
  // Field lines as RFC 9110 writes them

  /** A field line of sections 5.1, 5.5 and 5.6.3 of RFC 9110: optional whitespace, spaces and tabs,
      around the value. */
  datatype FieldLine = FieldLine(name: CString, left: CString, value: CString, right: CString)

  predicate Visible(c: char) {
    '!' <= c <= '~'
  }

  predicate OptionalWhitespace(s: seq<char>) {
    forall k :: 0 <= k < |s| ==> s[k] == ' ' || s[k] == '\t'
  }

  /** The name is visible characters, a letter or a digit among them; the value begins and ends with a
      visible character, if it is not empty; each fits the parser's buffer. */
  predicate Usual(f: FieldLine) {
    && 1 <= |f.name| <= 1023 && ':' !in f.name && (forall k :: 0 <= k < |f.name| ==> Visible(f.name[k]))
    && (exists c :: c in f.name && (c in UPPER || c in LOWER || c in DIGITS))
    && OptionalWhitespace(f.left) && OptionalWhitespace(f.right) && '\n' !in f.value
    && (f.value != [] ==> Visible(f.value[0]) && Visible(f.value[|f.value| - 1]))
    && |f.left| + |f.value| + |f.right| < 1023
  }

  predicate AllUsual(fs: seq<FieldLine>) {
    forall k :: 0 <= k < |fs| ==> Usual(fs[k])
  }

  function PrintField(f: FieldLine): Header {
    Header(f.name, f.left + f.value + f.right)
  }

  function PrintFields(fs: seq<FieldLine>): (hs: seq<Header>)
    ensures |hs| == |fs| && forall k :: 0 <= k < |fs| ==> hs[k] == PrintField(fs[k])
  {
    seq(|fs|, k requires 0 <= k < |fs| => PrintField(fs[k]))
  }

  /** The value of the last field of this name. */
  function FieldValue(fs: seq<FieldLine>, name: CString): Option<CString> {
    if fs == [] then None
    else if SameAsideCase(fs[|fs| - 1].name, name) then Some(fs[|fs| - 1].value)
    else FieldValue(fs[..|fs| - 1], name)
  }

  lemma VisibleIsNoBlank(s: CString)
    requires s != [] ==> Visible(s[0]) && Visible(s[|s| - 1])
    ensures Padded(s, [], s, []) && Trim(s) == s
  {
    assert s == [] + s + [];
    TrimExact(s, [], s, []);
  }

  lemma WhitespaceIsPadding(left: CString, value: CString, right: CString)
    requires OptionalWhitespace(left) && OptionalWhitespace(right)
    requires value != [] ==> Visible(value[0]) && Visible(value[|value| - 1])
    ensures Trim(left + value + right) == value
  {
    TrimExact(left + value + right, left, value, right);
  }

  lemma UsualIsStored(f: FieldLine)
    requires Usual(f)
    ensures BlockTrim(PrintField(f).name) == f.name && BlockTrim(RawValue(PrintField(f))) == f.value
  {
    hide Trim, Padded;
    VisibleIsNoBlank(f.name);
    BlockTrimShort(f.name);
    WhitespaceIsPadding(f.left, f.value, f.right);
    ShortValueIsTrimmed(PrintField(f));
  }

  /** Letters and digits keep a line from being taken for the end of the head. */
  lemma LetterMakesLive(h: Header, c: char)
    requires c in h.name || c in h.value
    requires c in UPPER || c in LOWER || c in DIGITS
    ensures Live(h)
  {
    hide UPPER, LOWER;
    Alphabets();
    if c in DIGITS {
      DigitMeaning(c);
    }
    var text := if c in h.name then h.name else h.value;
    var k :| 0 <= k < |text| && text[k] == c;
    assert !(text[k] < '0');
  }

  lemma UsualIsGood(f: FieldLine)
    requires Usual(f)
    ensures GoodHeader(PrintField(f)) && Live(PrintField(f))
  {
    hide UPPER, LOWER;
    var c :| c in f.name && (c in UPPER || c in LOWER || c in DIGITS);
    LetterMakesLive(PrintField(f), c);
  }

  lemma {:induction false} UsualLookup(fs: seq<FieldLine>, name: CString)
    requires AllUsual(fs)
    ensures LastValue(PrintFields(fs), name) == FieldValue(fs, name)
    decreases |fs|
  {
    hide Usual, BlockTrim, SameAsideCase, RawValue, PrintField;
    if fs != [] {
      var front, f := fs[..|fs| - 1], fs[|fs| - 1];
      UsualIsStored(f);
      assert PrintFields(fs)[..|fs| - 1] == PrintFields(front);
      UsualLookup(front, name);
    }
  }

  /** The head of a response as RFC 9110 and RFC 9112 write it: parsing stops at its end, the status is its
      code, and each name, in any spelling, has the value of its last field, without the whitespace. */
  lemma UsualHead(l: StatusLine, fs: seq<FieldLine>, rest: seq<char>)
    requires GoodStatusLine(l) && AllUsual(fs)
    ensures var r := HeadRun(Initial(0), '\0', PrintHead(StatusText(l), PrintFields(fs)) + rest);
            && r.Found? && r.rest == rest && r.state.status == DecimalValue(l.code)
            && forall name: CString :: MapLookup(r.state.index, name) == FieldValue(fs, name)
  {
    hide HeadRun, PrintHead, StatusText, GoodStatusLine, Usual, MapLookup, FieldValue, WriteAll, LastValue, DecimalValue,
      PrintField, GoodHeader, Live;
    var hs := PrintFields(fs);
    forall k | 0 <= k < |fs|
      ensures GoodHeader(hs[k]) && Live(hs[k])
    {
      UsualIsGood(fs[k]);
    }
    FreshHead(l, hs, rest, '\0', Initial(0));
    forall name: CString
      ensures MapLookup(WriteAll(map[], hs), name) == FieldValue(fs, name)
    {
      LookupGivesLastValue(hs, name);
      UsualLookup(fs, name);
    }
  }

  lemma TrimNothing()
    ensures AllBlank("\r") && Trim("\r") == []
  {
    assert "\r"[1..] == [];
  }

  lemma TrimWithCR(s: CString)
    ensures Trim(s + "\r") == Trim(s)
  {
    TrimAppend(s, "\r");
    TrimNothing();
    TrimLeftAppend(s, []);
    TrimRightAppend([], TrimLeft(s));
  }

  // ------------------------------------------------------------------------------------------
  // Status lines and keep-alive

  /** The bytes that the decoder can have left behind the last size line of a chunked body. */
  predicate Leftover(s: seq<char>) {
    s == "" || s == "\n" || s == "\r\n"
  }

  /** A status line: a version, a space, three digits, a reason. */
  datatype StatusLine = StatusLine(version: CString, code: CString, reason: CString)

  predicate StatusParts(l: StatusLine) {
    && ' ' !in l.version && Plain(true, l.version) && Plain(true, l.reason)
    && AllDigits(l.code) && |l.code| == 3 && DecimalValue(l.code) != 0
  }

  /** One without a colon that fits the parser's buffer. */
  predicate GoodStatusLine(l: StatusLine) {
    && StatusParts(l) && Plain(false, l.version) && Plain(false, l.reason)
    && |StatusText(l)| < BLOCK - 1
  }

  function StatusText(l: StatusLine): CString {
    "HTTP/" + l.version + " " + l.code + l.reason
  }

  lemma StatusTextPlain(l: StatusLine)
    requires GoodStatusLine(l)
    ensures Plain(false, StatusText(l)) && StatusText(l) != [] && StatusText(l)[0] == 'H' && !Low(StatusText(l))
    ensures LastBlock(StatusText(l) + "\r") == StatusText(l) + "\r"
    ensures LastBlock(StatusText(l)[1..] + "\r") == StatusText(l)[1..] + "\r"
    ensures Plain(false, StatusText(l)[1..])
  {
    assert StatusText(l)[0] == 'H';
  }

  lemma StatusCode(l: StatusLine, keepAlive: char)
    requires StatusParts(l)
    ensures ParseStatus(StatusText(l) + "\r", keepAlive) == DecimalValue(l.code) != 0
    ensures keepAlive == 'H' ==> ParseStatus(StatusText(l)[1..] + "\r", keepAlive) == DecimalValue(l.code)
  {
    assert ' ' !in "HTTP/" && ' ' !in "TTP/";
    var head: CString := "HTTP/" + l.version;
    assert StatusText(l) + "\r" == head + " " + l.code + (l.reason + "\r");
    StatusOfLine(head, l.code, l.reason + "\r", keepAlive);
    if keepAlive == 'H' {
      var head': CString := "TTP/" + l.version;
      assert StatusText(l)[1..] + "\r" == head' + " " + l.code + (l.reason + "\r");
      StatusOfLine(head', l.code, l.reason + "\r", keepAlive);
    }
  }

  function CodeOf(l: StatusLine): nat
    requires StatusParts(l)
  {
    DecimalValue(l.code)
  }

  /** A text that parse_status reads the code from. */
  predicate GivesCode(line: CString, keepAlive: char, code: nat) {
    var digits := LeadingDigits(AfterSpace(line), 3);
    IsStatusLine(line, keepAlive) && digits != [] && DecimalValue(digits) == code
  }

  lemma GivesCodeIff(line: CString, keepAlive: char, l: StatusLine)
    requires StatusParts(l)
    ensures GivesCode(line, keepAlive, CodeOf(l)) <==> ParseStatus(line, keepAlive) == CodeOf(l)
    ensures CodeOf(l) != 0
  {
    hide LeadingDigits, AfterSpace, DecimalValue, IsStatusLine, ParseStatus;
    StatusValue(line, keepAlive);
    ThreeDigits(l.code, []);
  }

  lemma StatusTextIsPlain(l: StatusLine)
    requires StatusParts(l)
    ensures Plain(true, StatusText(l)) && Plain(true, StatusText(l)[1..])
    ensures |StatusText(l)| >= 2 && StatusText(l)[0] == 'H' && StatusText(l)[1..][0] == 'T'
  {
  }

  /** A line without a colon is a name throughout. */
  lemma PlainWithoutColon(text: CString)
    requires Plain(true, text)
    ensures Plain(false, text) <==> ':' !in text
  {
  }

  lemma LetterIsLive(text: CString)
    requires text != [] && (text[0] == 'H' || text[0] == 'T')
    ensures !Low(text) && (':' in text ==> Live(ColonPair(text)))
  {
    if ':' in text {
      assert ColonPair(text).name[0] == text[0];
    }
  }

  /** A status line, whole or without its peeked H, keeps its code if and only if it holds no colon and
      either with its CR is shorter than the parser's buffer, or what follows its last full block of 1023
      characters gives that code itself. A line with a colon is stored as a pair. */
  lemma StatusIsKept(l: StatusLine, text: CString, keepAlive: char, st: HeadState, hs: seq<Header>, rest: seq<char>)
    requires StatusParts(l) && GoodHeaders(hs) && AllLive(hs) && Idle(st) && st.status == 0
    requires text == StatusText(l) || (keepAlive == 'H' && text == StatusText(l)[1..])
    ensures var r := HeadRun(st, keepAlive, PrintHead(text, hs) + rest);
            && r.Found?
            && (r.state.status == CodeOf(l) <==>
                  ':' !in text &&
                  (|text| < 1022 || GivesCode(LastBlock(text + "\r"), keepAlive, CodeOf(l))))
  {
    hide HeadRun, PrintHead, StatusText, ParseStatus, GivesCode, Low, AllDigits, DecimalValue, Plain, Live;
    var line := text + "\r";
    StatusTextIsPlain(l);
    PlainWithoutColon(text);
    LetterIsLive(text);
    GivesCodeIff(LastBlock(line), keepAlive, l);
    if ':' in text {
      RunColonLine(st, keepAlive, text, hs, rest);
    } else {
      StatusCode(l, keepAlive);
      ParseUndoesPrint(st, keepAlive, text, hs, rest);
    }
  }

  /** On a new connection at most 1021 characters fit. */
  lemma FreshStatusIsKept(l: StatusLine, hs: seq<Header>, rest: seq<char>)
    requires StatusParts(l) && GoodHeaders(hs) && AllLive(hs)
    ensures var r := HeadRun(Initial(0), '\0', PrintHead(StatusText(l), hs) + rest);
            && r.Found?
            && (r.state.status == CodeOf(l) <==>
                  ':' !in StatusText(l) &&
                  (|StatusText(l)| < 1022 || GivesCode(LastBlock(StatusText(l) + "\r"), '\0', CodeOf(l))))
  {
    hide HeadRun, PrintHead, StatusText, GivesCode;
    StatusIsKept(l, StatusText(l), '\0', Initial(0), hs, rest);
  }

  function WithoutH(l: StatusLine): CString {
    StatusText(l)[1..]
  }

  /** On a reused connection, where the H has been peeked, one more does. */
  lemma ReusedStatusIsKept(l: StatusLine, hs: seq<Header>, rest: seq<char>, stream: seq<char>)
    requires StatusParts(l) && GoodHeaders(hs) && AllLive(hs) && stream == PrintHead(StatusText(l), hs) + rest
    ensures stream != []
    ensures var r := HeadRun(Initial(0), stream[0], stream[1..]);
            && r.Found?
            && (r.state.status == CodeOf(l) <==>
                  ':' !in StatusText(l) &&
                  (|StatusText(l)| < 1023 || GivesCode(LastBlock(WithoutH(l) + "\r"), 'H', CodeOf(l))))
  {
    hide HeadRun, PrintHead, GivesCode, StatusText, StatusParts, GoodHeaders, AllLive, LastBlock, DecimalValue;
    StatusStartsWithH(l);
    CodeIsDigits(l);
    HeadTail(StatusText(l), hs, rest);
    StatusIsKept(l, WithoutH(l), 'H', Initial(0), hs, rest);
  }

  lemma CodeIsDigits(l: StatusLine)
    requires StatusParts(l)
    ensures AllDigits(l.code)
  {
  }

  lemma StatusStartsWithH(l: StatusLine)
    ensures StatusText(l) != [] && StatusText(l)[0] == 'H'
    ensures ':' in StatusText(l) <==> ':' in WithoutH(l)
  {
    assert StatusText(l) == ['H'] + WithoutH(l);
  }

  /** A first line without a colon that does not begin with `HTTP/`, nor with `TTP/` behind a peeked H,
      leaves the status alone. */
  lemma OtherLineKeepsStatus(st: HeadState, keepAlive: char, text: CString, hs: seq<Header>, rest: seq<char>)
    requires Idle(st) && Plain(false, text) && !(st.cReturn && Low(text)) && GoodHeaders(hs) && AllLive(hs)
    requires |text| < 1022 && !("HTTP/" <= text) && !(keepAlive == 'H' && "TTP/" <= text)
    ensures var r := HeadRun(st, keepAlive, PrintHead(text, hs) + rest);
            r.Found? && r.rest == rest && r.state.index == WriteAll(st.index, hs) && r.state.status == st.status
  {
    hide HeadRun, PrintHead, Low, WriteAll, ParseStatus;
    NoStatus(text, keepAlive);
    ParseUndoesPrint(st, keepAlive, text, hs, rest);
  }

  lemma NoStatus(text: CString, keepAlive: char)
    requires !("HTTP/" <= text) && !(keepAlive == 'H' && "TTP/" <= text)
    ensures ParseStatus(text + "\r", keepAlive) == 0
  {
    var line := text + "\r";
    CStrOfCString(line);
    PrefixWithoutCR("HTTP/", text);
    PrefixWithoutCR("TTP/", text);
  }

  lemma PrefixWithoutCR(p: CString, text: CString)
    requires p != [] && p[|p| - 1] != '\r'
    ensures p <= text + "\r" ==> p <= text
  {
    var line := text + "\r";
    if p <= line {
      assert line[|p| - 1] == p[|p| - 1];
      assert text[..|p|] == line[..|p|] == p;
    }
  }

  const NOT_FOUND: CString := " Not Found: x"

  /** A reason with a colon: the status stays 0. */
  lemma ColonLosesStatus(rest: seq<char>)
    ensures var line := StatusLine("1.1", "404", NOT_FOUND);
            var r := HeadRun(Initial(0), '\0', PrintHead(StatusText(line), []) + rest);
            r.Found? && r.rest == rest && r.state.status == 0
  {
    hide HeadRun, PrintHead, Low, Live, ColonPair, WriteAll, StatusText, Plain;
    NotFound();
    ColonInReason(NOT_FOUND);
    RunColonLine(Initial(0), '\0', StatusText(StatusLine("1.1", "404", NOT_FOUND)), [], rest);
  }

  lemma ColonInReason(reason: CString)
    requires Plain(true, reason) && ':' in reason
    ensures var text := StatusText(StatusLine("1.1", "404", reason)); ':' in text && Plain(true, text)
  {
    var start: CString := "HTTP/" + "1.1" + " " + "404";
    assert Plain(true, start);
    assert StatusText(StatusLine("1.1", "404", reason)) == start + reason;
  }

  lemma NotFound()
    ensures ':' in NOT_FOUND && Plain(true, NOT_FOUND)
  {
    assert NOT_FOUND[10] == ':';
  }

  /** A status line of 1022 characters: the status stays 0. */
  lemma LengthLosesStatus(rest: seq<char>)
    ensures var line := StatusLine("1.1", "404", Letters(1010));
            var r := HeadRun(Initial(0), '\0', PrintHead(StatusText(line), []) + rest);
            |StatusText(line)| == 1022 && r.Found? && r.rest == rest && r.state.status == 0
  {
    hide HeadRun, PrintHead, Low, Letters, StatusText, ParseStatus, LastBlock, Plain;
    var text := StatusText(StatusLine("1.1", "404", Letters(1010)));
    LettersPlain();
    LetterIsLive(text);
    NothingOfFullBlock(text + "\r");
    ParseUndoesPrint(Initial(0), '\0', text, [], rest);
  }

  lemma LettersPlain()
    ensures var text := StatusText(StatusLine("1.1", "404", Letters(1010)));
            |text| == BLOCK - 1 && text[0] == 'H' && Plain(false, text)
  {
    hide Letters;
    var start: CString := "HTTP/" + "1.1" + " " + "404";
    assert Plain(false, start) && start[0] == 'H';
    assert StatusText(StatusLine("1.1", "404", Letters(1010))) == start + Letters(1010);
  }

  function Letters(n: nat): (s: CString)
    ensures |s| == n && forall k :: 0 <= k < n ==> s[k] == 'a'
  {
    seq(n, _ => 'a')
  }

  lemma NothingOfFullBlock(line: CString)
    requires |line| == BLOCK
    ensures ParseStatus(LastBlock(line), '\0') == 0
  {
    assert line[BLOCK..] == [] && LastBlock([]) == [];
  }

  /** A status line without digits: the answer has the status code 65535. */
  lemma NoDigitsGive65535(rest: seq<char>)
    ensures var r := HeadRun(Initial(0), '\0', PrintHead("HTTP/1.1 OK", []) + rest);
            r.Found? && r.rest == rest && r.state.status == 0xFFFF
  {
    hide HeadRun, PrintHead, ParseStatus, LeadingDigits, AfterSpace, Low;
    var text: CString, line: CString := "HTTP/1.1 OK", "HTTP/1.1 OK\r";
    assert text + "\r" == line && text[0] == 'H';
    NoDigits();
    StatusValue(line, '\0');
    HIsNotLow(text);
    ParseUndoesPrint(Initial(0), '\0', text, [], rest);
  }

  lemma HIsNotLow(text: CString)
    requires text != [] && text[0] == 'H'
    ensures !Low(text)
  {
  }

  lemma NoDigits()
    ensures LeadingDigits(AfterSpace("HTTP/1.1 OK\r"), 3) == [] && IsStatusLine("HTTP/1.1 OK\r", '\0')
  {
    SkipToSpace("HTTP/1.1", "OK\r");
    assert "HTTP/1.1" + (" " + "OK\r") == "HTTP/1.1 OK\r";
    assert "HTTP/" <= "HTTP/1.1 OK\r";
  }

  /** On a fresh connection a printed head gives its code and its pairs. */
  lemma FreshHead(l: StatusLine, hs: seq<Header>, rest: seq<char>, keepAlive: char, st: HeadState)
    requires GoodStatusLine(l) && GoodHeaders(hs) && AllLive(hs) && Idle(st) && st.index == map[]
    ensures var r := HeadRun(st, keepAlive, PrintHead(StatusText(l), hs) + rest);
            r.Found? && r.rest == rest && r.state.index == WriteAll(map[], hs) && r.state.status == DecimalValue(l.code)
  {
    StatusTextPlain(l);
    StatusCode(l, keepAlive);
    ParseUndoesPrint(st, keepAlive, StatusText(l), hs, rest);
  }

  /** Whatever the previous chunked body has left in the socket, peeking one byte and parsing the
      rest gives the next response the code and the pairs of a fresh connection. */
  lemma ReusedHead(left: seq<char>, l: StatusLine, hs: seq<Header>, rest: seq<char>)
    requires Leftover(left) && GoodStatusLine(l) && GoodHeaders(hs) && AllLive(hs)
    ensures var stream := left + (PrintHead(StatusText(l), hs) + rest);
            stream != [] &&
            var r := HeadRun(Initial(0), stream[0], stream[1..]);
            r.Found? && r.rest == rest && r.state.index == WriteAll(map[], hs) && r.state.status == DecimalValue(l.code)
  {
    var head := PrintHead(StatusText(l), hs);
    var stream := left + (head + rest);
    StatusTextPlain(l);
    hide HeadRun, PrintHead;
    if left == "" {
      ReusedWithoutH(l, hs, rest);
    } else if left == "\n" {
      assert stream[1..] == head + rest;
      FreshHead(l, hs, rest, '\n', Initial(0));
    } else {
      assert stream[1..] == "\n" + (head + rest);
      RunStrayNewline('\r', head + rest);
      FreshHead(l, hs, rest, '\r', Initial(0).(cReturn := true));
    }
  }

  lemma RunStrayNewline(keepAlive: char, rest: seq<char>)
    ensures HeadRun(Initial(0), keepAlive, "\n" + rest) == HeadRun(Initial(0).(cReturn := true), keepAlive, rest)
  {
    assert ("\n" + rest)[1..] == rest;
    assert ParseStatus([], keepAlive) == 0;
  }

  lemma HeadTail(text: CString, hs: seq<Header>, rest: seq<char>)
    requires text != []
    ensures var s := PrintHead(text, hs) + rest;
            s != [] && s[0] == text[0] && s[1..] == PrintHead(text[1..], hs) + rest
  {
    var tail := "\n" + (HeaderLines(hs) + "\r\n");
    assert (text + "\r") + tail == [text[0]] + ((text[1..] + "\r") + tail);
  }

  lemma ReusedWithoutH(l: StatusLine, hs: seq<Header>, rest: seq<char>)
    requires GoodStatusLine(l) && GoodHeaders(hs) && AllLive(hs)
    ensures var stream := "" + (PrintHead(StatusText(l), hs) + rest);
            stream != [] && stream[0] == 'H' &&
            var r := HeadRun(Initial(0), 'H', stream[1..]);
            r.Found? && r.rest == rest && r.state.index == WriteAll(map[], hs) && r.state.status == DecimalValue(l.code)
  {
    var text := StatusText(l);
    StatusTextPlain(l);
    StatusCode(l, 'H');
    var short: CString := text[1..];
    var stream := "" + (PrintHead(text, hs) + rest);
    Neutral(PrintHead(text, hs) + rest);
    HeadTail(text, hs, rest);
    hide PrintHead, HeadRun, StatusText;
    ParseUndoesPrint(Initial(0), 'H', short, hs, rest);
  }
}
