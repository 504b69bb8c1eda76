/** What a response head means, one byte at a time: the reference for req_parse_headers, and the
    printed form of sections 4 and 5 of RFC 9112 that it undoes. */
module HeadCoding {
  import opened CStrings
  import opened Numbers
  import opened ParserTree

  const PARSER_BUFFER_SIZE := 1024

  /** key_value holds at most 1023 characters before it is flushed into the tree. */
  const BLOCK := PARSER_BUFFER_SIZE - 1

  type KeyValue = s: seq<char> | |s| <= BLOCK

  /** The local variables of req_parse_headers, the pending pair of the tree, the pairs pushed so
      far and the status code. */
  datatype HeadState = HeadState(
    cReturn: bool, inValue: bool, keyValue: KeyValue,
    key: Option<CString>, value: Option<CString>, index: Index, status: nat)

  predicate Sound(st: HeadState) {
    st.inValue ==> st.key.Some?
  }

  function Append(before: Option<CString>, text: CString): Option<CString> {
    Some(before.GetOr("") + text)
  }

  /** A full key_value buffer goes to the tree before the next byte is looked at. */
  function Flush(st: HeadState): (r: HeadState)
    ensures Sound(st) ==> Sound(r)
    ensures |r.keyValue| < BLOCK
  {
    if |st.keyValue| < BLOCK then st
    else
      var text := Trim(CStr(st.keyValue));
      if st.inValue then st.(value := Append(st.value, text), keyValue := [])
      else st.(key := Append(st.key, text), keyValue := [])
  }

  /** One byte other than the newline that ends the head. */
  function HeadStep(st0: HeadState, keepAlive: char, c: char): (r: HeadState)
    requires Sound(st0)
    ensures Sound(r)
  {
    var st := Flush(st0);
    var text := Trim(CStr(st.keyValue));
    if !st.inValue && c == ':' then
      st.(inValue := true, key := Append(st.key, text), keyValue := [])
    else if c == '\n' then
      if st.inValue then
        HeadState(true, false, [], None, None, st.index[Fold(st.key.value) := Append(st.value, text)], st.status)
      else
        var code := ParseStatus(st.keyValue, keepAlive);
        HeadState(true, false, [], None, None, st.index, if code != 0 then code else st.status)
    else
      st.(cReturn := st.cReturn && c < '0', keyValue := st.keyValue + [c])
  }

  datatype HeadResult = Found(state: HeadState, rest: seq<char>) | NotFound(state: HeadState)

  /** The head ends at a newline that no character from '0' upwards, other than the first colon of a
      line, separates from the newline before it. */
  function HeadRun(st: HeadState, keepAlive: char, bytes: seq<char>): HeadResult
    requires Sound(st)
    decreases |bytes|
  {
    if bytes == [] then NotFound(st)
    else if bytes[0] == '\n' && st.cReturn then Found(st, bytes[1..])
    else HeadRun(HeadStep(st, keepAlive, bytes[0]), keepAlive, bytes[1..])
  }

  function Initial(status: nat): HeadState {
    HeadState(false, false, [], None, None, map[], status)
  }

  // ------------------------------------------------------------------------------------------
  // parse_status

  predicate IsStatusLine(s: CString, keepAlive: char) {
    "HTTP/" <= s || (keepAlive == 'H' && "TTP/" <= s)
  }

  function AfterSpace(s: CString): CString {
    if s == [] then [] else if s[0] == ' ' then s[1..] else AfterSpace(s[1..])
  }

  /** The code read from a line, 0 if it is not a status line. Without digits the reader's UINT64_MAX
      is cut to 16 bits. */
  function ParseStatus(keyValue: seq<char>, keepAlive: char): nat {
    var s := CStr(keyValue);
    if !IsStatusLine(s, keepAlive) then 0
    else StrToUint64(LeadingDigits(AfterSpace(s), 3)) % 0x1_0000
  }

  /** What parse_status makes of any line: 0 if it is not a status line, 65535 if it is one without
      digits behind its first space, and else the value of up to three of them. */
  lemma StatusValue(line: CString, keepAlive: char)
    ensures var digits := LeadingDigits(AfterSpace(line), 3);
            ParseStatus(line, keepAlive) ==
            if !IsStatusLine(line, keepAlive) then 0 else if digits == [] then 0xFFFF else DecimalValue(digits)
    ensures DecimalValue(LeadingDigits(AfterSpace(line), 3)) <= 999
  {
    hide LeadingDigits, AfterSpace, DecimalValue, IsStatusLine;
    CStrOfCString(line);
    DigitsBound(LeadingDigits(AfterSpace(line), 3), 3);
    assert Pow10(3) == 10 * (10 * (10 * Pow10(0)));
  }

  /** The code 65535 comes from exactly the status lines without digits. */
  lemma StatusWithoutDigits(keyValue: seq<char>, keepAlive: char)
    requires IsStatusLine(CStr(keyValue), keepAlive)
    ensures ParseStatus(keyValue, keepAlive) == 0xFFFF <==> LeadingDigits(AfterSpace(CStr(keyValue)), 3) == []
  {
    hide LeadingDigits, AfterSpace, DecimalValue, IsStatusLine, CStr;
    var line := CStr(keyValue);
    CStrOfCString(line);
    StatusValue(line, keepAlive);
  }

  /** A version, a space, three digits and a reason that does not go on with a digit. */
  lemma {:induction false} StatusOfLine(head: CString, code: CString, reason: CString, keepAlive: char)
    requires ' ' !in head && AllDigits(code) && |code| == 3
    requires IsStatusLine(head, keepAlive)
    ensures ParseStatus(head + " " + code + reason, keepAlive) == DecimalValue(code) <= 999
  {
    var s := head + " " + code + reason;
    CStrOfCString(s);
    assert s == head + (" " + (code + reason));
    SkipToSpace(head, code + reason);
    assert "HTTP/" <= head ==> "HTTP/" <= s;
    assert "TTP/" <= head ==> "TTP/" <= s;
    ThreeDigits(code, reason);
  }

  lemma ThreeDigits(code: CString, reason: CString)
    requires AllDigits(code) && |code| == 3
    ensures LeadingDigits(code + reason, 3) == code && DecimalValue(code) <= 999
  {
    var t := code + reason;
    assert t[1..] == code[1..] + reason && t[2..] == code[2..] + reason && t[1..][1..] == t[2..];
    assert t[2..][1..] == reason;
    assert LeadingDigits(t[2..], 1) == [t[2]] + LeadingDigits(reason, 0) == [t[2]];
    assert LeadingDigits(t[1..], 2) == [t[1]] + LeadingDigits(t[2..], 1);
    assert LeadingDigits(t, 3) == [t[0]] + ([t[1]] + [t[2]]) == code;
    var c2, c1 := code[..2], code[..1];
    assert c2[..1] == c1 && c1[..0] == [];
    assert DecimalValue(c1) == DigitValue(code[0]);
    assert DecimalValue(c2) == DecimalValue(c1) * 10 + DigitValue(code[1]);
  }

  lemma {:induction false} SkipToSpace(head: CString, tail: CString)
    requires ' ' !in head
    ensures AfterSpace(head + (" " + tail)) == tail
    decreases |head|
  {
    var s := head + (" " + tail);
    if head == [] {
      assert s[1..] == tail;
    } else {
      assert s[1..] == head[1..] + (" " + tail);
      SkipToSpace(head[1..], tail);
    }
  }

  // ------------------------------------------------------------------------------------------
  // One line at a time

  /** What is stored for a raw name or value: each block of 1023 characters trimmed on its own. */
  function BlockTrim(text: CString): CString
    decreases |text|
  {
    if |text| < BLOCK then Trim(text) else Trim(text[..BLOCK]) + BlockTrim(text[BLOCK..])
  }

  /** What parse_status is given: the part of the line after its last full block. */
  function LastBlock(text: CString): CString
    decreases |text|
  {
    if |text| < BLOCK then text else LastBlock(text[BLOCK..])
  }

  lemma BlockTrimShort(text: CString)
    requires |text| <= BLOCK
    ensures BlockTrim(text) == Trim(text)
  {
    if |text| == BLOCK {
      assert text[..BLOCK] == text && text[BLOCK..] == [];
    }
  }

  function Lead(text: CString): nat {
    |text| - |TrimLeft(text)|
  }

  /** No blank stands beside a border of two blocks inside the trimmed text. */
  predicate CleanBorders(text: CString) {
    forall b :: Lead(text) < b < Lead(text) + |Trim(text)| && b < |text| && IsBorder(b) ==>
      !IsBlank(text[b - 1]) && !IsBlank(text[b])
  }

  /** Where a block ends and the next one begins. */
  predicate IsBorder(b: int) {
    b > 0 && b % BLOCK == 0
  }

  lemma NextBorder(b: int)
    ensures b > 0 ==> (IsBorder(b) <==> IsBorder(b + BLOCK))
  {
  }

  lemma FirstBorder(b: int)
    ensures IsBorder(BLOCK) && (IsBorder(b) ==> b >= BLOCK)
  {
  }

  lemma TrimBlank(text: CString)
    ensures Trim(text) == [] <==> AllBlank(text)
    ensures AllBlank(text) ==> Lead(text) == |text|
    ensures !AllBlank(text) ==> Lead(text) < |text|
    ensures |Trim(text)| <= |text| - Lead(text)
  {
    hide TrimLeft, TrimRight, AllBlank;
    TrimLeftAppend(text, []);
    TrimRightAppend([], TrimLeft(text));
    TrimLeftBlankIff(text);
  }

  lemma TrimLeftBlankIff(text: CString)
    ensures AllBlank(TrimLeft(text)) <==> TrimLeft(text) == []
  {
  }

  lemma BlockTrimOne(text: CString)
    ensures BlockTrim(text) == if |text| < BLOCK then Trim(text) else Trim(text[..BLOCK]) + BlockTrim(text[BLOCK..])
  {
  }

  lemma {:induction false} BlockTrimBlank(text: CString)
    requires AllBlank(text)
    ensures BlockTrim(text) == []
    decreases |text|
  {
    hide BlockTrim, Trim;
    BlockTrimOne(text);
    TrimBlank(text);
    if |text| >= BLOCK {
      TrimBlank(text[..BLOCK]);
      BlockTrimBlank(text[BLOCK..]);
    }
  }

  /** Trimming two texts on their own loses the blanks that stand between them. */
  lemma TrimTwo(a: CString, b: CString)
    requires a != [] && b != [] && !AllBlank(a) && !AllBlank(b)
    ensures if !IsBlank(a[|a| - 1]) && !IsBlank(b[0]) then Trim(a + b) == Trim(a) + Trim(b)
            else |Trim(a)| + |Trim(b)| < |Trim(a + b)|
  {
    hide TrimLeft, TrimRight, AllBlank;
    TrimAppend(a, b);
    LastOf(a);
    FirstOf(b);
  }

  lemma LastOf(a: CString)
    requires !AllBlank(a)
    ensures a != [] && |Trim(a)| <= |TrimLeft(a)|
    ensures |Trim(a)| == |TrimLeft(a)| <==> !IsBlank(a[|a| - 1])
    ensures !IsBlank(a[|a| - 1]) ==> Trim(a) == TrimLeft(a)
  {
    hide TrimLeft, AllBlank;
    TrimLeftAppend(a, []);
    var t := TrimLeft(a);
    assert t != [] && t[|t| - 1] == a[|a| - 1];
  }

  lemma FirstOf(b: CString)
    requires !AllBlank(b)
    ensures b != [] && |Trim(b)| <= |TrimRight(b)|
    ensures |Trim(b)| == |TrimRight(b)| <==> !IsBlank(b[0])
    ensures !IsBlank(b[0]) ==> Trim(b) == TrimRight(b)
  {
    hide TrimRight, TrimLeft, AllBlank;
    var left := b[..Lead(b)];
    TrimLeftBlanks(b);
    assert b == left + TrimLeft(b);
    TrimRightAppend(left, TrimLeft(b));
    TrimLeftAppend(b, []);
    TrimLeftBlankIff(b);
    TrimLeftOne(b);
    EmptyIsBlank();
  }

  lemma EmptyIsBlank()
    ensures AllBlank([])
  {
  }

  lemma {:induction false} BlockTrimShorter(text: CString)
    ensures |BlockTrim(text)| <= |Trim(text)|
    decreases |text|
  {
    hide BlockTrim, Trim, AllBlank;
    BlockTrimOne(text);
    if |text| >= BLOCK {
      var a, b := text[..BLOCK], text[BLOCK..];
      assert text == a + b;
      TrimAppend(a, b);
      TrimBlank(a);
      TrimBlank(b);
      if AllBlank(b) {
        BlockTrimBlank(b);
      } else {
        BlockTrimShorter(b);
        if !AllBlank(a) {
          EmptyIsBlank();
          TrimTwo(a, b);
        }
      }
    }
  }

  /** Each of the three ways to cut a text behind its first block. */
  lemma BordersOfTwo(a: CString, b: CString)
    requires |a| == BLOCK
    ensures AllBlank(a) ==> (CleanBorders(a + b) <==> CleanBorders(b))
    ensures AllBlank(b) ==> CleanBorders(a + b)
    ensures !AllBlank(a) && !AllBlank(b) ==>
              (CleanBorders(a + b) <==> !IsBlank(a[|a| - 1]) && !IsBlank(b[0]) && CleanBorders(b))
  {
    hide TrimLeft, Trim, AllBlank, CleanBorders;
    TrimAppend(a, b);
    TrimLeftAppend(a, b);
    TrimBlank(a);
    TrimBlank(b);
    if AllBlank(a) {
      Shifted(a, b);
      if AllBlank(b) {
        InFirstBlock(a + b);
      }
    } else if AllBlank(b) {
      InFirstBlock(a + b);
    } else {
      EmptyIsBlank();
      TrimTwo(a, b);
      FirstOf(b);
      TrimLeftOne(b);
      if !IsBlank(a[|a| - 1]) && !IsBlank(b[0]) {
        Shifted(a, b);
      } else {
        BlankAtBorder(a, b);
      }
    }
  }

  lemma InFirstBlock(text: CString)
    requires Lead(text) + |Trim(text)| <= BLOCK || Trim(text) == []
    ensures CleanBorders(text)
  {
    hide Trim, Lead, IsBorder;
    forall b | Lead(text) < b < Lead(text) + |Trim(text)| && b < |text|
      ensures !IsBorder(b)
    {
      FirstBorder(b);
    }
  }

  lemma BlankAtBorder(a: CString, b: CString)
    requires |a| == BLOCK && b != [] && (IsBlank(a[|a| - 1]) || IsBlank(b[0]))
    requires Lead(a + b) < BLOCK < Lead(a + b) + |Trim(a + b)|
    ensures !CleanBorders(a + b)
  {
    hide Trim, Lead, IsBorder, IsBlank;
    var text := a + b;
    FirstBorder(BLOCK);
    assert text[BLOCK - 1] == a[BLOCK - 1] && text[BLOCK] == b[0];
    assert IsBorder(BLOCK) && (IsBlank(text[BLOCK - 1]) || IsBlank(text[BLOCK]));
  }

  /** The borders behind the first block are those of the rest. */
  lemma Shifted(a: CString, b: CString)
    requires |a| == BLOCK && Lead(a + b) + |Trim(a + b)| == BLOCK + Lead(b) + |Trim(b)|
    requires || Lead(a + b) == BLOCK + Lead(b)
             || (Lead(a + b) < BLOCK && Lead(b) == 0 && b != [] && !IsBlank(a[BLOCK - 1]) && !IsBlank(b[0]))
    ensures CleanBorders(a + b) <==> CleanBorders(b)
  {
    hide Trim, Lead, IsBorder, IsBlank;
    var text := a + b;
    if CleanBorders(text) {
      forall k | Lead(b) < k < Lead(b) + |Trim(b)| && k < |b| && IsBorder(k)
        ensures !IsBlank(b[k - 1]) && !IsBlank(b[k])
      {
        NextBorder(k);
        assert text[k + BLOCK] == b[k] && text[k + BLOCK - 1] == b[k - 1];
      }
    }
    if CleanBorders(b) {
      forall k | Lead(text) < k < Lead(text) + |Trim(text)| && k < |text| && IsBorder(k)
        ensures !IsBlank(text[k - 1]) && !IsBlank(text[k])
      {
        FirstBorder(k);
        NextBorder(k - BLOCK);
        if k > BLOCK {
          assert text[k] == b[k - BLOCK] && text[k - 1] == b[k - BLOCK - 1];
        }
      }
    }
  }

  /** A raw name or value of any length is stored trimmed if and only if no blank stands beside a border
      of two blocks inside the trimmed text. */
  lemma {:induction false} BlockTrimIff(text: CString)
    ensures BlockTrim(text) == Trim(text) <==> CleanBorders(text)
    decreases |text|
  {
    hide BlockTrim, Trim, AllBlank, CleanBorders;
    BlockTrimOne(text);
    if |text| < BLOCK {
      ShortIsClean(text);
    } else {
      var a, b := text[..BLOCK], text[BLOCK..];
      assert text == a + b;
      TrimAppend(a, b);
      BordersOfTwo(a, b);
      TrimBlank(a);
      if AllBlank(b) {
        TrimBlank(b);
        BlockTrimBlank(b);
      } else if AllBlank(a) {
        BlockTrimIff(b);
      } else {
        EmptyIsBlank();
        TrimTwo(a, b);
        BlockTrimShorter(b);
        BlockTrimIff(b);
        SameHead(Trim(a), BlockTrim(b), Trim(b));
      }
    }
  }

  /** A blank that begins a block between two words is lost. */
  lemma BorderBlankIsLost(a: CString, b: CString)
    requires |a| == BLOCK && !AllBlank(a) && !AllBlank(b) && IsBlank(b[0])
    ensures BlockTrim(a + b) != Trim(a + b)
  {
    hide BlockTrim, Trim, AllBlank, CleanBorders;
    BordersOfTwo(a, b);
    BlockTrimIff(a + b);
  }

  lemma SameHead(a: seq<char>, b: seq<char>, c: seq<char>)
    ensures a + b == a + c <==> b == c
  {
    assert (a + b)[|a|..] == b && (a + c)[|a|..] == c;
  }

  lemma ShortIsClean(text: CString)
    requires |text| < BLOCK
    ensures CleanBorders(text)
  {
    hide TrimLeft, TrimRight, CleanBorders;
    InFirstBlock(text);
  }

  /** Bytes of a name or a value: no newline, and no colon inside a name. */
  predicate Plain(inValue: bool, text: seq<char>) {
    forall k :: 0 <= k < |text| ==> text[k] != '\n' && (inValue || text[k] != ':')
  }

  /** One byte of a name or a value. */
  function Accumulate(st: HeadState, c: char): (r: HeadState)
    ensures Sound(st) ==> Sound(r)
  {
    var f := Flush(st);
    f.(cReturn := f.cReturn && c < '0', keyValue := f.keyValue + [c])
  }

  function AfterText(st: HeadState, text: seq<char>): (r: HeadState)
    ensures Sound(st) ==> Sound(r)
    decreases |text|
  {
    if text == [] then st else AfterText(Accumulate(st, text[0]), text[1..])
  }

  lemma StepPlain(st: HeadState, keepAlive: char, c: char)
    requires Sound(st) && c != '\n' && (st.inValue || c != ':')
    ensures HeadStep(st, keepAlive, c) == Accumulate(st, c)
    ensures Accumulate(st, c).inValue == st.inValue
  {
    hide Trim, CStr, ParseStatus, Fold;
  }

  lemma {:induction false} RunText(st: HeadState, keepAlive: char, text: seq<char>, rest: seq<char>)
    requires Sound(st) && Plain(st.inValue, text)
    ensures HeadRun(st, keepAlive, text + rest) == HeadRun(AfterText(st, text), keepAlive, rest)
    decreases |text|
  {
    hide HeadStep, Accumulate;
    if text == [] {
      assert text + rest == rest;
    } else {
      var c, tail := text[0], text[1..];
      StepPlain(st, keepAlive, c);
      assert (text + rest)[1..] == tail + rest && (text + rest)[0] == c;
      assert Plain(st.inValue, tail) by {
        assert forall k :: 0 <= k < |tail| ==> tail[k] == text[k + 1];
      }
      RunText(Accumulate(st, c), keepAlive, tail, rest);
    }
  }

  function Stored(st: HeadState): CString {
    if st.inValue then st.value.GetOr("") else st.key.GetOr("")
  }

  /** No character from '0' upwards. */
  predicate Low(text: seq<char>) {
    forall k :: 0 <= k < |text| ==> text[k] < '0'
  }

  lemma {:induction false} TextEffect(st: HeadState, text: CString)
    requires '\0' !in st.keyValue
    ensures var r := AfterText(st, text);
            && '\0' !in r.keyValue
            && r == st.(cReturn := r.cReturn, keyValue := r.keyValue, key := r.key, value := r.value)
            && (st.inValue ==> r.key == st.key) && (!st.inValue ==> r.value == st.value)
            && r.cReturn == (st.cReturn && Low(text))
            && Stored(r) + BlockTrim(r.keyValue) == Stored(st) + BlockTrim(st.keyValue + text)
            && LastBlock(r.keyValue) == LastBlock(st.keyValue + text)
    decreases |text|
  {
    var r := AfterText(st, text);
    if text == [] {
      assert st.keyValue + text == st.keyValue;
    } else {
      var n := Accumulate(st, text[0]);
      AccumulateEffect(st, text);
      assert text[0] != '\0';
      hide Accumulate, BlockTrim, LastBlock, Stored;
      TextEffect(n, text[1..]);
    }
  }

  lemma AccumulateEffect(st: HeadState, text: CString)
    requires '\0' !in st.keyValue && text != []
    ensures var r := Accumulate(st, text[0]);
            && '\0' !in r.keyValue
            && r == st.(cReturn := r.cReturn, keyValue := r.keyValue, key := r.key, value := r.value)
            && (st.inValue ==> r.key == st.key) && (!st.inValue ==> r.value == st.value)
            && (r.cReturn && Low(text[1..])) == (st.cReturn && Low(text))
            && Stored(r) + BlockTrim(r.keyValue + text[1..]) == Stored(st) + BlockTrim(st.keyValue + text)
            && LastBlock(r.keyValue + text[1..]) == LastBlock(st.keyValue + text)
  {
    hide Trim, CStr, BlockTrim, LastBlock, Low;
    var kv, f := st.keyValue, Flush(st);
    LowSplit(text);
    MoveOne(f.keyValue, text);
    if |kv| == BLOCK {
      CStrOfCString(kv);
      FullBlock(kv, text);
      assert [] + text == text;
      Assoc(Stored(st), Trim(kv), BlockTrim(text));
    }
  }

  lemma LowSplit(text: seq<char>)
    requires text != []
    ensures Low(text) <==> text[0] < '0' && Low(text[1..])
  {
    assert text == [text[0]] + text[1..];
  }

  lemma MoveOne(s: seq<char>, text: seq<char>)
    requires text != []
    ensures (s + [text[0]]) + text[1..] == s + text
  {
  }

  lemma FullBlock(kv: CString, text: CString)
    requires |kv| == BLOCK
    ensures BlockTrim(kv + text) == Trim(kv) + BlockTrim(text) && LastBlock(kv + text) == LastBlock(text)
  {
    assert (kv + text)[..BLOCK] == kv && (kv + text)[BLOCK..] == text;
  }

  lemma Assoc(a: seq<char>, b: seq<char>, c: seq<char>)
    ensures (a + b) + c == a + (b + c)
  {
  }
}
