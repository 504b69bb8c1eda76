/** What the body of a response means, one byte at a time: the reference that the buffered decoder
    of requests.c is proved against, and the printed form of section 7.1 of RFC 9112 that it undoes. */
module BodyCoding {
  import opened CStrings
  import opened Numbers
  import opened ChunkScanner

  /** Where the reader stands: inside a size line, inside `left` bytes of data, or past the body. The
      register is what the scanner holds when the next byte of a size line comes. */
  datatype Mode = Size(register: Register) | Data(left: nat, register: Register) | Done

  /** A known size ends the size line: zero ends the body. */
  function Opened(size: int, register: Register): Mode {
    if size < 0 then Size(register) else if size == 0 then Done else Data(size, register)
  }

  function Step(chunked: bool, m: Mode, c: char): Mode {
    match m
    case Size(s) => Opened(ScanValue(s, c), ScanNext(s, c))
    case Data(left, s) => if left > 1 then Data(left - 1, s) else if chunked then Size(s) else Done
    case Done => Done
  }

  datatype Decoded = Decoded(mode: Mode, payload: seq<char>, unread: seq<char>)

  function Run(chunked: bool, m: Mode, bytes: seq<char>): Decoded
    decreases |bytes|
  {
    if bytes == [] || m.Done? then Decoded(m, [], bytes)
    else
      var r := Run(chunked, Step(chunked, m, bytes[0]), bytes[1..]);
      if m.Data? then r.(payload := [bytes[0]] + r.payload) else r
  }

  function Payload(chunked: bool, m: Mode, bytes: seq<char>): seq<char> {
    Run(chunked, m, bytes).payload
  }

  lemma RunEmpty(chunked: bool, m: Mode)
    ensures Run(chunked, m, []) == Decoded(m, [], [])
  {
  }

  lemma RunDone(chunked: bool, bytes: seq<char>)
    ensures Run(chunked, Done, bytes) == Decoded(Done, [], bytes)
  {
  }

  lemma RunStep(chunked: bool, m: Mode, bytes: seq<char>)
    requires bytes != [] && !m.Done?
    ensures var r := Run(chunked, Step(chunked, m, bytes[0]), bytes[1..]);
            Run(chunked, m, bytes) == if m.Data? then r.(payload := [bytes[0]] + r.payload) else r
  {
  }

  /** Decoding a stream in two pieces. */
  lemma {:induction false} RunAppend(chunked: bool, m: Mode, a: seq<char>, b: seq<char>)
    ensures var r := Run(chunked, m, a);
            Run(chunked, m, a + b) ==
            if r.mode.Done? then r.(unread := r.unread + b)
            else var r' := Run(chunked, r.mode, b); r'.(payload := r.payload + r'.payload)
    decreases |a|
  {
    hide Run, Step;
    if a == [] {
      assert a + b == b;
      RunEmpty(chunked, m);
      RunDone(chunked, b);
    } else if m.Done? {
      RunDone(chunked, a);
      RunDone(chunked, a + b);
    } else {
      assert (a + b)[1..] == a[1..] + b;
      RunStep(chunked, m, a);
      RunStep(chunked, m, a + b);
      RunAppend(chunked, Step(chunked, m, a[0]), a[1..], b);
    }
  }

  lemma PayloadAppend(chunked: bool, m: Mode, a: seq<char>, b: seq<char>)
    ensures Payload(chunked, m, a + b) ==
            Payload(chunked, m, a) + Payload(chunked, Run(chunked, m, a).mode, b)
    ensures Run(chunked, m, a + b).mode == Run(chunked, Run(chunked, m, a).mode, b).mode
  {
    RunAppend(chunked, m, a, b);
  }

  /** Data bytes are delivered unchanged until their count is used up. */
  lemma {:induction false} RunData(chunked: bool, left: nat, s: Register, bytes: seq<char>)
    requires 0 < left && |bytes| <= left
    ensures Run(chunked, Data(left, s), bytes) ==
            Decoded(if |bytes| < left then Data(left - |bytes|, s) else if chunked then Size(s) else Done,
                    bytes, [])
    decreases |bytes|
  {
    hide Run;
    if bytes == [] {
      RunEmpty(chunked, Data(left, s));
    } else {
      RunStep(chunked, Data(left, s), bytes);
      assert bytes == [bytes[0]] + bytes[1..];
      if left == 1 {
        RunEmpty(chunked, if chunked then Size(s) else Done);
      } else {
        RunData(chunked, left - 1, s, bytes[1..]);
      }
    }
  }

  /** A stream that breaks off delivers a prefix of what the whole stream would deliver. */
  lemma TruncationGivesPrefix(chunked: bool, m: Mode, bytes: seq<char>, n: nat)
    requires n <= |bytes|
    ensures Payload(chunked, m, bytes[..n]) <= Payload(chunked, m, bytes)
  {
    assert bytes == bytes[..n] + bytes[n..];
    RunAppend(chunked, m, bytes[..n], bytes[n..]);
  }

  // ------------------------------------------------------------------------------------------
  // Content-Length

  lemma ContentLengthDecodes(body: seq<char>, rest: seq<char>)
    requires body != []
    ensures Run(false, Data(|body|, []), body + rest) == Decoded(Done, body, rest)
  {
    RunData(false, |body|, [], body);
    RunAppend(false, Data(|body|, []), body, rest);
  }

  // ------------------------------------------------------------------------------------------
  // The chunked coding

  datatype Chunk = Chunk(digits: seq<char>, data: seq<char>)

  /** The size line is within the reader's reach and states the length of the data. */
  predicate SizeOf(digits: seq<char>, n: nat) {
    AllHexDigits(digits) && Readable(digits) && HexValue(digits) == n
  }

  predicate WellFormed(chunks: seq<Chunk>) {
    forall k :: 0 <= k < |chunks| ==> chunks[k].data != [] && SizeOf(chunks[k].digits, |chunks[k].data|)
  }

  function PrintChunks(chunks: seq<Chunk>): seq<char> {
    if chunks == [] then []
    else SizeLine(chunks[0].digits) + chunks[0].data + "\r\n" + PrintChunks(chunks[1..])
  }

  /** chunked-body without trailers, up to the CR LF that closes it. */
  function PrintBody(chunks: seq<Chunk>, last: seq<char>): seq<char> {
    PrintChunks(chunks) + SizeLine(last)
  }

  function Content(chunks: seq<Chunk>): seq<char> {
    if chunks == [] then [] else chunks[0].data + Content(chunks[1..])
  }

  lemma {:induction false} RunScan(s: Register, text: seq<char>)
    requires text != [] && forall k :: 0 <= k < |text| - 1 ==> text[k] != '\n'
    ensures var r := ScanAll(s, text); Run(true, Size(s), text) == Decoded(Opened(r.1, r.0), [], [])
    decreases |text|
  {
    if |text| == 1 {
      assert text[1..] == [];
    } else {
      assert ScanValue(s, text[0]) == -1;
      assert forall k :: 0 <= k < |text[1..]| - 1 ==> text[1..][k] == text[k + 1];
      RunScan(ScanNext(s, text[0]), text[1..]);
    }
  }

  lemma RunSizeLine(digits: seq<char>, rest: seq<char>)
    requires AllHexDigits(digits) && Readable(digits)
    ensures HexValue(digits) == 0 ==>
              Run(true, Size([]), SizeLine(digits) + rest) == Decoded(Done, [], rest)
    ensures HexValue(digits) > 0 ==>
              Run(true, Size([]), SizeLine(digits) + rest) == Run(true, Data(HexValue(digits), []), rest)
  {
    SizeReadExact(digits);
    ScanSizeLine(digits);
    RunScan([], SizeLine(digits));
    RunAppend(true, Size([]), SizeLine(digits), rest);
  }

  lemma RunLineEnd(rest: seq<char>)
    ensures Run(true, Size([]), "\r\n" + rest) == Run(true, Size([]), rest)
  {
    assert ("\r\n" + rest)[1..][1..] == rest;
  }

  lemma {:induction false} RunChunk(c: Chunk, rest: seq<char>)
    requires c.data != [] && SizeOf(c.digits, |c.data|)
    ensures var r := Run(true, Size([]), rest);
            Run(true, Size([]), SizeLine(c.digits) + c.data + "\r\n" + rest) == r.(payload := c.data + r.payload)
  {
    var tail := "\r\n" + rest;
    assert SizeLine(c.digits) + c.data + "\r\n" + rest == SizeLine(c.digits) + (c.data + tail);
    RunSizeLine(c.digits, c.data + tail);
    RunData(true, |c.data|, [], c.data);
    RunAppend(true, Data(|c.data|, []), c.data, tail);
    RunLineEnd(rest);
  }

  /** Decoding undoes printing, whatever follows the body, and what follows is left unread. */
  lemma {:induction false} ChunkedBodyDecodes(chunks: seq<Chunk>, last: seq<char>, rest: seq<char>)
    requires WellFormed(chunks) && SizeOf(last, 0)
    ensures Run(true, Size([]), PrintBody(chunks, last) + rest) == Decoded(Done, Content(chunks), rest)
    decreases |chunks|
  {
    hide Run, SizeLine, PrintBody, SizeOf;
    LinesReadable(chunks, last);
    BodyText(chunks, last, rest);
    if chunks == [] {
      ZeroSize(last);
      RunSizeLine(last, rest);
    } else {
      ChunkedBodyDecodes(chunks[1..], last, rest);
      RunChunk(chunks[0], PrintBody(chunks[1..], last) + rest);
    }
  }

  lemma BodyText(chunks: seq<Chunk>, last: seq<char>, rest: seq<char>)
    ensures PrintBody(chunks, last) + rest ==
            if chunks == [] then SizeLine(last) + rest
            else SizeLine(chunks[0].digits) + chunks[0].data + "\r\n" + (PrintBody(chunks[1..], last) + rest)
  {
    hide SizeLine;
  }

  lemma ZeroSize(last: seq<char>)
    requires SizeOf(last, 0)
    ensures AllHexDigits(last) && HexValue(last) == 0
  {
  }

  /** Chunks as a server prints them: not empty, each below 2^63 bytes, and the size written in hexadecimal
      with capital or with small letters. */
  predicate Printed(chunks: seq<Chunk>) {
    forall k :: 0 <= k < |chunks| ==>
      && 0 < |chunks[k].data| < 9223372036854775808
      && chunks[k].digits in {Hex(|chunks[k].data|, UPPER_HEX), Hex(|chunks[k].data|, LOWER_HEX)}
  }

  lemma PrintedIsWellFormed(chunks: seq<Chunk>)
    requires Printed(chunks)
    ensures WellFormed(chunks) && SizeOf("0", 0)
  {
    hide Hex, HexValue, Readable, UPPER_HEX, LOWER_HEX;
    forall k | 0 <= k < |chunks|
      ensures SizeOf(chunks[k].digits, |chunks[k].data|)
    {
      PrintedSize(|chunks[k].data|, UPPER_HEX);
      PrintedSize(|chunks[k].data|, LOWER_HEX);
    }
    PrintedSize(0, UPPER_HEX);
    PrintedZero();
  }

  lemma PrintedSize(n: nat, alphabet: CString)
    requires alphabet == UPPER_HEX || alphabet == LOWER_HEX
    requires n < 9223372036854775808
    ensures |alphabet| == 16 && SizeOf(Hex(n, alphabet), n)
  {
    hide Hex, HexValue, Readable, UPPER_HEX, LOWER_HEX;
    HexReadsBack(n, alphabet);
    PrintedSizeIsRead(n, alphabet);
  }

  lemma PrintedZero()
    ensures |UPPER_HEX| == 16 && Hex(0, UPPER_HEX) == "0"
  {
  }

  /** Whatever data a server prints in chunks, decoding gives it back. */
  lemma PrintedBodyDecodes(chunks: seq<Chunk>, rest: seq<char>)
    requires Printed(chunks)
    ensures Run(true, Size([]), PrintBody(chunks, "0") + rest) == Decoded(Done, Content(chunks), rest)
  {
    hide Run, SizeLine, WellFormed, SizeOf, Printed, PrintBody;
    PrintedIsWellFormed(chunks);
    ChunkedBodyDecodes(chunks, "0", rest);
  }

  /** The content bytes that lie within the first n bytes of a printed body. */
  function ContentWithin(chunks: seq<Chunk>, n: nat): seq<char> {
    if chunks == [] then []
    else
      var c := chunks[0];
      var head := |SizeLine(c.digits)|;
      if n <= head then []
      else if n <= head + |c.data| then c.data[..n - head]
      else if n <= head + |c.data| + 2 then c.data
      else c.data + ContentWithin(chunks[1..], n - head - |c.data| - 2)
  }

  lemma RunPrefixOfLine(digits: seq<char>, n: nat)
    requires AllHexDigits(digits) && Readable(digits) && n <= |SizeLine(digits)|
    ensures Payload(true, Size([]), SizeLine(digits)[..n]) == []
  {
    var line := SizeLine(digits);
    RunSizeLine(digits, []);
    assert line + [] == line;
    TruncationGivesPrefix(true, Size([]), line, n);
    assert Run(true, Data(HexValue(digits), []), []).payload == [];
  }

  lemma TruncatedChunk(c: Chunk, n: nat)
    requires c.data != [] && SizeOf(c.digits, |c.data|)
    requires |SizeLine(c.digits)| < n <= |SizeLine(c.digits)| + |c.data| + 2
    ensures Payload(true, Size([]), (SizeLine(c.digits) + c.data + "\r\n")[..n])
         == if n <= |SizeLine(c.digits)| + |c.data| then c.data[..n - |SizeLine(c.digits)|] else c.data
  {
    var line := SizeLine(c.digits);
    var k := n - |line|;
    var data := if k <= |c.data| then c.data[..k] else c.data;
    var end := "\r\n"[..if k <= |c.data| then 0 else k - |c.data|];
    assert (line + c.data + "\r\n")[..n] == line + (data + end);
    RunSizeLine(c.digits, data + end);
    RunData(true, |c.data|, [], data);
    RunAppend(true, Data(|c.data|, []), data, end);
    if end != [] {
      assert end == "\r" || end == "\r\n";
      LineEndHasNoPayload(end);
    }
  }

  /** A connection that breaks off inside a chunked body delivers exactly the content that arrived. */
  lemma {:induction false} TruncatedBody(chunks: seq<Chunk>, last: seq<char>, n: nat)
    requires WellFormed(chunks) && SizeOf(last, 0) && n <= |PrintBody(chunks, last)|
    ensures Payload(true, Size([]), PrintBody(chunks, last)[..n]) == ContentWithin(chunks, n)
    decreases |chunks|
  {
    hide Run, SizeLine, SizeOf;
    LinesReadable(chunks, last);
    var body := PrintBody(chunks, last);
    if chunks == [] {
      assert body == SizeLine(last);
      RunPrefixOfLine(last, n);
    } else {
      var c, tail := chunks[0], PrintBody(chunks[1..], last);
      var line := SizeLine(c.digits);
      var head := |line|;
      assert body == line + c.data + "\r\n" + tail;
      if n <= head {
        assert body[..n] == line[..n];
        RunPrefixOfLine(c.digits, n);
      } else if n <= head + |c.data| + 2 {
        assert body[..n] == (line + c.data + "\r\n")[..n];
        TruncatedChunk(c, n);
      } else {
        var n' := n - head - |c.data| - 2;
        assert body[..n] == line + c.data + "\r\n" + tail[..n'];
        TruncatedBody(chunks[1..], last, n');
        RunChunk(c, tail[..n']);
      }
    }
  }

  lemma LinesReadable(chunks: seq<Chunk>, last: seq<char>)
    requires WellFormed(chunks) && SizeOf(last, 0)
    ensures AllHexDigits(last) && Readable(last)
    ensures chunks != [] ==> AllHexDigits(chunks[0].digits) && Readable(chunks[0].digits) && WellFormed(chunks[1..])
  {
  }

  lemma LineEndHasNoPayload(end: seq<char>)
    requires end == "\r" || end == "\r\n"
    ensures Payload(true, Size([]), end) == []
  {
    RunLineEnd([]);
    assert "\r\n" + [] == "\r\n" && "\r"[1..] == [];
  }

  lemma HexFifteen()
    ensures AllHexDigits("15") && HexValue("15") == 21
  {
    assert "15"[..1] == "1" && "1"[..0] == "";
    assert HexValue("1") == 1;
  }

  lemma NothingScanned()
    ensures ScanAll([], []) == ([], -1)
  {
  }

  /** The scanner's register is shared by all connections. Left non-empty by a truncated response,
      it corrupts the next one: a pending "1" turns the size 5 into 21. */
  lemma StaleRegisterCorrupts()
    ensures Run(true, Size("1"), "5\r\n") == Decoded(Data(21, []), [], [])
  {
    hide Run, ScanAll, CStr, HexToUint64, HexValue;
    var t := "5\r\n";
    assert t == "5" + "\r\n" && "5\r\n" + [] == t;
    ScanDigits("1", "5", "\r\n");
    assert "1" + "5" == "15" && "\r\n" + [] == "\r\n";
    HexFifteen();
    ScanLineEnd("15", []);
    NothingScanned();
    RunScan("1", t);
  }
}
