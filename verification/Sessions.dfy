/** Whole keep-alive sessions: every response on a reused connection is read like the first one. */
module Sessions {
  import opened CStrings
  import opened Numbers
  import opened ChunkScanner
  import opened BodyCoding
  import opened BodyReader
  import opened ParserTree
  import opened HeadCoding
  import opened HeadPrinting
  import opened HeadReader
  import opened Connection

  datatype Body = Chunks(chunks: seq<Chunk>, last: seq<char>) | Bytes(content: seq<char>) | Nothing

  datatype Response = Response(line: StatusLine, headers: seq<Header>, body: Body)

  /** What is on the wire behind the head; a chunked body ends with the CR LF that the reader leaves. */
  function Wire(b: Body): seq<char> {
    match b
    case Chunks(chunks, last) => PrintBody(chunks, last) + "\r\n"
    case Bytes(content) => content
    case Nothing => []
  }

  function ContentOf(b: Body): seq<char> {
    match b
    case Chunks(chunks, _) => Content(chunks)
    case Bytes(content) => content
    case Nothing => []
  }

  function ResponseText(r: Response): seq<char> {
    PrintHead(StatusText(r.line), r.headers) + Wire(r.body)
  }

  /** The head announces the body. Nothing stands for the answer to a HEAD request. */
  predicate GoodResponse(r: Response) {
    && GoodStatusLine(r.line) && GoodHeaders(r.headers) && AllLive(r.headers)
    && var f := FramingOf(WriteAll(map[], r.headers));
       match r.body
       case Chunks(chunks, last) => f == ByChunks && WellFormed(chunks) && SizeOf(last, 0)
       case Bytes(content) => f == ByLength(|content|)
       case Nothing => true
  }

  lemma UsualGood(fs: seq<FieldLine>)
    requires AllUsual(fs)
    ensures GoodHeaders(PrintFields(fs)) && AllLive(PrintFields(fs))
  {
    hide Usual, GoodHeader, Live, PrintField;
    forall k | 0 <= k < |fs|
      ensures GoodHeader(PrintFields(fs)[k]) && Live(PrintFields(fs)[k])
    {
      UsualIsGood(fs[k]);
    }
  }

  predicate NoCoding(fs: seq<FieldLine>) {
    FieldValue(fs, "Transfer-Encoding") == None
  }

  lemma NoCodingNotChunked(fs: seq<FieldLine>)
    requires AllUsual(fs) && NoCoding(fs)
    ensures !SaysChunked(PrintFields(fs))
  {
    hide Usual, FieldValue, LastValue, Search, PrintField;
    UsualLookup(fs, "Transfer-Encoding");
  }

  /** A response with a Content-Length that prints the length of its body. */
  lemma LengthResponse(l: StatusLine, fs: seq<FieldLine>, content: seq<char>)
    requires GoodStatusLine(l) && AllUsual(fs) && |content| < 9223372036854775808
    requires FieldValue(fs, "Content-Length") == Some(Decimal(|content|)) && NoCoding(fs)
    ensures GoodResponse(Response(l, PrintFields(fs), Bytes(content)))
  {
    hide GoodStatusLine, Usual, FieldValue, LastValue, WriteAll, FramingOf, GoodHeaders, AllLive, Decimal, DecimalValue,
      NoCoding, SaysChunked, PrintField;
    UsualGood(fs);
    UsualLookup(fs, "Content-Length");
    NoCodingNotChunked(fs);
    FramedByLength(PrintFields(fs), Decimal(|content|));
  }

  /** A response whose Transfer-Encoding is chunked, in any spelling, and whose chunk sizes are printed in
      hexadecimal. */
  lemma ChunkedResponse(l: StatusLine, fs: seq<FieldLine>, chunks: seq<Chunk>, coding: CString)
    requires GoodStatusLine(l) && AllUsual(fs) && Printed(chunks)
    requires FieldValue(fs, "Transfer-Encoding") == Some(coding) && SameAsideCase(coding, "chunked")
    ensures GoodResponse(Response(l, PrintFields(fs), Chunks(chunks, "0")))
  {
    hide GoodStatusLine, Usual, FieldValue, LastValue, WriteAll, FramingOf, GoodHeaders, AllLive, WellFormed, SizeOf,
      Printed, SameAsideCase;
    UsualGood(fs);
    UsualLookup(fs, "Transfer-Encoding");
    WholeCoding(coding);
    FramedByChunks(PrintFields(fs), coding, 0);
    PrintedIsWellFormed(chunks);
  }

  lemma WholeCoding(coding: CString)
    requires SameAsideCase(coding, "chunked")
    ensures OccursAt(coding, "chunked", 0)
  {
    assert coding[0..7] == coding;
  }

  function StartOf(b: Body): Mode {
    match b
    case Chunks(_, _) => Size([])
    case Bytes(content) => StartMode(ByLength(|content|))
    case Nothing => Done
  }

  predicate Framed(chunked: bool, b: Body) {
    (b.Chunks? ==> chunked) && (b.Bytes? ==> !chunked)
  }

  /** The head of r has been parsed. */
  ghost predicate Headed(handler: Handler, r: Response)
    requires GoodResponse(r)
    reads handler`headersTree, handler`statusCode
    reads handler.headersTree, if handler.headersTree == null then {} else handler.headersTree.live
  {
    && handler.headersTree != null && handler.headersTree.Valid() && Outside(handler, handler.headersTree)
    && handler.statusCode == DecimalValue(r.line.code) && handler.headersTree.Map() == WriteAll(map[], r.headers)
  }

  /** The state between two calls: the head of r has been parsed, and of its body `used` has been read. */
  ghost predicate Serving(handler: Handler, r: Response, used: seq<char>)
    reads handler, handler.scanner, handler.scanner.length, handler.readingResidue, handler.socket
    reads handler.headersTree, if handler.headersTree == null then {} else handler.headersTree.live
  {
    && GoodResponse(r) && handler.Valid() && Framed(handler.chunked, r.body) && Headed(handler, r)
    && Reached(handler, StartOf(r.body), Wire(r.body), used)
  }

  /** Decoding a whole body gives its content. */
  lemma WholeBody(b: Body, chunked: bool)
    requires Framed(chunked, b) && (b.Chunks? ==> WellFormed(b.chunks) && SizeOf(b.last, 0))
    ensures Payload(chunked, StartOf(b), Wire(b)) == ContentOf(b)
  {
    hide WellFormed, SizeOf;
    match b {
      case Chunks(chunks, last) => ChunkedBodyDecodes(chunks, last, "\r\n");
      case Bytes(content) =>
        if content != [] {
          ContentLengthDecodes(content, []);
          assert content + [] == content;
        }
      case Nothing =>
    }
  }

  /** What draining leaves is at most the end of the closing CR LF, and the scanner is idle. */
  lemma DrainedBody(b: Body, chunked: bool, used: seq<char>, rest: seq<char>)
    requires Framed(chunked, b) && (b.Chunks? ==> WellFormed(b.chunks) && SizeOf(b.last, 0))
    requires used + rest == Wire(b)
    requires Run(chunked, StartOf(b), used).mode.Done? || rest == []
    ensures chunked ==> Held(Run(true, StartOf(b), used).mode) == []
    ensures forall n :: 0 <= n <= |rest| ==> Leftover(rest[n..])
  {
    hide Run, WellFormed, SizeOf, PrintBody;
    match b {
      case Chunks(chunks, last) => DrainedChunkedBody(chunks, last, used, rest);
      case Bytes(content) => DrainedLengthBody(content, used, rest);
      case Nothing => DoneStays(chunked, Done, used);
    }
  }

  // ------------------------------------------------------------------------------------------
  // One exchange

  /** Behind the head the framing is chosen, and the reader stands at the start of the body. */
  method StartBody(handler: Handler, r: Response)
    requires handler.Valid() && handler.scanner.Contents() == [] && GoodResponse(r)
    requires Headed(handler, r)
    requires handler.bytesRead == 0 && !handler.readFinished && handler.Rest() == Wire(r.body)
    modifies handler`totalBytes, handler`chunked, handler`readFinished
    ensures Serving(handler, r, [])
  {
    hide Run, Tree.Valid, Tree.Map, WellFormed, WriteAll, FramingOf, GoodHeaders, GoodStatusLine, AllLive, PrintBody;
    var ok := SelectFraming(handler, r.body.Nothing?);
    RunEmpty(handler.chunked, handler.Mode());
    SplitNothing(handler.Rest());
  }

  /** The first response on a new connection. */
  method Open(socket: Socket, scanner: Scanner, r: Response) returns (handler: Handler)
    requires scanner.Valid() && scanner.Contents() == [] && GoodResponse(r) && socket.pending == []
    modifies socket
    ensures fresh(handler) && handler.socket == socket && handler.scanner == scanner
    ensures Serving(handler, r, []) && fresh(handler.headersTree)
  {
    hide HeadRun, PrintHead, PrintBody, Tree.Valid, Tree.Map, Reached, WellFormed, WriteAll, FramingOf;
    socket.pending := ResponseText(r);
    handler := new Handler(socket, scanner);
    FreshHead(r.line, r.headers, Wire(r.body), '\0', Initial(0));
    var ok := ParseHeaders(handler);
    StartBody(handler, r);
  }

  /** The next response on the same connection, wherever reading the previous body has stopped: the old
      body is drained, the connection is reused, and the handler serves r as a fresh one would. */
  method Reuse(handler: Handler, ghost r0: Response, ghost used0: seq<char>, r: Response)
    requires Serving(handler, r0, used0) && GoodResponse(r)
    modifies handler, handler.socket, handler.scanner, handler.scanner.length, handler.headersTree
    ensures old(handler.headersTree).live == {}
    ensures Serving(handler, r, []) && fresh(handler.headersTree)
  {
    hide Run, HeadRun, PrintHead, PrintBody, Tree.Valid, Tree.Map, Reached, WellFormed, WriteAll, FramingOf;
    ghost var used, dropped := DropResponse(handler, StartOf(r0.body), Wire(r0.body), used0);
    ghost var left := handler.socket.pending;
    assert used + (dropped + left) == Wire(r0.body);
    DrainedBody(r0.body, handler.chunked, used, dropped + left);
    assert (dropped + left)[|dropped|..] == left;
    ReusedHead(left, r.line, r.headers, Wire(r.body));
    var reused, ok := NextResponse(handler, ResponseText(r));
    StartBody(handler, r);
  }

  // ------------------------------------------------------------------------------------------
  // A session

  /** A response, and the buffer sizes with which the client reads its body before the next request. */
  datatype Exchange = Exchange(response: Response, sizes: seq<nat>)

  predicate GoodExchanges(exchanges: seq<Exchange>) {
    forall k :: 0 <= k < |exchanges| ==>
      GoodResponse(exchanges[k].response) && forall i :: 0 <= i < |exchanges[k].sizes| ==> 1 <= exchanges[k].sizes[i]
  }

  function Largest(sizes: seq<nat>): (n: nat)
    ensures forall i :: 0 <= i < |sizes| ==> sizes[i] <= n
  {
    if sizes == [] then 0
    else
      var n := Largest(sizes[..|sizes| - 1]);
      if sizes[|sizes| - 1] > n then sizes[|sizes| - 1] else n
  }

  /** What the client gets of one response: its code, and its body up to what was asked for. */
  predicate Served(e: Exchange, status: nat, body: seq<char>) {
    && GoodResponse(e.response) && status == DecimalValue(e.response.line.code)
    && body == Take(ContentOf(e.response.body), Sum(e.sizes))
  }

  lemma AtStart(handler: Handler, r: Response)
    requires Serving(handler, r, [])
    ensures handler.Remaining() == ContentOf(r.body)
  {
    hide WellFormed, WriteAll, FramingOf, Tree.Valid, Tree.Map, AllLive, GoodHeaders, GoodStatusLine, PrintBody, Content;
    WholeBody(r.body, handler.chunked);
    assert [] + handler.Rest() == handler.Rest();
  }

  /** Reading some of the body with any buffer sizes. */
  method ReadSome(handler: Handler, e: Exchange) returns (body: seq<char>, ghost used: seq<char>)
    requires Serving(handler, e.response, []) && forall i :: 0 <= i < |e.sizes| ==> 1 <= e.sizes[i]
    modifies handler`totalBytes, handler`bytesRead, handler`readFinished
    modifies handler`residueSize, handler`residueOffset, handler`readingResidue
    modifies handler.socket, handler.scanner, handler.scanner.length
    ensures Serving(handler, e.response, used) && body == Take(ContentOf(e.response.body), Sum(e.sizes))
  {
    hide Payload, WriteAll, Flatten, Sum, Take, Tree.Valid, Tree.Map, GoodResponse, Reached;
    var buffer := new char[Largest(e.sizes)];
    AtStart(handler, e.response);
    var parts;
    parts, used := ReadWithSizes(handler, buffer, e.sizes, StartOf(e.response.body), Wire(e.response.body), []);
    body := Flatten(parts);
  }

  /** Over any number of responses on one connection, each is served to the client exactly, however much
      of the previous bodies it has read and with whatever buffer sizes, and the shared scanner is given
      back idle. */
  method Session(socket: Socket, scanner: Scanner, exchanges: seq<Exchange>)
    returns (statuses: seq<nat>, bodies: seq<seq<char>>)
    requires scanner.Valid() && scanner.Contents() == [] && socket.pending == [] && GoodExchanges(exchanges)
    modifies socket, scanner, scanner.length
    ensures scanner.Valid() && scanner.Contents() == []
    ensures |statuses| == |bodies| == |exchanges|
    ensures forall k :: 0 <= k < |exchanges| ==> Served(exchanges[k], statuses[k], bodies[k])
  {
    hide Serving, GoodResponse, Served;
    statuses, bodies := [], [];
    if exchanges == [] {
      return;
    }
    var handler := Open(socket, scanner, exchanges[0].response);
    var k := 0;
    while true
      invariant 0 <= k < |exchanges| && |statuses| == |bodies| == k
      invariant fresh(handler) && handler.socket == socket && handler.scanner == scanner
      invariant handler.headersTree != null && fresh(handler.headersTree)
      invariant Serving(handler, exchanges[k].response, [])
      invariant forall i :: 0 <= i < k ==> Served(exchanges[i], statuses[i], bodies[i])
      decreases |exchanges| - k
    {
      ghost var r := exchanges[k].response;
      var body;
      ghost var used;
      statuses := statuses + [handler.statusCode];
      body, used := ReadSome(handler, exchanges[k]);
      bodies := bodies + [body];
      ServedNow(handler, exchanges[k], used, statuses[k], body);
      ServingIsIdle(handler, r, used);
      if k + 1 == |exchanges| {
        return;
      }
      k := k + 1;
      Reuse(handler, r, used, exchanges[k].response);
    }
  }

  /** Between two calls on a complete response the shared scanner is idle. */
  lemma ServingIsIdle(handler: Handler, r: Response, used: seq<char>)
    requires Serving(handler, r, used)
    ensures handler.scanner.Valid() && handler.scanner.Contents() == []
  {
    hide Run, WellFormed, PrintBody, WriteAll, FramingOf, Tree.Valid, Tree.Map, AllLive, GoodHeaders, GoodStatusLine;
    if handler.Mode().Done? {
      DrainedBody(r.body, handler.chunked, used, handler.Rest());
    }
  }

  lemma ServedNow(handler: Handler, e: Exchange, used: seq<char>, status: nat, body: seq<char>)
    requires Serving(handler, e.response, used) && status == handler.statusCode
    requires body == Take(ContentOf(e.response.body), Sum(e.sizes))
    ensures Served(e, status, body)
  {
  }

  // ------------------------------------------------------------------------------------------
  // Broken connections

  /** The content that the first n bytes of a body on the wire contain. */
  function Arrived(b: Body, n: nat): seq<char>
    requires n <= |Wire(b)|
  {
    match b
    case Chunks(chunks, _) => ContentWithin(chunks, n)
    case Bytes(content) => content[..n]
    case Nothing => []
  }

  lemma {:induction false} AllArrived(chunks: seq<Chunk>, n: nat)
    requires n >= |PrintChunks(chunks)|
    ensures ContentWithin(chunks, n) == Content(chunks)
    decreases |chunks|
  {
    if chunks != [] {
      AllArrived(chunks[1..], n - |SizeLine(chunks[0].digits)| - |chunks[0].data| - 2);
    }
  }

  lemma BrokenBody(b: Body, chunked: bool, n: nat)
    requires Framed(chunked, b) && (b.Chunks? ==> WellFormed(b.chunks) && SizeOf(b.last, 0)) && n <= |Wire(b)|
    ensures Payload(chunked, StartOf(b), Wire(b)[..n]) == Arrived(b, n)
  {
    hide WellFormed, SizeOf, Run;
    match b {
      case Chunks(chunks, last) =>
        var text := PrintBody(chunks, last);
        if n <= |text| {
          assert Wire(b)[..n] == text[..n];
          TruncatedBody(chunks, last, n);
        } else {
          var rest := "\r\n"[..n - |text|];
          assert Wire(b)[..n] == text + rest;
          ChunkedBodyDecodes(chunks, last, rest);
          AllArrived(chunks, n);
        }
      case Bytes(content) =>
        if content == [] {
          RunEmpty(chunked, Done);
        } else {
          RunData(false, |content|, [], content[..n]);
        }
      case Nothing => RunEmpty(chunked, Done);
    }
  }

  /** A connection that ends anywhere inside a body: the client gets exactly the content that arrived. */
  method ReadBroken(handler: Handler, buffer: array<char>, ghost b: Body, ghost n: nat) returns (body: seq<char>)
    requires handler.Valid() && handler.Foreign(buffer) && buffer.Length >= 1 && handler.Mode() == StartOf(b)
    requires Framed(handler.chunked, b) && (b.Chunks? ==> WellFormed(b.chunks) && SizeOf(b.last, 0))
    requires n <= |Wire(b)| && Reached(handler, StartOf(b), Wire(b)[..n], [])
    modifies handler`totalBytes, handler`bytesRead, handler`readFinished
    modifies handler`residueSize, handler`residueOffset, handler`readingResidue
    modifies handler.socket, handler.scanner, handler.scanner.length, buffer
    ensures body == Arrived(b, n) && body <= ContentOf(b)
  {
    hide Run, WellFormed, SizeOf, PrintBody, Content, ContentWithin;
    ghost var all, start := handler.Rest(), handler.Mode();
    BrokenBody(b, handler.chunked, n);
    WholeBody(b, handler.chunked);
    TruncationGivesPrefix(handler.chunked, start, Wire(b), n);
    ghost var used;
    body, used := Drain(handler, buffer, start, all, []);
  }
}
