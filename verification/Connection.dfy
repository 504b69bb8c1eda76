/** Whole exchanges on one connection: choosing the framing from the head, reading a body with any
    sequence of buffer sizes, draining it, and reusing the connection for the next response. */
module Connection {
  import opened CStrings
  import opened Numbers
  import opened ChunkScanner
  import opened BodyCoding
  import opened BodyReader
  import opened ParserTree
  import opened HeadCoding
  import opened HeadPrinting
  import opened HeadReader

  // ------------------------------------------------------------------------------------------
  // Framing

  const CONTENT_LENGTH: CString := "content-length"
  const CHUNKED: CString := "chunked"
  const TRANSFER_ENCODING: CString := "transfer-encoding"

  datatype Framing = ByLength(length: nat) | ByChunks | NoFraming

  /** Lines 219-235 of req_request, on the index of the response head. A head without Content-Length
      is taken for a chunked one. */
  function FramingOf(index: Index): Framing {
    var length := MapLookup(index, CONTENT_LENGTH);
    var coding := MapLookup(index, TRANSFER_ENCODING);
    if length.None? || (coding.Some? && Search(coding.value, CHUNKED, 0, 0) != -1) then ByChunks
    else if StrToUint64(length.value) > INT64_MAX then NoFraming
    else ByLength(StrToUint64(length.value))
  }

  /** The last Transfer-Encoding, if there is one, holds `chunked` where the search finds it. */
  predicate SaysChunked(hs: seq<Header>) {
    var coding := LastValue(hs, "Transfer-Encoding");
    coding.Some? && Finds(coding.value, "chunked")
  }

  predicate Finds(text: CString, expr: CString) {
    Search(text, expr, 0, 0) != -1
  }

  /** A Content-Length that the reader refuses: no number, or one that is 2^63 or more modulo 2^64. */
  predicate BadLength(text: CString) {
    text == [] || !AllDigits(text) || DecimalValue(text) % 18446744073709551616 >= 9223372036854775808
  }

  lemma HeaderName(hs: seq<Header>, name: CString, k: CString)
    requires SameAsideCase(name, k)
    ensures MapLookup(WriteAll(map[], hs), k) == LastValue(hs, name)
  {
    hide *;
    LookupGivesLastValue(hs, k);
    SameNames(hs, name, k);
  }

  lemma SameSpelling()
    ensures SameAsideCase("Content-Length", CONTENT_LENGTH)
    ensures SameAsideCase("Transfer-Encoding", TRANSFER_ENCODING)
  {
    SameWhenFolded("Content-Length", CONTENT_LENGTH);
    SameWhenFolded("Transfer-Encoding", TRANSFER_ENCODING);
  }

  /** The Content-Length is not overridden by chunked, and is refused. */
  predicate Refused(hs: seq<Header>) {
    var length := LastValue(hs, "Content-Length");
    length.Some? && !SaysChunked(hs) && BadLength(length.value)
  }

  lemma FramingFails(index: Index)
    ensures forall hs: seq<Header> :: index == WriteAll(map[], hs) ==> (FramingOf(index).NoFraming? <==> Refused(hs))
  {
    hide FramingOf, LastValue, SaysChunked, BadLength, WriteAll, DecimalValue;
    forall hs: seq<Header> | index == WriteAll(map[], hs)
      ensures FramingOf(index).NoFraming? <==> Refused(hs)
    {
      FramingOfHead(hs);
    }
  }

  /** What the head of a response is read by, for every list of headers. Without a Content-Length, as in
      a 204 or 304 answer, it is taken for a chunked one. */
  lemma FramingOfHead(hs: seq<Header>)
    ensures var length := LastValue(hs, "Content-Length");
            FramingOf(WriteAll(map[], hs)) ==
            if length == None || SaysChunked(hs) then ByChunks
            else if BadLength(length.value) then NoFraming
            else ByLength(DecimalValue(length.value) % 18446744073709551616)
  {
    hide MapLookup, LastValue, WriteAll, DecimalValue, Search, SameAsideCase, CONTENT_LENGTH, TRANSFER_ENCODING;
    SameSpelling();
    HeaderName(hs, "Content-Length", CONTENT_LENGTH);
    HeaderName(hs, "Transfer-Encoding", TRANSFER_ENCODING);
  }

  /** A printed head whose last Transfer-Encoding holds `chunked`, case aside, at its start or behind a
      character that is not one of these letters, as in a list of codings. */
  lemma FramedByChunks(hs: seq<Header>, coding: CString, k: nat)
    requires LastValue(hs, "Transfer-Encoding") == Some(coding)
    requires OccursAt(coding, "chunked", k) && (k == 0 || !IsIn(coding[k - 1], "chunked"))
    ensures FramingOf(WriteAll(map[], hs)) == ByChunks
  {
    hide LastValue, WriteAll, Search, OccursAt, IsIn, FramingOf, BadLength, DecimalValue;
    FramingOfHead(hs);
    SearchFinds(coding, "chunked", k);
  }

  /** The list of codings `gzip, chunked`. */
  lemma GzipThenChunked(hs: seq<Header>)
    requires LastValue(hs, "Transfer-Encoding") == Some("gzip, chunked")
    ensures FramingOf(WriteAll(map[], hs)) == ByChunks
  {
    hide LastValue, WriteAll, FramingOf;
    var coding: CString := "gzip, chunked";
    assert coding[6..13] == "chunked";
    BlankIsNoLetter();
    FramedByChunks(hs, coding, 6);
  }

  lemma BlankIsNoLetter()
    ensures !IsIn(' ', "chunked")
  {
    hide SameLetter;
    forall i | 0 <= i < 7
      ensures !SameLetter(' ', "chunked"[i])
    {
      SameLetterIff(' ', "chunked"[i]);
    }
  }

  /** A printed head with a decimal Content-Length, and no Transfer-Encoding or one in which the search
      does not find `chunked`: the length is taken modulo 2^64 and refused from 2^63 on, so it is the
      announced one if and only if that is below 2^63. */
  lemma FramedByLength(hs: seq<Header>, digits: CString)
    requires LastValue(hs, "Content-Length") == Some(digits) && !SaysChunked(hs)
    requires digits != [] && AllDigits(digits)
    ensures var n := DecimalValue(digits) % 18446744073709551616;
            FramingOf(WriteAll(map[], hs)) == if n > 9223372036854775807 then NoFraming else ByLength(n)
    ensures FramingOf(WriteAll(map[], hs)) == ByLength(DecimalValue(digits)) <==>
            DecimalValue(digits) <= 9223372036854775807
  {
    hide LastValue, WriteAll, DecimalValue, SaysChunked, FramingOf;
    FramingOfHead(hs);
  }

  /** The decoder's state at the first byte of a body. */
  function StartMode(f: Framing): Mode {
    match f
    case ByLength(n) => if n > 0 then Data(n, []) else Done
    case ByChunks => Size([])
    case NoFraming => Done
  }

  /** Lines 213-236 of req_request. The answer to a HEAD request has no body. */
  method SelectFraming(handler: Handler, head: bool) returns (ok: bool)
    requires handler.Valid() && handler.headersTree != null && handler.headersTree.Valid()
    requires handler.bytesRead == 0 && !handler.readFinished && handler.scanner.Contents() == []
    modifies handler`totalBytes, handler`chunked, handler`readFinished
    ensures handler.Valid()
    ensures head ==> ok && handler.Mode().Done? && handler.chunked == old(handler.chunked)
    ensures !head ==>
              var f := FramingOf(handler.headersTree.Map());
              && ok == !f.NoFraming?
              && (ok ==> handler.Mode() == StartMode(f) && handler.chunked == f.ByChunks?)
    ensures !head ==> forall hs: seq<Header> :: handler.headersTree.Map() == WriteAll(map[], hs) ==>
              (ok <==> !Refused(hs))
  {
    hide Search, OccursAt, MapLookup, StrToUint64, Tree.Valid, Tree.Map, CStr, WriteAll, Refused, SameAsideCase;
    FramingFails(handler.headersTree.Map());
    if head {
      handler.readFinished := true;
      return true;
    }
    var length := handler.headersTree.GetValue(CONTENT_LENGTH);
    var coding := handler.headersTree.GetValue(TRANSFER_ENCODING);
    var found := -1;
    if coding.Some? {
      found := StrSearchCaseUnsensitive(coding.value, CHUNKED);
    }
    if length.None? || (coding.Some? && found != -1) {
      handler.totalBytes := 0;
      handler.chunked := true;
      return true;
    }
    var total := ReadUint64(length.value);
    CStrOfCString(length.value);
    if total > INT64_MAX {
      return false;
    }
    handler.totalBytes := total;
    handler.chunked := false;
    return true;
  }

  // ------------------------------------------------------------------------------------------
  // Bodies

  function Flatten(parts: seq<seq<char>>): seq<char> {
    if parts == [] then [] else Flatten(parts[..|parts| - 1]) + parts[|parts| - 1]
  }

  function Sum(sizes: seq<nat>): nat {
    if sizes == [] then 0 else Sum(sizes[..|sizes| - 1]) + sizes[|sizes| - 1]
  }

  /** Every reachable state of a body: `used` is what has been consumed of the stream `all`, decoding
      it from the start gives the present state, and what is left is residue and socket. Between two
      calls the scanner is idle unless the stream has ended. Of a body with Content-Length, bytesRead is
      the number of bytes consumed, and never more than the announced length. */
  ghost predicate Reached(handler: Handler, start: Mode, all: seq<char>, used: seq<char>)
    requires handler.Valid()
    reads handler, handler.scanner, handler.scanner.length, handler.readingResidue, handler.socket
  {
    && Split(all, used, [], handler.Rest())
    && (Run(handler.chunked, start, used).mode == handler.Mode() || (handler.Mode().Done? && handler.Rest() == []))
    && handler.scanner.Contents() == (if handler.chunked then Held(Run(true, start, used).mode) else [])
    && (!handler.Mode().Done? ==> handler.scanner.Contents() == [])
    && (!handler.chunked ==> handler.bytesRead == |used| && handler.bytesRead <= handler.totalBytes)
  }

  /** One call of req_read_output_body keeps the body's state reachable, and delivers the next bytes. */
  method Read(handler: Handler, buffer: array<char>, n: nat,
              ghost start: Mode, ghost all: seq<char>, ghost used0: seq<char>)
    returns (part: seq<char>, ghost used: seq<char>)
    requires handler.Valid() && handler.Foreign(buffer) && Reached(handler, start, all, used0)
    requires 1 <= n <= buffer.Length
    modifies handler`totalBytes, handler`bytesRead, handler`readFinished
    modifies handler`residueSize, handler`residueOffset, handler`readingResidue
    modifies handler.socket, handler.scanner, handler.scanner.length, buffer
    ensures handler.Valid() && handler.Foreign(buffer) && Reached(handler, start, all, used)
    ensures part == Take(old(handler.Remaining()), n)
    ensures old(handler.Remaining()) == part + handler.Remaining()
    ensures |part| < n || old(handler.Mode()).Done? ==> handler.Mode().Done?
    ensures !handler.chunked ==> handler.bytesRead == old(handler.bytesRead) + |part|
  {
    hide Run, Payload, Split, Handler.Rest, Handler.Residue, SameOutside, Handler.Remaining, Scanner.Contents;
    ghost var mid, rest := handler.Mode(), handler.Rest();
    var size;
    ghost var more;
    size, more := handler.ReadOutputBody(buffer, 0, n);
    Continue(handler.chunked, start, all, used0, mid, rest, more, handler.Rest(), handler.Mode());
    DoneStays(handler.chunked, start, used0);
    DoneStays(handler.chunked, mid, more);
    used := used0 + more;
    part := buffer[..size];
    assert part == buffer[0..0 + size];
  }

  /** Any sequence of read calls, with buffer sizes of at least 1: the pieces are the beginning of the
      body, cut where the sizes say, and reading on from there gives the rest. */
  method ReadWithSizes(handler: Handler, buffer: array<char>, sizes: seq<nat>,
                       ghost start: Mode, ghost all: seq<char>, ghost used0: seq<char>)
    returns (parts: seq<seq<char>>, ghost used: seq<char>)
    requires handler.Valid() && handler.Foreign(buffer) && Reached(handler, start, all, used0)
    requires forall k :: 0 <= k < |sizes| ==> 1 <= sizes[k] <= buffer.Length
    modifies handler`totalBytes, handler`bytesRead, handler`readFinished
    modifies handler`residueSize, handler`residueOffset, handler`readingResidue
    modifies handler.socket, handler.scanner, handler.scanner.length, buffer
    ensures handler.Valid() && Reached(handler, start, all, used)
    ensures |parts| == |sizes| && forall k :: 0 <= k < |sizes| ==> |parts[k]| <= sizes[k]
    ensures Flatten(parts) == Take(old(handler.Remaining()), Sum(sizes))
    ensures old(handler.Remaining()) == Flatten(parts) + handler.Remaining()
    ensures forall k :: 0 <= k < |sizes| && |parts[k]| < sizes[k] ==> handler.Mode().Done?
    ensures !handler.chunked ==> handler.bytesRead == old(handler.bytesRead) + |Flatten(parts)|
  {
    hide Run, Payload, Handler.Remaining, Reached, Handler.Valid, Handler.Mode, Handler.Foreign, Flatten, Sum, Take;
    ghost var body := handler.Remaining();
    ghost var flat, total := [], 0;
    parts, used := [], used0;
    TakeNothing(body);
    var k := 0;
    while k < |sizes|
      invariant k <= |sizes| && |parts| == k
      invariant handler.Valid() && handler.Foreign(buffer) && Reached(handler, start, all, used)
      invariant forall i :: 0 <= i < k ==> |parts[i]| <= sizes[i]
      invariant flat == Flatten(parts) && total == Sum(sizes[..k])
      invariant flat == Take(body, total) && body == flat + handler.Remaining()
      invariant !handler.chunked ==> handler.bytesRead == old(handler.bytesRead) + |flat|
      invariant forall i :: 0 <= i < k && |parts[i]| < sizes[i] ==> handler.Mode().Done?
    {
      var part;
      part, used := Read(handler, buffer, sizes[k], start, all, used);
      TakeMore(body, flat, total, sizes[k], part, handler.Remaining());
      FlattenMore(parts, part, sizes, k);
      flat, total := flat + part, total + sizes[k];
      parts := parts + [part];
      k := k + 1;
    }
    assert sizes[..k] == sizes;
    TakeIsShort(body, total);
  }

  lemma TakeIsShort(body: seq<char>, n: nat)
    ensures |Take(body, n)| <= n && |Take(body, n)| <= |body|
  {
  }

  lemma TakeNothing(body: seq<char>)
    ensures Flatten([]) == [] == Take(body, 0) && Sum([]) == 0
  {
  }

  lemma FlattenMore(parts: seq<seq<char>>, part: seq<char>, sizes: seq<nat>, k: nat)
    requires k < |sizes|
    ensures Flatten(parts + [part]) == Flatten(parts) + part
    ensures Sum(sizes[..k + 1]) == Sum(sizes[..k]) + sizes[k]
  {
    assert (parts + [part])[..|parts|] == parts && sizes[..k + 1][..k] == sizes[..k];
  }

  lemma TakeMore(body: seq<char>, before: seq<char>, n: nat, size: nat, part: seq<char>, rest: seq<char>)
    requires before == Take(body, n) && body == before + (part + rest) && part == Take(part + rest, size)
    ensures |part| <= size && before + part == Take(body, n + size) && body == (before + part) + rest
  {
  }

  /** The loop that empties a connection before it is reused, and that reads a whole body: calls are
      made until one returns 0. */
  method Drain(handler: Handler, buffer: array<char>, ghost start: Mode, ghost all: seq<char>, ghost used0: seq<char>)
    returns (body: seq<char>, ghost used: seq<char>)
    requires handler.Valid() && handler.Foreign(buffer) && Reached(handler, start, all, used0) && buffer.Length >= 1
    modifies handler`totalBytes, handler`bytesRead, handler`readFinished
    modifies handler`residueSize, handler`residueOffset, handler`readingResidue
    modifies handler.socket, handler.scanner, handler.scanner.length, buffer
    ensures handler.Valid() && Reached(handler, start, all, used)
    ensures body == old(handler.Remaining()) && handler.Mode().Done?
  {
    hide Run, Reached, Handler.Valid, Handler.Mode;
    ghost var whole := handler.Remaining();
    body, used := [], used0;
    var size: nat := 1;
    while size > 0
      invariant handler.Valid() && handler.Foreign(buffer) && Reached(handler, start, all, used)
      invariant whole == body + handler.Remaining()
      invariant size == 0 ==> handler.Mode().Done?
      decreases size > 0, |handler.Remaining()|
    {
      var part;
      part, used := Read(handler, buffer, buffer.Length, start, all, used);
      Regroup(body, part, handler.Remaining());
      size := |part|;
      body := body + part;
    }
    RunDone(handler.chunked, handler.Rest());
  }

  lemma Regroup(body: seq<char>, part: seq<char>, rest: seq<char>)
    ensures body + (part + rest) == (body + part) + rest
  {
  }

  // ------------------------------------------------------------------------------------------
  // What a drained connection still holds

  /** After a chunked body, wherever decoding stopped behind its last size line, nothing but a part of
      the closing CR LF is left. */
  lemma DrainedChunkedBody(chunks: seq<Chunk>, last: seq<char>, used: seq<char>, rest: seq<char>)
    requires WellFormed(chunks) && SizeOf(last, 0)
    requires used + rest == PrintBody(chunks, last) + "\r\n"
    requires Run(true, Size([]), used).mode.Done? || rest == []
    ensures Run(true, Size([]), used).mode.Done?
    ensures Leftover(rest) && forall n :: 0 <= n <= |rest| ==> Leftover(rest[n..])
  {
    ChunkedBodyDecodes(chunks, last, "\r\n");
    RunAppend(true, Size([]), used, rest);
    var u := Run(true, Size([]), used).unread;
    if rest != [] {
      assert u + rest == "\r\n";
      SuffixesOfLineEnd(u, rest);
    } else {
      assert used + [] == used && rest[0..] == "";
    }
  }

  lemma SuffixesOfLineEnd(u: seq<char>, rest: seq<char>)
    requires u + rest == "\r\n"
    ensures Leftover(rest) && forall n :: 0 <= n <= |rest| ==> Leftover(rest[n..])
  {
    var t := u + rest;
    assert rest == t[|u|..];
    assert t[0..] == "\r\n" && t[1..] == "\n" && t[2..] == "";
    forall n | 0 <= n <= |rest|
      ensures Leftover(rest[n..])
    {
      assert rest[n..] == t[|u| + n..];
    }
  }

  /** After a body with Content-Length nothing is left: the reader never consumes past the body. */
  lemma DrainedLengthBody(body: seq<char>, used: seq<char>, rest: seq<char>)
    requires used + rest == body
    requires Run(false, StartMode(ByLength(|body|)), used).mode.Done? || rest == []
    ensures rest == []
  {
    if body != [] {
      ContentLengthDecodes(body, []);
      assert body + [] == body;
      RunAppend(false, Data(|body|, []), used, rest);
    }
  }

  // ------------------------------------------------------------------------------------------
  // Reuse

  /** What is left of the old response before the next request is sent: no tree and no residue. */
  ghost predicate Emptied(handler: Handler)
    reads handler, handler.scanner, handler.scanner.length
  {
    && handler.headersTree == null && handler.readingResidue == null
    && handler.scanner.Valid() && -1 <= handler.totalBytes && (!handler.chunked ==> 0 <= handler.totalBytes)
  }

  /** Lines 151-159 of req_request: the old body is read to its end, then tree and residue are dropped.
      Of the stream, `used` has been decoded, `dropped` was residue, and `left` is still in the socket. */
  method DropResponse(handler: Handler, ghost start: Mode, ghost all: seq<char>, ghost used0: seq<char>)
    returns (ghost used: seq<char>, ghost dropped: seq<char>)
    requires handler.Valid() && Reached(handler, start, all, used0)
    requires handler.headersTree != null && handler.headersTree.Valid() && Outside(handler, handler.headersTree)
    modifies handler, handler.socket, handler.scanner, handler.scanner.length, handler.headersTree
    ensures Emptied(handler) && old(handler.headersTree).live == {}
    ensures Split(all, used, [], dropped + handler.socket.pending)
    ensures Run(handler.chunked, start, used).mode.Done? || dropped + handler.socket.pending == []
    ensures handler.chunked == old(handler.chunked)
    ensures handler.scanner.Contents() == (if handler.chunked then Held(Run(true, start, used).mode) else [])
  {
    hide Run, Split, Tree.Map, Tree.Valid, Handler.Remaining, Held, Scanner.Contents;
    var trashBuffer := new char[2048];
    var body;
    body, used := Drain(handler, trashBuffer, start, all, used0);
    dropped := handler.Residue();
    assert Split(all, used, [], dropped + handler.socket.pending);
    DropHead(handler);
  }

  /** Lines 157-159 of req_request. */
  method DropHead(handler: Handler)
    requires handler.headersTree != null && handler.headersTree.Valid()
    modifies handler`headersTree, handler`readingResidue, handler.headersTree
    ensures old(handler.headersTree).live == {} && handler.headersTree == null && handler.readingResidue == null
  {
    handler.headersTree.FreeTree();
    handler.headersTree := null;
    handler.readingResidue := null;
  }

  /** Lines 161-211 of req_request: the request is answered by `response`, one byte is peeked, and the
      head is parsed from the next byte on. */
  method NextResponse(handler: Handler, response: seq<char>) returns (reused: bool, ok: bool)
    requires Emptied(handler)
    modifies handler, handler.socket
    ensures var stream := old(handler.socket.pending) + response;
            && reused == (stream != [])
            && (reused ==>
                  var r := HeadRun(Initial(0), stream[0], stream[1..]);
                  && ok == r.Found?
                  && (ok ==>
                        && handler.Valid() && !handler.readFinished && handler.bytesRead == 0
                        && handler.headersTree != null && handler.headersTree.Valid() && fresh(handler.headersTree)
                        && fresh(handler.headersTree.live) && Outside(handler, handler.headersTree)
                        && handler.Rest() == r.rest && handler.headersTree.Map() == r.state.index
                        && handler.statusCode == r.state.status))
  {
    hide HeadRun, Tree.Valid, Tree.Map;
    handler.socket.pending := handler.socket.pending + response;
    ghost var stream := handler.socket.pending;
    var peek := new char[1];
    var r := handler.socket.Recv(peek, 0, 1);
    if r <= 0 {
      return false, false;
    }
    handler.keepAliveRead := peek[0];
    assert Got(peek[..], 0, r) == [peek[0]];
    assert stream[0] == peek[0] && stream[1..] == handler.socket.pending;
    handler.residueSize, handler.bytesRead, handler.residueOffset := 0, 0, 0;
    handler.readFinished := false;
    handler.statusCode := 0;
    assert handler.Rest() == handler.socket.pending;
    reused := true;
    ok := ParseHeaders(handler);
  }
}
