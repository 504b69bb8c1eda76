# Verification of an HTTP/1.1 client library

The library (`requests/requests.c` and its helpers) sends HTTP/1.1 requests and reads the answers from a
socket. This project models what happens between the socket and the caller and proves it correct:

- **Bodies.** The reader takes chunk framing out of the caller's buffer in place, refills it by recursion,
  serves a residue before the socket, and keeps the chunk-size automaton in static variables. `BodyCoding`
  gives the meaning of a body one byte at a time and relates it to the printed form of section 7.1 of
  RFC 9112; `ChunkScanner` and `BodyReader` are the code, proved against it for every fragmentation and
  every buffer size.
- **Heads.** `HeadCoding` is the fold over the bytes of a head, `HeadPrinting` the printed form of sections 4
  and 5 of RFC 9112 that it undoes, `HeadReader` the buffered parser.
- **The header index.** `ParserTree` is the mutable search tree, refined in two steps: linked nodes to a pure
  shape, the shape to a map from case-folded names to values. A ghost ledger `live` holds every heap block
  that has been allocated and not freed.
- **Connections.** `Connection` and `Sessions` put these together: choosing the framing, reading with any
  sequence of buffer sizes, draining, and reusing the connection any number of times.
- **The shared scanner.** `SharedScanner` says what a body that breaks off leaves in the static variables and
  what that does to the next one; `Interleaving` lets any number of connections be read in turns.
- **Addresses and requests.** `Urls`, `Paths` and `Redirects` split, simplify and rebuild addresses;
  `PercentCoding` and `Forms` decode forms; `Requests` assembles the request.
- **Strings and numbers.** `CStrings` and `Numbers` are the helpers, on terminated texts and on arrays.

`dafny verify dfyconfig.toml` checks everything.

## How to read it

Text is `seq<char>`; `CString` is a text without NUL, `CStr(a[..])` is what C sees in an array. Memory that
the code writes is an `array`, and the objects whose fields it updates are classes. A method is proved
against a function, and the function's meaning is proved in lemmas beside it. The socket is a class with
the bytes still to come; `Recv` may return any non-empty part of them, and -1 at the end. The two static
variables of `get_chunk_size` are the one `Scanner` that all handlers share. In every reachable state of a
body (`Connection.Reached`) it is idle unless the stream has ended.

The classes of characters that code and specification share are tied to written-out alphabets: digits by
`Numbers.DigitMeaning` and `HexDigitMeaning`, letter case by `CStrings.SameLetterIff` and `ToLowerMeaning`,
blanks by `CStrings.TrimMeaning` and `TrimExact`.

## What the proofs found

The code is modelled as it is. Where it does not do what one would expect, a lemma says exactly when it does.

- A header line without any character from `0` upwards, its first colon aside, is taken for the end of the
  head, because only such a character resets the newline flag (`HeadPrinting.ParseUndoesPrint`, an
  if-and-only-if; example in `LowHeaderEndsHead`).
- A chunk-size line is read only if it has at most 30 digits behind the last overflow of a 32-cell buffer
  (`ChunkScanner.SizeReadExact`, an if-and-only-if; example in `LongLineIsLost`). In a chunk extension the digits
  and the letters a to f are read as part of the size (`ExtensionIff`; example in `ExtensionJoinsSize`).
- The chunk-size automaton is shared by all connections. A body leaves digits in it if and only if it ends
  inside a size line (`SharedScanner.BreakLeavesRegister`), every following body is read correctly if and
  only if it is empty (`SharedScanner.RightIffIdle`), and so connections can be read in turns if and only if
  none of them ends inside a size line (`Interleaving.SafeIffUnbroken`; example in
  `SharedScanner.BrokenThenNext`).
- `rh_simplify_path` removes the host when a path climbs above the root, where section 5.2.4 of RFC 3986
  ignores the step (`Paths.SimplifyIsNormalise`, an if-and-only-if; example in `ClimbingLosesHost`). Simplifying
  the result again changes nothing if and only if it does not begin with `/./` (`Paths.SimplifyTwiceIff`, on
  every input; example in `ClimbingIsNotIdempotent`).
- A status code can be lost in two ways. A status line with a colon in its reason is stored as a header, and one
  that with its CR is not shorter than the parser's buffer of 1023 characters is flushed before its newline is
  seen. The code is kept if and only if there is no colon, and the line is shorter or what follows its last
  full block gives the code again (`HeadPrinting.StatusIsKept`, for every reason and length, on new and on
  reused connections; examples in `ColonLosesStatus` and `LengthLosesStatus`). The theorems on whole sessions
  speak of status lines in which neither happens (`HeadPrinting.GoodStatusLine`).
- A response without a Content-Length, such as a 204 or 304 answer, is read as a chunked one
  (`Connection.FramingOfHead`, for every head).
- A redirect to a location that begins with a slash is resolved under the current directory, where section
  5.2.2 of RFC 3986 lets it replace the whole path (`Redirects.LeadingSlashIsIgnored`, for every location).
- A long header value loses the blanks at the borders of the 1023-character blocks in which it is trimmed
  (`HeadCoding.BlockTrimIff`, an if-and-only-if; example in `BorderBlankIsLost`).
- A status line gives the code 65535, UINT64_MAX cut to 16 bits, if and only if no digit follows its first
  space (`HeadCoding.StatusWithoutDigits`; example in `HeadPrinting.NoDigitsGive65535`).
- `rh_str_search_case_unsensitive` finds an expression if and only if it occurs where no match is in progress
  (`CStrings.SearchExact`). It is complete on all texts if and only if the expression is a run of one
  character (`CStrings.SearchCompleteIff`; example in `SearchMissesOverlap`). The default headers of a
  request rely on it: none is ever sent twice (`Requests.DefaultsDoNotRepeat`), but one can be missing
  (`Requests.DefaultSentIff`; example in `AcceptIsSuppressed`).
- `strings.h` (lines 155-175) documents 0 for a text that is not a number; the code returns UINT64_MAX
  (`Numbers.ReadUint64`). The URL parser depends on that: a colon without digits is refused.

## Model

| member | source | states |
|---|---|---|
| `BodyReader.Handler.ReadOutputBody` | requests/requests.c:548-601 | For either framing, every split of the stream over residue and socket and every buffer size of at least 1: the buffer holds the next bytes of the body, full unless body or source is at its end; what is consumed is exactly a prefix of the stream; a finished handler returns 0 without touching the source; the rest of the caller's buffer is unchanged; the call terminates |
| `BodyReader.Handler.StartChunkRead` | requests/requests.c:482-538 | Removing chunk framing in place: the bytes left at the front of the buffer are the payload of what was consumed, the handler is in the state that decoding reaches, and nothing outside the given range is written; the recursion terminates |
| `BodyReader.Handler.MoveData` | requests/requests.c:515-537 | Behind a size line the data moves to the front of the buffer; what is beyond the chunk is decoded as the next one |
| `BodyReader.Handler.NextChunk` | requests/requests.c:527-535 | The recursive step, behind a complete chunk: bytes already placed stay, and the whole consumed text decodes to what lies in the buffer |
| `BodyReader.Handler.ScanForSize` | requests/requests.c:484-503 | The nested loops read size-line bytes across any number of refills until a size is known, with the scanner idle then, or the source has failed |
| `BodyReader.Handler.ScanRound` | requests/requests.c:486-503 | One round of the outer loop either finds the size, or consumes the buffer and refills it with fresh bytes, or fails |
| `BodyReader.Handler.ScanBuffer` | requests/requests.c:488-492 | The inner loop agrees with decoding the scanned bytes one at a time |
| `BodyReader.Handler.ReadPiece` | requests/requests.c:560-595 | One read of data bytes, or of bytes that begin with a size line; data reads never go past the chunk or the body |
| `BodyReader.Handler.ReadOn` | requests/requests.c:596-599 | The recursive call behind bytes already placed continues the same decoding |
| `BodyReader.Handler.ReadOutput` | requests/requests.c:608-625 | Residue before socket: the bytes returned are the next ones of the stream, at least one unless the stream is at its end |
| `BodyReader.Handler.ServeResidue` | requests/requests.c:615-624 | The residue is served in order and dropped when it is used up |
| `BodyReader.Handler.constructor` | requests/requests.c:174-206 | A new handler stands at the start of what its socket will deliver |
| `BodyReader.Socket.Recv` | fuzzers/fake_easy_tcp_tls.c:83-97 | Any non-empty prefix of the bytes to come, of any length up to n; -1 once nothing is left |
| `BodyReader.Continue` | requests/requests.c:548-601 | Two calls in a row decode the concatenation of what each of them has consumed |
| `BodyCoding.RunAppend` | requests/requests.c:482-601 | Decoding a stream in two pieces is decoding it whole, at every cut |
| `BodyCoding.ChunkedBodyDecodes` | requests/requests.c:443-625 | Decoding a printed chunked body (section 7.1 of RFC 9112) gives the concatenated chunk data and leaves everything behind the last size line unread |
| `BodyCoding.PrintedBodyDecodes` | requests/requests.c:443-625 | So it does for every list of chunks below 2^63 bytes whose sizes are written in hexadecimal with capital or with small letters |
| `BodyCoding.ContentLengthDecodes` | requests/requests.c:560-601 | A body of the announced length is delivered unchanged and nothing behind it is touched |
| `BodyCoding.TruncatedBody` | requests/requests.c:482-601 | A chunked body that breaks off after n bytes delivers exactly the content bytes among these n, for every n |
| `BodyCoding.TruncationGivesPrefix` | requests/requests.c:482-601 | A stream that breaks off delivers a prefix of what the whole one delivers |
| `SharedScanner.HeldAtBreak` | requests/requests.c:443-480 | What a chunked body that ends after n bytes leaves in the scanner: the digits of the broken size line since the last overflow, and a NUL for its CR |
| `SharedScanner.BreakLeavesRegister` | requests/requests.c:443-480 | The scanner is left dirty if and only if the body ends inside a size line, and not where its register has just overflowed |
| `SharedScanner.DirtyRegisterCorrupts` | requests/requests.c:445-480 | For every dirty register there is a well-formed body of which nothing is delivered |
| `SharedScanner.RightIffIdle` | requests/requests.c:443-538 | Every well-formed body is read correctly if and only if the register is empty when it begins |
| `SharedScanner.BrokenThenNext` | requests/requests.c:445-446 | A response that ends behind the first byte of its size line leaves that digit, and the next size line of 5 is read as 21 |
| `Interleaving.ReadOne` | requests/requests.c:548-601 | A call on one of several handlers with one scanner delivers what that connection and the scanner determine, and leaves the other connections where they stand |
| `Interleaving.Interleave` | requests/requests.c:443-625 | Any calls in any order on several handlers that share the scanner make a run of the model, whatever the scanner holds |
| `Interleaving.ReadInTurns` | requests/requests.c:443-625 | If no stream ends inside a size line, every client gets its own body, and the scanner is idle afterwards |
| `Interleaving.SpoilVictim` | requests/requests.c:443-625 | Behind a stream that ends inside a size line, read to its end, the next client does not get its complete body |
| `Interleaving.SafeIffUnbroken` | requests/requests.c:443-625 | Whatever is asked for in whatever order, every client gets its own body, together with any further complete one, if and only if no stream ends inside a size line |
| `Interleaving.AlwaysSpoiled` | requests/requests.c:443-625 | The two calls that show it go wrong in every run |
| `ChunkScanner.Scanner.GetChunkSize` | requests/requests.c:443-480 | The byte automaton with its static index and buffer is the step function of a register of at most 32 cells |
| `ChunkScanner.SizeReadExact` | requests/requests.c:443-480 | A size line is read with its value if and only if the digits before the last register overflow are all zeros and the others number 1 to 30 and stay below 2^63 |
| `ChunkScanner.ScanSizeLine` | requests/requests.c:443-480 | What an idle scanner returns on any line of hexadecimal digits, of any length, and that it is idle again |
| `ChunkScanner.LongLineIsLost` | requests/requests.c:448-452 | A 31-digit spelling of 1 is not read, although section 7.1 of RFC 9112 allows it |
| `ChunkScanner.PrintedSizeIsRead` | requests/requests.c:443-480 | A 64-bit size printed with capital or with small letters is read if and only if it is below 9223372036854775808 |
| `ChunkScanner.PaddedSizeIff` | requests/requests.c:445-452 | With z zeros before it such a size is read if and only if the line, cut into pieces of 33 digits, ends with a piece of at most 30 that holds the whole size |
| `ChunkScanner.ExtensionIff` | requests/requests.c:454-480 | In a chunk extension (section 7.1.1 of RFC 9112) the letters a to f and the digits join the size: of a line with at most 15 of them the size is right if and only if the extension has none, or all are zero |
| `ChunkScanner.ExtensionJoinsSize` | requests/requests.c:454-480 | The size 5 with the extension ;a is read as 90 |
| `Connection.Read` | requests/requests.c:548-601 | One call keeps the state reachable: what has been consumed so far decodes to it, residue and socket are the rest, the scanner is idle unless the stream has ended, and of a body with Content-Length bytes_read is the number of bytes delivered and at most total_bytes |
| `Connection.ReadWithSizes` | requests/requests.c:548-601 | Any sequence of buffer sizes: the pieces concatenate to the beginning of the body, a piece shorter than its buffer only at the end, reading on gives the rest, and bytes_read grows by what is delivered of a body with Content-Length |
| `Connection.Drain` | requests/requests.c:151-156 | Calls until one returns 0 deliver exactly the rest of the body |
| `Connection.SelectFraming` | requests/requests.c:213-236 | The framing chosen from the index, as the state of the reader at the first byte of the body; on the index of any printed head it fails if and only if the last Content-Length is not overridden by chunked and is no number below 2^63 |
| `Connection.FramingOfHead` | requests/requests.c:219-235 | For every list of headers: chunked without a Content-Length, as in a 204 answer, or if the last Transfer-Encoding says so; else the last Content-Length modulo 2^64, refused if it is no number or 2^63 or more |
| `Connection.FramedByChunks` | requests/requests.c:219-225 | A head whose last Transfer-Encoding holds chunked, case aside, at its start or behind another character than these letters is read as chunked whatever its Content-Length |
| `Connection.GzipThenChunked` | requests/requests.c:219-225 | The list gzip, chunked is one of these |
| `Connection.FramedByLength` | requests/requests.c:226-235 | A head with any digit string as Content-Length, and no Transfer-Encoding or one in which the search finds no chunked: the length is the value modulo 2^64, refused from 2^63 on, so it is the announced one if and only if that is below 2^63 |
| `Connection.DrainedChunkedBody` | requests/requests.c:149-156 | After a chunked body nothing is left but a part of its closing CR LF, wherever decoding stopped |
| `Connection.DrainedLengthBody` | requests/requests.c:149-156 | After a body with Content-Length nothing is left: the reader never consumes past it |
| `Connection.DropResponse` | requests/requests.c:149-159 | Draining, then dropping tree and residue: the header tree is freed completely, and what is lost of the stream is at most the old residue |
| `Connection.NextResponse` | requests/requests.c:161-211 | One byte is peeked and the head is parsed from the next one on, over what is left in the socket followed by the new response |
| `Sessions.Session` | requests/requests.c:149-235 | Over any number of responses on one connection, with any amount of each body read by any buffer sizes before the next request: every status code and every body is delivered exactly, and the shared scanner is idle at the end, so that sessions can follow one another |
| `Sessions.LengthResponse` | requests/requests.c:149-235 | Every response whose field lines are those of RFC 9110 and whose Content-Length prints the length of its body is one that sessions serve |
| `Sessions.ChunkedResponse` | requests/requests.c:149-235 | So is every one whose Transfer-Encoding is chunked, in any spelling, with sizes printed in hexadecimal of either case |
| `Sessions.Reuse` | requests/requests.c:149-235 | Wherever reading the previous body stopped, the reused connection serves the next response (code, header map, body position, idle scanner) as a new one would, and the old tree is freed |
| `Sessions.Open` | requests/requests.c:173-235 | The first response on a new connection: code and header map are those printed, and the reader stands at the first byte of the body |
| `Sessions.StartBody` | requests/requests.c:213-236 | Choosing the framing puts the reader at the start of the body that the head announces |
| `Sessions.ReadSome` | requests/requests.c:548-601 | From the start of any announced body, the bytes asked for are the first bytes of its content |
| `Sessions.WholeBody` | requests/requests.c:443-625 | The wire form of every body decodes to its content |
| `Sessions.DrainedBody` | requests/requests.c:149-156 | For every kind of body, what draining leaves is at most the end of a CR LF, and the scanner is idle |
| `Sessions.ServingIsIdle` | requests/requests.c:443-446 | Between two calls on a complete response the shared scanner is idle |
| `Sessions.BrokenBody` | requests/requests.c:482-601 | What the first n bytes of a body on the wire decode to, for every kind of body and every n |
| `Sessions.ReadBroken` | requests/requests.c:548-601 | On a connection that ends anywhere inside a body the client gets exactly the content that arrived, a prefix of the whole |
| `HeadReader.ParseHeaders` | requests/requests.c:311-413 | For every split of the stream, tree, status code and success are those of folding one step function over its bytes, and residue followed by socket is exactly what follows the head |
| `HeadReader.ParsePieces` | requests/requests.c:328-398 | The outer loop carries the state of the fold from piece to piece |
| `HeadReader.ParseBuffer` | requests/requests.c:332-393 | The byte loop advances the fold over one piece and stops at the newline that ends the head |
| `HeadReader.ParseByte` | requests/requests.c:334-392 | One byte, with the full-buffer flush before it, is one step |
| `HeadReader.EndLine` | requests/requests.c:360-382 | A newline pushes the pair, or looks at the line for a status code and drops what is pending |
| `HeadReader.FlushFull` | requests/requests.c:334-351 | A full key_value buffer is trimmed and appended to the pending key or value |
| `HeadReader.KeepResidue` | requests/requests.c:406-410 | The tail of the last piece becomes the residue, so no byte is lost |
| `HeadReader.ParseStatusLine` | requests/requests.c:283-308 | Up to three digits behind the first space of a line that begins as a status line, also without its peeked H |
| `HeadCoding.StatusOfLine` | requests/requests.c:283-308 | Version, space, three digits, reason: the code is read, at most 999 |
| `HeadCoding.StatusValue` | requests/requests.c:283-308 | What any line gives: 0 if it is no status line, 65535 without digits, and else the value of up to three of them |
| `HeadCoding.StatusWithoutDigits` | requests/requests.c:298-307 | The code 65535 comes from exactly the status lines without a digit behind their first space |
| `HeadPrinting.NoDigitsGive65535` | requests/requests.c:298-307 | A head that begins with HTTP/1.1 OK has the status code 65535 |
| `HeadPrinting.StatusIsKept` | requests/requests.c:334-382 | A status line of any length and with any reason, whole or without its peeked H, keeps its code if and only if it holds no colon and either with its CR is shorter than the buffer of 1023 characters, or has behind its last full block a text that gives that code itself |
| `HeadPrinting.RunColonLine` | requests/requests.c:352-382 | A first line with a colon, such as a status line whose reason has one, is stored as a pair: the status is not touched, and parsing stops at the end of the head |
| `HeadPrinting.ColonLosesStatus` | requests/requests.c:352-371 | The status line HTTP/1.1 404 Not Found: x leaves the status 0 |
| `HeadPrinting.LengthLosesStatus` | requests/requests.c:334-351 | A status line of 1022 characters leaves the status 0 |
| `HeadPrinting.OtherLineKeepsStatus` | requests/requests.c:283-296 | A first line without a colon that begins neither with HTTP/ nor, behind a peeked H, with TTP/ leaves the status alone |
| `HeadPrinting.FreshStatusIsKept` | requests/requests.c:334-382 | On a new connection, where a status line without a colon fits up to 1021 characters |
| `HeadPrinting.ReusedStatusIsKept` | requests/requests.c:161-166 | On a reused connection, whose first byte has been peeked, one more character fits, again without a colon |
| `HeadCoding.TextEffect` | requests/requests.c:334-390 | What any run of characters adds to key_value and to the pending key or value, across flushes |
| `HeadPrinting.ParseUndoesPrint` | requests/requests.c:311-413 | Parsing a printed head gives its pairs in order and its code, and it stops exactly at the end of the head if and only if every header line holds a character from 0 upwards besides its first colon |
| `HeadPrinting.LowHeaderEndsHead` | requests/requests.c:332-390 | A header line that ends the head early: `-: -` |
| `HeadPrinting.RunHeader` | requests/requests.c:352-390 | One header line writes its trimmed pair, or ends the head |
| `HeadPrinting.LookupGivesLastValue` | requests/requests.c:428-431 | After parsing, looking a name up gives the value of its last occurrence, letter by letter and case aside, and nothing for an absent name |
| `HeadPrinting.UsualHead` | requests/requests.c:311-413 | A head whose field lines are those of section 5 of RFC 9110 and fit the buffer: parsing stops at its end with its code, and each name, in any spelling, has the value of its last field without the spaces and tabs around it |
| `HeadPrinting.UsualLookup` | requests/requests.c:428-431 | The same for the lookup alone: the last field that has this name letter by letter, case aside |
| `HeadPrinting.LetterMakesLive` | requests/requests.c:384-387 | A letter or a digit anywhere in a header line keeps it from being taken for the end of the head |
| `HeadPrinting.ShortValueIsTrimmed` | requests/requests.c:365-368 | A raw piece of at most 1023 bytes, CR included, is stored trimmed |
| `HeadCoding.BlockTrimShort` | requests/requests.c:336-351 | A raw name or value of at most 1023 characters is stored trimmed, whole |
| `HeadCoding.BlockTrimIff` | requests/requests.c:336-351 | A raw name or value of any length is stored trimmed if and only if no blank stands beside a border of two 1023-character blocks inside the trimmed text |
| `HeadCoding.BorderBlankIsLost` | requests/requests.c:336-351 | A blank that begins a block between two words is lost |
| `HeadPrinting.ValueIsTrimmedIff` | requests/requests.c:336-368 | The same for the value of a header with its CR |
| `HeadPrinting.FreshHead` | requests/requests.c:311-413 | On a new connection a well-formed head gives its code and its pairs |
| `HeadPrinting.ReusedHead` | requests/requests.c:161-166 | Behind each possible leftover of the previous body, peeking one byte and parsing the rest gives the same code and pairs |
| `ParserTree.Tree.Push` | requests/requests_helper/parsing/parser_tree.c:137-195 | The pending pair becomes the last one written under its key, after the in-place change: every spelling of the key now finds it, and every other name what it found before; the tree stays whole, ordered and acyclic, with each heap block owned once |
| `ParserTree.Tree.Attach` | requests/requests_helper/parsing/parser_tree.c:154-194 | The loop-based descent is insertion into the shape |
| `ParserTree.Tree.ReplaceValue` | requests/requests_helper/parsing/parser_tree.c:165-173 | A key that is already there: exactly the old value, the new key and the new node are freed |
| `ParserTree.Tree.LinkChild` | requests/requests_helper/parsing/parser_tree.c:174-191 | Linking the node below the node where the descent stopped is insertion into the shape |
| `ParserTree.Tree.LinkRoot` | requests/requests_helper/parsing/parser_tree.c:154-158 | The first pair |
| `ParserTree.Tree.GetValue` | requests/requests_helper/parsing/parser_tree.c:201-221 | The loop-based lookup gives the value of the name in the map that is the same letter by letter, case aside, and nothing if there is none |
| `ParserTree.Tree.UpdateKey` | requests/requests_helper/parsing/parser_tree.c:47-76 | The part is appended to the pending key, in a block of the size that the code allocates, which it fits; map and pending value stay |
| `ParserTree.Tree.UpdateValue` | requests/requests_helper/parsing/parser_tree.c:85-115 | The part is appended to the pending value, in a block of the size that the code allocates, which it fits; map and pending key stay |
| `ParserTree.Tree.Abort` | requests/requests_helper/parsing/parser_tree.c:122-128 | The pending pair is freed; the map stays |
| `ParserTree.Tree.constructor` | requests/requests_helper/parsing/parser_tree.c:25-38 | The empty map |
| `ParserTree.Tree.FreeNodes` | requests/requests_helper/parsing/parser_tree.c:223-237 | Every block of a subtree is live when it is freed, and freed once |
| `ParserTree.Tree.FreeTree` | requests/requests_helper/parsing/parser_tree.c:243-253 | Nothing is live afterwards |
| `ParserTree.LookupIsMapLookup` | requests/requests_helper/parsing/parser_tree.c:201-221 | In an ordered shape the descent finds what the map holds |
| `ParserTree.PutIsMapUpdate` | requests/requests_helper/parsing/parser_tree.c:154-192 | Insertion keeps the order and is the update of the map |
| `ParserTree.LookupAfterWrite` | requests/requests_helper/parsing/parser_tree.c:154-221 | A value written under a name is found under every spelling of it and under no other name |
| `ParserTree.LookupMeaning` | requests/requests_helper/parsing/parser_tree.c:201-221 | Map lookup is lookup of the one name that is the same case aside |
| `ParserTree.OneNodePerKey` | requests/requests_helper/parsing/parser_tree.c:137-195 | There are as many nodes as case-folded keys |
| `ParserTree.PutLinked` | requests/requests_helper/parsing/parser_tree.c:154-192 | Changing the fields of one node is insertion into the whole linked structure |
| `ParserTree.PutBlocksHit` | requests/requests_helper/parsing/parser_tree.c:165-173 | The ledger of a replacement: the new value comes in, the old one goes out |
| `ParserTree.PutBlocksMiss` | requests/requests_helper/parsing/parser_tree.c:174-191 | The ledger of an insertion: node, key and value come in, and no block is used twice |
| `CStrings.StrCaseCmp` | requests/requests_helper/strings/strings.c:161-177 | The loop computes the comparison of the terminated texts |
| `CStrings.CompareIsDictionaryOrder` | requests/requests_helper/strings/strings.c:161-177 | It is -1 exactly if the first folded text precedes the second in dictionary order |
| `CStrings.CompareZero` | requests/requests_helper/strings/strings.c:161-177 | It is 0 exactly for texts of the same length that are equal letter by letter, case aside |
| `CStrings.SameLetterIff` | requests/requests_helper/strings/strings.c:163-172 | Two characters fold to the same if and only if they are the same or the two cases of one of the 26 letters |
| `CStrings.ToLowerMeaning` | requests/requests_helper/strings/strings.c:163-172 | Each capital letter folds to its small one and every other character to itself |
| `CStrings.CompareOpposite` | requests/requests_helper/strings/strings.c:161-177 | Swapping the texts negates the result: the order is total |
| `CStrings.CompareTransitive` | requests/requests_helper/strings/strings.c:161-177 | The order is transitive, strictly if one of the steps is strict |
| `CStrings.CompareFolds` | requests/requests_helper/strings/strings.c:161-177 | Only the case-folded texts matter |
| `CStrings.StartsWith` | requests/requests_helper/strings/strings.c:182-190 | True exactly for a prefix |
| `CStrings.StrSearchCaseUnsensitive` | requests/requests_helper/strings/strings.c:198-220 | A result that is not negative is a position where the text occurs, case aside |
| `CStrings.SearchExact` | requests/requests_helper/strings/strings.c:198-220 | The search is successful if and only if the expression occurs at an index at which the scan has no match in progress |
| `CStrings.SearchFinds` | requests/requests_helper/strings/strings.c:198-220 | An occurrence at the start, or behind a character that is not in the expression, is never missed |
| `CStrings.SearchCompleteIff` | requests/requests_helper/strings/strings.c:198-220 | The search is complete on all texts if and only if the expression is a run of one character, case aside |
| `CStrings.SearchMissesOverlap` | requests/requests_helper/strings/strings.c:202-214 | Every expression that is not a run of one character is missed behind its own first character |
| `CStrings.StrTrimInPlace` | requests/requests_helper/strings/strings.c:64-84 | The returned position begins the trimmed text, cut in place: of a text padded with any of the six characters, exactly what is between them |
| `CStrings.TrimMeaning` | requests/requests_helper/strings/strings.c:64-84 | What is taken away at both ends is space, tab, backspace, line feed, carriage return and vertical tab, by their codes, and none of them is left at either end |
| `CStrings.TrimExact` | requests/requests_helper/strings/strings.c:64-84 | A text has only one such padding: whatever is padded with these characters is what trimming gives |
| `CStrings.StrNCpy` | requests/requests_helper/strings/strings.c:12-21 | The first bytes that fit are copied and terminated, and nothing else is written |
| `CStrings.StrCpy` | requests/requests_helper/strings/strings.c:28-38 | The text is copied with its terminator, whose position is returned |
| `CStrings.StrCat` | requests/requests_helper/strings/strings.c:44-57 | The terminated text grows by the second one |
| `Numbers.ReadUint64` | requests/requests_helper/strings/strings.c:137-151 | The positional value modulo 2^64 of a non-empty digit string, 18446744073709551615 for every other text |
| `Numbers.ReadHexUint64` | requests/requests_helper/strings/strings.c:222-244 | The positional value modulo 2^64 of a non-empty text of hexadecimal digits of either case, 18446744073709551615 for every other text |
| `Numbers.HexReadsBack` | requests/requests_helper/strings/strings.c:222-244 | Every number printed with 0123456789abcdef or with 0123456789ABCDEF is read back, modulo 2^64 |
| `Numbers.HexDigitMeaning` | requests/requests_helper/strings/strings.h:41-41 | The hexadecimal digits are these characters, and each stands for its index in its row |
| `Numbers.DigitMeaning` | requests/requests_helper/strings/strings.h:32-32 | The decimal digits are 0123456789, and each stands for its index |
| `Numbers.WrapStep` | requests/requests_helper/strings/strings.c:146-147 | Wrapping at every step is wrapping once at the end |
| `Numbers.Uint64ToStr` | requests/requests_helper/strings/strings.c:115-129 | The digits of n are written through the reversed buffer, and nothing else |
| `Numbers.ReverseString` | requests/requests_helper/strings/strings.c:94-105 | The span is reversed in place, and nothing else is written |
| `Numbers.ReversedTwice` | requests/requests_helper/strings/strings.c:94-105 | Reversing twice changes nothing |
| `Numbers.ReadUndoesPrint` | requests/requests_helper/strings/strings.c:115-151 | Reading the printed digits gives every 64-bit number back, and there are at most 20 of them |
| `Numbers.ReadWraps` | requests/requests_helper/strings/strings.c:115-151 | Reading the printed digits of any number gives it modulo 18446744073709551616 |
| `Numbers.DecimalIsCanonical` | requests/requests_helper/strings/strings.c:115-151 | Printing undoes reading on digit strings without leading zeros |
| `PercentCoding.UrlDecodeInPlace` | requests/requests_helper/parsing/parser_http.c:143-176 | Decoding into the buffer being read equals decoding into a separate one, is never longer, and leaves what lies behind the text alone |
| `PercentCoding.DecodeLoop` | requests/requests_helper/parsing/parser_http.c:146-175 | The write index never passes the read index, so what is still to be read is intact |
| `PercentCoding.DecodeUndoesEncode` | requests/requests_helper/parsing/parser_http.c:143-176 | Decoding undoes every encoder that keeps, escapes (in either case) or turns spaces into plus signs |
| `PercentCoding.EscapeDecodes` | requests/requests_helper/parsing/parser_http.c:148-162 | A percent sign and two hexadecimal digits, each in either case, give the character 16 a + b |
| `PercentCoding.OtherPercentIsKept` | requests/requests_helper/parsing/parser_http.c:148-148 | Every other percent sign is kept |
| `PercentCoding.EncodeEncodes` | requests/requests_helper/parsing/parser_http.c:143-176 | The usual encoder, with any choice of unreserved characters, is one of them, for all byte strings |
| `PercentCoding.StrayPercent` | requests/requests_helper/parsing/parser_http.c:148-148 | A percent sign that begins no escape is kept, so two texts decode to the same |
| `Forms.ParseUrlencodedForm` | requests/requests_helper/parsing/parser_http.c:9-49 | The tree holds the decoded pairs written in order; NULL exactly if a piece has no equals sign |
| `Forms.FormParseUndoesPrint` | requests/requests_helper/parsing/parser_http.c:9-49 | Parsing a printed form gives its pairs back, for every encoder and every list of pairs |
| `Forms.PieceWithoutEquals` | requests/requests_helper/parsing/parser_http.c:24-29 | A printed form with one more piece that has no equals sign gives NULL, unless that piece is empty |
| `Forms.FormLookup` | requests/requests_helper/parsing/parser_http.c:9-49 | A key has the last value written under it, case aside, and an absent key none |
| `Urls.ParseUrl` | requests/requests_helper/parsing/parser_http.c:51-136 | On every text: success and the filled fields are those of the reference split |
| `Urls.ParseAuthority` | requests/requests_helper/parsing/parser_http.c:74-136 | Host, port and URI behind the scheme, with every limit of the code |
| `Urls.AcceptsExactlyTheWritten` | requests/requests_helper/parsing/parser_http.c:51-136 | A text is accepted as a URL if and only if it is its scheme, host, port text, URI text and fragment in order: nothing is cut off, and nothing that fits is refused |
| `Urls.AcceptedIsWritten` | requests/requests_helper/parsing/parser_http.c:51-136 | From an accepted text, the parts that make it up |
| `Urls.WrittenIsAccepted` | requests/requests_helper/parsing/parser_http.c:51-136 | Every text made up of such parts is accepted with them |
| `Urls.ParseUndoesPrint` | requests/requests_helper/parsing/parser_http.c:51-136 | Parsing a printed canonical URL gives it back |
| `Urls.OriginParses` | requests/requests_helper/parsing/parser_http.c:74-136 | Behind a written host and port the URI part alone decides |
| `Urls.UsualUrl` | requests/requests_helper/parsing/parser_http.c:51-136 | Without a port: https has port 443 and http port 80, the host has at most 253 characters, the URI at most 1024 and is / if it is empty, and a fragment is dropped; everything longer is refused |
| `Urls.UrlWithPort` | requests/requests_helper/parsing/parser_http.c:88-136 | With a port: accepted if and only if it has one to seven digits of a value of at most 65535, and what follows begins with a slash, a question mark or a colon; the port 0 stands for 443 or 80 |
| `Paths.SimplifyPath` | requests/requests_helper/path/path.c:11-48 | On every input: indices stay in order, no more is written than was read, and the result is that of a stack of segments |
| `Paths.CloseSegment` | requests/requests_helper/path/path.c:32-44 | What the tests on the written characters do at a slash: a segment is kept, dropped, or removed with the one before it |
| `Paths.Backtrack` | requests/requests_helper/path/path.c:34-38 | The inner loop goes back exactly one segment |
| `Paths.SimplifyIsNormalise` | requests/requests_helper/path/path.c:11-48 | On scheme://host/ and a path, the result is the path without dot segments (section 5.2.4 of RFC 3986, a last unslashed one kept) if and only if the path never climbs above the root |
| `Paths.SimplifiedUrl` | requests/requests_helper/path/path.c:11-48 | What the result is for every path, climbing or not |
| `Paths.SimplifyTwiceIff` | requests/requests_helper/path/path.c:11-48 | On every input: simplifying the result again changes nothing if and only if the result does not begin with /./ |
| `Paths.SimplifyIsIdempotent` | requests/requests_helper/path/path.c:11-48 | So it changes nothing on a URL whose path never climbs above the root |
| `Paths.ClimbingIsNotIdempotent` | requests/requests_helper/path/path.c:11-48 | A climbing path whose result begins with /./ and changes when it is simplified again |
| `Paths.ClimbingLosesHost` | requests/requests_helper/path/path.c:32-39 | A path that climbs above the root removes the host |
| `Paths.PathJoin` | requests/requests_helper/path/path.c:54-78 | The parts without their leading slashes, single slashes between them, cut at the buffer size; unterminated only if the text fills the buffer |
| `Paths.WritePart` | requests/requests_helper/path/path.c:61-74 | One part with its slash, cut at the room that is left |
| `Paths.SlashesAreSkipped` | requests/requests_helper/path/path.c:61-66 | All leading slashes of a part go, and nothing else |
| `Redirects.ResolveLocation` | requests/requests.c:241-271 | On every parsed URL and every location the two buffers of 2048 characters are large enough, and the address is the simplified join of origin, directory and location |
| `Redirects.FollowLocation` | requests/requests.c:238-273 | An absolute location is the next address as it is, any other one is resolved |
| `Redirects.RedirectNormalises` | requests/requests.c:251-271 | The address is the same origin with the normalised directory and location if and only if that path never climbs above the root |
| `Redirects.RedirectParses` | requests/requests.c:251-272 | Parsing the address gives the same scheme, host and port and the normalised path as the URI, refused only if that is longer than the limit |
| `Redirects.JoinedText` | requests/requests.c:268-270 | Nothing is cut: the joined text is the origin, the segments of the directory and the location |
| `Redirects.WriteOrigin` | requests/requests.c:258-268 | Scheme, host and the port unless it is the default one |
| `Redirects.OriginPrinted` | requests/requests.c:258-268 | No port for https at 443 and http at 80, and every other port behind a colon |
| `Redirects.LeadingSlashIsIgnored` | requests/requests.c:251-271 | A location that begins with a slash is resolved as if it did not, under the current directory |
| `Redirects.CutToDirectory` | requests/requests.c:251-256 | The URI is cut at its last slash |
| `Requests.BuildRequest` | requests/requests.c:105-147 | The request text for any five texts, in a buffer of exactly the size the code reserves, which never overflows |
| `Requests.RequestIsHead` | requests/requests.c:115-147 | The text is a printed head (request line, Host, Content-Length, the default fields, the caller's fields) followed by the data |
| `Requests.DefaultsDoNotRepeat` | requests/requests.c:124-143 | A default field whose name is among the caller's header lines is not sent a second time |
| `Requests.DefaultSentIff` | requests/requests.c:124-143 | A default line is sent if and only if its name occurs nowhere in the caller's headers where the search has no match in progress |
| `Requests.AcceptIsSuppressed` | requests/requests.c:128-131 | With the caller's line Accept-Encoding: gzip the default Accept is not sent |
| `Requests.RequestAnnouncesData` | requests/requests.c:105-147 | Reading the request's head stops exactly at the data, and its fields frame exactly the data, for every request line that is not itself taken for a Transfer-Encoding |
| `Requests.RequestIndex` | requests/requests.c:105-147 | Reading the head of any request stops exactly at the data, with a pair for every field |
| `Requests.RequestLookup` | requests/requests.c:115-143 | What any name is looked up as in the request: the last value the caller gives it, else the library's: host, length of the data, or the default value if its line is sent |
| `Requests.UriIsHarmless` | requests/requests.c:115-122 | No request line whose method has no colon and whose URI begins with a slash or a question mark is taken for one, nor for a pair of any name without these two characters |

## Left out

- Sockets, TLS, DNS, timeouts and the clock (`easy_tcp_tls.c`, `timer.c`): replaced by the byte source described above; a failing `send` is not modelled.
- A `recv` that returns 0 at the end of the stream: the loop at `requests/requests.c:486-503` makes no progress on it; the source here ends with -1.
- Failing allocations, and the zero-byte allocation of an empty residue, which may return NULL on some platforms and then fails the request.
- The comparison of host, port and security flag that decides on reuse (`requests/requests.c:149`), and closing and reopening a connection that has expired: sessions stay on one connection.
- A server that sends the next response before the next request (pipelining): the response is added to the stream when the request has been sent.
- The recursion of `req_request` along redirects: the server decides on its length. One redirect is resolved.
- Section 5.2 of RFC 3986 for locations that begin with a slash, and for queries that contain one: the code joins the first under the current directory (`Redirects.LeadingSlashIsIgnored`) and cuts the second at the query's slash; the redirect theorems take every slash as the end of a segment.
- Trailer fields, which nothing in the code parses, and chunk extensions, of which the hexadecimal letters join the size (`ChunkScanner.ExtensionIff`, on one size line): the bodies of `BodyCoding` and the sessions have neither.
- Responses with neither Content-Length nor chunked coding: the code reads them as chunked (`Connection.FramingOfHead`), and `Sessions.GoodResponse` asks the head to announce the body.
- Characters of 128 and above: `char` is not signed here, so the model's comparison with `'0'` and its order of texts are those of ASCII. Body bytes may be any characters.
- 64-bit counters other than the number readers and the chunk size are unbounded.
- ParserTree.Tree.Push: the in-place change of key and value is a function on texts that does not make them longer.
- Requests.RequestAnnouncesData: the reader of the request's head is the library's own parser of response heads, the only one there is; a request line with a colon is then one more pair.
- The heads of connections that are read in turns are taken to be parsed: parsing a head does not touch the scanner. Dropping and reusing one of them in between is not interleaved.
- `req_display_headers`, `rh_ptree_display`, `req_nb_bytes_read`, the wrappers of `requests.h`, configuration, build scripts, fuzzers and `test.c`.
