/** req_parse_headers: the head is parsed byte by byte out of whatever pieces the source delivers, and
    the unread tail of the last piece becomes the residue that the body decoder reads first. */
module HeadReader {
  import opened CStrings
  import opened Numbers
  import opened ParserTree
  import opened HeadCoding
  import opened BodyReader

  // ------------------------------------------------------------------------------------------
  // parse_status

  method ParseStatusLine(keyValue: array<char>, keepAliveRead: char) returns (code: nat)
    requires Terminated(keyValue[..])
    ensures code == ParseStatus(keyValue[..], keepAliveRead)
  {
    var http := StartsWith(keyValue[..], "HTTP/");
    var ttp := StartsWith(keyValue[..], "TTP/");
    if !http && (keepAliveRead != 'H' || !ttp) {
      return 0;
    }
    var k := SkipPastSpace(keyValue);
    var statusCode := new char[4];
    CopyDigits(keyValue, k, statusCode);
    var value := ReadUint64(statusCode[..]);
    return value % 0x1_0000;
  }

  method CopyDigits(keyValue: array<char>, from: nat, statusCode: array<char>)
    requires statusCode.Length == 4 && statusCode != keyValue
    requires Terminated(keyValue[..]) && from <= |CStr(keyValue[..])|
    modifies statusCode
    ensures CStr(statusCode[..]) == LeadingDigits(CStr(keyValue[..])[from..], 3)
  {
    ghost var s := CStr(keyValue[..]);
    var l := 0;
    while l < 3 && IsDigit(keyValue[from + l])
      invariant 0 <= l <= 3 && from + l <= |s| < keyValue.Length
      invariant forall i :: 0 <= i < l ==> statusCode[i] == s[from + i] && IsDigit(statusCode[i])
    {
      assert s[from + l] == keyValue[..][from + l];
      statusCode[l] := keyValue[from + l];
      l := l + 1;
    }
    statusCode[l] := '\0';
    ghost var t := s[from..];
    assert l < |t| ==> t[l] == keyValue[..][from + l];
    assert statusCode[..][..l] == t[..l];
    LeadingDigitsAre(t, 3, l);
    CStrUnique(statusCode[..], l);
  }

  method SkipPastSpace(keyValue: array<char>) returns (k: nat)
    requires Terminated(keyValue[..])
    ensures k <= |CStr(keyValue[..])| < keyValue.Length
    ensures CStr(keyValue[..])[k..] == AfterSpace(CStr(keyValue[..]))
  {
    ghost var s := CStr(keyValue[..]);
    k := 0;
    while keyValue[k] != '\0' && keyValue[k] != ' '
      invariant k <= |s| < keyValue.Length && AfterSpace(s) == AfterSpace(s[k..])
      decreases |s| - k
    {
      assert s[k] == keyValue[..][k];
      assert s[k..][1..] == s[k + 1..];
      k := k + 1;
    }
    assert k < |s| ==> s[k] == keyValue[..][k] && s[k..][1..] == s[k + 1..];
    if keyValue[k] != '\0' {
      k := k + 1;
    }
  }

  // ------------------------------------------------------------------------------------------
  // One byte

  /** The parser's variables as a state of the reference. */
  ghost function Snapshot(tree: Tree, keyValue: seq<char>, inValue: bool, cReturn: bool, status: nat): HeadState
    requires |keyValue| <= BLOCK
    reads tree, tree.currentKey, tree.currentValue
  {
    HeadState(cReturn, inValue, keyValue, tree.Key(), tree.Value(), tree.Map(), status)
  }

  /** key_value[0..j] is trimmed in place; the text and its length. */
  method TrimKeyValue(keyValue: array<char>, j: nat) returns (trimmed: seq<char>, n: nat)
    requires j < keyValue.Length && keyValue[j] == '\0'
    modifies keyValue
    ensures n == |CStr(trimmed)| && CStr(trimmed) == Trim(CStr(old(keyValue[..j])))
  {
    TerminatedAt(keyValue[..], j);
    assert keyValue[..][..j] == keyValue[..j];
    var start := StrTrimInPlace(keyValue);
    trimmed := keyValue[start..];
    n := StrLen(keyValue, start);
  }

  lemma WholeText(s: seq<char>)
    ensures StrNCpyText(s, |CStr(s)| + 1) == CStr(s)
  {
  }

  /** Trimming key_value leaves the tree alone. */
  method TrimBeside(tree: Tree, keyValue: array<char>, j: nat) returns (trimmed: seq<char>, n: nat)
    requires tree.Valid() && keyValue !in tree.live && j < keyValue.Length && keyValue[j] == '\0'
    modifies keyValue
    ensures n == |CStr(trimmed)| && CStr(trimmed) == Trim(CStr(old(keyValue[..j])))
    ensures tree.Valid() && tree.live == old(tree.live) && tree.Map() == old(tree.Map())
    ensures tree.Key() == old(tree.Key()) && tree.Value() == old(tree.Value())
  {
    hide CStr, Trim, Separate, Ordered, Contents, Blocks, Linked;
    trimmed, n := TrimKeyValue(keyValue, j);
  }

  /** The trimmed key_value is appended to the pending value or key. */
  method Store(tree: Tree, keyValue: array<char>, j: nat, toValue: bool)
    requires tree.Valid() && keyValue !in tree.live && j < keyValue.Length && keyValue[j] == '\0'
    modifies tree.live, keyValue
    ensures tree.Valid() && fresh(tree.live - old(tree.live)) && keyValue !in tree.live
    ensures tree.Map() == old(tree.Map())
    ensures var text := Trim(CStr(old(keyValue[..j])));
            if toValue then tree.Value() == Append(old(tree.Value()), text) && tree.Key() == old(tree.Key())
            else tree.Key() == Append(old(tree.Key()), text) && tree.Value() == old(tree.Value())
  {
    hide Tree.Valid, Tree.Map, Tree.Key, Tree.Value, StrNCpyText, CStr, Trim;
    var trimmed, n := TrimBeside(tree, keyValue, j);
    WholeText(trimmed);
    if toValue {
      tree.UpdateValue(trimmed, n + 1);
    } else {
      tree.UpdateKey(trimmed, n + 1);
    }
  }

  /** Writing one character of key_value leaves the tree alone. */
  method Poke(tree: Tree, keyValue: array<char>, j: nat, c: char)
    requires tree.Valid() && keyValue !in tree.live && j < keyValue.Length
    modifies keyValue
    ensures tree.Valid() && tree.live == old(tree.live) && tree.Map() == old(tree.Map())
    ensures tree.Key() == old(tree.Key()) && tree.Value() == old(tree.Value())
    ensures keyValue[..j] == old(keyValue[..j]) && keyValue[..j + 1] == old(keyValue[..j]) + [c] && keyValue[j] == c
  {
    keyValue[j] := c;
  }

  /** The terminator is written, and a full buffer is flushed into the tree. */
  method FlushFull(tree: Tree, keyValue: array<char>, j0: nat, inValue: bool, ghost cReturn: bool, ghost status: nat)
    returns (j: nat)
    requires tree.Valid() && keyValue !in tree.live
    requires keyValue.Length == PARSER_BUFFER_SIZE && j0 <= BLOCK && (inValue ==> tree.Key().Some?)
    modifies tree.live, keyValue
    ensures tree.Valid() && fresh(tree.live - old(tree.live)) && keyValue !in tree.live
    ensures j < BLOCK && keyValue[j] == '\0' && (inValue ==> tree.Key().Some?)
    ensures Snapshot(tree, keyValue[..j], inValue, cReturn, status)
         == Flush(old(Snapshot(tree, keyValue[..j0], inValue, cReturn, status)))
  {
    hide Tree.Valid, Tree.Map, Tree.Key, Tree.Value, CStr, Trim;
    Poke(tree, keyValue, j0, '\0');
    j := j0;
    if j == PARSER_BUFFER_SIZE - 1 {
      Store(tree, keyValue, j, inValue);
      j := 0;
      Poke(tree, keyValue, 0, '\0');
    }
  }

  /** The newline branch: a pair is pushed, or a line without a colon is looked at for a status code. */
  method EndLine(handler: Handler, tree: Tree, keyValue: array<char>, j: nat, inValue: bool, ghost cReturn: bool)
    requires tree.Valid() && keyValue !in tree.live && handler !in tree.live
    requires keyValue.Length == PARSER_BUFFER_SIZE && j < BLOCK && keyValue[j] == '\0'
    requires inValue ==> tree.Key().Some?
    modifies handler`statusCode, tree.live, keyValue
    ensures tree.Valid() && fresh(tree.live - old(tree.live))
    ensures Snapshot(tree, [], false, true, handler.statusCode)
         == HeadStep(old(Snapshot(tree, keyValue[..j], inValue, cReturn, handler.statusCode)), handler.keepAliveRead, '\n')
  {
    hide Tree.Valid, Tree.Map, Tree.Key, Tree.Value, CStr, Trim, ParseStatus;
    if inValue {
      Store(tree, keyValue, j, true);
      PendingKey(tree);
      var ok := tree.Push(None);
    } else {
      StatusOfPrefix(keyValue[..], j, handler.keepAliveRead);
      assert keyValue[..][..j] == keyValue[..j];
      var statusCode := ParseStatusLine(keyValue, handler.keepAliveRead);
      tree.Abort();
      if statusCode != 0 {
        SetStatus(handler, tree, statusCode);
      }
    }
  }

  lemma StatusOfPrefix(s: seq<char>, j: nat, keepAlive: char)
    requires j < |s| && s[j] == '\0'
    ensures Terminated(s) && ParseStatus(s, keepAlive) == ParseStatus(s[..j], keepAlive)
  {
    TerminatedAt(s, j);
  }

  method SetStatus(handler: Handler, tree: Tree, statusCode: nat)
    requires tree.Valid() && handler !in tree.live
    modifies handler`statusCode
    ensures handler.statusCode == statusCode
    ensures tree.Valid() && tree.live == old(tree.live) && tree.Map() == old(tree.Map())
    ensures tree.Key() == old(tree.Key()) && tree.Value() == old(tree.Value())
  {
    handler.statusCode := statusCode;
  }

  /** The body of the byte loop of req_parse_headers. */
  method ParseByte(handler: Handler, tree: Tree, keyValue: array<char>, j0: nat, inValue0: bool, cReturn0: bool, c: char)
    returns (j: nat, inValue: bool, cReturn: bool)
    requires tree.Valid() && keyValue !in tree.live && handler !in tree.live
    requires keyValue.Length == PARSER_BUFFER_SIZE && j0 <= BLOCK && (inValue0 ==> tree.Key().Some?)
    modifies handler`statusCode, tree.live, keyValue
    ensures tree.Valid() && fresh(tree.live - old(tree.live))
    ensures j <= BLOCK && (inValue ==> tree.Key().Some?)
    ensures Snapshot(tree, keyValue[..j], inValue, cReturn, handler.statusCode)
         == HeadStep(old(Snapshot(tree, keyValue[..j0], inValue0, cReturn0, handler.statusCode)), handler.keepAliveRead, c)
  {
    hide Tree.Valid, Tree.Map, Tree.Key, Tree.Value, CStr, Trim, Flush, HeadStep;
    ghost var st := Snapshot(tree, keyValue[..j0], inValue0, cReturn0, handler.statusCode);
    inValue, cReturn := inValue0, cReturn0;
    j := FlushFull(tree, keyValue, j0, inValue, cReturn, handler.statusCode);
    ghost var f := Snapshot(tree, keyValue[..j], inValue, cReturn, handler.statusCode);
    assert f == Flush(st);
    StepAfterFlush(st, handler.keepAliveRead, c);
    if !inValue && c == ':' {
      inValue := true;
      Store(tree, keyValue, j, false);
      j := 0;
    } else if c == '\n' {
      EndLine(handler, tree, keyValue, j, inValue, cReturn);
      cReturn, inValue, j := true, false, 0;
    } else {
      if c >= '0' {
        cReturn := false;
      }
      Poke(tree, keyValue, j, c);
      j := j + 1;
    }
  }

  lemma StepAfterFlush(st: HeadState, keepAlive: char, c: char)
    requires Sound(st)
    ensures var f := Flush(st);
            var n := HeadStep(st, keepAlive, c);
            && n == HeadStep(f, keepAlive, c)
            && (!f.inValue && c == ':' ==>
                  n == f.(inValue := true, key := Append(f.key, Trim(CStr(f.keyValue))), keyValue := []))
            && ((f.inValue || c != ':') && c != '\n' ==>
                  n == f.(cReturn := f.cReturn && c < '0', keyValue := f.keyValue + [c]))
  {
    hide Trim, CStr, ParseStatus, Fold;
    assert Flush(Flush(st)) == Flush(st);
  }

  /** The byte loop: it stops at the newline that ends the head, or when the buffer is used up. */
  method ParseBuffer(handler: Handler, tree: Tree, buffer: array<char>, size: nat, keyValue: array<char>,
                     j0: nat, inValue0: bool, cReturn0: bool, ghost st0: HeadState, ghost rest: seq<char>)
    returns (i: nat, j: nat, inValue: bool, cReturn: bool, ghost st: HeadState)
    requires tree.Valid() && keyValue !in tree.live && handler !in tree.live && buffer !in tree.live
    requires buffer != keyValue && size <= buffer.Length
    requires keyValue.Length == PARSER_BUFFER_SIZE && j0 <= BLOCK && (inValue0 ==> tree.Key().Some?)
    requires st0 == Snapshot(tree, keyValue[..j0], inValue0, cReturn0, handler.statusCode)
    modifies handler`statusCode, tree.live, keyValue
    ensures tree.Valid() && fresh(tree.live - old(tree.live))
    ensures j <= BLOCK && (inValue ==> tree.Key().Some?)
    ensures st == Snapshot(tree, keyValue[..j], inValue, cReturn, handler.statusCode)
    ensures i <= size && (i < size ==> buffer[i] == '\n' && cReturn)
    ensures HeadRun(st0, handler.keepAliveRead, old(buffer[..size]) + rest)
         == HeadRun(st, handler.keepAliveRead, buffer[i..size] + rest)
  {
    hide Tree.Valid, Tree.Map, Tree.Key, Tree.Value, HeadStep, HeadRun;
    ghost var bytes, keepAlive := buffer[..size], handler.keepAliveRead;
    st := st0;
    i, j, inValue, cReturn := 0, j0, inValue0, cReturn0;
    assert bytes[0..] == bytes;
    while i < size && (buffer[i] != '\n' || !cReturn)
      invariant tree.Valid() && fresh(tree.live - old(tree.live))
      invariant keyValue !in tree.live && handler !in tree.live && buffer !in tree.live
      invariant i <= size && j <= BLOCK && (inValue ==> tree.Key().Some?)
      invariant buffer[..size] == bytes && handler.keepAliveRead == keepAlive
      invariant st == Snapshot(tree, keyValue[..j], inValue, cReturn, handler.statusCode)
      invariant HeadRun(st0, keepAlive, bytes + rest) == HeadRun(st, keepAlive, bytes[i..] + rest)
    {
      assert buffer[i] == bytes[i];
      HeadRunOne(st, keepAlive, bytes, i, rest);
      st := HeadStep(st, keepAlive, bytes[i]);
      j, inValue, cReturn := ParseByte(handler, tree, keyValue, j, inValue, cReturn, buffer[i]);
      i := i + 1;
    }
    assert bytes[i..] == buffer[i..size];
  }

  lemma HeadRunOne(st: HeadState, keepAlive: char, bytes: seq<char>, i: nat, rest: seq<char>)
    requires Sound(st) && i < |bytes| && !(bytes[i] == '\n' && st.cReturn)
    ensures HeadRun(st, keepAlive, bytes[i..] + rest)
         == HeadRun(HeadStep(st, keepAlive, bytes[i]), keepAlive, bytes[i + 1..] + rest)
  {
    assert (bytes[i..] + rest)[1..] == bytes[i + 1..] + rest;
  }

  /** Objects that a read of the body writes, and the header tree does not own. */
  ghost predicate Outside(handler: Handler, tree: Tree)
    reads tree
  {
    && handler !in tree.live && handler.socket !in tree.live && handler.scanner !in tree.live
    && handler.scanner.length !in tree.live
  }

  ghost predicate Apart(handler: Handler, tree: Tree)
    reads tree, handler`readingResidue
  {
    && Outside(handler, tree)
    && (handler.readingResidue != null ==> handler.readingResidue !in tree.live)
  }

  /** What holds between two pieces: the residue is empty, and tree, buffers and handler are apart. */
  ghost predicate Parsing(handler: Handler, tree: Tree, buffer: array<char>, keyValue: array<char>)
    reads handler, handler.scanner, handler.scanner.length, tree, tree.live
  {
    && handler.Valid() && handler.headersTree == tree && tree.Valid() && Apart(handler, tree)
    && handler.residueSize == 0 && handler.residueOffset == 0
    && buffer !in tree.live && keyValue !in tree.live && buffer != keyValue
    && buffer.Length == PARSER_BUFFER_SIZE && keyValue.Length == PARSER_BUFFER_SIZE
    && buffer != handler.scanner.length && keyValue != handler.scanner.length
    && handler.Foreign(buffer)
  }

  /** The read of one piece. */
  method FetchPiece(handler: Handler, tree: Tree, buffer: array<char>, keyValue: array<char>) returns (read: int)
    requires Parsing(handler, tree, buffer, keyValue)
    modifies handler`residueSize, handler`residueOffset, handler`readingResidue, handler.socket, buffer
    ensures Parsing(handler, tree, buffer, keyValue)
    ensures tree.live == old(tree.live) && tree.Map() == old(tree.Map())
    ensures tree.Key() == old(tree.Key()) && tree.Value() == old(tree.Value())
    ensures keyValue[..] == old(keyValue[..]) && handler.statusCode == old(handler.statusCode)
    ensures if old(handler.Rest()) == [] then read < 0 && handler.Rest() == [] else 1 <= read <= PARSER_BUFFER_SIZE
    ensures read > 0 ==> old(handler.Rest()) == buffer[..read] + handler.Rest()
  {
    read := handler.ReadOutput(buffer, 0, PARSER_BUFFER_SIZE);
    assert read > 0 ==> Got(buffer[..], 0, read) == buffer[..read];
  }

  /** One round of the outer loop: a piece is read and its bytes are parsed. */
  method ParsePiece(handler: Handler, tree: Tree, buffer: array<char>, keyValue: array<char>,
                    j0: nat, inValue0: bool, cReturn0: bool, ghost st0: HeadState)
    returns (read: int, i: nat, j: nat, inValue: bool, cReturn: bool, ghost st: HeadState, ghost view: seq<char>)
    requires Parsing(handler, tree, buffer, keyValue)
    requires j0 <= BLOCK && (inValue0 ==> tree.Key().Some?)
    requires st0 == Snapshot(tree, keyValue[..j0], inValue0, cReturn0, handler.statusCode)
    modifies handler`residueSize, handler`residueOffset, handler`readingResidue, handler`statusCode
    modifies handler.socket, buffer, keyValue, tree.live
    ensures Parsing(handler, tree, buffer, keyValue)
    ensures fresh(tree.live - old(tree.live))
    ensures j <= BLOCK && (inValue ==> tree.Key().Some?)
    ensures st == Snapshot(tree, keyValue[..j], inValue, cReturn, handler.statusCode)
    ensures if old(handler.Rest()) == [] then read < 0 && st == st0 && handler.Rest() == []
            else 1 <= read <= PARSER_BUFFER_SIZE && i <= read && |handler.Rest()| < old(|handler.Rest()|)
    ensures i < read ==> cReturn
    ensures 0 <= i < read ==> view == ['\n'] + (buffer[i + 1..read] + handler.Rest())
    ensures i >= read ==> view == handler.Rest()
    ensures HeadRun(st0, handler.keepAliveRead, old(handler.Rest())) == HeadRun(st, handler.keepAliveRead, view)
  {
    hide Tree.Valid, Tree.Map, Tree.Key, Tree.Value, HeadRun;
    i, j, inValue, cReturn, st := 0, j0, inValue0, cReturn0, st0;
    read := FetchPiece(handler, tree, buffer, keyValue);
    view := handler.Rest();
    if read <= 0 {
      return;
    }
    ghost var rest := handler.Rest();
    i, j, inValue, cReturn, st := ParseBuffer(handler, tree, buffer, read, keyValue, j, inValue, cReturn, st0, rest);
    assert handler.Rest() == rest;
    view := buffer[i..read] + rest;
  }

  /** What follows the head in the buffer becomes the residue. */
  method KeepResidue(handler: Handler, tree: Tree, buffer: array<char>, keyValue: array<char>, offset: nat, size: nat)
    requires Parsing(handler, tree, buffer, keyValue) && offset <= size <= PARSER_BUFFER_SIZE
    modifies handler`readingResidue, handler`residueSize
    ensures handler.Valid() && handler.headersTree == tree && tree.Valid() && Apart(handler, tree)
    ensures tree.Map() == old(tree.Map()) && tree.live == old(tree.live)
    ensures handler.statusCode == old(handler.statusCode)
    ensures handler.Rest() == old(buffer[offset..size] + handler.Rest())
    ensures handler.readingResidue != null && fresh(handler.readingResidue)
  {
    handler.readingResidue := new char[size - offset];
    handler.residueSize := size - offset;
    MemCpy(handler.readingResidue, 0, buffer, offset, size - offset);
    assert handler.Residue() == buffer[offset..size];
  }

  /** The outer loop of req_parse_headers. */
  method ParsePieces(handler: Handler, tree: Tree, buffer: array<char>, keyValue: array<char>)
    returns (offset: int, size: nat, ghost end: HeadState)
    requires Parsing(handler, tree, buffer, keyValue)
    requires tree.Map() == map[] && tree.Key() == None && tree.Value() == None
    modifies handler`residueSize, handler`residueOffset, handler`readingResidue, handler`statusCode
    modifies handler.socket, buffer, keyValue, tree.live
    ensures Parsing(handler, tree, buffer, keyValue)
    ensures fresh(tree.live - old(tree.live))
    ensures -1 <= offset <= size <= PARSER_BUFFER_SIZE
    ensures end.index == tree.Map() && end.status == handler.statusCode
    ensures HeadRun(Initial(old(handler.statusCode)), handler.keepAliveRead, old(handler.Rest()))
         == if offset < 0 then NotFound(end) else Found(end, buffer[offset..size] + handler.Rest())
  {
    hide Parsing, HeadRun, HeadStep, Tree.Valid, Tree.Map, Tree.Key, Tree.Value, Handler.Rest, Handler.Valid;
    ParsingParts(handler, tree, buffer, keyValue);
    var cReturn, inValue, j: nat := false, false, 0;
    offset, size := -1, 0;
    ghost var all, keepAlive, start := handler.Rest(), handler.keepAliveRead, Initial(handler.statusCode);
    end := Snapshot(tree, keyValue[..j], inValue, cReturn, handler.statusCode);
    assert end == start;
    ghost var view := all;
    while offset == -1
      invariant Parsing(handler, tree, buffer, keyValue) && fresh(tree.live - old(tree.live))
      invariant j <= BLOCK && (inValue ==> tree.Key().Some?) && -1 <= offset <= size <= PARSER_BUFFER_SIZE
      invariant keyValue.Length == buffer.Length == PARSER_BUFFER_SIZE
      invariant offset != 0 && handler.keepAliveRead == keepAlive
      invariant end == Snapshot(tree, keyValue[..j], inValue, cReturn, handler.statusCode)
      invariant HeadRun(start, keepAlive, all) == HeadRun(end, keepAlive, view)
      invariant if offset < 0 then view == handler.Rest()
                else cReturn && view == ['\n'] + (buffer[offset..size] + handler.Rest())
      decreases offset == -1, |handler.Rest()|
    {
      var read, i;
      ParsingParts(handler, tree, buffer, keyValue);
      read, i, j, inValue, cReturn, end, view := ParsePiece(handler, tree, buffer, keyValue, j, inValue, cReturn, end);
      ParsingParts(handler, tree, buffer, keyValue);
      if read <= 0 {
        HeadRunNothing(end, keepAlive);
        return;
      }
      size := read;
      if i < size {
        offset := i + 1;
      }
    }
    HeadRunEnd(end, keepAlive, buffer[offset..size] + handler.Rest());
  }

  /** req_parse_headers, on a handler whose residue has been dropped. It succeeds exactly when the
      stream holds the end of a head; status and pairs are then those of the reference, and residue
      followed by socket is the stream after that newline, however the bytes were delivered. */
  method ParseHeaders(handler: Handler) returns (ok: bool)
    requires handler.Valid() && handler.residueSize == 0 && handler.residueOffset == 0
    requires handler.headersTree == null
    modifies handler`headersTree, handler`residueSize, handler`residueOffset, handler`readingResidue
    modifies handler`statusCode, handler.socket
    ensures handler.Valid() && handler.headersTree != null
    ensures fresh(handler.headersTree)
    ensures handler.headersTree.Valid() && fresh(handler.headersTree.live) && Apart(handler, handler.headersTree)
    ensures var r := HeadRun(Initial(old(handler.statusCode)), handler.keepAliveRead, old(handler.Rest()));
            && ok == r.Found?
            && (ok ==>
                  && handler.Rest() == r.rest && handler.headersTree.Map() == r.state.index
                  && handler.statusCode == r.state.status)
  {
    ghost var all := handler.Rest();
    var buffer := new char[PARSER_BUFFER_SIZE];
    var keyValue := new char[PARSER_BUFFER_SIZE];
    var tree := new Tree();
    handler.headersTree := tree;
    assert handler.Rest() == all;
    hide HeadRun, Tree.Valid, Tree.Map, Tree.Key, Tree.Value;
    assert Parsing(handler, tree, buffer, keyValue);
    var offset, size;
    ghost var end;
    offset, size, end := ParsePieces(handler, tree, buffer, keyValue);
    ParsingParts(handler, tree, buffer, keyValue);
    hide Handler.Rest, Handler.Valid;
    if offset < 0 {
      return false;
    }
    KeepResidue(handler, tree, buffer, keyValue, offset, size);
    return true;
  }

  lemma ParsingParts(handler: Handler, tree: Tree, buffer: array<char>, keyValue: array<char>)
    requires Parsing(handler, tree, buffer, keyValue)
    ensures handler.Valid() && handler.headersTree == tree && tree.Valid() && Apart(handler, tree)
    ensures buffer.Length == keyValue.Length == PARSER_BUFFER_SIZE
  {
  }

  lemma HeadRunNothing(st: HeadState, keepAlive: char)
    requires Sound(st)
    ensures HeadRun(st, keepAlive, []) == NotFound(st)
  {
  }

  lemma HeadRunEnd(st: HeadState, keepAlive: char, after: seq<char>)
    requires Sound(st) && st.cReturn
    ensures HeadRun(st, keepAlive, ['\n'] + after) == Found(st, after)
  {
    assert (['\n'] + after)[1..] == after;
  }
}
