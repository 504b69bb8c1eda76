/** The chunk-size scanner is one static register for all connections. What a body that breaks off
    leaves in it, and what that does to the next body. */
module SharedScanner {
  import opened CStrings
  import opened Numbers
  import opened ChunkScanner
  import opened BodyCoding
  import opened BodyReader

  // ------------------------------------------------------------------------------------------
  // What a broken body leaves

  /** The digits that the register holds after a run of them: those since its last overflow. */
  function Kept(digits: seq<char>): (r: seq<char>)
    ensures |r| <= LENGTH_CELLS
  {
    digits[|digits| - |digits| % (LENGTH_CELLS + 1)..]
  }

  /** The register after the first n bytes of a size line: digits, and a NUL for the CR. */
  function LineRegister(digits: seq<char>, n: nat): seq<char> {
    if n <= |digits| then Kept(digits[..n])
    else if n == |digits| + 1 then Kept(digits) + ['\0']
    else []
  }

  /** The register after the first n bytes of a printed body. */
  function LeftInRegister(chunks: seq<Chunk>, last: seq<char>, n: nat): seq<char> {
    if chunks == [] then LineRegister(last, n)
    else
      var head := |SizeLine(chunks[0].digits)|;
      var size := head + |chunks[0].data| + 2;
      if n < head then LineRegister(chunks[0].digits, n)
      else if n <= size then []
      else LeftInRegister(chunks[1..], last, n - size)
  }

  /** The first n bytes of a size line end inside it, and not where the register has just overflowed. */
  predicate InsideLine(digits: seq<char>, n: nat) {
    0 < n < |SizeLine(digits)| && (n > |digits| || n % (LENGTH_CELLS + 1) != 0)
  }

  /** The first n bytes of a printed body end inside a size line. */
  predicate BreaksInLine(chunks: seq<Chunk>, last: seq<char>, n: nat) {
    if chunks == [] then InsideLine(last, n)
    else
      var head := |SizeLine(chunks[0].digits)|;
      var size := head + |chunks[0].data| + 2;
      if n < head then InsideLine(chunks[0].digits, n)
      else n > size && BreaksInLine(chunks[1..], last, n - size)
  }

  lemma KeptTail(digits: seq<char>)
    ensures Kept(digits) == if |digits| <= LENGTH_CELLS then digits else Kept(digits[LENGTH_CELLS + 1..])
  {
    hide Kept;
    if |digits| <= LENGTH_CELLS {
      KeptLast([], digits);
      assert [] + digits == digits;
    } else {
      var head, tail := digits[..LENGTH_CELLS + 1], digits[LENGTH_CELLS + 1..];
      var front, last := FullLines(tail);
      KeptLast(front, last);
      KeptLast(head + front, last);
      assert digits == head + tail == (head + front) + last;
    }
  }

  /** The digits lost by overflows, and those behind them. */
  lemma FullLines(digits: seq<char>) returns (front: seq<char>, last: seq<char>)
    ensures digits == front + last && |front| % (LENGTH_CELLS + 1) == 0 && |last| <= LENGTH_CELLS
  {
    var n := |digits| - |digits| % (LENGTH_CELLS + 1);
    front, last := digits[..n], digits[n..];
  }

  lemma KeptLast(front: seq<char>, last: seq<char>)
    requires |front| % (LENGTH_CELLS + 1) == 0 && |last| <= LENGTH_CELLS
    ensures Kept(front + last) == last
  {
    LastPiece(|front|, |last|);
    assert (front + last)[|front|..] == last;
  }

  lemma LastPiece(a: nat, b: nat)
    requires a % (LENGTH_CELLS + 1) == 0 && b <= LENGTH_CELLS
    ensures (a + b) % (LENGTH_CELLS + 1) == b
  {
  }

  lemma {:induction false} DigitsKept(digits: seq<char>, rest: seq<char>)
    requires AllHexDigits(digits)
    ensures ScanAll([], digits + rest) == ScanAll(Kept(digits), rest)
    decreases |digits|
  {
    hide ScanAll, Kept;
    ScanDigits([], digits, rest);
    KeptTail(digits);
    if |digits| <= LENGTH_CELLS {
      assert [] + digits == digits;
    } else {
      DigitsKept(digits[LENGTH_CELLS + 1..], rest);
    }
  }

  lemma {:induction false} ReadableKept(digits: seq<char>)
    requires AllHexDigits(digits) && Readable(digits)
    ensures 1 <= |Kept(digits)| <= 30
    decreases |digits|
  {
    hide Kept, HexValue;
    KeptTail(digits);
    if |digits| > LENGTH_CELLS {
      ReadableKept(digits[LENGTH_CELLS + 1..]);
    }
  }

  lemma ScanCR(s: Register)
    requires 1 <= |s| <= 30
    ensures ScanAll(s, "\r") == (s + ['\0'], -1)
  {
    assert "\r"[1..] == [];
  }

  lemma RunLinePrefix(digits: seq<char>, n: nat)
    requires AllHexDigits(digits) && Readable(digits) && n < |SizeLine(digits)|
    ensures |LineRegister(digits, n)| <= LENGTH_CELLS
    ensures Run(true, Size([]), SizeLine(digits)[..n]) == Decoded(Size(LineRegister(digits, n)), [], [])
  {
    hide Run, ScanAll, Readable;
    var text := SizeLine(digits)[..n];
    ReadableKept(digits);
    if n == 0 {
      RunEmpty(true, Size([]));
    } else if n <= |digits| {
      assert text == digits[..n] == digits[..n] + [];
      DigitsKept(digits[..n], []);
      NothingScannedFrom(Kept(digits[..n]));
      RunScan([], text);
    } else {
      assert text == digits + "\r";
      DigitsKept(digits, "\r");
      ScanCR(Kept(digits));
      RunScan([], text);
    }
  }

  lemma NothingScannedFrom(s: Register)
    ensures ScanAll(s, []) == (s, -1)
  {
  }

  lemma DataEndsIdle(c: Chunk, n: nat)
    requires c.data != [] && SizeOf(c.digits, |c.data|)
    requires |SizeLine(c.digits)| <= n <= |SizeLine(c.digits)| + |c.data| + 2
    ensures Held(Run(true, Size([]), (SizeLine(c.digits) + c.data + "\r\n")[..n]).mode) == []
  {
    hide SizeLine;
    var line := SizeLine(c.digits);
    var k := n - |line|;
    var data := if k <= |c.data| then c.data[..k] else c.data;
    var end := "\r\n"[..if k <= |c.data| then 0 else k - |c.data|];
    assert (line + c.data + "\r\n")[..n] == line + (data + end);
    RunSizeLine(c.digits, data + end);
    RunData(true, |c.data|, [], data);
    RunAppend(true, Data(|c.data|, []), data, end);
    if |end| > 0 {
      assert end == "\r" || end == "\r\n";
      LineEndIsIdle(end);
    } else {
      RunEmpty(true, Run(true, Data(|c.data|, []), data).mode);
    }
  }

  lemma LineEndIsIdle(end: seq<char>)
    requires end == "\r" || end == "\r\n"
    ensures Run(true, Size([]), end).mode == Size([])
  {
    RunLineEnd([]);
    assert "\r\n" + [] == "\r\n" && "\r"[1..] == [];
  }

  /** What a chunked body that ends after n bytes leaves in the scanner. */
  lemma {:induction false} HeldAtBreak(chunks: seq<Chunk>, last: seq<char>, n: nat)
    requires WellFormed(chunks) && SizeOf(last, 0) && n <= |PrintBody(chunks, last)|
    ensures Held(Run(true, Size([]), PrintBody(chunks, last)[..n]).mode) == LeftInRegister(chunks, last, n)
    decreases |chunks|
  {
    hide Run, SizeOf, LineRegister;
    LinesReadable(chunks, last);
    var body := PrintBody(chunks, last);
    if chunks == [] {
      assert body == SizeLine(last);
      if n < |body| {
        RunLinePrefix(last, n);
      } else {
        LastLineEnds(last);
      }
    } else {
      var c, tail := chunks[0], PrintBody(chunks[1..], last);
      var line := SizeLine(c.digits);
      var size := |line| + |c.data| + 2;
      assert body == line + c.data + "\r\n" + tail;
      if n < |line| {
        assert body[..n] == line[..n];
        RunLinePrefix(c.digits, n);
      } else if n <= size {
        assert body[..n] == (line + c.data + "\r\n")[..n];
        DataEndsIdle(c, n);
      } else {
        assert body[..n] == line + c.data + "\r\n" + tail[..n - size];
        HeldAtBreak(chunks[1..], last, n - size);
        RunChunk(c, tail[..n - size]);
      }
    }
  }

  lemma LastLineEnds(last: seq<char>)
    requires SizeOf(last, 0)
    ensures Run(true, Size([]), SizeLine(last)[..|SizeLine(last)|]).mode == Done
    ensures LineRegister(last, |SizeLine(last)|) == []
  {
    RunSizeLine(last, []);
    var line := SizeLine(last);
    assert line[..|line|] == line == line + [];
  }

  lemma LineRegisterEmpty(digits: seq<char>, n: nat)
    ensures LineRegister(digits, n) == [] <==> !InsideLine(digits, n)
  {
  }

  lemma {:induction false} LeftIffBreaks(chunks: seq<Chunk>, last: seq<char>, n: nat)
    ensures LeftInRegister(chunks, last, n) != [] <==> BreaksInLine(chunks, last, n)
    decreases |chunks|
  {
    hide LineRegister, InsideLine;
    if chunks == [] {
      LineRegisterEmpty(last, n);
    } else {
      var head := |SizeLine(chunks[0].digits)|;
      var size := head + |chunks[0].data| + 2;
      LineRegisterEmpty(chunks[0].digits, n);
      if n > size {
        LeftIffBreaks(chunks[1..], last, n - size);
      }
    }
  }

  /** A body that ends after n bytes leaves the scanner dirty if and only if that is inside a size line. */
  lemma BreakLeavesRegister(chunks: seq<Chunk>, last: seq<char>, n: nat)
    requires WellFormed(chunks) && SizeOf(last, 0) && n <= |PrintBody(chunks, last)|
    ensures Held(Run(true, Size([]), PrintBody(chunks, last)[..n]).mode) != [] <==> BreaksInLine(chunks, last, n)
  {
    hide Run, PrintBody, WellFormed, SizeOf;
    HeldAtBreak(chunks, last, n);
    LeftIffBreaks(chunks, last, n);
  }

  // ------------------------------------------------------------------------------------------
  // What a dirty register does to the next body

  function Zeros(n: nat): (r: seq<char>)
    ensures |r| == n && AllHexDigits(r) && forall k :: 0 <= k < n ==> r[k] == '0'
  {
    seq(n, _ => '0')
  }

  /** A spelling of 1 that fills the register, with what it holds already, to the brim. */
  function FillingDigits(s: Register): seq<char> {
    Zeros(if |s| < LENGTH_CELLS - 1 then LENGTH_CELLS - 2 - |s| else 0) + "1"
  }

  lemma FillingIsOne(s: Register)
    requires s != []
    ensures SizeOf(FillingDigits(s), 1)
    ensures if |s| < LENGTH_CELLS - 1 then |s| + |FillingDigits(s)| == LENGTH_CELLS - 1 else |FillingDigits(s)| == 1
  {
    var zeros := Zeros(if |s| < LENGTH_CELLS - 1 then LENGTH_CELLS - 2 - |s| else 0);
    var digits := FillingDigits(s);
    HexZero(zeros);
    assert digits[..|digits| - 1] == zeros;
    assert HexDigitValue('1') == 1;
  }

  /** The line is lost: the register overflows on it. */
  lemma DirtyLosesLine(s: Register, rest: seq<char>)
    requires s != []
    ensures Run(true, Size(s), SizeLine(FillingDigits(s)) + rest) == Run(true, Size([]), rest)
  {
    hide Run, ScanAll, FillingDigits;
    var digits := FillingDigits(s);
    FillingIsOne(s);
    ScanDigits(s, digits, "\r\n");
    if |s| == LENGTH_CELLS {
      assert digits[LENGTH_CELLS + 1 - |s|..] == [] && [] + "\r\n" == "\r\n";
      FullLineEnd([]);
    } else {
      FullLineEnd(s + digits);
    }
    RunScan(s, SizeLine(digits));
    RunAppend(true, Size(s), SizeLine(digits), rest);
  }

  lemma FullLineEnd(s: Register)
    requires s == [] || |s| >= LENGTH_CELLS - 1
    ensures ScanAll(s, "\r\n") == ([], -1)
  {
    assert "\r\n"[1..] == "\n" && "\n"[1..] == [];
    var t := ScanNext(s, '\r');
    assert ScanAll(s, "\r\n") == ScanAll(t, "\n");
    assert ScanNext(t, '\n') == [];
  }

  function Victim(s: Register): seq<Chunk> {
    [Chunk(FillingDigits(s), "x")]
  }

  /** For every dirty register there is a well-formed body of which nothing is delivered. */
  lemma DirtyRegisterCorrupts(s: Register)
    requires s != []
    ensures WellFormed(Victim(s)) && SizeOf("0", 0) && Content(Victim(s)) == "x"
    ensures Run(true, Size(s), PrintBody(Victim(s), "0") + "\r\n").payload == []
    ensures Run(true, Size(s), PrintBody(Victim(s), "0") + "\r\n").mode.Done?
  {
    hide Run, FillingDigits, SizeLine;
    FillingIsOne(s);
    ZeroDigit();
    var c := Chunk(FillingDigits(s), "x");
    assert Victim(s)[1..] == [] && "x" + [] == "x";
    var tail := SizeLine("0") + "\r\n";
    assert PrintChunks(Victim(s)[1..]) == [];
    assert PrintChunks(Victim(s)) == SizeLine(c.digits) + "x" + "\r\n";
    assert PrintBody(Victim(s), "0") + "\r\n" == SizeLine(c.digits) + ("x" + ("\r\n" + tail));
    DirtyLosesLine(s, "x" + ("\r\n" + tail));
    SkipX("\r\n" + tail);
    RunLineEnd(tail);
    RunSizeLine("0", "\r\n");
  }

  lemma ZeroDigit()
    ensures SizeOf("0", 0) && HexValue("0") == 0
  {
    assert "0"[..0] == [];
  }

  lemma SkipX(rest: seq<char>)
    ensures Run(true, Size([]), "x" + rest) == Run(true, Size([]), rest)
  {
    assert ("x" + rest)[1..] == rest;
  }

  /** Every well-formed body is still read correctly if and only if the register is empty. */
  lemma RightIffIdle(s: Register)
    ensures s == [] <==>
            forall chunks: seq<Chunk>, last: seq<char> :: WellFormed(chunks) && SizeOf(last, 0) ==>
              Payload(true, Size(s), PrintBody(chunks, last) + "\r\n") == Content(chunks)
  {
    hide Run, WellFormed, SizeOf, PrintBody, Content, Victim;
    if s == [] {
      forall chunks: seq<Chunk>, last: seq<char> | WellFormed(chunks) && SizeOf(last, 0)
        ensures Payload(true, Size(s), PrintBody(chunks, last) + "\r\n") == Content(chunks)
      {
        ChunkedBodyDecodes(chunks, last, "\r\n");
      }
    } else {
      DirtyRegisterCorrupts(s);
      assert Payload(true, Size(s), PrintBody(Victim(s), "0") + "\r\n") != Content(Victim(s));
    }
  }

  /** A response that breaks off inside its first size line, and the chunk of 5 bytes after it that is
      read as one of 21. */
  lemma BrokenThenNext()
    ensures var broken := [Chunk("1", "x")];
            WellFormed(broken) && BreaksInLine(broken, "0", 1) &&
            LeftInRegister(broken, "0", 1) == "1" == Held(Run(true, Size([]), PrintBody(broken, "0")[..1]).mode) &&
            Run(true, Size("1"), "5\r\n") == Decoded(Data(21, []), [], [])
  {
    hide Run, PrintBody;
    var broken := [Chunk("1", "x")];
    OneDigit();
    ZeroDigit();
    assert |PrintBody(broken, "0")| >= 1 by {
      PrintedLength(broken, "0");
    }
    HeldAtBreak(broken, "0", 1);
    StaleRegisterCorrupts();
  }

  lemma PrintedLength(chunks: seq<Chunk>, last: seq<char>)
    ensures |PrintBody(chunks, last)| >= 2
  {
  }

  lemma OneDigit()
    ensures SizeOf("1", 1)
  {
    assert "1"[..0] == [] && HexDigitValue('1') == 1;
  }
}
