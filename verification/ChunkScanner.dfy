/** get_chunk_size: the automaton that reads one chunk-size line a byte at a time. Its static
    variables `i` and `length` are the fields of the one scanner that every connection shares. */
module ChunkScanner {
  import opened CStrings
  import opened Numbers

  const LENGTH_CELLS := 32

  /** The bytes held in length[0..i]: digits, and a NUL for each carriage return. */
  type Register = s: seq<char> | |s| <= LENGTH_CELLS

  function ScanNext(s: Register, c: char): Register {
    if |s| == LENGTH_CELLS then []
    else if IsHexDigit(c) then s + [c]
    else if c == '\r' then if s == [] then [] else s + ['\0']
    else if c == '\n' then []
    else s
  }

  /** The value returned for byte c: a chunk size when c ends a size line, -1 otherwise. */
  function ScanValue(s: Register, c: char): (r: int)
    ensures -1 <= r <= INT64_MAX
    ensures r != -1 ==> ScanNext(s, c) == []
  {
    if |s| == LENGTH_CELLS || c != '\n' || s == [] then -1
    else
      var len := HexToUint64(CStr(s));
      if len > INT64_MAX then -1 else len
  }

  class Scanner {
    var i: nat
    const length: array<char>

    ghost predicate Valid()
      reads this
    {
      length.Length == LENGTH_CELLS && i <= LENGTH_CELLS
    }

    ghost function Contents(): Register
      requires Valid()
      reads this, length
    {
      length[..i]
    }

    constructor ()
      ensures Valid() && Contents() == [] && fresh(length)
    {
      i := 0;
      length := new char[LENGTH_CELLS];
    }

    method GetChunkSize(c: char) returns (size: int)
      requires Valid()
      modifies this, length
      ensures Valid()
      ensures Contents() == ScanNext(old(Contents()), c)
      ensures size == ScanValue(old(Contents()), c)
    {
      if i >= 32 {
        i := 0;
        return -1;
      }
      if IsHexDigit(c) {
        length[i] := c;
        i := i + 1;
      } else if c == '\r' {
        if i == 0 {
          return -1;
        }
        length[i] := '\0';
        i := i + 1;
      } else if c == '\n' && i != 0 {
        length[i] := '\0';
        ghost var s := length[..i];
        TerminatedAt(length[..], i);
        assert length[..][..i] == s;
        i := 0;
        var len := ReadHexUint64(length[..]);
        if len > INT64_MAX {
          return -1;
        }
        return len;
      }
      return -1;
    }
  }

  // ------------------------------------------------------------------------------------------
  // Which size lines are read with their value

  /** Feeding a whole text: the register afterwards, and the first size returned (-1 if none). */
  function ScanAll(s: Register, text: seq<char>): (Register, int)
    decreases |text|
  {
    if text == [] then (s, -1)
    else if ScanValue(s, text[0]) != -1 then ([], ScanValue(s, text[0]))
    else ScanAll(ScanNext(s, text[0]), text[1..])
  }

  /** Digits fill the register, and the byte after 32 of them empties it again. */
  lemma {:induction false} ScanDigits(s: Register, digits: seq<char>, rest: seq<char>)
    requires AllHexDigits(digits)
    ensures |s| + |digits| <= LENGTH_CELLS ==> ScanAll(s, digits + rest) == ScanAll(s + digits, rest)
    ensures |s| + |digits| > LENGTH_CELLS ==>
              ScanAll(s, digits + rest) == ScanAll([], digits[LENGTH_CELLS + 1 - |s|..] + rest)
    decreases |digits|
  {
    if digits == [] {
      assert digits + rest == rest && s + digits == s;
    } else {
      var c, tail := digits[0], digits[1..];
      assert (digits + rest)[1..] == tail + rest;
      if |s| == LENGTH_CELLS {
        assert digits[1..] == tail;
      } else {
        ScanDigits(s + [c], tail, rest);
        assert (s + [c]) + tail == s + digits;
        assert |s| + |digits| > LENGTH_CELLS ==>
          tail[LENGTH_CELLS - |s|..] == digits[LENGTH_CELLS + 1 - |s|..];
      }
    }
  }

  lemma ScanLineEnd(s: Register, rest: seq<char>)
    requires AllHexDigits(s)
    ensures 1 <= |s| <= 30 && HexValue(s) % TWO_64 <= INT64_MAX ==>
              ScanAll(s, "\r\n" + rest) == ([], HexValue(s) % TWO_64)
    ensures !(1 <= |s| <= 30 && HexValue(s) % TWO_64 <= INT64_MAX) ==>
              ScanAll(s, "\r\n" + rest) == ScanAll([], rest)
  {
    var t := "\r\n" + rest;
    assert t[1..] == ['\n'] + rest && t[1..][1..] == rest;
    var s' := ScanNext(s, '\r');
    assert ScanAll(s, t) == ScanAll(s', t[1..]);
    if 1 <= |s| < LENGTH_CELLS {
      assert s' == s + ['\0'];
      assert s'[..|s|] == s;
      CStrUnique(s', |s|);
      assert CStr(s') == s;
    }
    assert ScanNext(s', '\n') == [];
  }

  /** A size line: hexadecimal digits and CR LF. */
  function SizeLine(digits: seq<char>): seq<char> {
    digits + "\r\n"
  }

  /** The size an idle scanner returns on the line: only the digits since the last time the
      register overflowed, and only if they number at most 30 and fit 63 bits. */
  function SizeRead(digits: seq<char>): int
    requires AllHexDigits(digits)
    decreases |digits|
  {
    if |digits| > LENGTH_CELLS then SizeRead(digits[LENGTH_CELLS + 1..])
    else if 1 <= |digits| <= 30 && HexValue(digits) % TWO_64 <= INT64_MAX
    then HexValue(digits) % TWO_64
    else -1
  }

  lemma {:induction false} ScanSizeLine(digits: seq<char>)
    requires AllHexDigits(digits)
    ensures ScanAll([], SizeLine(digits)) == ([], SizeRead(digits))
    decreases |digits|
  {
    ScanDigits([], digits, "\r\n");
    if |digits| > LENGTH_CELLS {
      ScanSizeLine(digits[LENGTH_CELLS + 1..]);
    } else {
      assert [] + digits == digits && "\r\n" + [] == "\r\n";
      ScanLineEnd(digits, []);
    }
  }

  /** The condition, on the digits alone, under which the line is read with its value: what lies
      before the last register overflow is all zeros, and the rest has 1 to 30 digits below 2^63. */
  predicate Readable(digits: seq<char>)
    requires AllHexDigits(digits)
    decreases |digits|
  {
    if |digits| > LENGTH_CELLS
    then (forall k :: 0 <= k <= LENGTH_CELLS ==> digits[k] == '0') && Readable(digits[LENGTH_CELLS + 1..])
    else 1 <= |digits| <= 30 && HexValue(digits) <= INT64_MAX
  }

  function Pow16(k: nat): nat {
    if k == 0 then 1 else 16 * Pow16(k - 1)
  }

  lemma {:induction false} HexSplit(a: seq<char>, b: seq<char>)
    requires AllHexDigits(a) && AllHexDigits(b)
    ensures AllHexDigits(a + b) && HexValue(a + b) == HexValue(a) * Pow16(|b|) + HexValue(b)
    decreases |b|
  {
    if b == [] {
      assert a + b == a;
    } else {
      var t, ab := b[..|b| - 1], a + b;
      HexSplit(a, t);
      assert ab[..|ab| - 1] == a + t && ab[|ab| - 1] == b[|b| - 1];
      assert forall k :: 0 <= k < |ab| ==> ab[k] == if k < |a| then a[k] else b[k - |a|];
      TimesSixteen(HexValue(a), Pow16(|t|), HexValue(t), HexDigitValue(b[|b| - 1]));
    }
  }

  lemma TimesSixteen(x: nat, p: nat, y: nat, d: nat)
    ensures (x * p + y) * 16 + d == x * (16 * p) + (y * 16 + d)
  {
    assert (x * p) * 16 == x * (16 * p);
  }

  lemma {:induction false} HexBound(s: seq<char>)
    requires AllHexDigits(s)
    ensures HexValue(s) < Pow16(|s|)
    decreases |s|
  {
    if s != [] {
      HexBound(s[..|s| - 1]);
    }
  }

  lemma {:induction false} HexZero(s: seq<char>)
    requires AllHexDigits(s)
    ensures HexValue(s) == 0 <==> forall k :: 0 <= k < |s| ==> s[k] == '0'
    decreases |s|
  {
    if s != [] {
      HexZero(s[..|s| - 1]);
      assert HexDigitValue(s[|s| - 1]) == 0 <==> s[|s| - 1] == '0';
    }
  }

  lemma {:induction false} SizeReadBound(digits: seq<char>)
    requires AllHexDigits(digits)
    ensures SizeRead(digits) <= HexValue(digits)
    ensures |digits| > LENGTH_CELLS ==>
              (SizeRead(digits) == HexValue(digits) <==>
                 HexValue(digits[..LENGTH_CELLS + 1]) == 0 &&
                 SizeRead(digits[LENGTH_CELLS + 1..]) == HexValue(digits[LENGTH_CELLS + 1..]))
    decreases |digits|
  {
    if |digits| > LENGTH_CELLS {
      var a, b := digits[..LENGTH_CELLS + 1], digits[LENGTH_CELLS + 1..];
      assert digits == a + b;
      HexSplit(a, b);
      SizeReadBound(b);
      HexBound(b);
      Product(HexValue(a), Pow16(|b|));
    }
  }

  lemma Product(x: nat, p: nat)
    requires p > 0
    ensures x * p >= 0 && (x > 0 ==> x * p >= p) && (x == 0 ==> x * p == 0)
  {
    if x > 0 {
      assert x * p == (x - 1) * p + p;
    }
  }

  /** The exact reach of the size reader: a line means its value if and only if it is Readable.
      RFC 9112 section 7.1 puts no bound on the number of digits. */
  lemma {:induction false} SizeReadExact(digits: seq<char>)
    requires AllHexDigits(digits)
    ensures SizeRead(digits) == HexValue(digits) <==> Readable(digits)
    decreases |digits|
  {
    SizeReadBound(digits);
    if |digits| > LENGTH_CELLS {
      var a, b := digits[..LENGTH_CELLS + 1], digits[LENGTH_CELLS + 1..];
      HexZero(a);
      SizeReadExact(b);
    }
  }

  lemma {:induction false} HexLength(n: nat, alphabet: CString, k: nat)
    requires |alphabet| == 16 && k >= 1 && n < Pow16(k)
    ensures |Hex(n, alphabet)| <= k
    decreases k
  {
    if n >= 16 {
      assert Pow16(k) == 16 * Pow16(k - 1);
      HexLength(n / 16, alphabet, k - 1);
    }
  }

  lemma Hex64(n: nat, alphabet: CString)
    requires |alphabet| == 16 && n < 0x1_0000_0000_0000_0000
    ensures |Hex(n, alphabet)| <= 16
  {
    assert Pow16(4) == 0x1_0000 by {
      assert Pow16(4) == 16 * (16 * (16 * (16 * Pow16(0))));
    }
    assert Pow16(8) == 16 * (16 * (16 * (16 * Pow16(4))));
    assert Pow16(12) == 16 * (16 * (16 * (16 * Pow16(8))));
    assert Pow16(16) == 16 * (16 * (16 * (16 * Pow16(12))));
    HexLength(n, alphabet, 16);
  }

  /** A printed 64-bit size is read, in either alphabet, if and only if it is below 2^63. */
  lemma PrintedSizeIsRead(n: nat, alphabet: CString)
    requires alphabet == UPPER_HEX || alphabet == LOWER_HEX
    requires n < 18446744073709551616
    ensures |alphabet| == 16 && AllHexDigits(Hex(n, alphabet))
    ensures SizeRead(Hex(n, alphabet)) == if n < 9223372036854775808 then n else -1
    ensures Readable(Hex(n, alphabet)) <==> n < 9223372036854775808
  {
    hide HexValue, Hex, UPPER_HEX, LOWER_HEX;
    HexReadsBack(n, alphabet);
    Hex64(n, alphabet);
  }

  lemma {:induction false} HexStart(n: nat, alphabet: CString)
    requires alphabet == UPPER_HEX || alphabet == LOWER_HEX
    requires n > 0
    ensures |alphabet| == 16 && Hex(n, alphabet)[0] != '0'
  {
    if n >= 16 {
      HexStart(n / 16, alphabet);
    } else {
      HexReadsBack(n, alphabet);
    }
  }

  function Padding(n: nat): (s: seq<char>)
    ensures |s| == n && AllHexDigits(s) && forall k :: 0 <= k < n ==> s[k] == '0'
  {
    seq(n, _ => '0')
  }

  /** A size below 2^63 with z zeros before it is read if and only if the line, cut into pieces of 33 digits,
      ends with a piece of at most 30 that holds all digits of the size. */
  lemma {:induction false} PaddedSizeIff(z: nat, n: nat, alphabet: CString)
    requires alphabet == UPPER_HEX || alphabet == LOWER_HEX
    requires n < 9223372036854775808
    ensures |alphabet| == 16 && AllHexDigits(Padding(z) + Hex(n, alphabet))
    ensures SizeRead(Padding(z) + Hex(n, alphabet)) == n <==>
            |Hex(n, alphabet)| <= (z + |Hex(n, alphabet)|) % 33 <= 30
    decreases z
  {
    hide HexValue, Hex, UPPER_HEX, LOWER_HEX, Readable, SizeRead;
    PaddedSize(z, n, alphabet);
    var h := Hex(n, alphabet);
    if z >= 33 {
      PaddedSizeIff(z - 33, n, alphabet);
      PaddedSize(z - 33, n, alphabet);
      PaddingSplits(z, h);
      ReadableBehind(Padding(33), Padding(z - 33) + h);
    } else if z + |h| <= 32 {
      ReadableShort(Padding(z) + h);
    } else if n > 0 {
      HexStart(n, alphabet);
      assert (Padding(z) + h)[z] == h[0];
      NotReadable(Padding(z) + h, z);
    } else {
      HexOfZero(alphabet);
      assert Padding(z) + h + [] == Padding(z) + h;
      ReadableBehind(Padding(z) + h, []);
      ReadableShort([]);
    }
  }

  lemma PaddedSize(z: nat, n: nat, alphabet: CString)
    requires alphabet == UPPER_HEX || alphabet == LOWER_HEX
    requires n < 9223372036854775808
    ensures |alphabet| == 16 && |Hex(n, alphabet)| <= 16
    ensures var line := Padding(z) + Hex(n, alphabet);
            AllHexDigits(line) && HexValue(line) == n && (SizeRead(line) == n <==> Readable(line))
  {
    hide HexValue, Hex, UPPER_HEX, LOWER_HEX, Readable, SizeRead, AllHexDigits;
    HexReadsBack(n, alphabet);
    Hex64(n, alphabet);
    var h := Hex(n, alphabet);
    HexZero(Padding(z));
    HexSplit(Padding(z), h);
    HexBound(h);
    Product(0, Pow16(|h|));
    SizeReadExact(Padding(z) + h);
  }

  lemma PaddingSplits(z: nat, h: seq<char>)
    requires z >= 33
    ensures Padding(z) + h == Padding(33) + (Padding(z - 33) + h)
  {
  }

  lemma HexOfZero(alphabet: CString)
    requires |alphabet| == 16
    ensures |Hex(0, alphabet)| == 1
  {
  }

  lemma ReadableShort(digits: seq<char>)
    requires AllHexDigits(digits) && |digits| <= 32
    ensures Readable(digits) <==> 1 <= |digits| <= 30 && HexValue(digits) <= INT64_MAX
  {
  }

  lemma NotReadable(digits: seq<char>, k: nat)
    requires AllHexDigits(digits) && k <= 32 < |digits| && digits[k] != '0'
    ensures !Readable(digits)
  {
  }

  lemma ReadableBehind(front: seq<char>, digits: seq<char>)
    requires AllHexDigits(front) && AllHexDigits(digits) && AllHexDigits(front + digits) && |front| == 33
    ensures Readable(front + digits) <==> (forall k :: 0 <= k < 33 ==> front[k] == '0') && Readable(digits)
  {
    assert (front + digits)[33..] == digits;
    assert forall k :: 0 <= k < 33 ==> (front + digits)[k] == front[k];
  }

  // ------------------------------------------------------------------------------------------
  // Chunk extensions

  /** The hexadecimal digits of a text, in order. */
  function HexDigitsOf(text: seq<char>): (r: seq<char>)
    ensures AllHexDigits(r) && |r| <= |text|
  {
    if text == [] then []
    else if IsHexDigit(text[0]) then [text[0]] + HexDigitsOf(text[1..]) else HexDigitsOf(text[1..])
  }

  /** The scanner skips every other character of a line, as long as its register has room. */
  lemma {:induction false} ScanSkips(s: Register, text: seq<char>, rest: seq<char>)
    requires '\r' !in text && '\n' !in text && |s| + |HexDigitsOf(text)| < LENGTH_CELLS
    ensures ScanAll(s, text + rest) == ScanAll(s + HexDigitsOf(text), rest)
    decreases |text|
  {
    if text == [] {
      assert text + rest == rest && s + [] == s;
    } else {
      assert (text + rest)[1..] == text[1..] + rest;
      if IsHexDigit(text[0]) {
        assert (s + [text[0]]) + HexDigitsOf(text[1..]) == s + HexDigitsOf(text);
        ScanSkips(s + [text[0]], text[1..], rest);
      } else {
        ScanSkips(s, text[1..], rest);
      }
    }
  }

  /** A line whose digits number at most 15, an extension's letters included: the letters a to f of the
      extension are read as digits, so the size is right if and only if there are none, or all is zero. */
  lemma ExtensionIff(digits: seq<char>, extension: seq<char>)
    requires AllHexDigits(digits) && digits != [] && '\r' !in extension && '\n' !in extension
    requires |digits| + |HexDigitsOf(extension)| <= 15
    ensures var more := HexDigitsOf(extension);
            && AllHexDigits(digits + more)
            && ScanAll([], (digits + extension) + "\r\n") == ([], HexValue(digits + more))
            && (HexValue(digits + more) == HexValue(digits) <==>
                  more == [] || (HexValue(digits) == 0 && HexValue(more) == 0))
  {
    hide HexValue, ScanAll, HexDigitsOf, AllHexDigits;
    var more := HexDigitsOf(extension);
    var all := digits + more;
    var end := "\r\n";
    assert (digits + extension) + end == digits + (extension + end);
    ScanDigits([], digits, extension + end);
    assert [] + digits == digits && end + [] == end;
    ScanSkips(digits, extension, end);
    HexSplit(digits, more);
    Bound15(all);
    ScanLineEnd(all, []);
    NothingLeft();
    HexBound(more);
    Grows(HexValue(digits), HexValue(more), |more|);
  }

  /** So an extension changes the size: 5 with the extension `a` is read as 90. */
  lemma ExtensionJoinsSize()
    ensures ScanAll([], ("5" + ";a") + "\r\n") == ([], 90)
  {
    hide ScanAll, HexValue;
    assert HexDigitsOf(";a") == "a" by {
      assert ";a"[1..] == "a" && "a"[1..] == "";
    }
    ExtensionIff("5", ";a");
    FiveA();
  }

  lemma FiveA()
    ensures AllHexDigits("5" + "a") && HexValue("5" + "a") == 90
  {
    assert ("5" + "a")[..1] == "5" && "5"[..0] == "";
    assert HexValue("5") == 5;
  }

  lemma NothingLeft()
    ensures ScanAll([], []) == ([], -1)
  {
  }

  lemma Bound15(s: seq<char>)
    requires AllHexDigits(s) && |s| <= 15
    ensures HexValue(s) <= INT64_MAX && HexValue(s) < TWO_64
  {
    hide HexValue;
    HexBound(s);
    Pow16Grows(|s|, 15);
    assert Pow16(5) == 16 * (16 * (16 * (16 * (16 * Pow16(0)))));
    assert Pow16(10) == 16 * (16 * (16 * (16 * (16 * Pow16(5)))));
    assert Pow16(15) == 16 * (16 * (16 * (16 * (16 * Pow16(10)))));
  }

  lemma {:induction false} Pow16Grows(a: nat, b: nat)
    requires a <= b
    ensures 1 <= Pow16(a) <= Pow16(b)
    decreases b
  {
    if b > 0 {
      Pow16Grows(if a == 0 then 0 else a - 1, b - 1);
    }
  }

  lemma Grows(v: nat, w: nat, k: nat)
    requires w < Pow16(k)
    ensures v * Pow16(k) + w == v <==> k == 0 || (v == 0 && w == 0)
  {
    if k > 0 {
      Pow16Grows(0, k - 1);
      var p := Pow16(k);
      hide Pow16;
      TimesGrows(v, p);
    }
  }

  lemma TimesGrows(v: nat, p: nat)
    requires p >= 2
    ensures v > 0 ==> v * p > v
    ensures v == 0 ==> v * p == 0
  {
    Product(v, p - 1);
    assert v * p == v * (p - 1) + v;
  }

  /** A line the reader gets wrong: 31 digits of the value 1. */
  lemma LongLineIsLost()
    ensures var digits := seq(30, _ => '0') + "1";
            AllHexDigits(digits) && HexValue(digits) > SizeRead(digits) == -1
  {
    var zeros := seq(30, _ => '0');
    HexZero(zeros);
    var digits := zeros + "1";
    assert digits[..|digits| - 1] == zeros;
  }
}
