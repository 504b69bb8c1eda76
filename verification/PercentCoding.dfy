/** rh_urldecode, used in place: the text is decoded into the buffer it is read from. */
module PercentCoding {
  import opened CStrings
  import opened Numbers

  /** A percent sign followed by two hexadecimal digits. */
  predicate IsEscape(s: seq<char>) {
    |s| >= 3 && s[0] == '%' && IsHexDigit(s[1]) && IsHexDigit(s[2])
  }

  function Unescape(a: char, b: char): char
    requires IsHexDigit(a) && IsHexDigit(b)
  {
    (16 * HexDigitValue(a) + HexDigitValue(b)) as char
  }

  /** Decoding into a separate buffer. An escape of NUL puts a NUL into the middle of the text. */
  function Decode(s: seq<char>): (r: seq<char>)
    ensures |r| <= |s|
    decreases |s|
  {
    if s == [] then []
    else if IsEscape(s) then [Unescape(s[1], s[2])] + Decode(s[3..])
    else if s[0] == '+' then [' '] + Decode(s[1..])
    else [s[0]] + Decode(s[1..])
  }

  /** What a C caller sees afterwards. */
  function DecodeText(s: CString): (r: CString)
    ensures |r| <= |s|
  {
    CStr(Decode(s))
  }

  /** The arithmetic on characters that the code does for one digit. */
  method DigitOf(c: char) returns (d: int)
    requires IsHexDigit(c)
    ensures d == HexDigitValue(c)
  {
    var a := c as int;
    if a >= 'a' as int {
      a := a - ('a' as int - 'A' as int);
    }
    if a >= 'A' as int {
      a := a - ('A' as int - 10);
    } else {
      a := a - '0' as int;
    }
    return a;
  }

  /** The write index never passes the read index, so the unread text is intact at every step. */
  method UrlDecodeInPlace(data: array<char>)
    requires Terminated(data[..])
    modifies data
    ensures var decoded := Decode(CStr(old(data[..])));
            && |decoded| < data.Length && data[..|decoded|] == decoded && data[|decoded|] == '\0'
    ensures Terminated(data[..]) && CStr(data[..]) == DecodeText(CStr(old(data[..])))
    ensures forall k :: |CStr(old(data[..]))| < k < data.Length ==> data[k] == old(data[k])
  {
    hide Decode;
    ghost var text := CStr(data[..]);
    assert data[|text|] == data[..][|text|] == '\0';
    assert forall k :: 0 <= k < |text| ==> data[k] == data[..][k] == text[k];
    var dst := DecodeLoop(data, text);
    assert data[..][..dst] == data[..dst];
    TerminatedAt(data[..], dst);
  }

  /** The loop of rh_urldecode with both pointers at the same buffer. */
  method DecodeLoop(data: array<char>, ghost text: CString) returns (dst: nat)
    requires |text| < data.Length && data[|text|] == '\0'
    requires forall k :: 0 <= k < |text| ==> data[k] == text[k]
    modifies data
    ensures dst <= |text| && data[..dst] == Decode(text) && data[dst] == '\0'
    ensures forall k :: |text| < k < data.Length ==> data[k] == old(data[k])
  {
    hide Decode;
    ghost var n, done := |text|, [];
    var src := 0;
    dst := 0;
    assert text[0..] == text && [] + Decode(text) == Decode(text);
    while data[src] != '\0'
      invariant 0 <= dst <= src <= n && |done| == dst
      invariant forall k :: 0 <= k < dst ==> data[k] == done[k]
      invariant forall k :: src <= k < n ==> data[k] == text[k]
      invariant data[n] == '\0'
      invariant forall k :: n < k < data.Length ==> data[k] == old(data[k])
      invariant Decode(text) == done + Decode(text[src..])
      decreases n - src
    {
      DecodeStep(text, src, done);
      if data[src] == '%' && data[src + 1] != '\0' && data[src + 2] != '\0'
         && IsHexDigit(data[src + 1]) && IsHexDigit(data[src + 2]) {
        var a := DigitOf(data[src + 1]);
        var b := DigitOf(data[src + 2]);
        data[dst] := (16 * a + b) as char;
        src := src + 3;
      } else if data[src] == '+' {
        data[dst] := ' ';
        src := src + 1;
      } else {
        data[dst] := data[src];
        src := src + 1;
      }
      done := done + [data[dst]];
      dst := dst + 1;
    }
    DecodeNothing();
    assert text[src..] == [] && done + [] == done;
    data[dst] := '\0';
  }

  lemma DecodeNothing()
    ensures Decode([]) == []
  {
  }

  /** One turn of the loop. */
  lemma DecodeStep(text: seq<char>, i: nat, done: seq<char>)
    requires i < |text|
    ensures var s := text[i..];
            var c := if IsEscape(s) then Unescape(s[1], s[2]) else if s[0] == '+' then ' ' else s[0];
            done + Decode(s) == (done + [c]) + Decode(text[i + if IsEscape(s) then 3 else 1..])
    ensures IsEscape(text[i..]) <==> i + 2 < |text| && text[i] == '%' && IsHexDigit(text[i + 1]) && IsHexDigit(text[i + 2])
  {
    var s := text[i..];
    assert s[1..] == text[i + 1..] && (|s| >= 3 ==> s[3..] == text[i + 3..]);
    var c := if IsEscape(s) then Unescape(s[1], s[2]) else if s[0] == '+' then ' ' else s[0];
    var rest := Decode(text[i + if IsEscape(s) then 3 else 1..]);
    assert Decode(s) == [c] + rest;
    assert done + ([c] + rest) == (done + [c]) + rest;
  }

  // ------------------------------------------------------------------------------------------
  // Round trip

  /** e is an encoding of s: each character is kept (unless it is `%` or `+`), written as an escape in
      either case, or, for a space, written as `+`. Every form encoder is an instance. */
  ghost predicate Encodes(e: seq<char>, s: seq<char>)
    decreases |s|
  {
    if s == [] then e == []
    else
      || (e != [] && e[0] == s[0] && e[0] != '%' && e[0] != '+' && Encodes(e[1..], s[1..]))
      || (e != [] && e[0] == '+' && s[0] == ' ' && Encodes(e[1..], s[1..]))
      || (IsEscape(e) && Unescape(e[1], e[2]) == s[0] && Encodes(e[3..], s[1..]))
  }

  /** A percent sign and two digits, each in either case, stand for the character of that code. */
  lemma EscapeDecodes(a: nat, b: nat, high: CString, low: CString, rest: seq<char>)
    requires a < 16 && b < 16
    requires high == UPPER_HEX || high == LOWER_HEX
    requires low == UPPER_HEX || low == LOWER_HEX
    ensures |high| == |low| == 16
    ensures Decode(['%', high[a], low[b]] + rest) == [(16 * a + b) as char] + Decode(rest)
  {
    hide UPPER_HEX, LOWER_HEX, IsHexDigit, HexDigitValue;
    HexDigitMeaning(' ');
    var s := ['%', high[a], low[b]] + rest;
    assert s[3..] == rest;
  }

  /** Every other percent sign is kept. */
  lemma OtherPercentIsKept(s: seq<char>)
    requires |s| < 2 || !(s[0] in UPPER_HEX || s[0] in LOWER_HEX) || !(s[1] in UPPER_HEX || s[1] in LOWER_HEX)
    ensures Decode(['%'] + s) == ['%'] + Decode(s)
  {
    hide UPPER_HEX, LOWER_HEX, IsHexDigit;
    assert (['%'] + s)[1..] == s;
    if |s| >= 2 {
      HexDigitMeaning(s[0]);
      HexDigitMeaning(s[1]);
    }
  }

  /** Decoding undoes every encoder. */
  lemma {:induction false} DecodeUndoesEncode(e: seq<char>, s: seq<char>)
    requires Encodes(e, s)
    ensures Decode(e) == s
    decreases |s|
  {
    if s != [] {
      if IsEscape(e) && Unescape(e[1], e[2]) == s[0] && Encodes(e[3..], s[1..]) {
        DecodeUndoesEncode(e[3..], s[1..]);
      } else {
        DecodeUndoesEncode(e[1..], s[1..]);
      }
      assert s == [s[0]] + s[1..];
    }
  }

  /** The usual encoder: what `keep` lets through stays, spaces become `+`, the rest is escaped. */
  function Encode(s: seq<char>, keep: char -> bool): seq<char>
    requires forall k :: 0 <= k < |s| ==> s[k] as int < 256
  {
    if s == [] then []
    else
      var c := s[0];
      (if c == ' ' then "+"
       else if keep(c) && c != '%' && c != '+' then [c]
       else ['%', UPPER_HEX[c as int / 16], UPPER_HEX[c as int % 16]])
      + Encode(s[1..], keep)
  }

  lemma {:induction false} EncodeEncodes(s: seq<char>, keep: char -> bool)
    requires forall k :: 0 <= k < |s| ==> s[k] as int < 256
    ensures Encodes(Encode(s, keep), s)
    ensures Decode(Encode(s, keep)) == s
    decreases |s|
  {
    hide Decode, HexDigitValue, UPPER_HEX, LOWER_HEX, IsHexDigit;
    HexDigitMeaning(' ');
    var e := Encode(s, keep);
    if s != [] {
      var c, tail := s[0], Encode(s[1..], keep);
      EncodeEncodes(s[1..], keep);
      var x, y := UPPER_HEX[c as int / 16], UPPER_HEX[c as int % 16];
      if c == ' ' || (keep(c) && c != '%' && c != '+') {
        assert e[1..] == tail;
      } else {
        assert e[3..] == tail && e[1] == x && e[2] == y;
      }
    }
    DecodeUndoesEncode(e, s);
  }

  /** A stray percent sign is kept, so decoding is total but not injective. */
  lemma StrayPercent()
    ensures Decode("%zz") == "%zz" == Decode("%25zz")
  {
    var s, t := "%zz", "%25zz";
    assert s[1..] == "zz" && "zz"[1..] == "z" && "z"[1..] == "";
    assert t[3..] == "zz";
  }
}
