/** The number readers and the number printer of strings.c, on 64-bit unsigned arithmetic. */
module Numbers {
  import opened CStrings

  const TWO_64 := 0x1_0000_0000_0000_0000
  const UINT64_MAX := 0xFFFF_FFFF_FFFF_FFFF
  const INT64_MAX := 0x7FFF_FFFF_FFFF_FFFF

  predicate AllDigits(s: seq<char>) {
    forall k :: 0 <= k < |s| ==> IsDigit(s[k])
  }

  predicate AllHexDigits(s: seq<char>) {
    forall k :: 0 <= k < |s| ==> IsHexDigit(s[k])
  }

  function DigitValue(c: char): nat
    requires IsDigit(c)
  {
    c as int - '0' as int
  }

  function HexDigitValue(c: char): nat
    requires IsHexDigit(c)
  {
    if 'A' <= c <= 'F' then 10 + c as int - 'A' as int
    else if 'a' <= c <= 'f' then 10 + c as int - 'a' as int
    else c as int - '0' as int
  }

  /** Positional value, without any bound on the width. */
  function DecimalValue(s: seq<char>): nat
    requires AllDigits(s)
  {
    if s == [] then 0
    else DecimalValue(s[..|s| - 1]) * 10 + DigitValue(s[|s| - 1])
  }

  function HexValue(s: seq<char>): nat
    requires AllHexDigits(s)
  {
    if s == [] then 0 else HexValue(s[..|s| - 1]) * 16 + HexDigitValue(s[|s| - 1])
  }

  /** What rh_str_to_uint64 means: the positional value modulo 2^64, or UINT64_MAX. */
  function StrToUint64(s: CString): nat {
    if s == [] || !AllDigits(s) then UINT64_MAX else DecimalValue(s) % TWO_64
  }

  function HexToUint64(s: CString): nat {
    if s == [] || !AllHexDigits(s) then UINT64_MAX else HexValue(s) % TWO_64
  }

  // ------------------------------------------------------------------------------------------
  // Digits as written

  const DIGITS: CString := "0123456789"
  const UPPER_HEX: CString := "0123456789ABCDEF"
  const LOWER_HEX: CString := "0123456789abcdef"

  lemma DigitMeaning(c: char)
    ensures |DIGITS| == 10 && (IsDigit(c) <==> c in DIGITS)
    ensures forall d :: 0 <= d < 10 ==> DigitValue(DIGITS[d]) == d && DigitChar(d) == DIGITS[d]
  {
    assert forall d :: 0 <= d < 10 ==> DIGITS[d] as int == 48 + d;
    hide DIGITS;
    if IsDigit(c) {
      assert DIGITS[c as int - 48] == c;
    }
  }

  lemma HexDigitMeaning(c: char)
    ensures |UPPER_HEX| == |LOWER_HEX| == 16
    ensures IsHexDigit(c) <==> c in UPPER_HEX || c in LOWER_HEX
    ensures forall d :: 0 <= d < 16 ==> IsHexDigit(UPPER_HEX[d]) && IsHexDigit(LOWER_HEX[d])
    ensures forall d :: 0 <= d < 16 ==> HexDigitValue(UPPER_HEX[d]) == HexDigitValue(LOWER_HEX[d]) == d
  {
    assert forall d :: 0 <= d < 16 ==> UPPER_HEX[d] as int == if d < 10 then 48 + d else 55 + d;
    assert forall d :: 0 <= d < 16 ==> LOWER_HEX[d] as int == if d < 10 then 48 + d else 87 + d;
    hide UPPER_HEX, LOWER_HEX;
    if 'A' <= c <= 'F' {
      assert UPPER_HEX[c as int - 55] == c;
    } else if 'a' <= c <= 'f' {
      assert LOWER_HEX[c as int - 87] == c;
    } else if IsDigit(c) {
      assert UPPER_HEX[c as int - 48] == c;
    }
  }

  /** A number written with these sixteen digits. */
  function Hex(n: nat, alphabet: CString): (s: CString)
    requires |alphabet| == 16
    ensures s != []
  {
    if n < 16 then [alphabet[n]] else Hex(n / 16, alphabet) + [alphabet[n % 16]]
  }

  /** Either way of writing the digits is read back, whatever the number. */
  lemma {:induction false} HexReadsBack(n: nat, alphabet: CString)
    requires alphabet == UPPER_HEX || alphabet == LOWER_HEX
    ensures |alphabet| == 16
    ensures AllHexDigits(Hex(n, alphabet)) && HexValue(Hex(n, alphabet)) == n
    ensures HexToUint64(Hex(n, alphabet)) == n % 18446744073709551616
  {
    hide UPPER_HEX, LOWER_HEX, IsHexDigit;
    HexDigitMeaning(' ');
    var s := Hex(n, alphabet);
    if n < 16 {
      assert s[..0] == [];
    } else {
      HexReadsBack(n / 16, alphabet);
      assert s[..|s| - 1] == Hex(n / 16, alphabet);
    }
  }

  /** At most n leading digits. */
  function LeadingDigits(s: CString, n: nat): (r: CString)
    ensures |r| <= n && |r| <= |s| && r == s[..|r|] && AllDigits(r)
  {
    if n == 0 || s == [] || !IsDigit(s[0]) then [] else [s[0]] + LeadingDigits(s[1..], n - 1)
  }

  lemma {:induction false} LeadingDigitsAre(s: CString, n: nat, l: nat)
    requires l <= n && l <= |s| && AllDigits(s[..l])
    requires l == n || l == |s| || !IsDigit(s[l])
    ensures LeadingDigits(s, n) == s[..l]
    decreases n
  {
    if l > 0 {
      assert s[..l][0] == s[0] && s[..l][1..] == s[1..][..l - 1];
      LeadingDigitsAre(s[1..], n - 1, l - 1);
      assert s[..l] == [s[0]] + s[1..][..l - 1];
    }
  }

  /** One accumulation step with wrap-around equals the exact step reduced once. */
  lemma WrapStep(x: nat, base: nat, d: nat)
    ensures ((x % TWO_64) * base % TWO_64 + d) % TWO_64 == (x * base + d) % TWO_64
  {
    var q, r := x / TWO_64, x % TWO_64;
    assert x == q * TWO_64 + r;
    var q', r' := (r * base) / TWO_64, (r * base) % TWO_64;
    assert r * base == q' * TWO_64 + r';
    assert x * base + d == (q * base + q') * TWO_64 + (r' + d) by {
      assert x * base == (q * TWO_64) * base + r * base;
      assert (q * TWO_64) * base == (q * base) * TWO_64;
    }
    ModShift(r' + d, q * base + q');
  }

  lemma ModShift(r: nat, q: nat)
    ensures (q * TWO_64 + r) % TWO_64 == r % TWO_64
    decreases q
  {
    if q > 0 {
      ModShift(r, q - 1);
      assert (q * TWO_64 + r) == ((q - 1) * TWO_64 + r) + TWO_64;
    }
  }

  lemma DecimalAppend(s: seq<char>, k: nat)
    requires k < |s| && AllDigits(s[..k]) && IsDigit(s[k])
    ensures AllDigits(s[..k + 1])
    ensures ((DecimalValue(s[..k]) % TWO_64) * 10 % TWO_64 + DigitValue(s[k])) % TWO_64
         == DecimalValue(s[..k + 1]) % TWO_64
  {
    assert s[..k + 1][..k] == s[..k];
    assert forall i :: 0 <= i < k ==> s[..k + 1][i] == s[..k][i];
    WrapStep(DecimalValue(s[..k]), 10, DigitValue(s[k]));
  }

  lemma HexAppend(s: seq<char>, k: nat)
    requires k < |s| && AllHexDigits(s[..k]) && IsHexDigit(s[k])
    ensures AllHexDigits(s[..k + 1])
    ensures ((HexValue(s[..k]) % TWO_64) * 16 % TWO_64 + HexDigitValue(s[k])) % TWO_64
         == HexValue(s[..k + 1]) % TWO_64
  {
    assert s[..k + 1][..k] == s[..k];
    assert forall i :: 0 <= i < k ==> s[..k + 1][i] == s[..k][i];
    WrapStep(HexValue(s[..k]), 16, HexDigitValue(s[k]));
  }

  method ReadUint64(str: seq<char>) returns (result: nat)
    ensures result == StrToUint64(CStr(str))
    ensures result < 18446744073709551616
    ensures CStr(str) == [] || !AllDigits(CStr(str)) ==> result == 18446744073709551615
  {
    result := 0;
    var k := 0;
    ghost var s := CStr(str);
    while true
      invariant k <= |s| && (k > 0 ==> k < |s|)
      invariant AllDigits(s[..k]) && result == DecimalValue(s[..k]) % TWO_64
      decreases |s| - k
    {
      if !IsDigit(At(str, k)) {
        assert k < |s| ==> s[k] == str[k];
        return UINT64_MAX;
      }
      assert k < |s| && s[k] == str[k];
      DecimalAppend(s, k);
      result := result * 10 % TWO_64;
      result := (result + (At(str, k) as int - '0' as int)) % TWO_64;
      k := k + 1;
      if At(str, k) == '\0' {
        break;
      }
    }
    assert k >= |s|;
    assert s[..k] == s;
  }

  method ReadHexUint64(str: seq<char>) returns (result: nat)
    ensures result == HexToUint64(CStr(str))
    ensures result < 18446744073709551616
    ensures CStr(str) == [] || !AllHexDigits(CStr(str)) ==> result == 18446744073709551615
  {
    hide CStr;
    result := 0;
    var k := 0;
    ghost var s := CStr(str);
    while true
      invariant k <= |s| && (k > 0 ==> k < |s|)
      invariant AllHexDigits(s[..k]) && result == HexValue(s[..k]) % TWO_64
      decreases |s| - k
    {
      var c := At(str, k);
      if !IsHexDigit(c) {
        assert k < |s| ==> s[k] == str[k];
        return UINT64_MAX;
      }
      assert k < |s| && s[k] == c;
      HexAppend(s, k);
      result := result * 16 % TWO_64;
      if 'A' <= c <= 'F' {
        result := (result + (10 + c as int - 'A' as int)) % TWO_64;
      } else if 'a' <= c <= 'f' {
        result := (result + (10 + c as int - 'a' as int)) % TWO_64;
      } else {
        result := (result + (c as int - '0' as int)) % TWO_64;
      }
      k := k + 1;
      if At(str, k) == '\0' {
        break;
      }
    }
    assert k >= |s|;
    assert s[..k] == s;
  }

  // ------------------------------------------------------------------------------------------
  // rh_reverse_string and rh_uint64_to_str

  function Reversed(s: seq<char>): (r: seq<char>)
    ensures |r| == |s|
  {
    if s == [] then [] else Reversed(s[1..]) + [s[0]]
  }

  lemma {:induction false} ReversedAt(s: seq<char>, k: nat)
    requires k < |s|
    ensures Reversed(s)[k] == s[|s| - 1 - k]
  {
    if k < |s| - 1 {
      ReversedAt(s[1..], k);
    }
  }

  lemma {:induction false} ReversedTwice(s: seq<char>)
    ensures Reversed(Reversed(s)) == s
  {
    var r := Reversed(s);
    forall k | 0 <= k < |s|
      ensures Reversed(r)[k] == s[k]
    {
      ReversedAt(r, k);
      ReversedAt(s, |s| - 1 - k);
    }
  }

  /** `last` is the index of the last character, not the length. */
  method ReverseString(str: array<char>, at: nat, last: nat)
    requires at + last < str.Length
    modifies str
    ensures str[at..at + last + 1] == Reversed(old(str[at..at + last + 1]))
    ensures SameOutside(str[..], old(str[..]), at, at + last + 1)
  {
    hide Reversed;
    var i, n := 0, last;
    ghost var was := str[..];
    while i < n
      invariant i + n == last && i <= n + 1
      invariant forall k :: at <= k < at + i || at + n < k <= at + last ==>
        str[k] == was[2 * at + last - k]
      invariant forall k :: at + i <= k <= at + n ==> str[k] == was[k]
      invariant forall k :: 0 <= k < str.Length && !(at <= k <= at + last) ==> str[k] == was[k]
    {
      var c := str[at + i];
      str[at + i] := str[at + n];
      str[at + n] := c;
      i := i + 1;
      n := n - 1;
    }
    assert i <= n ==> i == n && 2 * i == last;
    ReversedSpan(was, str[..], at, last);
  }

  lemma ReversedSpan(was: seq<char>, now: seq<char>, at: nat, last: nat)
    requires at + last < |was| == |now|
    requires forall k :: at <= k <= at + last ==> now[k] == was[2 * at + last - k]
    ensures now[at..at + last + 1] == Reversed(was[at..at + last + 1])
  {
    hide Reversed;
    var span := was[at..at + last + 1];
    forall k | 0 <= k <= last
      ensures now[at..at + last + 1][k] == Reversed(span)[k]
    {
      ReversedAt(span, k);
      assert now[at + k] == was[at + (last - k)];
    }
  }

  function DigitChar(d: nat): char
    requires d < 10
  {
    ('0' as int + d) as char
  }

  /** The canonical decimal text: no leading zero, except that zero is "0". */
  function Decimal(n: nat): (s: CString)
    ensures s != [] && AllDigits(s) && DecimalValue(s) == n
    ensures n > 0 ==> s[0] != '0'
  {
    if n < 10 then
      assert [DigitChar(n)][..0] == [];
      [DigitChar(n)]
    else
      var s := Decimal(n / 10) + [DigitChar(n % 10)];
      assert s[..|s| - 1] == Decimal(n / 10);
      s
  }

  function Pow10(k: nat): nat {
    if k == 0 then 1 else 10 * Pow10(k - 1)
  }

  lemma {:induction false} DigitsBound(s: CString, k: nat)
    requires AllDigits(s) && |s| <= k
    ensures DecimalValue(s) < Pow10(k)
    decreases k
  {
    if k > 0 {
      DigitsBound(if s == [] then s else s[..|s| - 1], k - 1);
    }
  }

  lemma {:induction false} DecimalLength(n: nat, k: nat)
    requires 1 <= k && n < Pow10(k)
    ensures |Decimal(n)| <= k
    decreases k
  {
    if n >= 10 {
      assert Pow10(k) == 10 * Pow10(k - 1);
      DecimalLength(n / 10, k - 1);
    }
  }

  lemma Uint64HasAtMost20Digits(n: nat)
    requires n < TWO_64
    ensures |Decimal(n)| <= 20
  {
    assert Pow10(5) == 100000;
    assert Pow10(10) == 100000 * Pow10(5);
    assert Pow10(15) == 100000 * Pow10(10);
    assert Pow10(20) == 100000 * Pow10(15);
    DecimalLength(n, 20);
  }

  /** Every number text is canonical after its leading zeros are dropped, so the printer's output
      is the only text without a leading zero that the reader maps back to n. */
  lemma {:induction false} DecimalIsCanonical(s: CString)
    requires s != [] && AllDigits(s) && (s[0] != '0' || |s| == 1)
    ensures Decimal(DecimalValue(s)) == s
    decreases |s|
  {
    var t, d := s[..|s| - 1], DigitValue(s[|s| - 1]);
    assert s == t + [s[|s| - 1]] && DigitChar(d) == s[|s| - 1];
    if t != [] {
      DecimalIsCanonical(t);
      DecimalPositive(t);
      assert DecimalValue(s) / 10 == DecimalValue(t) && DecimalValue(s) % 10 == d;
    }
  }

  lemma {:induction false} DecimalPositive(s: CString)
    requires s != [] && AllDigits(s) && s[0] != '0'
    ensures DecimalValue(s) > 0
    decreases |s|
  {
    if |s| > 1 {
      DecimalPositive(s[..|s| - 1]);
    }
  }

  /** Printing and reading back: every 64-bit n survives. */
  lemma {:induction false} ReadUndoesPrint(n: nat)
    requires n < TWO_64
    ensures StrToUint64(Decimal(n)) == n
    ensures |Decimal(n)| <= 20
  {
    Uint64HasAtMost20Digits(n);
  }

  /** Reading the printed digits of any number gives it modulo 2^64. */
  lemma ReadWraps(n: nat)
    ensures StrToUint64(Decimal(n)) == n % 18446744073709551616
  {
  }

  method Uint64ToStr(result: array<char>, at: nat, n: nat)
    requires n < TWO_64 && at + |Decimal(n)| < result.Length
    modifies result
    ensures result[at..at + |Decimal(n)|] == Decimal(n) && result[at + |Decimal(n)|] == '\0'
    ensures SameOutside(result[..], old(result[..]), at, at + |Decimal(n)| + 1)
  {
    var i := PutDigitsBackwards(result, at, n);
    ghost var mid := result[..];
    ReversedTwice(Decimal(n));
    ReverseString(result, at, i - 1);
    assert result[..][at + i] == mid[at + i];
    SameOutsideTwice(result[..], mid, old(result[..]), at, at, at + i, at + i + 1);
  }

  /** The digit loop of rh_uint64_to_str, up to and including the terminator. */
  method PutDigitsBackwards(result: array<char>, at: nat, n: nat) returns (i: nat)
    requires at + |Decimal(n)| < result.Length
    modifies result
    ensures i == |Decimal(n)| && result[at..at + i] == Reversed(Decimal(n)) && result[at + i] == '\0'
    ensures SameOutside(result[..], old(result[..]), at, at + i + 1)
  {
    hide Decimal, Reversed, AllDigits, DecimalValue;
    ghost var text: seq<char>, back: seq<char> := Decimal(n), Reversed(Decimal(n));
    ghost var rest: seq<char> := text;
    var m, more := n, true;
    i := 0;
    while more
      invariant 0 <= m && |rest| == |text| - i && rest == text[..|rest|]
      invariant if more then rest == Decimal(m) else rest == []
      invariant forall k :: at <= k < at + i ==> result[k] == back[k - at]
      invariant forall k :: 0 <= k < result.Length && !(at <= k < at + i) ==> result[k] == old(result[k])
      decreases more, m
    {
      LastDigit(m, rest);
      ReversedAt(text, i);
      result[at + i] := (m % 10 + '0' as int) as char;
      rest := rest[..|rest| - 1];
      i := i + 1;
      m := m / 10;
      more := m > 0;
    }
    result[at + i] := '\0';
    assert result[at..at + i] == back;
  }

  lemma LastDigit(m: nat, s: CString)
    requires s == Decimal(m)
    ensures s[|s| - 1] == DigitChar(m % 10)
    ensures m >= 10 ==> |s| > 1 && Decimal(m / 10) == s[..|s| - 1]
    ensures m < 10 ==> |s| == 1
  {
    if m >= 10 {
      assert s == Decimal(m / 10) + [DigitChar(m % 10)];
    }
  }
}
