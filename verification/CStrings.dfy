/** C strings, character classes and the comparison, copy and trim helpers of strings.c.

    Memory read through a `const char*` is a `seq<char>`: `At` reads a NUL past its end, and the
    string it holds is `CStr`, the characters before the first NUL. Memory that is written through
    a pointer is an `array<char>` with an offset.
 */
module CStrings {

  datatype Option<+T> = None | Some(value: T) {
    function GetOr(default: T): T {
      if Some? then value else default
    }
  }

  type CString = s: seq<char> | '\0' !in s

  function At(s: seq<char>, i: nat): char {
    if i < |s| then s[i] else '\0'
  }

  function CStr(s: seq<char>): (r: CString)
    ensures |r| <= |s| && r == s[..|r|] && At(s, |r|) == '\0'
  {
    if s == [] || s[0] == '\0' then [] else [s[0]] + CStr(s[1..])
  }

  /** `CStr` is the only NUL-free prefix that is followed by a NUL. */
  lemma {:induction false} CStrUnique(s: seq<char>, n: nat)
    requires n <= |s| && '\0' !in s[..n] && At(s, n) == '\0'
    ensures CStr(s) == s[..n]
  {
    var r := CStr(s);
    assert forall k :: 0 <= k < n ==> s[..n][k] == s[k];
    assert forall k :: 0 <= k < |r| ==> r[k] == s[k];
  }

  lemma CStrPrefix(s: seq<char>, k: nat)
    requires k <= |s| && '\0' !in s[..k]
    ensures k <= |CStr(s)| && CStr(s)[..k] == s[..k]
    ensures k < |CStr(s)| <==> At(s, k) != '\0'
  {
    assert forall j :: 0 <= j < k ==> s[..k][j] == s[j];
    assert forall j :: 0 <= j < |CStr(s)| ==> CStr(s)[j] == s[j];
  }

  lemma CStrOfCString(s: CString)
    ensures CStr(s) == s
  {
    CStrUnique(s, |s|);
    assert s[..|s|] == s;
  }

  /** The memory holds a terminated string. */
  predicate Terminated(s: seq<char>) {
    |CStr(s)| < |s|
  }

  lemma DropTwice(s: seq<char>, a: nat, b: nat)
    requires a + b <= |s|
    ensures s[a..][b..] == s[a + b..]
  {
  }

  lemma TerminatedAt(s: seq<char>, n: nat)
    requires n < |s| && s[n] == '\0'
    ensures Terminated(s) && CStr(s) == CStr(s[..n])
  {
    var k := |CStr(s[..n])|;
    assert s[..n][..k] == s[..k];
    assert k < n ==> s[..n][k] == s[k];
    CStrUnique(s, k);
  }

  predicate IsDigit(c: char) {
    '0' <= c <= '9'
  }

  predicate IsHexDigit(c: char) {
    IsDigit(c) || 'A' <= c <= 'F' || 'a' <= c <= 'f'
  }

  /** The `tolower` of the C locale. */
  function ToLower(c: char): char {
    if 'A' <= c <= 'Z' then (c as int + 32) as char else c
  }

  function Fold(s: CString): (r: CString)
    ensures |r| == |s| && forall k :: 0 <= k < |s| ==> r[k] == ToLower(s[k])
  {
    seq(|s|, k requires 0 <= k < |s| => ToLower(s[k]))
  }

  const UPPER: CString := "ABCDEFGHIJKLMNOPQRSTUVWXYZ"
  const LOWER: CString := "abcdefghijklmnopqrstuvwxyz"

  /** The same character, or the two cases of one letter. */
  predicate SameLetter(c: char, d: char) {
    c == d || exists i :: 0 <= i < 26 && ((c == UPPER[i] && d == LOWER[i]) || (c == LOWER[i] && d == UPPER[i]))
  }

  /** The same text, case aside. */
  predicate SameAsideCase(a: seq<char>, b: seq<char>) {
    |a| == |b| && forall k :: 0 <= k < |a| ==> SameLetter(a[k], b[k])
  }

  lemma Alphabets()
    ensures |UPPER| == 26 && |LOWER| == 26
    ensures forall i :: 0 <= i < 26 ==> UPPER[i] as int == 65 + i && LOWER[i] as int == 97 + i
  {
  }

  /** `tolower` changes the capital letters, each to its small one, and nothing else. */
  lemma ToLowerMeaning(c: char)
    ensures forall i :: 0 <= i < 26 ==> ToLower(UPPER[i]) == LOWER[i]
    ensures c !in UPPER ==> ToLower(c) == c
  {
    hide UPPER, LOWER;
    Alphabets();
    if 'A' <= c <= 'Z' {
      assert UPPER[c as int - 65] == c;
    }
  }

  lemma SameLetterIff(c: char, d: char)
    ensures ToLower(c) == ToLower(d) <==> SameLetter(c, d)
  {
    hide UPPER, LOWER;
    Alphabets();
    if 'A' <= c <= 'Z' {
      assert UPPER[c as int - 65] == c && LOWER[c as int - 65] as int == c as int + 32;
    }
    if 'A' <= d <= 'Z' {
      assert UPPER[d as int - 65] == d && LOWER[d as int - 65] as int == d as int + 32;
    }
  }

  lemma SameFold(a: CString, b: CString)
    ensures Fold(a) == Fold(b) <==> SameAsideCase(a, b)
  {
    hide ToLower, SameLetter;
    forall k | 0 <= k < |a| && k < |b|
      ensures Fold(a)[k] == Fold(b)[k] <==> SameLetter(a[k], b[k])
    {
      SameLetterIff(a[k], b[k]);
    }
  }

  lemma SameWhenFolded(a: CString, b: CString)
    requires |a| == |b| && forall k :: 0 <= k < |a| ==> ToLower(a[k]) == ToLower(b[k])
    ensures SameAsideCase(a, b)
  {
    hide ToLower, SameAsideCase;
    SameFold(a, b);
  }

  lemma SameItself(a: CString)
    ensures SameAsideCase(a, a)
  {
  }

  // ------------------------------------------------------------------------------------------
  // rh_strcasecmp: a total preorder whose classes are the case-folded strings

  function Sign(x: char, y: char): int {
    if x == y then 0 else if x < y then -1 else 1
  }

  /** The value that rh_strcasecmp returns. */
  function Compare(a: seq<char>, b: seq<char>): int
    decreases |a|
  {
    if At(a, 0) != '\0' && At(b, 0) != '\0' && ToLower(a[0]) == ToLower(b[0])
    then Compare(a[1..], b[1..])
    else Sign(ToLower(At(a, 0)), ToLower(At(b, 0)))
  }

  /** The dictionary order, written without reference to the loop. */
  ghost predicate Precedes(a: CString, b: CString) {
    || (|a| < |b| && a == b[..|a|])
    || exists k :: 0 <= k < |a| && k < |b| && a[..k] == b[..k] && a[k] < b[k]
  }

  lemma {:induction false} CompareZero(a: CString, b: CString)
    ensures Compare(a, b) == 0 <==> SameAsideCase(a, b)
    decreases |a|
  {
    hide SameLetter;
    if a != [] && b != [] {
      CompareZero(a[1..], b[1..]);
      SameLetterIff(a[0], b[0]);
      assert a == [a[0]] + a[1..] && b == [b[0]] + b[1..];
    }
  }

  lemma {:induction false} CompareOpposite(a: CString, b: CString)
    ensures Compare(a, b) == -Compare(b, a)
    ensures -1 <= Compare(a, b) <= 1
    decreases |a|
  {
    if a != [] && b != [] && ToLower(a[0]) == ToLower(b[0]) {
      CompareOpposite(a[1..], b[1..]);
    }
  }

  lemma {:induction false} CompareTransitive(a: CString, b: CString, c: CString)
    requires Compare(a, b) <= 0 && Compare(b, c) <= 0
    ensures Compare(a, c) <= 0
    ensures Compare(a, b) < 0 || Compare(b, c) < 0 ==> Compare(a, c) < 0
    decreases |a|
  {
    if a != [] && b != [] && c != [] && ToLower(a[0]) == ToLower(b[0]) == ToLower(c[0]) {
      CompareTransitive(a[1..], b[1..], c[1..]);
    }
  }

  /** Folding both sides first changes nothing. */
  lemma {:induction false} CompareFolds(a: CString, b: CString)
    ensures Compare(a, b) == Compare(Fold(a), Fold(b))
    decreases |a|
  {
    if a != [] && b != [] && ToLower(a[0]) == ToLower(b[0]) {
      CompareFolds(a[1..], b[1..]);
      assert Fold(a)[1..] == Fold(a[1..]) && Fold(b)[1..] == Fold(b[1..]);
    }
  }

  /** rh_strcasecmp answers -1 exactly when the case-folded strings are in dictionary order. */
  lemma {:induction false} CompareIsDictionaryOrder(a: CString, b: CString)
    ensures Compare(a, b) == -1 <==> Precedes(Fold(a), Fold(b))
    decreases |a|
  {
    var x, y := Fold(a), Fold(b);
    if a != [] && b != [] && ToLower(a[0]) == ToLower(b[0]) {
      CompareIsDictionaryOrder(a[1..], b[1..]);
      assert x[1..] == Fold(a[1..]) && y[1..] == Fold(b[1..]);
      PrecedesTail(x, y);
    } else if a != [] && b != [] {
      assert x[0] < y[0] ==> x[..0] == y[..0];
      assert forall k :: 0 < k < |x| && k < |y| ==> x[..k][0] == x[0] && y[..k][0] == y[0];
    }
  }

  lemma PrecedesTail(x: CString, y: CString)
    requires x != [] && y != [] && x[0] == y[0]
    ensures Precedes(x, y) <==> Precedes(x[1..], y[1..])
  {
    hide Precedes;
    if Precedes(x, y) {
      PrecedesDown(x, y);
    }
    if Precedes(x[1..], y[1..]) {
      PrecedesUp(x, y);
    }
  }

  lemma PrecedesDown(x: CString, y: CString)
    requires x != [] && y != [] && x[0] == y[0] && Precedes(x, y)
    ensures Precedes(x[1..], y[1..])
  {
    if |x| < |y| && x == y[..|x|] {
      assert x[1..] == y[1..][..|x[1..]|];
    } else {
      var k :| 0 <= k < |x| && k < |y| && x[..k] == y[..k] && x[k] < y[k];
      assert x[1..][..k - 1] == x[..k][1..] == y[..k][1..] == y[1..][..k - 1];
      assert x[1..][k - 1] < y[1..][k - 1];
    }
  }

  lemma PrecedesUp(x: CString, y: CString)
    requires x != [] && y != [] && x[0] == y[0] && Precedes(x[1..], y[1..])
    ensures Precedes(x, y)
  {
    var x', y' := x[1..], y[1..];
    if |x'| < |y'| && x' == y'[..|x'|] {
      assert x == [x[0]] + x' && y[..|x|] == [y[0]] + y'[..|x'|];
    } else {
      var k :| 0 <= k < |x'| && k < |y'| && x'[..k] == y'[..k] && x'[k] < y'[k];
      assert x[..k + 1] == [x[0]] + x'[..k] == y[..k + 1];
      assert x[k + 1] < y[k + 1];
    }
  }

  lemma CompareOfCStr(a: seq<char>, b: seq<char>)
    ensures Compare(a, b) == Compare(CStr(a), CStr(b))
    decreases |a|
  {
    if At(a, 0) != '\0' && At(b, 0) != '\0' && ToLower(a[0]) == ToLower(b[0]) {
      CompareOfCStr(a[1..], b[1..]);
      assert CStr(a)[1..] == CStr(a[1..]) && CStr(b)[1..] == CStr(b[1..]);
    }
  }

  method StrCaseCmp(str1: seq<char>, str2: seq<char>) returns (r: int)
    ensures r == Compare(str1, str2) == Compare(CStr(str1), CStr(str2))
  {
    var k := 0;
    while At(str1, k) != '\0' && At(str2, k) != '\0' && ToLower(At(str1, k)) == ToLower(At(str2, k))
      invariant k <= |str1| && k <= |str2|
      invariant Compare(str1, str2) == Compare(str1[k..], str2[k..])
      decreases |str1| - k
    {
      assert str1[k..][1..] == str1[k+1..] && str2[k..][1..] == str2[k+1..];
      k := k + 1;
    }
    CompareOfCStr(str1, str2);
    if ToLower(At(str1, k)) == ToLower(At(str2, k)) {
      return 0;
    }
    if ToLower(At(str1, k)) < ToLower(At(str2, k)) {
      return -1;
    }
    return 1;
  }

  // ------------------------------------------------------------------------------------------
  // rh_startswith and rh_str_search_case_unsensitive

  method StartsWith(str: seq<char>, ref: CString) returns (r: bool)
    ensures r <==> ref <= CStr(str)
  {
    var k := 0;
    while At(str, k) != '\0' && At(ref, k) != '\0' && At(ref, k) == At(str, k)
      invariant k <= |str| && k <= |ref| && '\0' !in str[..k] && str[..k] == ref[..k]
      decreases |str| - k
    {
      assert str[..k+1] == str[..k] + [str[k]] && ref[..k+1] == ref[..k] + [ref[k]];
      k := k + 1;
    }
    CStrPrefix(str, k);
    r := At(ref, k) == '\0';
    assert ref[..|ref|] == ref;
    assert k < |ref| && k < |CStr(str)| ==> CStr(str)[k] == str[k];
  }

  /** `expr` occurs in `str` at `pos`, ignoring case. */
  ghost predicate OccursAt(str: CString, expr: CString, pos: nat) {
    pos + |expr| <= |str| && SameAsideCase(str[pos..pos + |expr|], expr)
  }

  lemma OccursFolded(str: CString, expr: CString, pos: nat)
    requires pos + |expr| <= |str|
    ensures OccursAt(str, expr, pos) <==> Fold(str)[pos..pos + |expr|] == Fold(expr)
  {
    hide ToLower, SameAsideCase;
    SameFold(str[pos..pos + |expr|], expr);
    assert Fold(str[pos..pos + |expr|]) == Fold(str)[pos..pos + |expr|];
  }

  lemma MatchGrows(str: CString, expr: CString, pos: nat, i: nat)
    requires i < |expr| && pos + i < |str| && Fold(str)[pos..pos + i] == Fold(expr)[..i]
    requires ToLower(str[pos + i]) == ToLower(expr[i])
    ensures Fold(str)[pos..pos + i + 1] == Fold(expr)[..i + 1]
  {
    hide Fold, ToLower;
    assert Fold(str)[pos..pos + i + 1] == Fold(str)[pos..pos + i] + [Fold(str)[pos + i]];
    assert Fold(expr)[..i + 1] == Fold(expr)[..i] + [Fold(expr)[i]];
  }

  lemma MatchAt(str: CString, expr: CString, pos: nat, i: nat)
    requires OccursAt(str, expr, pos) && i < |expr|
    ensures ToLower(str[pos + i]) == ToLower(expr[i])
  {
    hide SameLetter;
    assert str[pos..pos + |expr|][i] == str[pos + i];
    SameLetterIff(str[pos + i], expr[i]);
  }

  /** The scan of rh_str_search_case_unsensitive. It restarts after the mismatching character, so
      it can miss an occurrence that overlaps a failed candidate. */
  function Search(str: CString, expr: CString, pos: nat, i: nat): (r: int)
    requires i <= |expr| && pos + i <= |str|
    requires Fold(str)[pos..pos + i] == Fold(expr)[..i]
    ensures r == -1 || (r >= 0 && OccursAt(str, expr, r))
    decreases |str| - pos - i
  {
    if i == |expr| then
      assert Fold(expr)[..i] == Fold(expr);
      OccursFolded(str, expr, pos);
      pos
    else if pos + i == |str| then -1
    else if ToLower(str[pos + i]) == ToLower(expr[i]) then
      MatchGrows(str, expr, pos, i);
      Search(str, expr, pos, i + 1)
    else Search(str, expr, pos + i + 1, 0)
  }

  /** How many characters of the expression the scan has matched when it comes to index k. */
  function Progress(str: CString, expr: CString, k: nat): (i: nat)
    requires k <= |str|
    ensures i <= |expr| && i <= k
  {
    if k == 0 then 0
    else
      var i := Progress(str, expr, k - 1);
      if i < |expr| && SameLetter(str[k - 1], expr[i]) then i + 1 else 0
  }

  lemma {:induction false} SearchStartsFresh(str: CString, expr: CString, pos: nat, i: nat)
    requires i <= |expr| && pos + i <= |str| && Fold(str)[pos..pos + i] == Fold(expr)[..i]
    requires Progress(str, expr, pos) == 0 && Progress(str, expr, pos + i) == i
    ensures var r := Search(str, expr, pos, i); r >= 0 ==> Progress(str, expr, r) == 0
    decreases |str| - pos - i
  {
    hide Fold, ToLower, OccursAt, SameLetter;
    if i < |expr| && pos + i < |str| {
      SameLetterIff(str[pos + i], expr[i]);
      if ToLower(str[pos + i]) == ToLower(expr[i]) {
        MatchGrows(str, expr, pos, i);
        SearchStartsFresh(str, expr, pos, i + 1);
      } else {
        SearchStartsFresh(str, expr, pos + i + 1, 0);
      }
    }
  }

  lemma {:induction false} SearchFindsFresh(str: CString, expr: CString, pos: nat, i: nat, k: nat)
    requires i <= |expr| && pos + i <= |str| && Fold(str)[pos..pos + i] == Fold(expr)[..i]
    requires OccursAt(str, expr, k) && Progress(str, expr, k) == 0 && Progress(str, expr, pos + i) == i
    requires k == pos || pos + i < k
    ensures Search(str, expr, pos, i) >= 0
    decreases |str| - pos - i
  {
    hide Fold, ToLower, SameLetter, OccursAt;
    OccursWithin(str, expr);
    if i < |expr| && pos + i < |str| {
      SameLetterIff(str[pos + i], expr[i]);
      if k == pos {
        MatchAt(str, expr, k, i);
      }
      if ToLower(str[pos + i]) == ToLower(expr[i]) {
        MatchGrows(str, expr, pos, i);
        SearchFindsFresh(str, expr, pos, i + 1, k);
      } else {
        SearchFindsFresh(str, expr, pos + i + 1, 0, k);
      }
    }
  }

  /** The search is successful if and only if the expression occurs where the scan has no progress. */
  lemma SearchExact(str: CString, expr: CString)
    ensures Search(str, expr, 0, 0) >= 0 <==>
            exists k :: 0 <= k <= |str| && Progress(str, expr, k) == 0 && OccursAt(str, expr, k)
  {
    hide Fold, ToLower, OccursAt, Search, SameLetter;
    SearchStartsFresh(str, expr, 0, 0);
    OccursWithin(str, expr);
    if k :| 0 <= k <= |str| && Progress(str, expr, k) == 0 && OccursAt(str, expr, k) {
      SearchFindsFresh(str, expr, 0, 0, k);
    }
  }

  lemma OccursWithin(str: CString, expr: CString)
    ensures forall k: nat :: OccursAt(str, expr, k) ==> k + |expr| <= |str|
  {
  }

  /** The character is one of the expression's, case aside. */
  predicate IsIn(c: char, expr: CString) {
    exists i :: 0 <= i < |expr| && SameLetter(c, expr[i])
  }

  /** An occurrence is never missed behind a character that is not in the expression, case aside. */
  lemma SearchFinds(str: CString, expr: CString, k: nat)
    requires OccursAt(str, expr, k) && (k == 0 || !IsIn(str[k - 1], expr))
    ensures Search(str, expr, 0, 0) >= 0
  {
    hide ToLower, Search, SameLetter, OccursAt;
    OccursWithin(str, expr);
    if k > 0 {
      var i := Progress(str, expr, k - 1);
    }
    SearchExact(str, expr);
  }

  /** A run of one character, case aside. */
  predicate OneCharacter(expr: CString) {
    forall i :: 0 <= i < |expr| ==> SameLetter(expr[i], expr[0])
  }

  lemma {:induction false} SearchFindsRun(str: CString, expr: CString, k: nat)
    requires OccursAt(str, expr, k) && OneCharacter(expr)
    ensures Search(str, expr, 0, 0) >= 0
    decreases k
  {
    hide ToLower, Search, SameLetter, OccursAt;
    OccursWithin(str, expr);
    if k > 0 && IsIn(str[k - 1], expr) {
      var i :| 0 <= i < |expr| && SameLetter(str[k - 1], expr[i]);
      SameLetterIff(str[k - 1], expr[i]);
      SameLetterIff(expr[i], expr[0]);
      forall j | 0 <= j < |expr|
        ensures Fold(str)[k - 1..k - 1 + |expr|][j] == Fold(expr)[j]
      {
        SameLetterIff(expr[j], expr[0]);
        if j > 0 {
          SameLetterIff(expr[j - 1], expr[0]);
          MatchAt(str, expr, k, j - 1);
        }
      }
      OccursFolded(str, expr, k - 1);
      SearchFindsRun(str, expr, k - 1);
    } else {
      SearchFinds(str, expr, k);
    }
  }

  /** Every other expression is missed behind its own first character. */
  lemma SearchMissesOverlap(expr: CString)
    requires !OneCharacter(expr)
    ensures var str: CString := [expr[0]] + expr; OccursAt(str, expr, 1) && Search(str, expr, 0, 0) == -1
  {
    hide ToLower, Search, SameLetter, OccursAt;
    var str: CString := [expr[0]] + expr;
    OccursWithin(str, expr);
    OccursFolded(str, expr, 1);
    assert Fold(str)[1..1 + |expr|] == Fold(expr);
    SearchExact(str, expr);
    SameLetterIff(expr[0], expr[0]);
    assert Progress(str, expr, 0) == 0 && Progress(str, expr, 1) == 1;
    if OccursAt(str, expr, 0) {
      forall j: nat | j < |expr|
        ensures SameLetter(expr[j], expr[0])
      {
        SameBefore0(str, expr, j);
        SameLetterIff(expr[j], expr[0]);
      }
    }
  }

  lemma {:induction false} SameBefore0(str: CString, expr: CString, j: nat)
    requires j < |expr| && str == [expr[0]] + expr && OccursAt(str, expr, 0)
    ensures ToLower(expr[j]) == ToLower(expr[0])
    decreases j
  {
    hide ToLower, OccursAt;
    MatchAt(str, expr, 0, j);
    if j > 0 {
      SameBefore0(str, expr, j - 1);
    }
  }

  /** The search is complete on all texts if and only if the expression is a run of one character. */
  lemma SearchCompleteIff(expr: CString)
    ensures (forall str: CString, k: nat :: OccursAt(str, expr, k) ==> Search(str, expr, 0, 0) >= 0) <==>
            OneCharacter(expr)
  {
    hide OccursAt, Search, OneCharacter;
    if OneCharacter(expr) {
      forall str: CString, k: nat | OccursAt(str, expr, k)
        ensures Search(str, expr, 0, 0) >= 0
      {
        SearchFindsRun(str, expr, k);
      }
    } else {
      SearchMissesOverlap(expr);
      OneCharacterOfNothing(expr);
    }
  }

  lemma OneCharacterOfNothing(expr: CString)
    ensures expr == [] ==> OneCharacter(expr)
  {
  }

  method StrSearchCaseUnsensitive(str: CString, expr: CString) returns (r: int)
    ensures r == Search(str, expr, 0, 0)
    ensures r >= 0 ==> OccursAt(str, expr, r)
  {
    hide OccursAt, ToLower;
    var i, pos := 0, 0;
    while At(expr, i) != '\0' && At(str, pos + i) != '\0'
      invariant i <= |expr| && pos + i <= |str|
      invariant Fold(str)[pos..pos + i] == Fold(expr)[..i]
      invariant Search(str, expr, 0, 0) == Search(str, expr, pos, i)
      decreases |str| - pos - i
    {
      if ToLower(At(str, pos + i)) == ToLower(At(expr, i)) {
        MatchGrows(str, expr, pos, i);
        i := i + 1;
      } else {
        pos := pos + i + 1;
        i := 0;
      }
    }
    if At(expr, i) != '\0' {
      return -1;
    }
    return pos;
  }

  // ------------------------------------------------------------------------------------------
  // Cutting a text at a character

  /** The index of the first c at or after the beginning, or the length. */
  function Span(s: seq<char>, c: char): (n: nat)
    ensures n <= |s| && c !in s[..n] && (n < |s| ==> s[n] == c)
  {
    if s == [] || s[0] == c then 0
    else
      var n := 1 + Span(s[1..], c);
      assert s[..n] == [s[0]] + s[1..][..n - 1];
      n
  }

  lemma {:induction false} SpanIs(s: seq<char>, c: char, i: nat)
    requires i <= |s| && forall k :: 0 <= k < i ==> s[k] != c
    ensures Span(s, c) >= i && (i == |s| || s[i] == c ==> Span(s, c) == i)
    decreases i
  {
    if i > 0 {
      SpanIs(s[1..], c, i - 1);
    }
  }

  // ------------------------------------------------------------------------------------------
  // rh_strtrim_inplace

  predicate IsBlank(c: char) {
    c == ' ' || c == '\t' || c == 8 as char || c == '\n' || c == '\r' || c == 11 as char
  }

  predicate AllBlank(s: seq<char>) {
    forall k :: 0 <= k < |s| ==> IsBlank(s[k])
  }

  function TrimLeft(s: CString): (r: CString)
    ensures |r| <= |s| && r == s[|s| - |r|..]
    ensures r != [] ==> !IsBlank(r[0])
  {
    if s != [] && IsBlank(s[0]) then TrimLeft(s[1..]) else s
  }

  function TrimRight(s: CString): (r: CString)
    ensures |r| <= |s| && r == s[..|r|]
    ensures r != [] ==> !IsBlank(r[|r| - 1])
  {
    if s != [] && IsBlank(s[|s| - 1]) then TrimRight(s[..|s| - 1]) else s
  }

  function Trim(s: CString): CString {
    TrimRight(TrimLeft(s))
  }

  /** Backspace, tab, line feed, vertical tab, carriage return and space by their codes, and nothing else,
      stand around the text, which neither begins nor ends with one of them. */
  predicate Padded(s: seq<char>, left: seq<char>, text: seq<char>, right: seq<char>) {
    && s == left + text + right
    && (forall k :: 0 <= k < |left| ==> left[k] as int in {8, 9, 10, 11, 13, 32})
    && (forall k :: 0 <= k < |right| ==> right[k] as int in {8, 9, 10, 11, 13, 32})
    && (text != [] ==> text[0] as int !in {8, 9, 10, 11, 13, 32})
    && (text != [] ==> text[|text| - 1] as int !in {8, 9, 10, 11, 13, 32})
  }

  lemma BlankCodes(c: char)
    ensures IsBlank(c) <==> c as int in {8, 9, 10, 11, 13, 32}
  {
  }

  lemma PaddedIff(s: seq<char>, left: seq<char>, text: seq<char>, right: seq<char>)
    ensures Padded(s, left, text, right) <==>
            && s == left + text + right && AllBlank(left) && AllBlank(right)
            && (text != [] ==> !IsBlank(text[0]) && !IsBlank(text[|text| - 1]))
  {
    hide IsBlank;
    forall c: char
      ensures IsBlank(c) <==> c as int in {8, 9, 10, 11, 13, 32}
    {
      BlankCodes(c);
    }
  }

  /** Trimming cuts exactly the padding off. */
  lemma {:induction false} TrimMeaning(s: CString)
    returns (left: seq<char>, right: seq<char>)
    ensures Padded(s, left, Trim(s), right)
  {
    hide TrimLeft, TrimRight, AllBlank, IsBlank, Padded;
    var t := TrimLeft(s);
    TrimLeftBlanks(s);
    TrimRightBlanks(t);
    left, right := s[..|s| - |t|], t[|TrimRight(t)|..];
    assert TrimRight(t) != [] ==> TrimRight(t)[0] == t[0];
    PaddedIff(s, left, Trim(s), right);
  }

  lemma TrimSame(s: CString)
    requires s == [] || (!IsBlank(s[0]) && !IsBlank(s[|s| - 1]))
    ensures Trim(s) == s
  {
  }

  /** A padded text has no other padding. */
  lemma TrimExact(s: CString, left: seq<char>, text: seq<char>, right: seq<char>)
    requires Padded(s, left, text, right)
    ensures Trim(s) == text
  {
    hide TrimLeft, TrimRight, AllBlank, IsBlank, Padded, Trim;
    PaddedIff(s, left, text, right);
    assert s == left + (text + right);
    NoNul(left, text + right);
    NoNul(text, right);
    TrimAppend(left, text + right);
    TrimAppend(text, right);
    TrimSame(text);
    AllBlankSplit(text);
    if text == [] {
      TrimAppend(right, []);
      assert right + [] == right;
    }
  }

  lemma NoNul(a: seq<char>, b: seq<char>)
    requires '\0' !in a + b
    ensures '\0' !in a && '\0' !in b
  {
    assert forall k :: 0 <= k < |a| ==> a[k] == (a + b)[k];
    assert forall k :: 0 <= k < |b| ==> b[k] == (a + b)[|a| + k];
  }

  lemma {:induction false} TrimLeftBlanks(s: CString)
    ensures AllBlank(s[..|s| - |TrimLeft(s)|])
  {
    if s != [] && IsBlank(s[0]) {
      TrimLeftBlanks(s[1..]);
      var n := |s| - |TrimLeft(s)|;
      assert s[..n] == [s[0]] + s[1..][..n - 1];
    }
  }

  lemma {:induction false} TrimRightBlanks(s: CString)
    ensures AllBlank(s[|TrimRight(s)|..])
  {
    if s != [] && IsBlank(s[|s| - 1]) {
      var t := s[..|s| - 1];
      TrimRightBlanks(t);
      assert s[|TrimRight(s)|..] == t[|TrimRight(t)|..] + [s[|s| - 1]];
    }
  }

  lemma TrimLeftOne(s: CString)
    ensures TrimLeft(s) == if s == [] then [] else if IsBlank(s[0]) then TrimLeft(s[1..]) else s
  {
  }

  lemma AllBlankSplit(s: seq<char>)
    ensures AllBlank(s) <==> s == [] || (IsBlank(s[0]) && AllBlank(s[1..]))
  {
    if s != [] {
      assert s == [s[0]] + s[1..];
    }
  }

  lemma {:induction false} TrimLeftAppend(a: CString, b: CString)
    ensures TrimLeft(a + b) == if AllBlank(a) then TrimLeft(b) else TrimLeft(a) + b
    ensures AllBlank(a) <==> TrimLeft(a) == []
    decreases |a|
  {
    hide TrimLeft, AllBlank;
    AllBlankSplit(a);
    if a == [] {
      assert a + b == b;
      TrimLeftOne(a);
    } else {
      assert (a + b)[1..] == a[1..] + b;
      TrimLeftOne(a);
      TrimLeftOne(a + b);
      if IsBlank(a[0]) {
        TrimLeftAppend(a[1..], b);
      }
    }
  }

  lemma TrimRightOne(s: CString)
    ensures TrimRight(s) == if s == [] then [] else if IsBlank(s[|s| - 1]) then TrimRight(s[..|s| - 1]) else s
  {
  }

  lemma AllBlankSplitLast(s: seq<char>)
    ensures AllBlank(s) <==> s == [] || (IsBlank(s[|s| - 1]) && AllBlank(s[..|s| - 1]))
  {
    if s != [] {
      assert s == s[..|s| - 1] + [s[|s| - 1]];
    }
  }

  lemma {:induction false} TrimRightAppend(a: CString, b: CString)
    ensures TrimRight(a + b) == if AllBlank(b) then TrimRight(a) else a + TrimRight(b)
    ensures AllBlank(b) <==> TrimRight(b) == []
    decreases |b|
  {
    hide TrimRight, AllBlank;
    AllBlankSplitLast(b);
    TrimRightOne(b);
    if b == [] {
      assert a + b == a;
    } else {
      var t := b[..|b| - 1];
      assert (a + b)[..|a + b| - 1] == a + t;
      TrimRightOne(a + b);
      if IsBlank(b[|b| - 1]) {
        TrimRightAppend(a, t);
      }
    }
  }

  lemma TrimAppend(a: CString, b: CString)
    ensures Trim(a + b) ==
            if AllBlank(a) then Trim(b) else if AllBlank(b) then Trim(a) else TrimLeft(a) + TrimRight(b)
  {
    hide TrimLeft, TrimRight, AllBlank;
    TrimLeftAppend(a, b);
    TrimRightAppend(TrimLeft(a), b);
  }

  method StrLen(a: array<char>, at: nat) returns (n: nat)
    requires at <= a.Length && Terminated(a[at..])
    ensures n == |CStr(a[at..])| && at + n < a.Length
  {
    n := 0;
    while a[at + n] != '\0'
      invariant n <= |CStr(a[at..])| < a.Length - at
      decreases a.Length - n
    {
      assert a[at + n] == a[at..][n];
      n := n + 1;
    }
    assert a[at..][n] == a[at + n];
  }

  /** The trimmed text is left in place; the returned offset is its new beginning. */
  method StrTrimInPlace(a: array<char>) returns (start: nat)
    requires Terminated(a[..])
    modifies a
    ensures start < a.Length && Terminated(a[start..]) && CStr(a[start..]) == Trim(CStr(old(a[..])))
    ensures forall left: seq<char>, t: seq<char>, right: seq<char> ::
              Padded(CStr(old(a[..])), left, t, right) ==> CStr(a[start..]) == t
  {
    hide TrimLeft, TrimRight, CStr, Padded;
    ghost var text := CStr(a[..]);
    start := 0;
    assert text[0..] == text;
    while a[start] != '\0' && IsBlank(a[start])
      invariant start <= |text| < a.Length && a[..] == old(a[..])
      invariant TrimLeft(text) == TrimLeft(text[start..])
      decreases a.Length - start
    {
      assert start < |text| && text[start] == a[start];
      TrimLeftStep(text, start);
      start := start + 1;
    }
    assert start < |text| ==> text[start] == a[start];
    TrimLeftStop(text, start);
    TrimTail(a, start, text[start..]);
    forall left: seq<char>, t: seq<char>, right: seq<char> | Padded(text, left, t, right)
      ensures Trim(text) == t
    {
      TrimExact(text, left, t, right);
    }
  }

  lemma TrimLeftStep(text: CString, i: nat)
    requires i < |text| && IsBlank(text[i])
    ensures TrimLeft(text[i..]) == TrimLeft(text[i + 1..])
  {
    assert text[i..][1..] == text[i + 1..];
  }

  lemma TrimLeftStop(text: CString, i: nat)
    requires i <= |text| && (i < |text| ==> !IsBlank(text[i]))
    ensures TrimLeft(text[i..]) == text[i..]
  {
  }

  /** The second half of rh_strtrim_inplace: NULs are written over the trailing blanks. */
  method TrimTail(a: array<char>, start: nat, ghost text: CString)
    requires start + |text| < a.Length && a[start + |text|] == '\0'
    requires a[start..start + |text|] == text
    requires text != [] ==> !IsBlank(text[0])
    modifies a
    ensures Terminated(a[start..]) && CStr(a[start..]) == TrimRight(text)
  {
    hide TrimRight, CStr;
    assert a[start..][..|text|] == text;
    CStrUnique(a[start..], |text|);
    var i := StrLen(a, start);
    if i == 0 {
      return;
    }
    i := i - 1;
    assert text[..i + 1] == text;
    while IsBlank(a[start + i])
      invariant 0 <= i < |text|
      invariant forall k :: 0 <= k <= i ==> a[start + k] == text[k]
      invariant a[start + i + 1] == '\0'
      invariant TrimRight(text) == TrimRight(text[..i + 1])
      decreases i
    {
      TrimRightStep(text, i);
      a[start + i] := '\0';
      i := i - 1;
    }
    TrimRightStop(text, i);
    assert a[start..][..i + 1] == text[..i + 1];
    CStrUnique(a[start..], i + 1);
  }

  lemma TrimRightStep(text: CString, i: nat)
    requires i < |text| && IsBlank(text[i])
    ensures TrimRight(text[..i + 1]) == TrimRight(text[..i])
  {
    assert text[..i + 1][..i] == text[..i];
  }

  lemma TrimRightStop(text: CString, i: nat)
    requires i < |text| && !IsBlank(text[i])
    ensures TrimRight(text[..i + 1]) == text[..i + 1]
  {
  }

  // ------------------------------------------------------------------------------------------
  // rh_strncpy, rh_strcpy, rh_strcat

  function Take(s: seq<char>, n: nat): seq<char> {
    if n < |s| then s[..n] else s
  }

  predicate SameOutside(a: seq<char>, b: seq<char>, lo: nat, hi: int) {
    |a| == |b| && forall k :: 0 <= k < |a| && !(lo <= k < hi) ==> a[k] == b[k]
  }

  lemma SameOutsideSelf(a: seq<char>, lo: nat, hi: nat)
    ensures SameOutside(a, a, lo, hi)
  {
  }

  lemma SameBefore(a: seq<char>, b: seq<char>, lo: nat, hi: nat, from: nat)
    requires SameOutside(a, b, lo, hi) && from <= lo <= |a|
    ensures a[from..lo] == b[from..lo]
  {
  }

  lemma SameOutsideTwice(a: seq<char>, b: seq<char>, c: seq<char>, lo: nat, lo': nat, hi': nat, hi: nat)
    requires SameOutside(a, b, lo', hi') && SameOutside(b, c, lo, hi) && lo <= lo' && hi' <= hi
    ensures SameOutside(a, c, lo, hi)
  {
  }

  method StrNCpy(dest: array<char>, at: nat, src: CString, destBufferLength: nat) returns (n: nat)
    requires 1 <= destBufferLength && at + destBufferLength <= dest.Length
    modifies dest
    ensures n == |Take(src, destBufferLength - 1)|
    ensures dest[at..at + n] == Take(src, destBufferLength - 1) && dest[at + n] == '\0'
    ensures SameOutside(dest[..], old(dest[..]), at, at + n + 1)
  {
    n := 0;
    while n < destBufferLength - 1 && At(src, n) != '\0'
      invariant n <= destBufferLength - 1 && n <= |src|
      invariant dest[at..at + n] == src[..n]
      invariant SameOutside(dest[..], old(dest[..]), at, at + n)
    {
      dest[at + n] := src[n];
      n := n + 1;
    }
    dest[at + n] := '\0';
    assert dest[at..at + n] == src[..n];
    assert src[..|src|] == src;
  }

  method StrCpy(dest: array<char>, at: nat, src: CString) returns (end: nat)
    requires at + |src| < dest.Length
    modifies dest
    ensures end == at + |src| && dest[at..end] == src && dest[end] == '\0'
    ensures SameOutside(dest[..], old(dest[..]), at, end + 1)
  {
    end := at;
    while At(src, end - at) != '\0'
      invariant at <= end <= at + |src|
      invariant dest[at..end] == src[..end - at]
      invariant SameOutside(dest[..], old(dest[..]), at, end)
      decreases at + |src| - end
    {
      dest[end] := src[end - at];
      end := end + 1;
    }
    dest[end] := '\0';
    assert dest[at..end] == src[..|src|] == src;
  }

  method StrCat(dest: array<char>, add: CString)
    requires Terminated(dest[..]) && |CStr(dest[..])| + |add| < dest.Length
    modifies dest
    ensures Terminated(dest[..]) && CStr(dest[..]) == CStr(old(dest[..])) + add
  {
    ghost var text := CStr(dest[..]);
    assert dest[0..] == dest[..];
    var n := StrLen(dest, 0);
    var end := StrCpy(dest, n, add);
    assert dest[..][end] == '\0';
    assert dest[..n] == text by {
      assert forall k :: 0 <= k < n ==> dest[..][k] == old(dest[..])[k];
    }
    assert dest[..][..end] == dest[..n] + dest[n..end] == text + add;
    CStrUnique(dest[..], end);
  }
}
