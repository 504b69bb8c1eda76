/** path.c: rh_simplify_path on every input, and what it means as a stack of segments. */
module Paths {
  import opened CStrings

  predicate NoSlash(s: seq<char>) {
    forall k :: 0 <= k < |s| ==> s[k] != '/'
  }

  predicate Segs(stack: seq<CString>) {
    forall k :: 0 <= k < |stack| ==> NoSlash(stack[k])
  }

  /** Complete segments, each followed by its slash. */
  function Join(stack: seq<CString>): CString {
    if stack == [] then [] else Join(stack[..|stack| - 1]) + (stack[|stack| - 1] + "/")
  }

  function Render(stack: seq<CString>, cur: CString): CString {
    Join(stack) + cur
  }

  /** A dot segment is only recognised behind at least two characters. */
  predicate Deep(stack: seq<CString>) {
    stack != [] && stack != [""]
  }

  /** A segment is complete: `..` removes the one before it, `.` is dropped. */
  function Close(stack: seq<CString>, seg: CString): (r: seq<CString>)
    ensures Segs(stack) && NoSlash(seg) ==> Segs(r)
  {
    if seg == ".." && Deep(stack) then stack[..|stack| - 1]
    else if seg == "." && Deep(stack) then stack
    else stack + [seg]
  }

  /** The main loop: what the rest of the text makes of the segments so far. The last segment stays. */
  function Walk(stack: seq<CString>, cur: CString, s: CString): CString
    decreases |s|
  {
    if s == [] then Render(stack, cur)
    else if s[0] == '/' then Walk(Close(stack, cur), [], s[1..])
    else Walk(stack, cur + [s[0]], s[1..])
  }

  // ------------------------------------------------------------------------------------------
  // The loop

  lemma JoinPush(stack: seq<CString>, seg: CString)
    ensures Join(stack + [seg]) == Join(stack) + (seg + "/")
  {
    assert (stack + [seg])[..|stack|] == stack;
  }

  lemma JoinPop(stack: seq<CString>)
    requires stack != []
    ensures var front, last := stack[..|stack| - 1], stack[|stack| - 1];
            Join(stack) == Join(front) + (last + "/")
  {
  }

  lemma JoinNothing()
    ensures Join([]) == []
  {
  }

  lemma JoinEnds(stack: seq<CString>)
    requires stack != []
    ensures |Join(stack)| >= 1 && Join(stack)[|Join(stack)| - 1] == '/'
    ensures |Join(stack)| >= 2 <==> Deep(stack)
  {
    var front, last := stack[..|stack| - 1], stack[|stack| - 1];
    if front != [] {
      JoinEnds(front);
      assert |stack| >= 2;
    } else {
      assert Join(front) == [];
      assert stack == [last];
    }
  }

  /** The tests on the written characters recognise the dot segments. */
  lemma DotTests(stack: seq<CString>, cur: CString, i: nat)
    requires Segs(stack) && NoSlash(cur) && i == |Render(stack, cur)|
    ensures var d := Render(stack, cur);
            && (i >= 4 && d[i - 1] == '.' && d[i - 2] == '.' && d[i - 3] == '/' <==> cur == ".." && Deep(stack))
            && (i >= 3 && d[i - 1] == '.' && d[i - 2] == '/' <==> cur == "." && Deep(stack))
  {
    var d, n := Render(stack, cur), |Join(stack)|;
    assert forall k :: 0 <= k < |cur| ==> d[n + k] == cur[k];
    if stack == [] {
      assert d == cur;
    } else {
      JoinEnds(stack);
      assert d[n - 1] == '/';
    }
  }

  predicate DotBetweenSlashes(s: seq<char>) {
    |s| >= 3 && s[0] == '/' && s[1] == '.' && s[2] == '/'
  }

  /** The first loop: dots and slashes at the front are copied, except that `/./` loses its dot. */
  function Lead(out: CString, s: CString): (r: (CString, CString))
    ensures |r.0| + |r.1| <= |out| + |s|
    decreases |s|
  {
    if s == [] || (s[0] != '.' && s[0] != '/') then (out, s)
    else if DotBetweenSlashes(s) then Lead(out, s[2..])
    else Lead(out + [s[0]], s[1..])
  }

  /** The segments of a text: the complete ones, and what follows the last slash. */
  function Split(s: CString): (seq<CString>, CString) {
    if s == [] then ([], [])
    else
      var (stack, cur) := Split(s[..|s| - 1]);
      if s[|s| - 1] == '/' then (stack + [cur], []) else (stack, cur + [s[|s| - 1]])
  }

  lemma {:induction false} SplitRenders(s: CString)
    ensures var (stack, cur) := Split(s); Segs(stack) && NoSlash(cur) && Render(stack, cur) == s
    decreases |s|
  {
    if s != [] {
      var front := s[..|s| - 1];
      SplitRenders(front);
      var (stack, cur) := Split(front);
      JoinPush(stack, cur);
      assert s == front + [s[|s| - 1]];
    }
  }

  /** The result of rh_simplify_path. */
  function Simplified(src: CString): CString {
    var (lead, rest) := Lead([], src);
    var (stack, cur) := Split(lead);
    Walk(stack, cur, rest)
  }

  /** On every input the written index stays between 0 and the read index, nothing is written past the
      length of the input, and the result is that of the segment stack. */
  method SimplifyPath(dest: array<char>, src: CString) returns (n: nat)
    requires |src| < dest.Length
    modifies dest
    ensures n <= |src| && dest[..n] == Simplified(src) && dest[n] == '\0'
  {
    hide Split, Walk, Lead, Join, Segs;
    ghost var all := Lead([], src);
    var i, j := SkipLead(dest, src);
    SplitRenders(all.0);
    ghost var (stack, cur) := Split(all.0);
    while At(src, j) != '\0'
      invariant 0 <= i <= j <= |src|
      invariant Segs(stack) && NoSlash(cur) && dest[..i] == Render(stack, cur)
      invariant Simplified(src) == Walk(stack, cur, src[j..])
      decreases |src| - j
    {
      WalkStep(stack, cur, src, j);
      dest[i] := src[j];
      if src[j] == '/' {
        i := CloseSegment(dest, i, stack, cur);
        stack, cur := Close(stack, cur), [];
      } else {
        assert dest[..i + 1] == dest[..i] + [src[j]];
        cur := cur + [src[j]];
        i := i + 1;
      }
      j := j + 1;
    }
    WalkEnd(stack, cur, src, j);
    dest[i] := '\0';
    n := i;
  }

  lemma WalkStep(stack: seq<CString>, cur: CString, src: CString, j: nat)
    requires j < |src|
    ensures Walk(stack, cur, src[j..]) ==
            if src[j] == '/' then Walk(Close(stack, cur), [], src[j + 1..])
            else Walk(stack, cur + [src[j]], src[j + 1..])
  {
    assert src[j..][1..] == src[j + 1..];
  }

  lemma WalkEnd(stack: seq<CString>, cur: CString, src: CString, j: nat)
    requires j <= |src| && At(src, j) == '\0'
    ensures Walk(stack, cur, src[j..]) == Render(stack, cur)
  {
  }

  method SkipLead(dest: array<char>, src: CString) returns (i: nat, j: nat)
    requires |src| < dest.Length
    modifies dest
    ensures i <= j <= |src| && Lead([], src) == (dest[..i], src[j..])
  {
    i, j := 0, 0;
    assert src[0..] == src && dest[..0] == [];
    ghost var out: CString := [];
    while At(src, j) == '.' || At(src, j) == '/'
      invariant i <= j <= |src| && dest[..i] == out
      invariant Lead([], src) == Lead(out, src[j..])
      decreases |src| - j
    {
      ghost var rest := src[j..];
      if At(src, j) == '/' && At(src, j + 1) == '.' && At(src, j + 2) == '/' {
        assert DotBetweenSlashes(rest) && rest[2..] == src[j + 2..];
        j := j + 2;
      } else {
        assert !DotBetweenSlashes(rest);
        assert rest[1..] == src[j + 1..];
        dest[i] := src[j];
        assert dest[..i + 1] == out + [src[j]];
        out := out + [src[j]];
        i := i + 1;
        j := j + 1;
      }
    }
  }

  /** The inner loop: back to the slash before the last complete segment. */
  method Backtrack(dest: array<char>, i0: int, ghost stack: seq<CString>) returns (i: int)
    requires Segs(stack) && Deep(stack) && i0 == |Join(stack)| - 2
    requires |Join(stack)| <= dest.Length && dest[..|Join(stack)|] == Join(stack)
    ensures -1 <= i <= i0 && dest[..i + 1] == Join(stack[..|stack| - 1])
  {
    hide Join, Segs;
    i := i0;
    LastSegment(stack);
    ghost var m, all := |Join(stack[..|stack| - 1])|, Join(stack);
    assert forall k :: 0 <= k < |all| ==> dest[k] == dest[..|all|][k];
    while i >= 0 && dest[i] != '/'
      invariant m - 1 <= i <= i0
    {
      SlashBefore(stack, i);
      i := i - 1;
    }
    SlashBefore(stack, i);
    assert dest[..m] == dest[..|all|][..m];
  }

  lemma LastSegment(stack: seq<CString>)
    requires Deep(stack)
    ensures var m := |Join(stack[..|stack| - 1])|;
            Join(stack)[..m] == Join(stack[..|stack| - 1]) && |Join(stack)| == m + |stack[|stack| - 1]| + 1
  {
    hide Join;
    JoinPop(stack);
  }

  /** The only slash from the one before the last complete segment to the end of that segment. */
  lemma SlashBefore(stack: seq<CString>, k: int)
    requires Segs(stack) && stack != []
    requires |Join(stack[..|stack| - 1])| - 1 <= k <= |Join(stack)| - 2
    ensures k >= 0 ==> (Join(stack)[k] == '/' <==> k == |Join(stack[..|stack| - 1])| - 1)
  {
    hide Join, Deep;
    var front, last := stack[..|stack| - 1], stack[|stack| - 1];
    JoinPop(stack);
    JoinNothing();
    var m := |Join(front)|;
    if k >= m {
      assert Join(stack)[k] == last[k - m];
    } else if k >= 0 {
      JoinEnds(front);
      assert Join(stack)[k] == Join(front)[k];
    }
  }

  lemma JoinClose(stack: seq<CString>, cur: CString)
    ensures Render(Close(stack, cur), []) ==
            if cur == ".." && Deep(stack) then Join(stack[..|stack| - 1])
            else if cur == "." && Deep(stack) then Join(stack)
            else Render(stack, cur) + "/"
  {
    hide Join, Render, Deep;
    RenderNothing(Close(stack, cur));
    RenderSlash(stack, cur);
  }

  lemma RenderNothing(stack: seq<CString>)
    ensures Render(stack, []) == Join(stack)
  {
    hide Join;
  }

  lemma RenderSlash(stack: seq<CString>, cur: CString)
    ensures Join(stack + [cur]) == Render(stack, cur) + "/"
  {
    hide Join;
    JoinPush(stack, cur);
  }

  /** What the main loop does when it has written a slash at index i: the new index. */
  method CloseSegment(dest: array<char>, i0: nat, ghost stack: seq<CString>, ghost cur: CString) returns (n: nat)
    requires i0 < dest.Length && dest[i0] == '/' && dest[..i0] == Render(stack, cur)
    requires Segs(stack) && NoSlash(cur)
    ensures n <= i0 + 1 && dest[..n] == Render(Close(stack, cur), [])
  {
    hide Join, Close, Deep, Segs, NoSlash;
    ghost var before := dest[..i0];
    DotTests(stack, cur, i0);
    JoinClose(stack, cur);
    assert forall k :: 0 <= k < i0 ==> dest[k] == before[k];
    assert dest[..|Join(stack)|] == Join(stack);
    var i: int := i0;
    if i >= 4 && dest[i - 1] == '.' && dest[i - 2] == '.' && dest[i - 3] == '/' {
      i := Backtrack(dest, i - 4, stack);
    } else if i >= 3 && dest[i - 1] == '.' && dest[i - 2] == '/' {
      i := i - 2;
    } else {
      assert dest[..i + 1] == before + "/";
    }
    n := i + 1;
  }

  // ------------------------------------------------------------------------------------------
  // Segments

  function CloseAll(stack: seq<CString>, segs: seq<CString>): seq<CString>
    decreases |segs|
  {
    if segs == [] then stack else CloseAll(Close(stack, segs[0]), segs[1..])
  }

  lemma {:induction false} JoinFront(seg: CString, segs: seq<CString>)
    ensures Join([seg] + segs) == (seg + "/") + Join(segs)
    decreases |segs|
  {
    hide Join;
    var all := [seg] + segs;
    JoinPop(all);
    JoinNothing();
    if segs == [] {
      assert all == [seg] && all[..0] == [];
      assert (seg + "/") + [] == seg + "/" == [] + (seg + "/");
    } else {
      var front := segs[..|segs| - 1];
      assert all[..|all| - 1] == [seg] + front && all[|all| - 1] == segs[|segs| - 1];
      JoinPop(segs);
      JoinFront(seg, front);
    }
  }

  lemma {:induction false} WalkText(stack: seq<CString>, cur: CString, text: CString, rest: CString)
    requires NoSlash(text)
    ensures Walk(stack, cur, text + rest) == Walk(stack, cur + text, rest)
    decreases |text|
  {
    if text == [] {
      assert text + rest == rest && cur + text == cur;
    } else {
      assert (text + rest)[1..] == text[1..] + rest;
      assert (cur + [text[0]]) + text[1..] == cur + text;
      WalkText(stack, cur + [text[0]], text[1..], rest);
    }
  }

  lemma {:induction false} WalkSegments(stack: seq<CString>, segs: seq<CString>, last: CString)
    requires Segs(segs) && NoSlash(last)
    ensures Walk(stack, [], Render(segs, last)) == Render(CloseAll(stack, segs), last)
    decreases |segs|
  {
    if segs == [] {
      assert Render(segs, last) == last + [];
      WalkText(stack, [], last, []);
      assert [] + last == last;
    } else {
      var seg, rest := segs[0], Render(segs[1..], last);
      assert segs == [seg] + segs[1..];
      JoinFront(seg, segs[1..]);
      assert Render(segs, last) == seg + ("/" + rest);
      WalkText(stack, [], seg, "/" + rest);
      assert [] + seg == seg && ("/" + rest)[1..] == rest;
      WalkSegments(Close(stack, seg), segs[1..], last);
    }
  }

  lemma {:induction false} SplitOfRender(stack: seq<CString>, cur: CString)
    requires Segs(stack) && NoSlash(cur)
    ensures Split(Render(stack, cur)) == (stack, cur)
    decreases |stack|, |cur|
  {
    var s := Render(stack, cur);
    if cur != [] {
      var short := cur[..|cur| - 1];
      assert s[..|s| - 1] == Render(stack, short) && s[|s| - 1] == cur[|cur| - 1];
      SplitOfRender(stack, short);
      assert short + [cur[|cur| - 1]] == cur;
    } else if stack != [] {
      JoinPop(stack);
      var front, last := stack[..|stack| - 1], stack[|stack| - 1];
      assert s == Join(front) + (last + "/");
      assert s[..|s| - 1] == Render(front, last) && s[|s| - 1] == '/';
      SplitOfRender(front, last);
      assert stack == front + [last];
    }
  }

  // ------------------------------------------------------------------------------------------
  // Section 5.2.4 of RFC 3986

  predicate IsDots(seg: CString) {
    seg == "." || seg == ".."
  }

  /** Dot segments removed from the complete segments of an absolute path; `..` at the root is void. */
  function RemoveDots(out: seq<CString>, segs: seq<CString>): seq<CString>
    decreases |segs|
  {
    if segs == [] then out
    else if segs[0] == ".." then RemoveDots(if out == [] then [] else out[..|out| - 1], segs[1..])
    else if segs[0] == "." then RemoveDots(out, segs[1..])
    else RemoveDots(out + [segs[0]], segs[1..])
  }

  /** No prefix of the segments goes above the root, starting `depth` segments below it. */
  predicate NeverClimbs(depth: nat, segs: seq<CString>)
    decreases |segs|
  {
    segs == [] ||
    if segs[0] == ".." then depth > 0 && NeverClimbs(depth - 1, segs[1..])
    else NeverClimbs(if segs[0] == "." then depth else depth + 1, segs[1..])
  }

  /** scheme://host as complete segments. */
  predicate IsOrigin(base: seq<CString>) {
    && Segs(base) && |base| == 3 && base[0] != [] && base[0][0] != '.'
    && !IsDots(base[0]) && base[1] == [] && !IsDots(base[2])
  }

  /** The normalised form of a path text behind the origin's slash; the last segment is kept as it is. */
  function Normal(path: CString): CString {
    var (segs, last) := Split(path);
    Render(RemoveDots([], segs), last)
  }

  predicate PathNeverClimbs(path: CString) {
    NeverClimbs(0, Split(path).0)
  }

  lemma {:induction false} CloseOverOrigin(base: seq<CString>, out: seq<CString>, segs: seq<CString>)
    requires IsOrigin(base) && NeverClimbs(|out|, segs)
    ensures CloseAll(base + out, segs) == base + RemoveDots(out, segs)
    decreases |segs|
  {
    if segs != [] {
      var seg, stack := segs[0], base + out;
      if seg == ".." {
        assert stack[..|stack| - 1] == base + out[..|out| - 1];
        CloseOverOrigin(base, out[..|out| - 1], segs[1..]);
      } else if seg == "." {
        CloseOverOrigin(base, out, segs[1..]);
      } else {
        assert stack + [seg] == base + (out + [seg]);
        CloseOverOrigin(base, out + [seg], segs[1..]);
      }
    }
  }

  /** A stack that has lost part of the origin never catches up again. */
  lemma {:induction false} CloseStaysShort(stack: seq<CString>, out: seq<CString>, segs: seq<CString>)
    requires |stack| <= 2 + |out|
    ensures |CloseAll(stack, segs)| <= 2 + |RemoveDots(out, segs)|
    decreases |segs|
  {
    if segs != [] {
      var seg := segs[0];
      var out' := if seg == ".." then if out == [] then [] else out[..|out| - 1]
                  else if seg == "." then out else out + [seg];
      CloseStaysShort(Close(stack, seg), out', segs[1..]);
    }
  }

  lemma {:induction false} CloseAfterClimb(base: seq<CString>, out: seq<CString>, segs: seq<CString>)
    requires IsOrigin(base) && !NeverClimbs(|out|, segs)
    ensures |CloseAll(base + out, segs)| <= 2 + |RemoveDots(out, segs)|
    decreases |segs|
  {
    var seg, stack := segs[0], base + out;
    if seg == ".." && out == [] {
      CloseStaysShort(stack[..|stack| - 1], [], segs[1..]);
    } else if seg == ".." {
      assert stack[..|stack| - 1] == base + out[..|out| - 1];
      CloseAfterClimb(base, out[..|out| - 1], segs[1..]);
    } else if seg == "." {
      CloseAfterClimb(base, out, segs[1..]);
    } else {
      assert stack + [seg] == base + (out + [seg]);
      CloseAfterClimb(base, out + [seg], segs[1..]);
    }
  }

  lemma CloseOrigin(base: seq<CString>)
    requires IsOrigin(base)
    ensures CloseAll([], base) == base
  {
    var a, b := [base[0]], [base[0], base[1]];
    assert base[1..] == [base[1], base[2]] && base[1..][1..] == [base[2]] && base[1..][1..][1..] == [];
    assert [] + [base[0]] == a && a + [base[1]] == b && b + [base[2]] == base;
    assert Close([], base[0]) == a && Close(a, base[1]) == b && Close(b, base[2]) == base;
    assert CloseAll(base, []) == base && CloseAll(b, [base[2]]) == CloseAll(base, []);
    assert CloseAll(a, [base[1], base[2]]) == CloseAll(b, [base[2]]);
  }

  lemma {:induction false} CloseAppend(stack: seq<CString>, a: seq<CString>, b: seq<CString>)
    ensures CloseAll(stack, a + b) == CloseAll(CloseAll(stack, a), b)
    decreases |a|
  {
    if a == [] {
      assert a + b == b;
    } else {
      assert (a + b)[1..] == a[1..] + b;
      CloseAppend(Close(stack, a[0]), a[1..], b);
    }
  }

  lemma {:induction false} JoinAppend(a: seq<CString>, b: seq<CString>)
    ensures Join(a + b) == Join(a) + Join(b)
    decreases |b|
  {
    hide Join;
    if b == [] {
      assert a + b == a;
      JoinNothing();
    } else {
      var front := b[..|b| - 1];
      JoinAppend(a, front);
      JoinPop(b);
      JoinPop(a + b);
      assert (a + b)[..|a + b| - 1] == a + front;
    }
  }

  /** What simplifying a URL text computes, for every path. */
  lemma SimplifiedUrl(base: seq<CString>, path: CString)
    requires IsOrigin(base)
    ensures var (segs, last) := Split(path);
            Simplified(Join(base) + path) == Render(CloseAll(base, segs), last)
  {
    hide Split, Walk, CloseAll, Join;
    var (segs, last) := Split(path);
    SplitRenders(path);
    JoinAppend(base, segs);
    var src := Join(base) + path;
    RenderOver(base, segs, last);
    OriginStart(base, path);
    SplitNothing();
    WalkSegments([], base + segs, last);
    CloseAppend([], base, segs);
    CloseOrigin(base);
  }

  lemma RenderOver(base: seq<CString>, segs: seq<CString>, last: CString)
    ensures Join(base) + Render(segs, last) == Render(base + segs, last)
  {
    hide Join;
    JoinAppend(base, segs);
  }

  lemma SplitNothing()
    ensures Split([]) == ([], [])
  {
  }

  lemma OriginStart(base: seq<CString>, path: CString)
    requires IsOrigin(base)
    ensures Lead([], Join(base) + path) == ([], Join(base) + path)
  {
    OriginFirst(base, path);
  }

  /** Simplifying a URL normalises its path as RFC 3986 does if and only if the path never climbs above
      the root. Above the root the code removes the host, where the RFC ignores the segment. */
  lemma SimplifyIsNormalise(base: seq<CString>, path: CString)
    requires IsOrigin(base)
    ensures Simplified(Join(base) + path) == Join(base) + Normal(path) <==> PathNeverClimbs(path)
  {
    hide Join, Render, Split, RemoveDots, CloseAll, Simplified;
    var (segs, last) := Split(path);
    var normal := RemoveDots([], segs);
    SimplifiedUrl(base, path);
    SplitRenders(path);
    RenderOver(base, normal, last);
    assert base + [] == base;
    if NeverClimbs(0, segs) {
      CloseOverOrigin(base, [], segs);
    } else {
      CloseAfterClimb(base, [], segs);
      CloseSegs(base, segs);
      RemoveDotsFacts([], segs);
      SplitOfRender(CloseAll(base, segs), last);
      SplitOfRender(base + normal, last);
    }
  }

  lemma {:induction false} CloseSegs(stack: seq<CString>, segs: seq<CString>)
    requires Segs(stack) && Segs(segs)
    ensures Segs(CloseAll(stack, segs))
    decreases |segs|
  {
    if segs != [] {
      CloseSegs(Close(stack, segs[0]), segs[1..]);
    }
  }

  predicate NoDots(segs: seq<CString>) {
    forall k :: 0 <= k < |segs| ==> !IsDots(segs[k])
  }

  lemma {:induction false} RemoveDotsFacts(out: seq<CString>, segs: seq<CString>)
    requires Segs(out) && Segs(segs) && NoDots(out)
    ensures Segs(RemoveDots(out, segs)) && NoDots(RemoveDots(out, segs))
    decreases |segs|
  {
    if segs != [] {
      var seg := segs[0];
      var out' := if seg == ".." then if out == [] then [] else out[..|out| - 1]
                  else if seg == "." then out else out + [seg];
      RemoveDotsFacts(out', segs[1..]);
    }
  }

  // ------------------------------------------------------------------------------------------
  // Simplifying twice

  predicate OnlyDotsAndSlashes(s: seq<char>) {
    forall k :: 0 <= k < |s| ==> s[k] == '.' || s[k] == '/'
  }

  /** `/./` ends at j, with a character before it. */
  predicate DotEndsAt(s: seq<char>, j: nat)
    requires j < |s|
  {
    j >= 3 && s[j] == '/' && s[j - 1] == '.' && s[j - 2] == '/'
  }

  /** `/../` ends at j, with a character before it. */
  predicate DotsEndAt(s: seq<char>, j: nat)
    requires j < |s|
  {
    j >= 4 && s[j] == '/' && s[j - 1] == '.' && s[j - 2] == '.' && s[j - 3] == '/'
  }

  /** No test of the main loop succeeds on the text, and no `/./` but at its front is left to the first loop. */
  predicate Settled(s: seq<char>) {
    forall j :: 0 <= j < |s| ==> !DotEndsAt(s, j) && (DotsEndAt(s, j) ==> OnlyDotsAndSlashes(s[..j]))
  }

  lemma SettledPrefix(s: seq<char>, n: nat)
    requires Settled(s) && n <= |s|
    ensures Settled(s[..n])
  {
    forall j | 0 <= j < n
      ensures !DotEndsAt(s[..n], j) && (DotsEndAt(s[..n], j) ==> OnlyDotsAndSlashes(s[..n][..j]))
    {
      assert !DotEndsAt(s, j) && (DotsEndAt(s, j) ==> OnlyDotsAndSlashes(s[..j]));
      assert s[..n][..j] == s[..j];
    }
  }

  lemma SettledPush(s: seq<char>, c: char)
    requires Settled(s)
    requires var n := |s|; !DotEndsAt(s + [c], n) && !DotsEndAt(s + [c], n)
    ensures Settled(s + [c])
  {
    var t := s + [c];
    forall j | 0 <= j < |t|
      ensures !DotEndsAt(t, j) && (DotsEndAt(t, j) ==> OnlyDotsAndSlashes(t[..j]))
    {
      if j < |s| {
        assert !DotEndsAt(s, j) && (DotsEndAt(s, j) ==> OnlyDotsAndSlashes(s[..j]));
        assert t[..j] == s[..j];
      }
    }
  }

  /** A segment that is complete leaves a settled text. */
  lemma SettledClose(stack: seq<CString>, cur: CString)
    requires Segs(stack) && NoSlash(cur) && Settled(Render(stack, cur))
    ensures Settled(Render(Close(stack, cur), []))
  {
    hide Join, Settled, Segs, NoSlash, Close, Deep;
    var s := Render(stack, cur);
    JoinClose(stack, cur);
    DotTests(stack, cur, |s|);
    if cur == ".." && Deep(stack) {
      DeepIsSome(stack);
      JoinPop(stack);
      var front := Join(stack[..|stack| - 1]);
      assert s[..|front|] == front;
      SettledPrefix(s, |front|);
    } else if cur == "." && Deep(stack) {
      assert s[..|Join(stack)|] == Join(stack);
      SettledPrefix(s, |Join(stack)|);
    } else {
      SettledPush(s, '/');
    }
  }

  lemma DeepIsSome(stack: seq<CString>)
    requires Deep(stack)
    ensures stack != []
  {
  }

  lemma {:induction false} WalkSettles(stack: seq<CString>, cur: CString, s: CString)
    requires Segs(stack) && NoSlash(cur) && Settled(Render(stack, cur))
    ensures Settled(Walk(stack, cur, s))
    decreases |s|
  {
    hide Settled, Render, Close;
    if s != [] {
      if s[0] == '/' {
        SettledClose(stack, cur);
        WalkSettles(Close(stack, cur), [], s[1..]);
      } else {
        RenderPush(stack, cur, s[0]);
        SettledPush(Render(stack, cur), s[0]);
        WalkSettles(stack, cur + [s[0]], s[1..]);
      }
    }
  }

  lemma RenderPush(stack: seq<CString>, cur: CString, c: char)
    requires c != '\0'
    ensures Render(stack, cur + [c]) == Render(stack, cur) + [c]
  {
    hide Join;
  }

  /** What the first loop has copied never ends a `/./`. */
  predicate Copying(out: CString, s: CString) {
    && OnlyDotsAndSlashes(out) && Settled(out)
    && (out != [] && out[|out| - 1] == '/' && |s| >= 2 ==> !(s[0] == '.' && s[1] == '/'))
    && (|out| >= 2 && out[|out| - 1] == '.' && out[|out| - 2] == '/' && s != [] ==> s[0] != '/')
  }

  lemma {:induction false} LeadSettles(out: CString, s: CString)
    requires Copying(out, s)
    ensures Settled(Lead(out, s).0)
    decreases |s|
  {
    hide Settled;
    if s != [] && (s[0] == '.' || s[0] == '/') {
      if DotBetweenSlashes(s) {
        LeadSettles(out, s[2..]);
      } else {
        SettledCopy(out, s[0]);
        LeadSettles(out + [s[0]], s[1..]);
      }
    }
  }

  lemma SettledCopy(out: CString, c: char)
    requires OnlyDotsAndSlashes(out) && Settled(out)
    requires |out| >= 2 && out[|out| - 1] == '.' && out[|out| - 2] == '/' ==> c != '/'
    ensures Settled(out + [c])
  {
    var t := out + [c];
    forall j | 0 <= j < |t|
      ensures !DotEndsAt(t, j) && (DotsEndAt(t, j) ==> OnlyDotsAndSlashes(t[..j]))
    {
      assert t[..j] == out[..j];
      assert j < |out| ==> !DotEndsAt(out, j);
    }
  }

  lemma SimplifiedIsSettled(src: CString)
    ensures Settled(Simplified(src))
  {
    hide Settled, Walk, Split;
    var (lead, rest) := Lead([], src);
    NothingSettled();
    LeadSettles([], src);
    SplitRenders(lead);
    var (stack, cur) := Split(lead);
    WalkSettles(stack, cur, rest);
  }

  lemma NothingSettled()
    ensures Settled([])
  {
  }

  /** The first loop leaves a settled text as it is. */
  lemma {:induction false} LeadKeeps(t: CString, p: nat) returns (k: nat)
    requires p <= |t| && Settled(t) && !DotBetweenSlashes(t)
    ensures p <= k <= |t| && Lead(t[..p], t[p..]) == (t[..k], t[k..])
    ensures k < |t| ==> t[k] != '.' && t[k] != '/'
    decreases |t| - p
  {
    if p == |t| || (t[p] != '.' && t[p] != '/') {
      k := p;
    } else {
      if DotBetweenSlashes(t[p..]) {
        assert t[p] == '/' && t[p + 1] == '.' && t[p + 2] == '/';
        assert p >= 1 ==> DotEndsAt(t, p + 2);
      }
      assert t[..p] + [t[p]] == t[..p + 1] && t[p..][1..] == t[p + 1..];
      k := LeadKeeps(t, p + 1);
    }
  }

  /** The main loop leaves the rest of it as it is. */
  lemma {:induction false} WalkKeeps(t: CString, k: nat, j: nat)
    requires k <= j <= |t| && Settled(t) && (k < |t| ==> t[k] != '.' && t[k] != '/')
    ensures var (stack, cur) := Split(t[..j]); Walk(stack, cur, t[j..]) == t
    decreases |t| - j
  {
    hide Join, Settled, Split, Walk;
    var s := t[..j];
    var (stack, cur) := Split(s);
    SplitRenders(s);
    if j == |t| {
      assert s == t && t[j..] == [];
      WalkNothing(stack, cur);
    } else {
      WalkStep(stack, cur, t, j);
      SplitStep(t, j);
      if t[j] == '/' {
        SettledStays(t, k, j, stack, cur);
      }
      WalkKeeps(t, k, j + 1);
    }
  }

  lemma SplitStep(t: CString, j: nat)
    requires j < |t|
    ensures var (stack, cur) := Split(t[..j]);
            Split(t[..j + 1]) == if t[j] == '/' then (stack + [cur], []) else (stack, cur + [t[j]])
  {
    assert t[..j + 1][..j] == t[..j];
  }

  lemma SettledStays(t: CString, k: nat, j: nat, stack: seq<CString>, cur: CString)
    requires k < j < |t| && Settled(t) && t[k] != '.' && t[k] != '/' && t[j] == '/'
    requires Segs(stack) && NoSlash(cur) && Render(stack, cur) == t[..j]
    ensures Close(stack, cur) == stack + [cur]
  {
    hide Render, Deep, Settled;
    DotTests(stack, cur, j);
    SettledBehind(t, k, j);
  }

  lemma SettledBehind(t: CString, k: nat, j: nat)
    requires k < j < |t| && Settled(t) && t[k] != '.' && t[k] != '/'
    ensures !DotEndsAt(t, j) && !DotsEndAt(t, j)
  {
    assert t[..j][k] == t[k];
  }

  lemma {:induction false} WalkShort(stack: seq<CString>, cur: CString, s: CString)
    ensures |Walk(stack, cur, s)| <= |Render(stack, cur)| + |s|
    decreases |s|
  {
    hide Render, Close;
    if s != [] {
      if s[0] == '/' {
        CloseShort(stack, cur);
        WalkShort(Close(stack, cur), [], s[1..]);
      } else {
        RenderPush(stack, cur, s[0]);
        WalkShort(stack, cur + [s[0]], s[1..]);
      }
    }
  }

  lemma CloseShort(stack: seq<CString>, cur: CString)
    ensures |Render(Close(stack, cur), [])| <= |Render(stack, cur)| + 1
  {
    hide Join, Close;
    JoinClose(stack, cur);
    if Deep(stack) {
      JoinPop(stack);
    }
  }

  lemma LosesDot(t: CString)
    requires DotBetweenSlashes(t)
    ensures |Simplified(t)| < |t|
  {
    hide Split, Walk;
    var (lead, rest) := Lead([], t);
    assert Lead([], t) == Lead([], t[2..]);
    SplitRenders(lead);
    var (stack, cur) := Split(lead);
    WalkShort(stack, cur, rest);
  }

  /** Simplifying the result again changes nothing if and only if it does not begin with `/./`. */
  lemma SimplifyTwiceIff(src: CString)
    ensures var once := Simplified(src); Simplified(once) == once <==> !("/./" <= once)
  {
    hide Settled, Split, Walk, Lead, Simplified;
    var t := Simplified(src);
    SimplifiedIsSettled(src);
    BeginsWithDot(t);
    if DotBetweenSlashes(t) {
      LosesDot(t);
    } else {
      var k := LeadKeeps(t, 0);
      assert t[..0] == [] && t[0..] == t;
      WalkKeeps(t, k, k);
      SimplifiedIs(t, t[..k], t[k..]);
    }
  }

  lemma BeginsWithDot(t: CString)
    ensures DotBetweenSlashes(t) <==> "/./" <= t
  {
  }

  lemma SimplifiedIs(src: CString, lead: CString, rest: CString)
    requires Lead([], src) == (lead, rest)
    ensures var (stack, cur) := Split(lead); Simplified(src) == Walk(stack, cur, rest)
  {
    hide Split, Walk, Lead;
  }

  /** So it does on a URL whose path never climbs above the root. */
  lemma SimplifyIsIdempotent(base: seq<CString>, path: CString)
    requires IsOrigin(base) && PathNeverClimbs(path)
    ensures var once := Simplified(Join(base) + path); Simplified(once) == once
  {
    hide Simplified, Join, Normal, PathNeverClimbs;
    SimplifyIsNormalise(base, path);
    SimplifyTwiceIff(Join(base) + path);
    OriginFirst(base, Normal(path));
  }

  lemma OriginFirst(base: seq<CString>, path: CString)
    requires IsOrigin(base)
    ensures Join(base) + path != [] && (Join(base) + path)[0] == base[0][0]
  {
    hide Join;
    assert base == [base[0]] + base[1..];
    JoinFront(base[0], base[1..]);
  }

  /** A path that climbs loses the host. */
  lemma ClimbingLosesHost()
    ensures Simplified("http://host/" + "../x") == "http://x"
  {
    hide Split, Walk, Lead, Join, Simplified, RemoveDots;
    var base: seq<CString> := ["http:", "", "host"];
    OriginText("http:", "host");
    DotsText();
    SplitOfRender([".."], "x");
    SimplifiedUrl(base, "../x");
    CloseOne(base, "..");
    assert base[..2] == ["http:", ""] && Join(base) == "http://host/";
    assert Simplified(Join(base) + "../x") == Render(base[..2], "x") == "http://" + "x";
  }

  /** Such a path can give a text that begins with `/./`, and simplifying that again loses the dot. */
  lemma ClimbingIsNotIdempotent()
    ensures Simplified("http://host/" + "../../..//./x") == "/./x" && Simplified("/./x") == "/x"
  {
    hide Split, Walk, Lead, Join, Simplified, RemoveDots, CloseAll;
    var base: seq<CString> := ["http:", "", "host"];
    var segs: seq<CString> := ["..", "..", "..", "", "."];
    OriginText("http:", "host");
    FiveText();
    SplitOfRender(segs, "x");
    SimplifiedUrl(base, "../../..//./x");
    FiveClosed(base);
    DotText();
    DotLead();
    assert Join(base) == "http://host/";
    assert Simplified(Join(base) + "../../..//./x") == Render(["", "."], "x");
  }

  lemma FiveText()
    ensures Render(["..", "..", "..", "", "."], "x") == "../../..//./x"
  {
    hide Join;
    var a: seq<CString>, b: seq<CString>, c: seq<CString> := [".."], ["..", ".."], ["..", "..", ".."];
    var d: seq<CString>, e: seq<CString> := ["..", "..", "..", ""], ["..", "..", "..", "", "."];
    JoinNothing();
    JoinPush([], "..");
    JoinPush(a, "..");
    JoinPush(b, "..");
    JoinPush(c, "");
    JoinPush(d, ".");
    assert [] + [".."] == a && a + [".."] == b && b + [".."] == c && c + [""] == d && d + ["."] == e;
  }

  lemma FiveClosed(base: seq<CString>)
    requires base == ["http:", "", "host"]
    ensures CloseAll(base, ["..", "..", "..", "", "."]) == ["", "."]
  {
    hide CloseAll;
    var one: seq<CString>, two: seq<CString>, none: seq<CString> := ["http:"], ["http:", ""], [];
    var d: seq<CString>, c: seq<CString> := ["."], [""] + ["."];
    var b: seq<CString>, a: seq<CString> := [".."] + c, [".."] + ([".."] + c);
    CloseNext(base, "..", a);
    assert Close(base, "..") == two;
    CloseNext(two, "..", b);
    assert Close(two, "..") == one;
    CloseNext(one, "..", c);
    assert Close(one, "..") == none;
    CloseNext(none, "", d);
    assert Close(none, "") == [""];
    CloseOne([""], ".");
    assert Close([""], ".") == ["", "."];
    assert [".."] + a == ["..", "..", "..", "", "."];
  }

  lemma CloseNext(stack: seq<CString>, seg: CString, segs: seq<CString>)
    ensures CloseAll(stack, [seg] + segs) == CloseAll(Close(stack, seg), segs)
  {
    assert ([seg] + segs)[1..] == segs;
  }

  lemma DotText()
    ensures Render(["", "."], "x") == "/./x"
  {
    hide Join;
    JoinNothing();
    JoinPush([], "");
    JoinPush([""], ".");
    assert [] + [""] == [""] && [""] + ["."] == ["", "."];
  }

  lemma DotLead()
    ensures Simplified("/./x") == "/x"
  {
    hide Split, Walk;
    assert "/./x"[2..] == "/x" && "/x"[1..] == "x";
    assert [] + ['/'] == "/" && "/./x"[0] == '/' && "/./x"[1] == '.' && "/./x"[2] == '/';
    assert Lead([], "/./x") == Lead([], "/x");
    assert Lead([], "/x") == Lead("/", "x");
    assert Lead("/", "x") == ("/", "x");
    SlashOnly();
    WalkText([""], [], "x", []);
    assert "x" + [] == "x" && [] + "x" == "x";
    WalkNothing([""], "x");
    JoinSlash();
  }

  lemma SlashOnly()
    ensures Split("/") == ([""], [])
  {
    JoinSlash();
    SplitOfRender([""], []);
  }

  lemma JoinSlash()
    ensures Join([""]) == "/" && Render([""], []) == "/" && Render([""], "x") == "/x"
  {
    assert [""][..0] == [];
  }

  lemma WalkNothing(stack: seq<CString>, cur: CString)
    ensures Walk(stack, cur, []) == Render(stack, cur)
  {
  }

  lemma CloseOne(stack: seq<CString>, seg: CString)
    ensures CloseAll(stack, [seg]) == Close(stack, seg)
  {
    assert [seg][1..] == [];
  }

  lemma DotsText()
    ensures Render([".."], "x") == "../x"
  {
    JoinFront("..", []);
    assert [".."] + [] == [".."];
  }

  lemma OriginText(scheme: CString, host: CString)
    ensures Join([scheme, ""]) == scheme + "//"
    ensures Join([scheme, "", host]) == scheme + "//" + host + "/"
  {
    hide Join;
    var a, b: seq<CString>, c: seq<CString> := [scheme], [scheme, ""], [scheme, "", host];
    JoinNothing();
    JoinPush([], scheme);
    JoinPush(a, "");
    JoinPush(b, host);
    assert [] + [scheme] == a && a + [""] == b && b + [host] == c;
    assert Join(a) == scheme + "/";
  }

  // ------------------------------------------------------------------------------------------
  // rh_path_join

  function SkipSlashes(s: CString): (r: CString)
    ensures |r| <= |s| && (r != [] ==> r[0] != '/')
    ensures s != [] && s[0] != '/' ==> r == s
  {
    if s != [] && s[0] == '/' then SkipSlashes(s[1..]) else s
  }

  /** All leading slashes go, and nothing else. */
  lemma {:induction false} SlashesAreSkipped(slashes: CString, s: CString)
    requires (forall k :: 0 <= k < |slashes| ==> slashes[k] == '/') && (s != [] ==> s[0] != '/')
    ensures SkipSlashes(slashes + s) == s
    decreases |slashes|
  {
    if slashes == [] {
      assert slashes + s == s;
    } else {
      assert (slashes + s)[1..] == slashes[1..] + s;
      SlashesAreSkipped(slashes[1..], s);
    }
  }

  method FirstNonSlash(s: CString) returns (k: nat)
    ensures k <= |s| && s[k..] == SkipSlashes(s)
  {
    hide SkipSlashes;
    k := 0;
    assert s[0..] == s;
    while At(s, k) == '/'
      invariant k <= |s| && SkipSlashes(s) == SkipSlashes(s[k..])
      decreases |s| - k
    {
      SkipStep(s, k);
      k := k + 1;
    }
    SkipStep(s, k);
  }

  lemma SkipStep(s: CString, k: nat)
    requires k <= |s|
    ensures SkipSlashes(s[k..]) == if At(s, k) == '/' then SkipSlashes(s[k + 1..]) else s[k..]
  {
    if At(s, k) == '/' {
      DropTwice(s, k, 1);
    }
  }

  /** One part: what is written for it, and what follows in size - |it|. */
  function JoinPart(part: CString, last: bool, size: nat): (r: CString)
    requires size > 0
    ensures |r| <= size && (last ==> |r| < size)
  {
    var t := Take(SkipSlashes(part), size - 1);
    if !last && t != [] && t[|t| - 1] != '/' then t + "/" else t
  }

  function JoinParts(parts: seq<CString>, size: nat): (r: CString)
    ensures |r| <= size
    decreases |parts|
  {
    hide JoinPart;
    if parts == [] || size == 0 then []
    else
      var part := JoinPart(parts[0], |parts| == 1, size);
      part + JoinParts(parts[1..], size - |part|)
  }

  lemma Appended(before: seq<char>, after: seq<char>, at: nat, n: nat, text: seq<char>)
    requires at + n < |after| == |before| && SameOutside(after, before, at, at + n + 1)
    requires after[at..at + n] == text
    ensures after[..at + n] == before[..at] + text
    ensures n > 0 ==> after[at + n - 1] == text[n - 1]
  {
    SameBefore(after, before, at, at + n + 1, 0);
  }

  lemma PartIs(part: CString, src: CString, last: bool, size: nat, t: seq<char>)
    requires size > 0 && src == SkipSlashes(part) && t == Take(src, size - 1)
    ensures JoinPart(part, last, size) == if !last && t != [] && t[|t| - 1] != '/' then t + "/" else t
  {
    hide SkipSlashes;
  }

  method WritePart(dest: array<char>, p0: nat, part: CString, last: bool) returns (p: nat)
    requires p0 < dest.Length
    modifies dest
    ensures p == p0 + |JoinPart(part, last, dest.Length - p0)| && p <= dest.Length
    ensures dest[..p] == old(dest[..p0]) + JoinPart(part, last, dest.Length - p0)
    ensures last ==> p < dest.Length && dest[p] == '\0'
  {
    hide SkipSlashes, SameOutside, JoinPart;
    ghost var was := dest[..];
    var k := FirstNonSlash(part);
    var src := part[k..];
    var n := StrNCpy(dest, p0, src, dest.Length - p0);
    ghost var t := Take(src, dest.Length - p0 - 1);
    Appended(was, dest[..], p0, n, t);
    PartIs(part, src, last, dest.Length - p0, t);
    p := p0 + n;
    if !last && n > 0 && dest[p - 1] != '/' {
      dest[p] := '/';
      p := p + 1;
    }
  }

  /** The parts with single slashes between them, cut at the size. The text is only left without its
      terminator if it fills the whole buffer. */
  method PathJoin(dest: array<char>, parts: seq<CString>)
    requires parts != []
    modifies dest
    ensures var r := JoinParts(parts, dest.Length);
            dest[..|r|] == r && (|r| < dest.Length ==> dest[|r|] == '\0')
  {
    hide JoinPart, JoinParts;
    var i, p := 0, 0;
    assert dest[..0] == [] && parts[0..] == parts;
    while i < |parts| && dest.Length - p > 0
      invariant 0 <= i <= |parts| && 0 <= p <= dest.Length
      invariant JoinParts(parts, dest.Length) == dest[..p] + JoinParts(parts[i..], dest.Length - p)
      invariant i == |parts| && p < dest.Length ==> dest[p] == '\0'
    {
      JoinStep(parts, i, dest.Length - p);
      p := WritePart(dest, p, parts[i], i == |parts| - 1);
      i := i + 1;
    }
    JoinEnd(parts[i..], dest.Length - p);
  }

  lemma JoinStep(parts: seq<CString>, i: nat, size: nat)
    requires i < |parts| && size > 0
    ensures var part := JoinPart(parts[i], i == |parts| - 1, size);
            JoinParts(parts[i..], size) == part + JoinParts(parts[i + 1..], size - |part|)
  {
    hide JoinPart;
    assert parts[i..][1..] == parts[i + 1..];
  }

  lemma JoinEnd(parts: seq<CString>, size: nat)
    requires parts == [] || size == 0
    ensures JoinParts(parts, size) == []
  {
  }
}
