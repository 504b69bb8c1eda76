/** The relative redirect of req_request: the address of the next request is the origin of this one,
    joined with the directory of its URI and the Location header, and simplified. */
module Redirects {
  import opened CStrings
  import opened Numbers
  import opened Urls
  import Paths

  const TEMP_SIZE := 2 * MAX_URI_LENGTH

  /** Scheme, host, and the port if it is not the default one. */
  function Origin(u: Url): CString {
    Scheme(u.secured) + u.host + PrintPort(u.secured, u.port)
  }

  /** A URI up to its last slash; nothing if that is the first character or there is none. */
  function DirOf(uri: CString): (r: CString)
    ensures |r| <= |uri| && r == uri[..|r|]
  {
    if uri == [] then [] else if uri[|uri| - 1] == '/' then uri[..|uri| - 1] else DirOf(uri[..|uri| - 1])
  }

  function RedirectText(u: Url, location: CString): CString {
    Paths.Simplified(Paths.JoinParts([Origin(u), DirOf(u.uri), location], TEMP_SIZE))
  }

  // ------------------------------------------------------------------------------------------
  // The code

  method CutToDirectory(uri: array<char>)
    requires Terminated(uri[..])
    modifies uri
    ensures Terminated(uri[..]) && CStr(uri[..]) == DirOf(CStr(old(uri[..])))
  {
    hide CStr, DirOf;
    ghost var s := CStr(uri[..]);
    assert uri[0..] == uri[..];
    var n := StrLen(uri, 0);
    DirStart(s);
    while n > 0 && uri[n] != '/'
      invariant 0 <= n <= |s| && DirOf(s) == DirUpTo(s, n) && uri[..] == old(uri[..])
    {
      DirStep(s, n);
      n := n - 1;
    }
    assert n < |s| ==> s[n] == uri[n];
    DirEnd(s, n);
    uri[n] := '\0';
    assert uri[..][..n] == s[..n];
    CStrUnique(uri[..], n);
  }

  /** The directory of a text whose slashes behind n are known not to count. */
  function DirUpTo(s: CString, n: nat): CString
    requires n <= |s|
  {
    if n < |s| && s[n] == '/' then s[..n] else DirOf(s[..n])
  }

  lemma DirStart(s: CString)
    ensures DirUpTo(s, |s|) == DirOf(s)
  {
    assert s[..|s|] == s;
  }

  lemma DirStep(s: CString, n: nat)
    requires 0 < n <= |s| && (n < |s| ==> s[n] != '/')
    ensures DirUpTo(s, n) == DirUpTo(s, n - 1)
  {
    assert s[..n][..n - 1] == s[..n - 1] && s[..n][n - 1] == s[n - 1];
  }

  lemma DirEnd(s: CString, n: nat)
    requires n <= |s| && (n == 0 || (n < |s| && s[n] == '/'))
    ensures DirUpTo(s, n) == s[..n]
  {
  }

  /** protocol, host and port printed one behind the other. */
  method WriteOrigin(dest: array<char>, splitted: UrlSplitted, ghost u: Url) returns (end: nat)
    requires splitted.Holds(u) && 0 < u.port <= 0xFFFF && |u.host| <= MAX_CHAR_ON_HOST
    requires dest.Length == TEMP_SIZE && dest != splitted.host && dest != splitted.uri
    modifies dest
    ensures end == |Origin(u)| < dest.Length && dest[..end] == Origin(u) && dest[end] == '\0'
    ensures splitted.Holds(u)
  {
    hide CStr, Decimal;
    PrintedPort(u.secured, u.port);
    var portStr := WritePort(splitted.secured, splitted.port);
    var protocol := new char[9];
    var n := StrCpy(protocol, 0, "https://");
    if !splitted.secured {
      n := StrCpy(protocol, 0, "http://");
    }
    assert protocol[..][..n] == Scheme(u.secured);
    CStrUnique(protocol[..], n);
    end := StrCpy(dest, 0, CStr(protocol[..]));
    ghost var first := dest[..];
    assert dest[..end] == Scheme(u.secured);
    ghost var hostEnd := end + |u.host|;
    var end' := StrCpy(dest, end, CStr(splitted.host[..]));
    Extend(first, dest[..], end, end');
    ghost var second := dest[..];
    end := StrCpy(dest, end', CStr(portStr[..]));
    Extend(second, dest[..], end', end);
  }

  lemma Extend(before: seq<char>, after: seq<char>, from: nat, end: nat)
    requires |before| == |after| && from <= end < |after| && SameOutside(after, before, from, end + 1)
    ensures after[..end] == before[..from] + after[from..end]
  {
  }

  method WritePort(secured: bool, port: nat) returns (portStr: array<char>)
    requires 0 < port <= 0xFFFF
    ensures fresh(portStr) && Terminated(portStr[..]) && CStr(portStr[..]) == PrintPort(secured, port)
  {
    hide Decimal, Pow10;
    portStr := new char[8];
    portStr[0] := '\0';
    CStrUnique(portStr[..], 0);
    FiveDigits();
    DecimalLength(port, 5);
    if (secured && port != 443) || (!secured && port != 80) {
      portStr[0] := ':';
      ghost var was := portStr[..];
      Uint64ToStr(portStr, 1, port);
      SameBefore(portStr[..], was, 1, |Decimal(port)| + 2, 0);
      ghost var n := 1 + |Decimal(port)|;
      assert portStr[0] == portStr[..][0..1][0] == ':';
      assert portStr[..][..n] == [portStr[0]] + portStr[1..n];
      CStrUnique(portStr[..], n);
    }
  }

  /** The relative branch: on every parsed URL and every location both buffers are large enough. */
  method ResolveLocation(splitted: UrlSplitted, ghost u: Url, location: CString) returns (locationUrl: array<char>)
    requires splitted.Holds(u) && 0 < u.port <= 0xFFFF && |u.host| <= MAX_CHAR_ON_HOST
    modifies splitted.uri
    ensures fresh(locationUrl) && locationUrl.Length == 2048 && Terminated(locationUrl[..])
    ensures CStr(locationUrl[..]) == RedirectText(u, location)
  {
    hide CStr, Decimal, DirOf, Paths.JoinParts, Paths.Simplified;
    var tempUrl := new char[TEMP_SIZE];
    locationUrl := new char[TEMP_SIZE];
    CutToDirectory(splitted.uri);
    ghost var cut := u.(uri := DirOf(u.uri));
    var end := WriteOrigin(locationUrl, splitted, cut);
    assert locationUrl[..][..end] == Origin(u);
    CStrUnique(locationUrl[..], end);
    var parts := [CStr(locationUrl[..]), CStr(splitted.uri[..]), location];
    assert parts == [Origin(u), DirOf(u.uri), location];
    Paths.PathJoin(tempUrl, parts);
    ghost var joined := Paths.JoinParts(parts, TEMP_SIZE);
    assert tempUrl[..][..|joined|] == joined;
    FitsBuffer(u, location);
    CStrUnique(tempUrl[..], |joined|);
    var n := Paths.SimplifyPath(locationUrl, CStr(tempUrl[..]));
    assert locationUrl[..][..n] == RedirectText(u, location);
    CStrUnique(locationUrl[..], n);
  }

  /** Lines 238-273 of req_request: an absolute location is the next address as it is. */
  method FollowLocation(splitted: UrlSplitted, ghost u: Url, location: CString) returns (address: seq<char>)
    requires splitted.Holds(u) && 0 < u.port <= 0xFFFF && |u.host| <= MAX_CHAR_ON_HOST
    modifies splitted.uri
    ensures CStr(address) == if "http://" <= location || "https://" <= location then location
                             else RedirectText(u, location)
  {
    hide CStr, RedirectText;
    CStrOfCString(location);
    var http := StartsWith(location, "http://");
    var https := StartsWith(location, "https://");
    if http || https {
      return location;
    }
    var locationUrl := ResolveLocation(splitted, u, location);
    return locationUrl[..];
  }

  lemma PartLength(part: CString, size: nat)
    requires size > 0
    ensures |Paths.JoinPart(part, false, size)| <= |part| + 1
  {
  }

  /** The port is printed unless it is that of the scheme: 443 for https and 80 for http. */
  lemma OriginPrinted(u: Url)
    ensures Origin(u) ==
            if u.secured then "https://" + u.host + (if u.port == 443 then [] else ":" + Decimal(u.port))
            else "http://" + u.host + (if u.port == 80 then [] else ":" + Decimal(u.port))
  {
    hide Decimal;
  }

  /** A location that begins with a slash is resolved as if it did not, where section 5.2.2 of RFC 3986 makes
      it replace the whole path. */
  lemma LeadingSlashIsIgnored(u: Url, location: CString)
    requires 0 < u.port <= 0xFFFF && |u.host| <= MAX_CHAR_ON_HOST && |u.uri| <= MAX_URI_LENGTH
    ensures RedirectText(u, "/" + location) == RedirectText(u, location)
  {
    hide Paths.JoinParts, Paths.JoinPart, DirOf, PrintPort, Paths.Simplified;
    PrintedPort(u.secured, u.port);
    JoinThree(Origin(u), DirOf(u.uri), location, TEMP_SIZE);
    JoinThree(Origin(u), DirOf(u.uri), "/" + location, TEMP_SIZE);
    var first := |Paths.JoinPart(Origin(u), false, TEMP_SIZE)|;
    var second := |Paths.JoinPart(DirOf(u.uri), false, TEMP_SIZE - first)|;
    SlashInFront(location, TEMP_SIZE - first - second);
  }

  lemma SlashInFront(part: CString, size: nat)
    requires size > 0
    ensures Paths.JoinPart("/" + part, true, size) == Paths.JoinPart(part, true, size)
  {
    assert ("/" + part)[1..] == part;
  }

  /** The parts, none of them cut short by the size. */
  lemma JoinThree(a: CString, b: CString, c: CString, size: nat)
    requires |a| + |b| + 2 < size
    ensures var first := Paths.JoinPart(a, false, size);
            var second := Paths.JoinPart(b, false, size - |first|);
            && |first| <= |a| + 1 && |second| <= |b| + 1
            && Paths.JoinParts([a, b, c], size)
               == first + (second + Paths.JoinPart(c, true, size - |first| - |second|))
  {
    hide Paths.JoinParts, Paths.JoinPart;
    PartLength(a, size);
    PartLength(b, size - |Paths.JoinPart(a, false, size)|);
    var parts := [a, b, c];
    var first := Paths.JoinPart(a, false, size);
    var second := Paths.JoinPart(b, false, size - |first|);
    var left := size - |first| - |second|;
    var third := Paths.JoinPart(c, true, left);
    assert parts[0..] == parts && parts[3..] == [];
    Paths.JoinStep(parts, 0, size);
    Paths.JoinStep(parts, 1, size - |first|);
    Paths.JoinStep(parts, 2, left);
    Paths.JoinEnd(parts[3..], left - |third|);
    assert third + [] == third;
  }

  /** Only the location can be cut, and then it is cut before the terminator. */
  lemma FitsBuffer(u: Url, location: CString)
    requires 0 < u.port <= 0xFFFF && |u.host| <= MAX_CHAR_ON_HOST && |u.uri| <= MAX_URI_LENGTH
    ensures |Paths.JoinParts([Origin(u), DirOf(u.uri), location], TEMP_SIZE)| < TEMP_SIZE
  {
    hide Paths.JoinParts, Paths.JoinPart, DirOf, PrintPort;
    PrintedPort(u.secured, u.port);
    JoinThree(Origin(u), DirOf(u.uri), location, TEMP_SIZE);
  }

  // ------------------------------------------------------------------------------------------
  // What the redirect means

  /** Complete segments of a path without an empty one at either end. */
  predicate PathSegs(segs: seq<CString>) {
    Paths.Segs(segs) && (segs != [] ==> segs[0] != [] && segs[|segs| - 1] != [])
  }

  lemma {:induction false} DirOfPath(front: CString, file: CString)
    requires Paths.NoSlash(file)
    ensures DirOf(front + "/" + file) == front
    decreases |file|
  {
    var s := front + "/" + file;
    if file == [] {
      assert s[..|s| - 1] == front;
    } else {
      var short := file[..|file| - 1];
      assert s[..|s| - 1] == front + "/" + short && s[|s| - 1] == file[|file| - 1];
      DirOfPath(front, short);
    }
  }

  lemma {:induction false} DirOfNothing(uri: CString)
    requires '/' !in uri
    ensures DirOf(uri) == []
    decreases |uri|
  {
    if uri != [] {
      assert uri[|uri| - 1] in uri;
      DirOfNothing(uri[..|uri| - 1]);
    }
  }

  /** The directory contributes its segments, each followed by a slash. */
  lemma DirectoryPart(segs: seq<CString>, file: CString, size: nat)
    requires PathSegs(segs) && Paths.NoSlash(file) && size > |Paths.Join(segs)|
    ensures Paths.JoinPart(DirOf("/" + Paths.Render(segs, file)), false, size) == Paths.Join(segs)
    ensures |DirOf("/" + Paths.Render(segs, file))| <= |Paths.Join(segs)|
  {
    hide DirOf, Paths.Join, Paths.SkipSlashes;
    var uri := "/" + Paths.Render(segs, file);
    if segs == [] {
      Paths.JoinNothing();
      assert uri == [] + "/" + file;
      DirOfPath([], file);
    } else {
      Paths.JoinPop(segs);
      Paths.JoinEnds(segs);
      var all, last := Paths.Join(segs), segs[|segs| - 1];
      var dir := all[..|all| - 1];
      assert all == dir + "/";
      assert uri == ("/" + dir) + "/" + file;
      DirOfPath("/" + dir, file);
      assert dir[|dir| - 1] == last[|last| - 1];
      FirstOfJoin(segs);
      SkipOne(dir);
    }
  }

  lemma FirstOfJoin(segs: seq<CString>)
    requires PathSegs(segs) && segs != []
    ensures Paths.Join(segs)[0] != '/' && |Paths.Join(segs)| >= 2
  {
    hide Paths.Join;
    assert segs == [segs[0]] + segs[1..];
    Paths.JoinFront(segs[0], segs[1..]);
  }

  lemma SkipOne(s: CString)
    requires s != [] && s[0] != '/'
    ensures Paths.SkipSlashes("/" + s) == s
  {
    assert ("/" + s)[1..] == s;
  }

  /** The segments of the origin: scheme, nothing, and the host with its port. */
  function OriginSegs(u: Url): seq<CString> {
    [Scheme(u.secured)[..|Scheme(u.secured)| - 2], [], u.host + PrintPort(u.secured, u.port)]
  }

  lemma OriginIsBase(u: Url)
    requires 0 < u.port <= 0xFFFF && HostText(u.host) && u.host != [] && !Paths.IsDots(u.host)
    ensures Paths.IsOrigin(OriginSegs(u)) && Paths.Join(OriginSegs(u)) == Origin(u) + "/"
    ensures Origin(u) != [] && Origin(u)[0] != '/' && Origin(u)[|Origin(u)| - 1] != '/'
  {
    hide PrintPort, Paths.Join;
    PrintedPort(u.secured, u.port);
    var scheme, host := OriginSegs(u)[0], OriginSegs(u)[2];
    var port := PrintPort(u.secured, u.port);
    assert scheme == if u.secured then "https:" else "http:";
    PortHasNoSlash(port, u.secured, u.port);
    assert Paths.NoSlash(host) by {
      forall k | 0 <= k < |host| ensures host[k] != '/' {
        assert host[k] == if k < |u.host| then u.host[k] else port[k - |u.host|];
      }
    }
    assert !Paths.IsDots(host) by {
      if port != [] {
        assert host[|u.host|] == ':';
        assert ':' !in "." && ':' !in "..";
      } else {
        assert host == u.host;
      }
    }
    Paths.OriginText(scheme, host);
    assert Scheme(u.secured) == scheme + "//";
    assert scheme + "//" + host + "/" == Origin(u) + "/";
    assert Origin(u) == Scheme(u.secured) + host;
  }

  lemma PortHasNoSlash(text: CString, secured: bool, port: nat)
    requires PortText(text, secured, port)
    ensures Paths.NoSlash(text) && (text != [] ==> text[0] == ':')
  {
    if text != [] {
      forall k | 0 <= k < |text| ensures text[k] != '/' {
        assert k > 0 ==> text[k] == text[1..][k - 1];
      }
    }
  }

  /** The joined text is the origin, the directory's segments and the location. */
  lemma JoinedText(u: Url, segs: seq<CString>, file: CString, location: CString)
    requires Canonical(u) && u.host != [] && !Paths.IsDots(u.host)
    requires u.uri == "/" + Paths.Render(segs, file) && PathSegs(segs) && Paths.NoSlash(file)
    requires location != [] ==> location[0] != '/'
    requires |Origin(u)| + 1 + |Paths.Join(segs)| + |location| < TEMP_SIZE
    ensures Paths.JoinParts([Origin(u), DirOf(u.uri), location], TEMP_SIZE)
            == Paths.Join(OriginSegs(u)) + (Paths.Join(segs) + location)
  {
    hide Paths.JoinParts, Paths.JoinPart, DirOf, PrintPort, Paths.Join, OriginSegs, Origin, Paths.Render;
    OriginIsBase(u);
    DirectoryPart(segs, file, TEMP_SIZE - |Origin(u)| - 1);
    PrintedPort(u.secured, u.port);
    OriginLength(u);
    WholePart(Origin(u), false, TEMP_SIZE);
    WholePart(location, true, TEMP_SIZE - |Origin(u)| - 1 - |Paths.Join(segs)|);
    JoinThree(Origin(u), DirOf(u.uri), location, TEMP_SIZE);
    assert (Origin(u) + "/") + (Paths.Join(segs) + location) == Paths.Join(OriginSegs(u)) + (Paths.Join(segs) + location);
  }

  lemma OriginLength(u: Url)
    requires |PrintPort(u.secured, u.port)| <= 6
    ensures |Origin(u)| <= 8 + |u.host| + 6
  {
  }

  /** A part that fits and has no slash in front is written whole. */
  lemma WholePart(part: CString, last: bool, size: nat)
    requires |part| + 1 < size || (last && |part| < size)
    requires part != [] ==> part[0] != '/' && (last || part[|part| - 1] != '/')
    ensures Paths.JoinPart(part, last, size) == if last || part == [] then part else part + "/"
  {
    hide Paths.SkipSlashes;
    assert part[..|part|] == part;
  }

  function BeforeFragment(s: CString): CString {
    s[..Span(s, '#')]
  }

  /** The redirect keeps scheme, host and port and normalises directory plus location, if and only if
      that path never climbs above the root. */
  lemma RedirectNormalises(u: Url, segs: seq<CString>, file: CString, location: CString)
    requires Canonical(u) && u.host != [] && !Paths.IsDots(u.host)
    requires u.uri == "/" + Paths.Render(segs, file) && PathSegs(segs) && Paths.NoSlash(file)
    requires location != [] ==> location[0] != '/'
    requires |Origin(u)| + 1 + |Paths.Join(segs)| + |location| < TEMP_SIZE
    ensures var path := Paths.Join(segs) + location;
            RedirectText(u, location) == Origin(u) + "/" + Paths.Normal(path) <==> Paths.PathNeverClimbs(path)
  {
    hide Paths.JoinParts, DirOf, PrintPort, Paths.Join, OriginSegs, Origin, Paths.Render, Paths.Simplified,
      Paths.Normal, Paths.PathNeverClimbs, Paths.IsOrigin;
    OriginIsBase(u);
    JoinedText(u, segs, file, location);
    Paths.SimplifyIsNormalise(OriginSegs(u), Paths.Join(segs) + location);
  }

  /** Parsing the redirect: the same origin, and the normalised path up to a fragment as the URI, refused
      only if that is longer than the URI limit. */
  lemma RedirectParses(u: Url, segs: seq<CString>, file: CString, location: CString)
    requires Canonical(u) && u.host != [] && !Paths.IsDots(u.host)
    requires u.uri == "/" + Paths.Render(segs, file) && PathSegs(segs) && Paths.NoSlash(file)
    requires location != [] ==> location[0] != '/'
    requires |Origin(u)| + 1 + |Paths.Join(segs)| + |location| < TEMP_SIZE
    requires Paths.PathNeverClimbs(Paths.Join(segs) + location)
    ensures var uri := BeforeFragment("/" + Paths.Normal(Paths.Join(segs) + location));
            UrlOf(RedirectText(u, location)) == if |uri| <= MAX_URI_LENGTH then Some(u.(uri := uri)) else None
  {
    hide UrlOf, UriOf, RedirectText, PrintPort, PortText, Paths.Join, Paths.Normal, Paths.PathNeverClimbs,
      Paths.Render, Paths.Segs, Paths.NoSlash, PathSegs, BeforeFragment, Origin, Span;
    RedirectNormalises(u, segs, file, location);
    var port, tail := PrintPort(u.secured, u.port), "/" + Paths.Normal(Paths.Join(segs) + location);
    PrintedPort(u.secured, u.port);
    OriginParses(u.secured, u.host, u.port, port, tail);
    OriginThen(u, Paths.Normal(Paths.Join(segs) + location));
    UriOfPath(tail);
  }

  lemma OriginThen(u: Url, path: CString)
    ensures Scheme(u.secured) + (u.host + (PrintPort(u.secured, u.port) + ("/" + path))) == Origin(u) + "/" + path
  {
    hide PrintPort;
  }

  lemma UriOfPath(tail: CString)
    requires tail != [] && tail[0] == '/'
    ensures var uri := BeforeFragment(tail); UriOf(tail) == if |uri| <= MAX_URI_LENGTH then Some(uri) else None
  {
  }
}
