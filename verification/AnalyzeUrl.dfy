/** `analyze_url` of src/spider_operation.c, up to the name lookup: a URL taken apart in three index loops. */
module AnalyzeUrl {
  /** The two kinds of request that are treated apart; the theorems below name them by their numbers. */
  const SEARCH_ONE_NEWS_REQUEST := 3
  const UPDATE_ALL_NEWS := 159

  // ---- Looking for characters

  /** The first index from `i` on whose character is in `stops`, or the length of `s`. */
  function Until(s: string, i: nat, stops: set<char>): (e: nat)
    requires i <= |s|
    ensures i <= e <= |s| && (e < |s| ==> s[e] in stops)
    ensures forall k :: i <= k < e ==> s[k] !in stops
    decreases |s| - i
  {
    if i == |s| || s[i] in stops then i else Until(s, i + 1, stops)
  }

  /** The last slash before index `i`, or -1. */
  function LastSlash(s: string, i: nat): (e: int)
    requires i <= |s|
    ensures -1 <= e < i && (e >= 0 ==> s[e] == '/')
    ensures forall k :: e < k < i ==> s[k] != '/'
  {
    if i == 0 || s[i - 1] == '/' then i - 1 else LastSlash(s, i - 1)
  }

  /** The C string at the start of an array, or all of an array without a terminator. */
  function CStr(a: seq<char>): (s: string)
    ensures |s| <= |a| && s == a[..|s|] && (|s| < |a| ==> a[|s|] == '\0')
    ensures '\0' !in s
  {
    if a == [] || a[0] == '\0' then [] else [a[0]] + CStr(a[1..])
  }

  /** An array after the characters of `text` were copied to its start, without a terminator. */
  function Over(a: seq<char>, text: string): (r: seq<char>)
    requires |text| <= |a|
    ensures |r| == |a|
  {
    text + a[|text|..]
  }

  function Zeros(n: nat): (r: seq<char>)
    ensures |r| == n
  {
    seq(n, _ => '\0')
  }

  /** The C string is the only text without a terminator that the array starts with and then terminates. */
  lemma CStrIs(a: seq<char>, s: string)
    requires |s| <= |a| && a[..|s|] == s && '\0' !in s && (|s| < |a| ==> a[|s|] == '\0')
    ensures CStr(a) == s
  {
    hide CStr;
    var c := CStr(a);
    assert forall k :: 0 <= k < |s| ==> a[k] == s[k];
    assert forall k :: 0 <= k < |c| ==> a[k] == c[k];
    assert |c| == |s|;
  }

  /** What such a copy leaves behind reads as the text and then as whatever C string follows it. */
  lemma OverReads(a: seq<char>, text: string)
    requires |text| <= |a| && '\0' !in text
    ensures CStr(Over(a, text)) == text + CStr(a[|text|..])
  {
    hide CStr;
    var rest := CStr(a[|text|..]);
    assert Over(a, text)[..|text| + |rest|] == text + rest;
    CStrIs(Over(a, text), text + rest);
  }

  lemma OverZerosReads(n: nat, text: string)
    requires |text| <= n && '\0' !in text
    ensures CStr(Over(Zeros(n), text)) == text
  {
    OverReads(Zeros(n), text);
    assert CStr(Zeros(n)[|text|..]) == [];
  }

  /** One more character copied. */
  lemma OverStep(a: seq<char>, s: string, start: nat, i: nat)
    requires start <= i < |s| && i - start < |a|
    ensures Over(a, s[start..i + 1]) == Over(a, s[start..i])[i - start := s[i]]
  {
  }

  lemma OverNothing(a: seq<char>)
    ensures Over(a, "") == a
  {
  }

  // ---- The function

  /** Length of the scheme with its separator, or 0. */
  function SchemeLen(url: string): (n: nat)
    ensures n <= |url| && (n > 0 ==> url[n - 1] == '/')
  {
    if "http://" <= url then 7 else if "https://" <= url then 8 else 0
  }

  lemma Schemes(url: string)
    ensures "http://" <= url ==> SchemeLen(url) == 7
    ensures "https://" <= url ==> SchemeLen(url) == 8
    ensures !("http://" <= url) && !("https://" <= url) ==> SchemeLen(url) == 0
  {
    if "https://" <= url {
      assert url[4] == "https://"[4];
    }
  }

  function HostEnd(url: string): (e: nat)
    ensures SchemeLen(url) <= e <= |url|
  {
    Until(url, SchemeLen(url), {'/'})
  }

  /** What lies between the scheme and the next slash. */
  function Host(url: string): (h: string)
    ensures '/' !in h && |h| == HostEnd(url) - SchemeLen(url)
  {
    url[SchemeLen(url)..HostEnd(url)]
  }

  function File(url: string): (f: string)
    ensures '/' !in f
  {
    url[LastSlash(url, |url|) + 1..]
  }

  /** What lies between index `from` and the last slash. */
  function Path(url: string, from: nat): string {
    var last := LastSlash(url, |url|);
    if from < last then url[from..last] else ""
  }

  lemma FileAndPath(url: string, from: nat)
    requires LastSlash(url, |url|) >= 0 && from <= |url|
    ensures var size := |url| - LastSlash(url, |url|);
            File(url) == url[|url| - size + 1..] && Path(url, from) == if from < |url| - size then url[from..|url| - size] else ""
  {
    hide LastSlash;
  }

  datatype UrlValue = UrlValue(
    url: string, domain: seq<char>, szFilePath: seq<char>, path: seq<char>, port: int, http: bool)

  predicate Shaped(v: UrlValue) {
    '\0' !in v.url && |v.domain| == 1024 && |v.szFilePath| == 255 && |v.path| == 1024
  }

  /** The arrays that a request other than an update starts from. */
  function Cleared(v: UrlValue, req: int): (w: UrlValue)
    requires Shaped(v)
    ensures Shaped(w) && w.url == v.url
  {
    if req == UPDATE_ALL_NEWS then v
    else v.(domain := Zeros(1024), szFilePath := Zeros(255), path := Zeros(1024))
  }

  /** The parts fit their arrays; a single-news request also needs room for a terminator behind each. */
  predicate Fits(v: UrlValue, req: int)
    requires Shaped(v)
  {
    SchemeLen(v.url) > 0 ==>
      && |Host(v.url)| <= 1024
      && (req == SEARCH_ONE_NEWS_REQUEST ==>
            |Host(v.url)| < 1024 && |File(v.url)| < 255 && |Path(v.url, HostEnd(v.url))| < 1024)
  }

  lemma ClearedReads(v: UrlValue, req: int)
    requires Shaped(v) && req != UPDATE_ALL_NEWS && |Host(v.url)| < 1024
    ensures CStr(Over(Cleared(v, req).domain, Host(v.url))) == Host(v.url)
  {
    OverZerosReads(1024, Host(v.url));
  }

  /** What `analyze_url` makes of its argument; false stands for the result -1. */
  function Analyze(v: UrlValue, req: int): (r: (UrlValue, bool))
    requires Shaped(v) && Fits(v, req)
    ensures Shaped(r.0) && r.0.url == v.url
    ensures r.1 <==> "http://" <= v.url || "https://" <= v.url
  {
    var c := Cleared(v, req);
    var n := SchemeLen(v.url);
    if n == 0 then (c, false)
    else
      var w := c.(port := if n == 7 then 80 else 443, http := n == 7, domain := Over(c.domain, Host(v.url)));
      if req != SEARCH_ONE_NEWS_REQUEST then (w, true)
      else
        ClearedReads(v, req);
        (w.(szFilePath := Over(c.szFilePath, File(v.url)),
            path := Over(c.path, Path(v.url, n + |CStr(w.domain)|))), true)
  }

  method Bzero(a: array<char>)
    modifies a
    ensures a[..] == Zeros(a.Length)
  {
    forall k | 0 <= k < a.Length {
      a[k] := '\0';
    }
  }

  class UrlT {
    var url: string
    var domain: array<char>
    var szFilePath: array<char>
    var path: array<char>
    var port: int
    var http: bool

    ghost function Value(): UrlValue
      reads this, domain, szFilePath, path
    {
      UrlValue(url, domain[..], szFilePath[..], path[..], port, http)
    }

    ghost predicate Valid()
      reads this, domain, szFilePath, path
    {
      Shaped(Value()) && domain != path
    }

    /** The scheme decides the port; 0 stands for a URL that has neither scheme. */
    method FindScheme() returns (starlen: nat)
      requires Valid()
      modifies this`port, this`http
      ensures starlen == SchemeLen(url)
      ensures if starlen == 0 then port == old(port) && http == old(http) else http == (starlen == 7) && port == if http then 80 else 443
    {
      if "http://" <= url {
        http, port, starlen := true, 80, 7;
      } else if "https://" <= url {
        http, port, starlen := false, 443, 8;
      } else {
        starlen := 0;
      }
    }

    /** The second loop: the host, up to a slash or the end. */
    method CopyDomain(start: nat)
      requires Valid() && start <= |url| && Until(url, start, {'/'}) - start <= 1024
      modifies domain
      ensures domain[..] == Over(old(domain[..]), url[start..Until(url, start, {'/'})])
    {
      hide Over;
      ghost var was := domain[..];
      var i, j := start, 0;
      OverNothing(was);
      assert url[start..start] == "";
      while i < |url| && url[i] != '/' && url[i] != '\0'
        invariant start <= i <= |url| && j == i - start
        invariant Until(url, i, {'/'}) == Until(url, start, {'/'})
        invariant domain[..] == Over(was, url[start..i])
      {
        OverStep(was, url, start, i);
        domain[j] := url[i];
        assert domain[..] == Over(was, url[start..i])[j := url[i]];
        i, j := i + 1, j + 1;
      }
    }

    /** The third loop counts back from the terminator to the last slash. */
    method SizeAfterSlash() returns (size: nat)
      requires Valid() && LastSlash(url, |url|) >= 0
      ensures size == |url| - LastSlash(url, |url|)
    {
      var i: int := |url|;
      size := 0;
      while i >= 0 && (i == |url| || url[i] != '/')
        invariant LastSlash(url, |url|) <= i <= |url| && size == |url| - i
      {
        i, size := i - 1, size + 1;
      }
    }

    method CopyFile(size: nat)
      requires Valid() && 0 < size <= |url| + 1 && size - 1 < 255
      modifies szFilePath
      ensures Valid() && path[..] == old(path[..])
      ensures szFilePath[..] == Over(old(szFilePath[..]), url[|url| - size + 1..])
    {
      hide Over;
      ghost var was, start := szFilePath[..], |url| - size + 1;
      var i, j := |url| - size + 1, 0;
      OverNothing(was);
      assert url[start..start] == "";
      while i < |url| && url[i] != '\0'
        invariant start <= i <= |url| && j == i - start
        invariant szFilePath[..] == Over(was, url[start..i])
      {
        OverStep(was, url, start, i);
        szFilePath[j] := url[i];
        assert szFilePath[..] == Over(was, url[start..i])[j := url[i]];
        i, j := i + 1, j + 1;
      }
      assert url[start..i] == url[start..];
    }

    method CopyPath(start: nat, end: nat)
      requires Valid() && end <= |url| && end - start < 1024
      modifies path
      ensures Valid() && szFilePath[..] == old(szFilePath[..])
      ensures path[..] == Over(old(path[..]), if start < end then url[start..end] else "")
    {
      hide Over;
      ghost var was := path[..];
      var i, j := start, 0;
      OverNothing(was);
      while i < end
        invariant start <= i && (i <= end || i == start) && j == i - start
        invariant path[..] == Over(was, if start < i then url[start..i] else "")
      {
        OverStep(was, url, start, i);
        path[j] := url[i];
        assert path[..] == Over(was, url[start..i])[j := url[i]];
        i, j := i + 1, j + 1;
      }
    }

    /** Everything but an update starts from empty arrays. */
    method Clear(req: int)
      requires Valid()
      modifies domain, szFilePath, path
      ensures Valid() && Value() == Cleared(old(Value()), req)
    {
      if req != UPDATE_ALL_NEWS {
        Bzero(domain);
        Bzero(szFilePath);
        Bzero(path);
      }
    }

    /** The last two loops. */
    method CopyResource(starlen: nat)
      requires Valid() && LastSlash(url, |url|) >= 0 && |File(url)| < 255
      requires starlen + |CStr(domain[..])| <= |url| && |Path(url, starlen + |CStr(domain[..])|)| < 1024
      modifies szFilePath, path
      ensures Valid()
      ensures szFilePath[..] == Over(old(szFilePath[..]), File(url))
      ensures path[..] == old(Over(path[..], Path(url, starlen + |CStr(domain[..])|)))
    {
      hide *;
      var from := starlen + |CStr(domain[..])|;
      var size := SizeAfterSlash();
      FileAndPath(url, from);
      CopyFile(size);
      CopyPath(from, |url| - size);
    }

    /** `analyze_url`. */
    method AnalyzeUrl(req: int) returns (ok: bool)
      requires Valid() && Fits(Value(), req)
      modifies this`port, this`http, domain, szFilePath, path
      ensures Valid() && (Value(), ok) == Analyze(old(Value()), req)
    {
      hide Over, CStr, Until, LastSlash, Zeros, SchemeLen, Path, File, Cleared;
      ghost var before := Value();
      Clear(req);
      var starlen := FindScheme();
      if starlen == 0 {
        return false;
      }
      CopyDomain(starlen);
      if req == SEARCH_ONE_NEWS_REQUEST {
        ClearedReads(before, req);
        CopyResource(starlen);
      }
      return true;
    }
  }

  // ---- Single-news requests

  function Scheme(url: string): string {
    url[..SchemeLen(url)]
  }

  function DomainOf(v: UrlValue): string {
    CStr(v.domain)
  }

  function PathOf(v: UrlValue): string {
    CStr(v.path)
  }

  function FileOf(v: UrlValue): string {
    CStr(v.szFilePath)
  }

  /** What the three arrays read as after a single-news request. */
  lemma ReadsParts(v: UrlValue)
    requires Shaped(v) && Fits(v, SEARCH_ONE_NEWS_REQUEST) && SchemeLen(v.url) > 0
    ensures var w := Analyze(v, SEARCH_ONE_NEWS_REQUEST).0;
            && DomainOf(w) == Host(v.url) && FileOf(w) == File(v.url) && PathOf(w) == Path(v.url, HostEnd(v.url))
            && w.http == (SchemeLen(v.url) == 7) && w.port == if w.http then 80 else 443
  {
    hide CStr, Over, Zeros, Until, LastSlash, SchemeLen;
    ClearedReads(v, SEARCH_ONE_NEWS_REQUEST);
    OverZerosReads(255, File(v.url));
    OverZerosReads(1024, Path(v.url, HostEnd(v.url)));
  }

  lemma FivePieces(s: string, a: nat, b: nat, c: nat)
    requires a <= b <= c < |s|
    ensures s == s[..a] + s[a..b] + s[b..c] + [s[c]] + s[c + 1..]
  {
  }

  lemma SplitsInFour(u: string)
    requires SchemeLen(u) > 0
    ensures if '/' in u[SchemeLen(u)..]
            then u == Scheme(u) + Host(u) + Path(u, HostEnd(u)) + "/" + File(u) && (Path(u, HostEnd(u)) == "" || Path(u, HostEnd(u))[0] == '/')
            else u == Scheme(u) + Host(u) && File(u) == Host(u) && Path(u, HostEnd(u)) == ""
  {
    hide SchemeLen, Until, LastSlash;
    var n, e, last := SchemeLen(u), HostEnd(u), LastSlash(u, |u|);
    if e < |u| {
      assert e <= last && u[n..][e - n] == '/';
      FivePieces(u, n, e, last);
    } else {
      assert last == n - 1;
    }
  }

  /** A URL of either scheme is put together again from its parts; a slash after the host separates path and file. */
  lemma PartsMakeUrl(v: UrlValue)
    requires Shaped(v) && Fits(v, SEARCH_ONE_NEWS_REQUEST) && SchemeLen(v.url) > 0
    ensures var w := Analyze(v, SEARCH_ONE_NEWS_REQUEST).0;
            && '/' !in DomainOf(w) && '/' !in FileOf(w)
            && (if '/' in v.url[SchemeLen(v.url)..]
                then v.url == Scheme(v.url) + DomainOf(w) + PathOf(w) + "/" + FileOf(w) && (PathOf(w) == "" || PathOf(w)[0] == '/')
                else v.url == Scheme(v.url) + DomainOf(w) && FileOf(w) == DomainOf(w) && PathOf(w) == "")
  {
    hide Analyze, CStr, SchemeLen, Until, LastSlash;
    ReadsParts(v);
    SplitsInFour(v.url);
  }

  /** The pieces of a concatenation, by index. */
  lemma Pieces(a: string, b: string, c: string, d: string)
    ensures var s := a + b + c + "/" + d;
            && s[..|a|] == a && s[|a|..|a| + |b|] == b && s[|a| + |b|..|a| + |b| + |c|] == c
            && s[|a| + |b| + |c|] == '/' && s[|a| + |b| + |c| + 1..] == d
  {
  }

  lemma SlashFrom(s: string, from: nat, e: nat, i: nat)
    requires from <= e < i <= |s| && s[e] == '/'
    ensures '/' !in s[from..e] ==> Until(s, from, {'/'}) == e
    ensures '/' !in s[e + 1..i] ==> LastSlash(s, i) == e
  {
    hide Until, LastSlash;
    var u, l := Until(s, from, {'/'}), LastSlash(s, i);
    if u < e {
      assert s[from..e][u - from] == '/';
    }
    if l > e {
      assert s[e + 1..i][l - e - 1] == '/';
    }
  }

  lemma SplitsAt(url: string, scheme: string, host: string, path: string, file: string)
    requires scheme == "http://" || scheme == "https://"
    requires '/' !in host && '/' !in file && (path == "" || path[0] == '/')
    requires url == scheme + host + path + "/" + file
    ensures SchemeLen(url) == |scheme| && Host(url) == host && File(url) == file && Path(url, HostEnd(url)) == path
  {
    hide Until, LastSlash;
    Pieces(scheme, host, path, file);
    var n, e := |scheme|, |scheme| + |host|;
    var last := e + |path|;
    assert SchemeLen(url) == n by {
      assert url[4] == scheme[4];
    }
    if path != "" {
      assert url[e..last][0] == path[0];
    }
    SlashFrom(url, n, e, |url|);
    SlashFrom(url, n, last, |url|);
    assert url[last + 1..|url|] == file;
  }

  /** The parts are the only ones: whatever slash-free host and file and whatever path a URL is made of come back. */
  lemma UrlYieldsParts(v: UrlValue, scheme: string, host: string, path: string, file: string)
    requires scheme == "http://" || scheme == "https://"
    requires '/' !in host && '/' !in file && (path == "" || path[0] == '/')
    requires v.url == scheme + host + path + "/" + file
    requires Shaped(v) && |host| < 1024 && |path| < 1024 && |file| < 255
    ensures SchemeLen(v.url) == |scheme| && Fits(v, 3)
    ensures var (w, ok) := Analyze(v, 3);
            && ok && DomainOf(w) == host && PathOf(w) == path && FileOf(w) == file
            && w.http == (scheme == "http://") && w.port == if w.http then 80 else 443
  {
    hide CStr, Over, Zeros, Analyze;
    SplitsAt(v.url, scheme, host, path, file);
    ReadsParts(v);
  }

  // ---- Update requests

  /** An update does not clear the arrays, whatever they hold: the host is read with what followed it in the
      array, and alone exactly when a terminator already stood behind it. File and path stay as they were. */
  lemma UpdateReadsTail(v: UrlValue)
    requires Shaped(v) && Fits(v, 159) && SchemeLen(v.url) > 0
    ensures var w, n := Analyze(v, 159).0, |Host(v.url)|;
            && DomainOf(w) == Host(v.url) + CStr(v.domain[n..])
            && (DomainOf(w) == Host(v.url) <==> n == 1024 || v.domain[n] == '\0')
            && w.szFilePath == v.szFilePath && w.path == v.path
            && ("http://" <= v.url ==> w.http && w.port == 80) && ("https://" <= v.url ==> !w.http && w.port == 443)
  {
    Schemes(v.url);
    hide CStr, Over, Until, SchemeLen;
    OverReads(v.domain, Host(v.url));
    var tail := v.domain[|Host(v.url)|..];
    if tail != [] && tail[0] == '\0' {
      CStrIs(tail, "");
    }
  }

  /** Two updates on one structure: the second domain is the second host exactly when the first host was not
      longer and a terminator stood behind the second already before both. */
  lemma SecondUpdate(v: UrlValue, url: string)
    requires Shaped(v) && Fits(v, 159) && SchemeLen(v.url) > 0
    requires '\0' !in url && SchemeLen(url) > 0 && |Host(url)| <= 1024
    ensures Fits(Analyze(v, 159).0.(url := url), 159)
    ensures var w := Analyze(Analyze(v, 159).0.(url := url), 159).0;
            var n := |Host(url)|;
            DomainOf(w) == Host(url) <==> n == 1024 || (|Host(v.url)| <= n && v.domain[n] == '\0')
  {
    hide CStr, Until, SchemeLen;
    UpdateReadsTail(Analyze(v, UPDATE_ALL_NEWS).0.(url := url));
  }

  /** Any other request clears the arrays and fills only the domain; a URL of another scheme leaves all of them empty
      or, for an update, as they were. */
  lemma OtherRequests(v: UrlValue, req: int)
    requires Shaped(v) && Fits(v, req) && |Host(v.url)| < 1024
    ensures var (w, ok) := Analyze(v, req);
            && (req != 159 && req != 3 ==> FileOf(w) == "" && PathOf(w) == "")
            && (ok && req != 159 ==> DomainOf(w) == Host(v.url))
            && (!ok && req != 159 ==> DomainOf(w) == "" && FileOf(w) == "" && PathOf(w) == "")
            && (!ok && req == 159 ==> w == v) && (!ok ==> w.port == v.port && w.http == v.http)
  {
    hide SchemeLen, Until, LastSlash;
    if req != UPDATE_ALL_NEWS {
      ClearedReads(v, req);
    }
    hide Over;
  }

  // ---- Section 3 of RFC 3986

  /** Section 3.2: the authority ends at the next slash, question mark or number sign, or with the URL. */
  function AuthorityEnd(url: string): (e: nat)
    ensures SchemeLen(url) <= e <= |url|
  {
    Until(url, SchemeLen(url), {'/', '?', '#'})
  }

  function Authority(url: string): string {
    url[SchemeLen(url)..AuthorityEnd(url)]
  }

  /** Section 3.3: the path ends at the first question mark or number sign, or with the URL. */
  function RfcPath(url: string): string {
    url[AuthorityEnd(url)..Until(url, AuthorityEnd(url), {'?', '#'})]
  }

  lemma HostIsAuthority(url: string)
    ensures Host(url) == Authority(url) <==> '?' !in Host(url) && '#' !in Host(url)
  {
    hide SchemeLen, Until;
    var n, e, a := SchemeLen(url), HostEnd(url), AuthorityEnd(url);
    if a < e {
      assert Host(url)[a - n] == url[a];
      assert |Host(url)| != |Authority(url)|;
    } else {
      assert a == e;
      assert forall k :: 0 <= k < e - n ==> Host(url)[k] == url[n + k];
    }
  }

  /** Domain, path and file are the authority and the path of RFC 3986 exactly when the URL has neither query nor fragment. */
  lemma PartsAreRfcParts(v: UrlValue)
    requires Shaped(v) && Fits(v, SEARCH_ONE_NEWS_REQUEST) && SchemeLen(v.url) > 0
    ensures var w := Analyze(v, SEARCH_ONE_NEWS_REQUEST).0;
            var after := v.url[SchemeLen(v.url)..];
            var resource := if '/' in after then PathOf(w) + "/" + FileOf(w) else "";
            DomainOf(w) == Authority(v.url) && resource == RfcPath(v.url) <==> '?' !in after && '#' !in after
  {
    hide Analyze, CStr, SchemeLen, Until, LastSlash, Path, File;
    ReadsParts(v);
    ResourceIsRest(v.url);
    RestIsRfcPath(v.url);
  }

  lemma ResourceIsRest(u: string)
    requires SchemeLen(u) > 0
    ensures (if '/' in u[SchemeLen(u)..] then Path(u, HostEnd(u)) + "/" + File(u) else "") == u[HostEnd(u)..]
  {
    hide SchemeLen, Until, LastSlash, Path, File;
    SplitsInFour(u);
    Remainder(u, SchemeLen(u), HostEnd(u), if '/' in u[SchemeLen(u)..] then Path(u, HostEnd(u)) + "/" + File(u) else "");
  }

  lemma Remainder(u: string, n: nat, e: nat, rest: string)
    requires n <= e <= |u| && u == u[..n] + u[n..e] + rest
    ensures rest == u[e..]
  {
  }

  lemma NoQueryNoFragment(u: string)
    requires Host(u) == Authority(u) && u[HostEnd(u)..] == RfcPath(u)
    ensures var after := u[SchemeLen(u)..];
            '?' !in after && '#' !in after
  {
    hide SchemeLen, Until;
    HostIsAuthority(u);
    var n, e := SchemeLen(u), HostEnd(u);
    assert |Host(u)| == |Authority(u)|;
    assert u[n..] == Host(u) + u[e..];
  }

  lemma RestIsRfcPath(u: string)
    ensures var after := u[SchemeLen(u)..];
            Host(u) == Authority(u) && u[HostEnd(u)..] == RfcPath(u) <==> '?' !in after && '#' !in after
  {
    hide SchemeLen, Until;
    var n := SchemeLen(u);
    var after := u[n..];
    if '?' !in after && '#' !in after {
      assert forall k :: 0 <= k < |after| ==> after[k] == u[n + k];
      assert AuthorityEnd(u) == HostEnd(u) && Until(u, HostEnd(u), {'?', '#'}) == |u|;
    } else if Host(u) == Authority(u) && u[HostEnd(u)..] == RfcPath(u) {
      NoQueryNoFragment(u);
    }
  }
}
