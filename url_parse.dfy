/** The parts of `urllib.parse` the crawler uses to build and read URLs:
    `urlsplit` and the path that `urlparse` reports (the generic syntax of
    section 3 of RFC 3986), `urlunsplit`, and `urljoin` (reference resolution,
    section 5.2 of RFC 3986, as Python carries it out). */
module UrlParse {
  import opened Wrappers
  import opened Text

  datatype Parts = Parts(scheme: string, netloc: string, path: string, query: string, fragment: string)

  /** The index of the first character of `s` in `cs`, or `|s|` when there is
      none (Python's `find` answers -1 there). */
  function Find(s: string, cs: set<char>): (i: nat)
    ensures i <= |s|
    ensures i < |s| ==> s[i] in cs
    ensures forall k :: 0 <= k < i ==> s[k] !in cs
    decreases |s|
  {
    if s == [] then 0
    else if s[0] in cs then 0
    else 1 + Find(s[1..], cs)
  }

  /** The index just after the last character of `s` in `cs`, or 0 when
      there is none. */
  function AfterLast(s: string, cs: set<char>): (i: nat)
    ensures i <= |s|
    ensures i > 0 ==> s[i - 1] in cs
    ensures forall k :: i <= k < |s| ==> s[k] !in cs
    decreases |s|
  {
    if s == [] then 0
    else if s[|s| - 1] in cs then |s|
    else AfterLast(s[..|s| - 1], cs)
  }

  predicate IsAsciiLetter(c: char)
  {
    ('a' <= c <= 'z') || ('A' <= c <= 'Z')
  }

  /** `scheme_chars`: letters, digits and `+-.`. */
  predicate IsSchemeChar(c: char)
  {
    IsAsciiLetter(c) || ('0' <= c <= '9') || c == '+' || c == '-' || c == '.'
  }

  function LowerAscii(s: string): (r: string)
    ensures |r| == |s|
  {
    if s == [] then ""
    else [if 'A' <= s[0] <= 'Z' then (s[0] as int + 32) as char else s[0]] + LowerAscii(s[1..])
  }

  /** `s.split(c, 1)` read as a pair: the text before the first `c` and the
      text after it, or `s` and `""` when there is no `c`. */
  function Cut(s: string, c: char): (string, string)
  {
    var i := Find(s, {c});
    if i < |s| then (s[..i], s[i + 1..]) else (s, "")
  }

  /** The scheme of `url`, lower-cased, and the rest: the text before the
      first `:` when it is non-empty, starts with a letter and holds only
      scheme characters; otherwise `defaultScheme` and all of `url`. */
  function SplitScheme(url: string, defaultScheme: string): (string, string)
  {
    var i := Find(url, {':'});
    if 0 < i < |url| && IsAsciiLetter(url[0]) && forall k :: 0 <= k < i ==> IsSchemeChar(url[k])
    then (LowerAscii(url[..i]), url[i + 1..])
    else (defaultScheme, url)
  }

  /** `_splitnetloc`: after a leading `//`, the authority runs up to the first
      of `/?#`. */
  function SplitNetloc(rest: string): (string, string)
  {
    if |rest| >= 2 && rest[0] == '/' && rest[1] == '/' then
      var n := 2 + Find(rest[2..], {'/', '?', '#'});
      (rest[2..n], rest[n..])
    else ("", rest)
  }

  /** `_WHATWG_C0_CONTROL_OR_SPACE`: the characters up to U+0020. */
  predicate IsC0OrSpace(c: char)
  {
    c as int <= 0x20
  }

  /** `_UNSAFE_URL_BYTES_TO_REMOVE`: tab, carriage return and line feed. */
  const Unsafe: set<char> := {'\t', '\r', '\n'}

  /** `s.lstrip(_WHATWG_C0_CONTROL_OR_SPACE)`. */
  function LStripC0(s: string): (r: string)
    ensures r == [] || !IsC0OrSpace(r[0])
    decreases |s|
  {
    if s != [] && IsC0OrSpace(s[0]) then LStripC0(s[1..]) else s
  }

  /** `s` with every tab, carriage return and line feed deleted. */
  function RemoveUnsafe(s: string): (r: string)
    ensures Free(r, Unsafe)
    decreases |s|
  {
    if s == [] then []
    else (if s[0] in Unsafe then [] else [s[0]]) + RemoveUnsafe(s[1..])
  }

  /** The text `urlsplit` actually splits: `url` without its leading C0
      controls and spaces, and without any tab, carriage return or line
      feed. */
  function Sanitize(url: string): string
  {
    RemoveUnsafe(LStripC0(url))
  }

  /** A URL that `urlsplit` splits as it is. */
  predicate IsSanitized(s: string)
  {
    Free(s, Unsafe) && (s == [] || !IsC0OrSpace(s[0]))
  }

  /** `urlsplit(url, scheme=defaultScheme)`: the URL is cleaned as
      `Sanitize` says; then come the scheme, the authority, the fragment
      after the first `#`, and the query after the first `?`. The default
      scheme is taken as it is: `urljoin` only passes a scheme that
      `urlsplit` itself produced, which has nothing to clean. */
  function UrlSplit(url0: string, defaultScheme: string): Parts
  {
    var url := Sanitize(url0);
    var (scheme, rest) := SplitScheme(url, defaultScheme);
    var (netloc, afterNetloc) := SplitNetloc(rest);
    var (beforeHash, fragment) := Cut(afterNetloc, '#');
    var (path, query) := Cut(beforeHash, '?');
    Parts(scheme, netloc, path, query, fragment)
  }

  /** `uses_params`: the schemes whose last path segment may carry `;params`. */
  predicate UsesParams(scheme: string)
  {
    scheme == "" || scheme == "ftp" || scheme == "hdl" || scheme == "prospero" ||
    scheme == "http" || scheme == "imap" || scheme == "https" || scheme == "shttp" ||
    scheme == "rtsp" || scheme == "rtsps" || scheme == "rtspu" || scheme == "sip" ||
    scheme == "sips" || scheme == "mms" || scheme == "sftp" || scheme == "tel"
  }

  /** `uses_relative`: the schemes `urljoin` resolves references against. */
  predicate UsesRelative(scheme: string)
  {
    scheme == "" || scheme == "ftp" || scheme == "http" || scheme == "gopher" ||
    scheme == "nntp" || scheme == "imap" || scheme == "wais" || scheme == "file" ||
    scheme == "https" || scheme == "shttp" || scheme == "mms" || scheme == "prospero" ||
    scheme == "rtsp" || scheme == "rtsps" || scheme == "rtspu" || scheme == "sftp" ||
    scheme == "svn" || scheme == "svn+ssh" || scheme == "ws" || scheme == "wss"
  }

  /** `uses_netloc`: the schemes whose URLs carry an authority. */
  predicate UsesNetloc(scheme: string)
  {
    scheme == "" || scheme == "ftp" || scheme == "http" || scheme == "gopher" ||
    scheme == "nntp" || scheme == "telnet" || scheme == "imap" || scheme == "wais" ||
    scheme == "file" || scheme == "mms" || scheme == "https" || scheme == "shttp" ||
    scheme == "snews" || scheme == "prospero" || scheme == "rtsp" || scheme == "rtsps" ||
    scheme == "rtspu" || scheme == "rsync" || scheme == "svn" || scheme == "svn+ssh" ||
    scheme == "sftp" || scheme == "nfs" || scheme == "git" || scheme == "git+ssh" ||
    scheme == "ws" || scheme == "wss" || scheme == "itms-services"
  }


  /** `_splitparams(path)`: the path before the `;params` section, which
      starts at the first `;` after the last `/`, and the params after that
      `;`; the path whole and no params when there is no such `;`. */
  function SplitParams(path: string): (string, string)
  {
    var start := AfterLast(path, {'/'});
    var i := start + Find(path[start..], {';'});
    if i < |path| then (path[..i], path[i + 1..]) else (path, "")
  }

  function WithoutParams(path: string): string
  {
    SplitParams(path).0
  }

  /** The path and params `urlparse` reports for a path `urlsplit` gave:
      only schemes in `uses_params`, and only paths that hold a `;`, are
      cut. */
  function ParseParams(scheme: string, path: string): (string, string)
  {
    if UsesParams(scheme) && Find(path, {';'}) < |path| then SplitParams(path) else (path, "")
  }

  /** `urlparse(url).path`. */
  function UrlParsePath(url: string): string
  {
    var parts := UrlSplit(url, "");
    ParseParams(parts.scheme, parts.path).0
  }

  /** The path `urlunparse` writes: `;params` is put back after the path
      when the params are non-empty. */
  function WithParams(path: string, params: string): string
  {
    if params != "" then path + ";" + params else path
  }

  /** `urlunparse((scheme, netloc, path, params, query, fragment))`. */
  function UrlUnparse(scheme: string, netloc: string, path: string, params: string, query: string, fragment: string): string
  {
    UrlUnsplit(Parts(scheme, netloc, WithParams(path, params), query, fragment))
  }

  /** `urlunsplit(parts)`. */
  function UrlUnsplit(p: Parts): string
  {
    var path := p.path;
    var withNetloc :=
      if p.netloc != "" || (p.scheme != "" && UsesNetloc(p.scheme) && !(|path| >= 2 && path[0] == '/' && path[1] == '/'))
      then "//" + p.netloc + (if path != "" && path[0] != '/' then "/" + path else path)
      else path;
    var withScheme := if p.scheme != "" then p.scheme + ":" + withNetloc else withNetloc;
    var withQuery := if p.query != "" then withScheme + "?" + p.query else withScheme;
    if p.fragment != "" then withQuery + "#" + p.fragment else withQuery
  }

  /** `segments[1:-1] = filter(None, segments[1:-1])`: drop the empty
      segments strictly between the first and the last. */
  function DropInnerEmpty(segments: seq<string>): seq<string>
  {
    if |segments| <= 2 then segments
    else [segments[0]] + NonEmpty(segments[1..|segments| - 1]) + [segments[|segments| - 1]]
  }

  function NonEmpty(segments: seq<string>): seq<string>
  {
    if segments == [] then []
    else (if segments[0] == "" then [] else [segments[0]]) + NonEmpty(segments[1..])
  }

  /** The loop of `urljoin` that drops `.` segments and lets `..` remove the
      segment before it, over the segments still to read. */
  function ResolveDots(resolved: seq<string>, segments: seq<string>): seq<string>
    decreases |segments|
  {
    if segments == [] then resolved
    else if segments[0] == ".." then
      ResolveDots(if resolved == [] then [] else resolved[..|resolved| - 1], segments[1..])
    else if segments[0] == "." then ResolveDots(resolved, segments[1..])
    else ResolveDots(resolved + [segments[0]], segments[1..])
  }

  /** The resolved path `urljoin` writes: the dot-free segments joined with
      `/`, a trailing `/` when the last segment was `.` or `..`, and `/` for
      nothing at all. */
  function RemoveDotSegments(segments: seq<string>): string
    requires |segments| >= 1
  {
    var resolved := ResolveDots([], segments);
    var last := segments[|segments| - 1];
    var joined := Join(if last == "." || last == ".." then resolved + [""] else resolved, "/");
    if joined == "" then "/" else joined
  }

  /** The path `urljoin` gives a reference path `path` against the base path
      `basePath`: an absolute path is taken whole, a relative one is
      appended to the base's directory; then dot segments are resolved. */
  function MergePath(basePath: string, path: string): string
  {
    var baseParts := Split(basePath, {'/'});
    var baseDir := if baseParts[|baseParts| - 1] != "" then baseParts[..|baseParts| - 1] else baseParts;
    var segments :=
      if path != "" && path[0] == '/' then Split(path, {'/'})
      else DropInnerEmpty(baseDir + Split(path, {'/'}));
    RemoveDotSegments(segments)
  }

  /** `urljoin` once both URLs are split and the reference shares the base's
      scheme, which `urljoin` resolves relative references against. Both
      paths are read as `urlparse` reads them, with their `;params` cut
      off: the params of the reference follow the resolved path, and only a
      reference with neither path nor params keeps the base's path and
      params. */
  function JoinParts(b: Parts, u: Parts): string
  {
    var base := ParseParams(b.scheme, b.path);
    var ref := ParseParams(u.scheme, u.path);
    if UsesNetloc(u.scheme) && u.netloc != "" then UrlUnparse(u.scheme, u.netloc, ref.0, ref.1, u.query, u.fragment)
    else
      var netloc := if UsesNetloc(u.scheme) then b.netloc else u.netloc;
      if ref.0 == "" && ref.1 == "" then
        UrlUnparse(u.scheme, netloc, base.0, base.1, if u.query == "" then b.query else u.query, u.fragment)
      else
        UrlUnparse(u.scheme, netloc, MergePath(base.0, ref.0), ref.1, u.query, u.fragment)
  }

  /** `urljoin(base, url)`. */
  function UrlJoin(base: string, url: string): string
  {
    if base == "" then url
    else if url == "" then base
    else
      var b := UrlSplit(base, "");
      var u := UrlSplit(url, b.scheme);
      if u.scheme != b.scheme || !UsesRelative(u.scheme) then url
      else JoinParts(b, u)
  }

  /** The first path segment, `urlparse(url).path.split('/')[1]`; `None`
      where Python's indexing raises `IndexError` (a path without `/`). */
  function FirstPathSegment(url: string): Option<string>
  {
    var segments := Split(UrlParsePath(url), {'/'});
    if |segments| >= 2 then Some(segments[1]) else None
  }
  // ---------------------------------------------------------------------
  // Resolving a root-relative reference against `https://github.com`
  // ---------------------------------------------------------------------

  /** A reference written from a path, a query and a fragment alone, as
      `urlunsplit` writes it when scheme and authority are empty. */
  function Reference(path: string, query: string, fragment: string): string
  {
    UrlUnsplit(Parts("", "", path, query, fragment))
  }

  /** An absolute path (section 4.2 of RFC 3986) that `urlsplit` reads whole:
      it starts with a single `/` and holds no `?`, `#`, tab, carriage return
      or line feed. */
  predicate IsRootPath(path: string)
  {
    && path != "" && path[0] == '/' && !(|path| >= 2 && path[1] == '/')
    && Free(path, {'?', '#'}) && Free(path, Unsafe)
  }

  /** A root path that `urljoin` keeps as it is: no `.` or `..` segment, and
      no `;` in its last segment, where `urlparse` would cut params off. */
  predicate IsPlainAbsolutePath(path: string)
  {
    && IsRootPath(path)
    && Free(path[AfterLast(path, {'/'})..], {';'})
    && forall s :: s in Split(path, {'/'}) ==> s != "." && s != ".."
  }

  lemma {:induction false} RemoveUnsafeOfFree(s: string)
    requires Free(s, Unsafe)
    ensures RemoveUnsafe(s) == s
    decreases |s|
  {
    if s != [] {
      RemoveUnsafeOfFree(s[1..]);
      assert [s[0]] + s[1..] == s;
    }
  }

  /** A URL with nothing to clean is split as it is. */
  lemma SanitizeOfSanitized(s: string)
    requires IsSanitized(s)
    ensures Sanitize(s) == s
  {
    assert LStripC0(s) == s;
    RemoveUnsafeOfFree(s);
  }

  /** Cleaning a cleaned URL changes nothing. */
  lemma SanitizeIdempotent(s: string)
    ensures Sanitize(Sanitize(s)) == Sanitize(s)
  {
    var t := LStripC0(s);
    if t != [] {
      assert t[0] !in Unsafe;
      assert RemoveUnsafe(t) == [t[0]] + RemoveUnsafe(t[1..]);
    }
    SanitizeOfSanitized(Sanitize(s));
  }

  /** `urlsplit` reads a URL only through its cleaned text. */
  lemma SplitSanitized(url: string, defaultScheme: string)
    ensures UrlSplit(url, defaultScheme) == UrlSplit(Sanitize(url), defaultScheme)
  {
    SanitizeIdempotent(url);
  }

  /** `urlparse(url).path` is read off the cleaned text too. */
  lemma ParsePathSanitized(url: string)
    ensures UrlParsePath(url) == UrlParsePath(Sanitize(url))
  {
    SplitSanitized(url, "");
  }

  lemma {:induction false} RemoveUnsafeAppend(a: string, b: string)
    ensures RemoveUnsafe(a + b) == RemoveUnsafe(a) + RemoveUnsafe(b)
    decreases |a|
  {
    if a == [] {
      assert a + b == b;
    } else {
      assert (a + b)[0] == a[0] && (a + b)[1..] == a[1..] + b;
      RemoveUnsafeAppend(a[1..], b);
    }
  }

  lemma FreeAppend(a: string, b: string, cs: set<char>)
    requires Free(a, cs) && Free(b, cs)
    ensures Free(a + b, cs)
  {
  }

  /** A tab, carriage return or line feed after a clean head is deleted. */
  lemma SanitizeDropsUnsafe(head: string, c: char, tail: string)
    requires IsSanitized(head) && head != [] && c in Unsafe && Free(tail, Unsafe)
    ensures Sanitize(head + [c] + tail) == head + tail
  {
    var s := head + [c] + tail;
    assert LStripC0(s) == s by {
      assert s[0] == head[0];
    }
    assert RemoveUnsafe(s) == RemoveUnsafe(head) + RemoveUnsafe([c]) + RemoveUnsafe(tail) by {
      RemoveUnsafeAppend(head + [c], tail);
      RemoveUnsafeAppend(head, [c]);
    }
    assert RemoveUnsafe([c]) == [] by {
      assert [c][1..] == [];
    }
    assert RemoveUnsafe(head) == head by {
      RemoveUnsafeOfFree(head);
    }
    assert RemoveUnsafe(tail) == tail by {
      RemoveUnsafeOfFree(tail);
    }
  }

  /** A reference built from an absolute path, a query and a fragment with
      nothing to clean has nothing to clean, alone or after
      `https://github.com`. */
  lemma ReferenceSanitized(path: string, query: string, fragment: string)
    requires path != "" && path[0] == '/'
    requires Free(path, Unsafe) && Free(query, Unsafe) && Free(fragment, Unsafe)
    ensures IsSanitized(Reference(path, query, fragment))
    ensures IsSanitized("https://github.com" + Reference(path, query, fragment))
  {
    var q := if query != "" then "?" + query else "";
    var f := if fragment != "" then "#" + fragment else "";
    FreeAppend("?", query, Unsafe);
    FreeAppend("#", fragment, Unsafe);
    FreeAppend(q, f, Unsafe);
    assert Tail(query, fragment) == q + f;
    FreeAppend(path, Tail(query, fragment), Unsafe);
    ReferenceIsPathAndTail(path, query, fragment);
    var r := Reference(path, query, fragment);
    assert Free("https://github.com", Unsafe);
    FreeAppend("https://github.com", r, Unsafe);
    assert ("https://github.com" + r)[0] == 'h';
  }

  lemma {:induction false} FindAfterFree(s: string, t: string, cs: set<char>)
    requires Free(s, cs)
    ensures Find(s + t, cs) == |s| + Find(t, cs)
    decreases |s|
  {
    if s != [] {
      assert (s + t)[0] == s[0] && (s + t)[1..] == s[1..] + t;
      FindAfterFree(s[1..], t, cs);
    } else {
      assert s + t == t;
    }
  }

  lemma {:induction false} ResolveDotsOfPlain(resolved: seq<string>, segments: seq<string>)
    requires forall s :: s in segments ==> s != "." && s != ".."
    ensures ResolveDots(resolved, segments) == resolved + segments
    decreases |segments|
  {
    if segments == [] {
      assert resolved + segments == resolved;
    } else {
      assert segments[0] in segments;
      assert forall s :: s in segments[1..] ==> s in segments;
      assert ResolveDots(resolved, segments) == ResolveDots(resolved + [segments[0]], segments[1..]);
      ResolveDotsOfPlain(resolved + [segments[0]], segments[1..]);
      assert resolved + [segments[0]] + segments[1..] == resolved + segments;
    }
  }

  lemma CutAtFirst(s: string, c: char, t: string)
    requires Free(s, {c})
    ensures Cut(s + [c] + t, c) == (s, t)
  {
    FindAfterFree(s, [c] + t, {c});
    assert s + [c] + t == s + ([c] + t);
    assert ([c] + t)[0] == c;
    assert Find([c] + t, {c}) == 0;
    assert (s + [c] + t)[..|s|] == s;
    assert (s + [c] + t)[|s| + 1..] == t;
  }

  lemma CutAbsent(s: string, c: char)
    requires Free(s, {c})
    ensures Cut(s, c) == (s, "")
  {
    FindAfterFree(s, "", {c});
    assert s + "" == s;
  }

  /** How `urlsplit` divides `path?query#fragment` once scheme and authority
      are gone. */
  lemma CutReference(path: string, query: string, fragment: string)
    requires Free(path, {'?', '#'}) && Free(query, {'#'})
    ensures Cut(Reference(path, query, fragment), '#').1 == fragment
    ensures Cut(Cut(Reference(path, query, fragment), '#').0, '?') == (path, query)
  {
    var withQuery := if query != "" then path + ['?'] + query else path;
    var r := Reference(path, query, fragment);
    assert r == if fragment != "" then withQuery + ['#'] + fragment else withQuery;
    assert Free(withQuery, {'#'});
    if fragment != "" {
      CutAtFirst(withQuery, '#', fragment);
    } else {
      CutAbsent(withQuery, '#');
    }
    assert Cut(r, '#') == (withQuery, fragment);
    if query != "" {
      CutAtFirst(path, '?', query);
    } else {
      CutAbsent(path, '?');
    }
  }

  lemma SplitGitHub()
    ensures UrlSplit("https://github.com", "") == Parts("https", "github.com", "", "", "")
  {
    assert IsSanitized("https://github.com");
    SanitizeOfSanitized("https://github.com");
    SplitGitHubWith("");
    assert "https://github.com" + "" == "https://github.com";
    CutAbsent("", '#');
    CutAbsent("", '?');
  }

  lemma {:induction false} LowerAsciiOfLower(s: string)
    requires forall k :: 0 <= k < |s| ==> !('A' <= s[k] <= 'Z')
    ensures LowerAscii(s) == s
    decreases |s|
  {
    if s != [] {
      LowerAsciiOfLower(s[1..]);
      assert [s[0]] + s[1..] == s;
    }
  }

  /** In `s`, then `c`, then `rest`, the first `c` is the one after `s`
      when `s` holds none. */
  lemma FindFirstAfter(s: string, c: char, rest: string)
    requires Free(s, {c})
    ensures Find(s + [c] + rest, {c}) == |s|
  {
    FindAfterFree(s, [c] + rest, {c});
    assert s + [c] + rest == s + ([c] + rest);
    assert ([c] + rest)[0] == c;
  }

  /** A URL that starts with a well-formed scheme and `:` splits there. */
  lemma SchemeBeforeColon(scheme: string, rest: string, defaultScheme: string)
    requires scheme != "" && IsAsciiLetter(scheme[0])
    requires forall k :: 0 <= k < |scheme| ==> IsSchemeChar(scheme[k])
    ensures SplitScheme(scheme + [':'] + rest, defaultScheme) == (LowerAscii(scheme), rest)
  {
    var url := scheme + [':'] + rest;
    assert Free(scheme, {':'});
    FindFirstAfter(scheme, ':', rest);
    assert IsAsciiLetter(url[0]) && forall k :: 0 <= k < |scheme| ==> IsSchemeChar(url[k]) by {
      assert forall k :: 0 <= k < |scheme| ==> url[k] == scheme[k];
    }
    assert url[..|scheme|] == scheme && url[|scheme| + 1..] == rest;
  }

  /** The scheme of `https://github.com` followed by anything. */
  lemma SchemeOfGitHub(r: string)
    ensures SplitScheme("https://github.com" + r, "") == ("https", "//github.com" + r)
  {
    var scheme := "https";
    var rest := "//github.com" + r;
    assert "https://github.com" + r == scheme + [':'] + rest;
    assert SplitScheme(scheme + [':'] + rest, "") == (LowerAscii(scheme), rest) by {
      assert forall k :: 0 <= k < |scheme| ==> IsSchemeChar(scheme[k]);
      SchemeBeforeColon(scheme, rest, "");
    }
    assert LowerAscii(scheme) == scheme by {
      LowerAsciiOfLower(scheme);
    }
  }

  /** The authority of `//github.com` followed by a reference that starts
      with `/`. */
  lemma NetlocOfGitHub(r: string)
    requires r == "" || r[0] == '/'
    ensures SplitNetloc("//github.com" + r) == ("github.com", r)
  {
    var rest := "//github.com" + r;
    assert rest[2..] == "github.com" + r;
    assert Free("github.com", {'/', '?', '#'});
    FindAfterFree("github.com", r, {'/', '?', '#'});
    if r != "" {
      assert r[0] in {'/', '?', '#'};
    }
    assert Find(r, {'/', '?', '#'}) == 0;
    assert rest[2..12] == "github.com" && rest[12..] == r;
  }

  /** Scheme and authority of `https://github.com` followed by a reference
      that starts with `/`. */
  lemma SplitGitHubWith(r: string)
    requires r == "" || r[0] == '/'
    ensures SplitScheme("https://github.com" + r, "") == ("https", "//github.com" + r)
    ensures SplitNetloc("//github.com" + r) == ("github.com", r)
  {
    SchemeOfGitHub(r);
    NetlocOfGitHub(r);
  }

  /** What `urlunsplit` appends to the path: `?query` and `#fragment`, each
      only when non-empty. */
  function Tail(query: string, fragment: string): (t: string)
    ensures t == "" || t[0] == '?' || t[0] == '#'
  {
    (if query != "" then "?" + query else "") + (if fragment != "" then "#" + fragment else "")
  }

  lemma ReferenceIsPathAndTail(path: string, query: string, fragment: string)
    ensures Reference(path, query, fragment) == path + Tail(query, fragment)
  {
  }

  /** A reference made from a root path, split against any default scheme,
      gives back its path, query and fragment and no authority. */
  lemma SplitPlainReference(path: string, query: string, fragment: string, defaultScheme: string)
    requires IsRootPath(path) && Free(query, {'#'}) && Free(query, Unsafe) && Free(fragment, Unsafe)
    ensures UrlSplit(Reference(path, query, fragment), defaultScheme)
            == Parts(defaultScheme, "", path, query, fragment)
  {
    var href := Reference(path, query, fragment);
    ReferenceSanitized(path, query, fragment);
    SanitizeOfSanitized(href);
    ReferenceIsPathAndTail(path, query, fragment);
    var t := Tail(query, fragment);
    assert href[0] == '/';
    assert !IsAsciiLetter(href[0]);
    assert SplitScheme(href, defaultScheme) == (defaultScheme, href);
    if |path| >= 2 {
      assert href[1] == path[1];
    } else if |href| >= 2 {
      assert href[1] == t[0];
    }
    assert SplitNetloc(href) == ("", href);
    CutReference(path, query, fragment);
  }

  /** A plain absolute path taken against the empty base path stays as it is. */
  lemma MergeIntoRoot(path: string)
    requires IsPlainAbsolutePath(path)
    ensures MergePath("", path) == path
  {
    var segments := Split(path, {'/'});
    var last := segments[|segments| - 1];
    assert last != "." && last != ".." by {
      assert last in segments;
    }
    assert ResolveDots([], segments) == segments by {
      ResolveDotsOfPlain([], segments);
      assert [] + segments == segments;
    }
    assert Join(segments, "/") == path by {
      JoinSplit(path, '/');
    }
    assert RemoveDotSegments(segments) == path;
    assert MergePath("", path) == RemoveDotSegments(segments) by {
      assert Split("", {'/'}) == [""];
      assert path[0] == '/';
    }
  }

  /** `urlunsplit` of the `https://github.com` authority and a path that
      starts with `/`. */
  lemma UnsplitGitHub(path: string, query: string, fragment: string)
    requires path != "" && path[0] == '/'
    ensures UrlUnsplit(Parts("https", "github.com", path, query, fragment))
            == "https://github.com" + Reference(path, query, fragment)
  {
    ReferenceIsPathAndTail(path, query, fragment);
    UnsplitWithAuthority("https", "github.com", path, query, fragment);
    assert "https" + ":" + ("//" + "github.com") == "https://github.com";
  }

  /** A URL with a scheme and an authority, and an absolute path, is put
      back together as all its parts in order. */
  lemma UnsplitWithAuthority(scheme: string, netloc: string, path: string, query: string, fragment: string)
    requires scheme != "" && netloc != "" && path != "" && path[0] == '/'
    ensures UrlUnsplit(Parts(scheme, netloc, path, query, fragment))
            == scheme + ":" + ("//" + netloc) + (path + Tail(query, fragment))
  {
    var withScheme := scheme + ":" + ("//" + netloc + path);
    AppendTail(withScheme, query, fragment);
    assert withScheme + Tail(query, fragment) == scheme + ":" + ("//" + netloc) + (path + Tail(query, fragment));
  }

  /** What `urlunsplit` adds after the path: the query and the fragment. */
  lemma AppendTail(w: string, query: string, fragment: string)
    ensures (var wq := if query != "" then w + "?" + query else w;
             if fragment != "" then wq + "#" + fragment else wq)
            == w + Tail(query, fragment)
  {
    if query != "" {
      if fragment != "" {
        assert w + "?" + query + "#" + fragment == w + ("?" + query + ("#" + fragment));
      } else {
        assert w + "?" + query == w + ("?" + query + "");
      }
    } else if fragment != "" {
      assert w + "#" + fragment == w + ("" + ("#" + fragment));
    } else {
      assert w == w + ("" + "");
    }
  }

  lemma {:induction false} AfterLastAppendFree(s: string, t: string, cs: set<char>)
    requires Free(t, cs)
    ensures AfterLast(s + t, cs) == AfterLast(s, cs)
    decreases |t|
  {
    if t == [] {
      assert s + t == s;
    } else {
      var u := s + t;
      assert u[|u| - 1] == t[|t| - 1];
      assert u[..|u| - 1] == s + t[..|t| - 1];
      AfterLastAppendFree(s, t[..|t| - 1], cs);
    }
  }

  /** `urlparse` cuts the params written after a plain absolute path off
      again, and finds none when none were written. */
  lemma ParamsAfterPlainPath(scheme: string, path: string, params: string)
    requires UsesParams(scheme) && IsPlainAbsolutePath(path) && Free(params, {'/'})
    ensures ParseParams(scheme, WithParams(path, params)) == (path, params)
  {
    if params == "" {
      NoParamsAfterPlainPath(scheme, path);
    } else {
      ParamsCutAfterPlainPath(scheme, path, params);
    }
  }

  lemma NoParamsAfterPlainPath(scheme: string, path: string)
    requires IsPlainAbsolutePath(path)
    ensures ParseParams(scheme, path) == (path, "")
  {
    var start := AfterLast(path, {'/'});
    if Find(path, {';'}) < |path| {
      FindAfterFree(path[start..], "", {';'});
      assert path[start..] + "" == path[start..];
    }
  }

  lemma ParamsCutAfterPlainPath(scheme: string, path: string, params: string)
    requires UsesParams(scheme) && IsPlainAbsolutePath(path) && Free(params, {'/'}) && params != ""
    ensures ParseParams(scheme, path + ";" + params) == (path, params)
  {
    var start := AfterLast(path, {'/'});
    var full := path + ";" + params;
    AfterLastParams(path, params);
    FindParamsStart(path, start, params);
    assert full[|path|] == ';';
    assert Find(full, {';'}) < |full|;
    assert full[..|path|] == path && full[|path| + 1..] == params;
  }

  /** Params add no `/`: the last segment starts where it did. */
  lemma AfterLastParams(path: string, params: string)
    requires Free(params, {'/'})
    ensures AfterLast(path + ";" + params, {'/'}) == AfterLast(path, {'/'})
  {
    assert Free(";" + params, {'/'});
    assert path + ";" + params == path + (";" + params);
    AfterLastAppendFree(path, ";" + params, {'/'});
  }

  /** The first `;` from `start` on is the one written before the params. */
  lemma FindParamsStart(path: string, start: nat, params: string)
    requires start <= |path| && Free(path[start..], {';'})
    ensures start + Find((path + ";" + params)[start..], {';'}) == |path|
  {
    assert (path + ";" + params)[start..] == path[start..] + [';'] + params;
    FindFirstAfter(path[start..], ';', params);
  }

  /** A path with params written after it is still a root path. */
  lemma WithParamsIsRootPath(path: string, params: string)
    requires IsRootPath(path) && Free(params, {'?', '#'}) && Free(params, Unsafe)
    ensures IsRootPath(WithParams(path, params))
  {
    if params != "" {
      var full := path + ";" + params;
      FreeAppend(path, ";", {'?', '#'});
      FreeAppend(path + ";", params, {'?', '#'});
      FreeAppend(path, ";", Unsafe);
      FreeAppend(path + ";", params, Unsafe);
      if |path| >= 2 {
        assert full[1] == path[1];
      } else {
        assert full[1] == ';';
      }
    }
  }

  /** `urljoin('https://github.com', href)` for an `href` that cleans to a
      reference whose path is a plain absolute path, maybe with `;params`
      after it, is the base followed by that cleaned reference: any tab,
      carriage return or line feed in `href`, and any leading control or
      space, is gone. */
  lemma JoinPlainReference(href: string, path: string, params: string, query: string, fragment: string)
    requires IsPlainAbsolutePath(path) && Free(params, {'/', '?', '#'}) && Free(params, Unsafe)
    requires Free(query, {'#'}) && Free(query, Unsafe) && Free(fragment, Unsafe)
    requires Sanitize(href) == Reference(WithParams(path, params), query, fragment)
    ensures UrlJoin("https://github.com", href) == "https://github.com" + Reference(WithParams(path, params), query, fragment)
  {
    var full := WithParams(path, params);
    var b := Parts("https", "github.com", "", "", "");
    var u := Parts("https", "", full, query, fragment);
    assert IsRootPath(full) by {
      WithParamsIsRootPath(path, params);
    }
    assert UrlSplit("https://github.com", "") == b by {
      SplitGitHub();
    }
    assert UrlSplit(href, "https") == u by {
      SplitSanitized(href, "https");
      SplitPlainReference(full, query, fragment, "https");
    }
    assert href != "" by {
      ReferenceIsPathAndTail(full, query, fragment);
      assert Sanitize("") == "";
    }
    assert UrlJoin("https://github.com", href) == JoinParts(b, u) by {
      assert UsesRelative("https");
    }
    assert JoinParts(b, u) == UrlUnsplit(Parts("https", "github.com", full, query, fragment)) by {
      assert UsesNetloc("https") && UsesParams("https");
      assert ParseParams("https", "") == ("", "");
      ParamsAfterPlainPath("https", path, params);
      MergeIntoRoot(path);
    }
    UnsplitGitHub(full, query, fragment);
  }

  /** Cutting the params off a root path leaves a non-empty path. */
  lemma RootPathBeforeParams(path: string)
    requires IsRootPath(path)
    ensures SplitParams(path).0 != ""
  {
    var start := AfterLast(path, {'/'});
    assert path[0] in {'/'};
    assert start > 0;
    var i := start + Find(path[start..], {';'});
    if i < |path| {
      assert |path[..i]| == i;
    }
  }

  /** `urljoin('https://github.com', href)` for an `href` that cleans to a
      root path: the path before its params is resolved against the base's
      empty path, and the params are put back after it. */
  lemma JoinRootPath(href: string, path: string)
    requires IsRootPath(path) && Sanitize(href) == path
    ensures UrlJoin("https://github.com", href)
            == UrlUnparse("https", "github.com", MergePath("", ParseParams("https", path).0), ParseParams("https", path).1, "", "")
  {
    var b := Parts("https", "github.com", "", "", "");
    var u := Parts("https", "", path, "", "");
    assert UrlSplit("https://github.com", "") == b by {
      SplitGitHub();
    }
    assert UrlSplit(href, "https") == u by {
      SplitSanitized(href, "https");
      BareReference(path);
      SplitPlainReference(path, "", "", "https");
    }
    assert href != "" by {
      assert Sanitize("") == "";
    }
    assert UrlJoin("https://github.com", href) == JoinParts(b, u) by {
      assert UsesRelative("https");
    }
    var ref := ParseParams("https", path);
    assert ref.0 != "" by {
      RootPathBeforeParams(path);
    }
    assert JoinParts(b, u) == UrlUnparse("https", "github.com", MergePath("", ref.0), ref.1, "", "") by {
      assert UsesNetloc("https");
      assert ParseParams("https", "") == ("", "");
    }
  }

  /** `urljoin` resolves the dot segments of the path before the params and
      puts the params back after the result: `/<segment>/..;<params>`
      joins to `https://github.com/;<params>` (`/a/..;p` to
      `https://github.com/;p`). */
  lemma JoinDotsBeforeParams(segment: string, params: string)
    requires segment != "" && Free(segment, {'/', ';', '?', '#'}) && Free(segment, Unsafe)
    requires segment != "." && segment != ".."
    requires params != "" && Free(params, {'/', '?', '#'}) && Free(params, Unsafe)
    ensures UrlJoin("https://github.com", "/" + segment + "/..;" + params) == "https://github.com/;" + params
  {
    var path := "/" + segment + "/..";
    var href := "/" + segment + "/..;" + params;
    assert href == path + ";" + params;
    assert IsRootPath(href) && Sanitize(href) == href by {
      assert href[1] == segment[0];
      assert Free(href, {'?', '#'}) && Free(href, Unsafe);
      SanitizeOfSanitized(href);
    }
    JoinRootPath(href, href);
    assert ParseParams("https", href) == (path, params) by {
      DotsParams(segment, params);
    }
    assert MergePath("", path) == "/" by {
      MergeDots(segment);
    }
    GitHubRootWithParams(params);
  }

  /** `urlunparse` of the `https://github.com` authority, the path `/` and
      non-empty params. */
  lemma GitHubRootWithParams(params: string)
    requires params != ""
    ensures UrlUnparse("https", "github.com", "/", params, "", "") == "https://github.com/;" + params
  {
    var path := "/;" + params;
    assert WithParams("/", params) == path;
    UnsplitGitHub(path, "", "");
    BareReference(path);
    assert "https://github.com" + path == "https://github.com/;" + params;
  }

  lemma DotsParams(segment: string, params: string)
    requires Free(segment, {'/', ';'}) && Free(params, {'/'})
    ensures ParseParams("https", "/" + segment + "/.." + ";" + params) == ("/" + segment + "/..", params)
  {
    var path := "/" + segment + "/..";
    var href := path + ";" + params;
    assert href[|path|] == ';';
    assert Find(href, {';'}) < |href|;
    var start := |path| - 2;
    assert AfterLast(href, {'/'}) == start by {
      assert href == path + (";" + params);
      assert Free(";" + params, {'/'});
      AfterLastAppendFree(path, ";" + params, {'/'});
      assert path == ("/" + segment + "/") + "..";
      AfterLastAppendFree("/" + segment + "/", "..", {'/'});
    }
    assert href[start..] == ".." + [';'] + params;
    FindFirstAfter("..", ';', params);
    assert href[..|path|] == path && href[|path| + 1..] == params;
  }

  lemma MergeDots(segment: string)
    requires Free(segment, {'/'}) && segment != "." && segment != ".."
    ensures MergePath("", "/" + segment + "/..") == "/"
  {
    var path := "/" + segment + "/..";
    assert Split("", {'/'}) == [""];
    assert Split(path, {'/'}) == ["", segment, ".."] by {
      SplitOfFree("..", {'/'});
      SplitAfterPart(segment, '/', "..", {'/'});
      SplitAfterPart("", '/', segment + "/..", {'/'});
      assert path == "" + ['/'] + (segment + ['/'] + "..");
    }
    assert ResolveDots([], ["", segment, ".."]) == [""] by {
      assert ["", segment, ".."][1..] == [segment, ".."] && [] + [""] == [""];
      assert ResolveDots([], ["", segment, ".."]) == ResolveDots([""], [segment, ".."]);
      assert ResolveDots([""], [segment, ".."]) == ResolveDots(["", segment], [".."]);
      assert ResolveDots(["", segment], [".."]) == ResolveDots([""], []);
    }
    assert Join([""] + [""], "/") == "/";
  }

  /** `urlparse` reads the path of `https://github.com` followed by a reference
      back out of it. */
  lemma SplitGitHubReference(path: string, query: string, fragment: string)
    requires IsRootPath(path) && Free(query, {'#'}) && Free(query, Unsafe) && Free(fragment, Unsafe)
    ensures UrlSplit("https://github.com" + Reference(path, query, fragment), "")
            == Parts("https", "github.com", path, query, fragment)
  {
    var href := Reference(path, query, fragment);
    ReferenceSanitized(path, query, fragment);
    SanitizeOfSanitized("https://github.com" + href);
    ReferenceIsPathAndTail(path, query, fragment);
    assert href[0] == '/';
    SplitGitHubWith(href);
    CutReference(path, query, fragment);
  }

  /** A path `/<owner>` followed by nothing or by more after a `/` has `owner`
      as its second `/`-separated part. */
  lemma SecondPart(owner: string, x: string)
    requires Free(owner, {'/'}) && (x == "" || x[0] == '/')
    ensures |Split("/" + owner + x, {'/'})| >= 2
    ensures Split("/" + owner + x, {'/'})[1] == owner
  {
    var rest := owner + x;
    var restParts := Split(rest, {'/'});
    if x == "" {
      assert rest == owner;
      SplitOfFree(owner, {'/'});
    } else {
      assert rest == owner + ['/'] + x[1..];
      SplitAfterPart(owner, '/', x[1..], {'/'});
    }
    assert restParts[0] == owner;
    SplitAfterPart("", '/', rest, {'/'});
    calc {
      "/" + owner + x;
      "" + ['/'] + rest;
    }
  }

  /** Cutting the `;params` off `/<owner>...` leaves `/<owner>` followed by
      nothing or by more after a `/`. */
  lemma ParamsKeepOwner(owner: string, sub: string)
    requires Free(owner, {'/', ';'}) && (sub == "" || sub[0] == '/')
    ensures var w := WithoutParams("/" + owner + sub);
            && |w| >= |owner| + 1 && w[..|owner| + 1] == "/" + owner
            && (|w| == |owner| + 1 || w[|owner| + 1] == '/')
  {
    var path := "/" + owner + sub;
    var start := AfterLast(path, {'/'});
    var i := start + Find(path[start..], {';'});
    assert path[0] == '/';
    assert start > 0;
    if sub == "" {
      assert forall k :: 1 <= k < |path| ==> path[k] == owner[k - 1];
      assert start == 1;
      assert path[1..] == owner;
      assert Free(owner, {';'});
      assert Find(owner, {';'}) == |owner|;
      assert WithoutParams(path) == path;
    } else {
      assert path[|owner| + 1] == '/';
      assert start >= |owner| + 2;
      assert path[..|owner| + 1] == "/" + owner;
    }
  }

  /** `urlparse(...).path` of `https://github.com` followed by a reference:
      the reference's path without its `;params`. */
  lemma ParsePathOfGitHub(path: string, query: string, fragment: string)
    requires IsRootPath(path) && Free(query, {'#'}) && Free(query, Unsafe) && Free(fragment, Unsafe)
    ensures UrlParsePath("https://github.com" + Reference(path, query, fragment))
            == if ';' in path then WithoutParams(path) else path
  {
    SplitGitHubReference(path, query, fragment);
  }

  /** With or without its `;params`, `/<owner>...` has `owner` as its second
      `/`-separated part. */
  lemma OwnerPart(owner: string, sub: string)
    requires Free(owner, {'/', ';'}) && (sub == "" || sub[0] == '/')
    ensures var path := "/" + owner + sub;
            var p := if ';' in path then WithoutParams(path) else path;
            |Split(p, {'/'})| >= 2 && Split(p, {'/'})[1] == owner
  {
    var path := "/" + owner + sub;
    if ';' in path {
      var p := WithoutParams(path);
      ParamsKeepOwner(owner, sub);
      var x := p[|owner| + 1..];
      assert p == p[..|owner| + 1] + x;
      SecondPart(owner, x);
    } else {
      SecondPart(owner, sub);
    }
  }

  /** The first path segment of a URL that cleans to
      `https://github.com/<owner><sub>` is `owner`, when `owner` has no `/`
      or `;`, `sub` is empty or starts with `/`, and the path is a root
      path. */
  lemma FirstSegmentOfGitHubUrl(url: string, owner: string, sub: string, query: string, fragment: string)
    requires Free(owner, {'/', ';'}) && (sub == "" || sub[0] == '/')
    requires IsRootPath("/" + owner + sub) && Free(query, {'#'}) && Free(query, Unsafe) && Free(fragment, Unsafe)
    requires Sanitize(url) == "https://github.com" + Reference("/" + owner + sub, query, fragment)
    ensures FirstPathSegment(url) == Some(owner)
  {
    ParsePathSanitized(url);
    ParsePathOfGitHub("/" + owner + sub, query, fragment);
    OwnerPart(owner, sub);
  }

  /** A reference that is a path alone is that path. */
  lemma BareReference(path: string)
    ensures Reference(path, "", "") == path
  {
    ReferenceIsPathAndTail(path, "", "");
    assert Tail("", "") == "";
  }

  /** `/<segment>` splits at `/` into an empty part and the segment. */
  lemma SplitRootSegment(segment: string)
    requires Free(segment, {'/'})
    ensures Split("/" + segment, {'/'}) == ["", segment]
  {
    assert "/" + segment == "" + ['/'] + segment;
    SplitAfterPart("", '/', segment, {'/'});
    SplitOfFree(segment, {'/'});
  }

  /** `/<segment>` is a plain absolute path when the segment is non-empty,
      holds no `/`, `;`, `?`, `#`, tab, carriage return or line feed, and is
      neither `.` nor `..`. */
  lemma RootSegmentIsPlain(segment: string)
    requires segment != "" && Free(segment, {'/', ';', '?', '#'}) && Free(segment, Unsafe)
    requires segment != "." && segment != ".."
    ensures IsPlainAbsolutePath("/" + segment)
  {
    SplitRootSegment(segment);
    FreeAppend("/", segment, Unsafe);
    assert AfterLast("/" + segment, {'/'}) == 1 by {
      AfterLastAppendFree("/", segment, {'/'});
    }
    assert ("/" + segment)[1..] == segment;
  }

  /** `urljoin('https://github.com', href)` for an `href` that cleans to a
      plain absolute path is the base followed by that path. */
  lemma JoinGitHubPath(href: string, path: string)
    requires IsPlainAbsolutePath(path) && Sanitize(href) == path
    ensures UrlJoin("https://github.com", href) == "https://github.com" + path
  {
    BareReference(path);
    assert WithParams(path, "") == path;
    JoinPlainReference(href, path, "", "", "");
  }

  /** `urljoin('https://github.com', '/<segment>')` appends `/<segment>`. */
  lemma JoinRootSegment(segment: string)
    requires segment != "" && Free(segment, {'/', ';', '?', '#'}) && Free(segment, Unsafe)
    requires segment != "." && segment != ".."
    ensures UrlJoin("https://github.com", "/" + segment) == "https://github.com" + "/" + segment
  {
    var path := "/" + segment;
    assert IsPlainAbsolutePath(path) && Sanitize(path) == path by {
      RootSegmentIsPlain(segment);
      SanitizeOfSanitized(path);
    }
    JoinGitHubPath(path, path);
  }

}
