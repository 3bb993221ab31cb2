/** `crawler/utils.py`: reading the proxy list file, picking one proxy from
    it, and the request headers sent with every attempt. The random choices
    (`random.choice`, the `fake_useragent` user agent) are parameters here. */
module Utils {
  import opened Wrappers
  import opened Text

  // ---------------------------------------------------------------------
  // Request headers
  // ---------------------------------------------------------------------

  type Headers = map<string, string>

  /** The two `Accept-Language` values one of which each request carries. */
  const AcceptLanguages: seq<string> := ["en-US,en;q=0.9", "en-GB,en;q=0.8"]
  const Referer: string := "https://github.com/"
  const AcceptEncoding: string := "gzip, deflate, br"

  /** `get_random_headers()` once `ua.random` has produced `userAgent` and
      `random.choice` has picked the `language`-th accepted language. */
  function RandomHeaders(userAgent: string, language: nat): Headers
    requires language < |AcceptLanguages|
  {
    map["User-Agent" := userAgent,
        "Accept-Language" := AcceptLanguages[language],
        "Referer" := Referer,
        "Accept-Encoding" := AcceptEncoding]
  }

  /** The shape every header map has: exactly the four keys, a fixed referer
      and encoding, and one of the accepted languages. */
  predicate WellFormedHeaders(h: Headers)
  {
    && h.Keys == {"User-Agent", "Accept-Language", "Referer", "Accept-Encoding"}
    && h["Accept-Language"] in AcceptLanguages
    && h["Referer"] == Referer
    && h["Accept-Encoding"] == AcceptEncoding
  }

  /** Every header map `get_random_headers` can return is well formed, and
      every well-formed map is one it can return. */
  lemma HeadersWellFormed(h: Headers)
    ensures WellFormedHeaders(h) <==>
            exists ua: string, language: nat ::
              language < |AcceptLanguages| && h == RandomHeaders(ua, language)
  {
    if WellFormedHeaders(h) {
      var language := if h["Accept-Language"] == AcceptLanguages[0] then 0 else 1;
      var g := RandomHeaders(h["User-Agent"], language);
      assert g.Keys == h.Keys;
      assert forall k :: k in h ==> g[k] == h[k];
      assert h == g;
    }
  }

  /** `get_random_headers()`, with the user agent and the language chosen
      arbitrarily. */
  method GetRandomHeaders() returns (h: Headers)
    ensures WellFormedHeaders(h)
  {
    var ua: string := *;
    var language: nat :| language < |AcceptLanguages|;
    h := RandomHeaders(ua, language);
  }

  // ---------------------------------------------------------------------
  // The proxy list file
  // ---------------------------------------------------------------------

  /** What `open(proxy_file, 'r')` finds: no file, or a file with this text. */
  datatype ProxyFile = Missing | Present(text: string)

  /** The lines `for line in file` yields, without their line ends; text mode
      reads `\r\n` and `\r` as line ends too. Cutting at `\r` and `\n`
      separately only adds empty lines, which cleaning drops. */
  function Lines(text: string): seq<string>
  {
    Split(text, {'\n', '\r'})
  }

  /** `[line.strip() for line in lines if line.strip()]`. */
  function CleanLines(lines: seq<string>): (r: seq<string>)
    ensures |r| <= |lines|
    ensures forall p :: p in r ==> p != "" && Strip(p) == p
  {
    if lines == [] then []
    else
      var rest := CleanLines(lines[1..]);
      var s := Strip(lines[0]);
      StripIdempotent(lines[0]);
      if s != "" then [s] + rest else rest
  }

  /** The proxies listed in a file with this text. */
  function ProxyCandidates(text: string): seq<string>
  {
    CleanLines(Lines(text))
  }

  /** A proxy is a candidate exactly when it is the non-blank strip of one of
      the lines. */
  lemma {:induction false} CleanLinesMembers(lines: seq<string>, p: string)
    ensures p in CleanLines(lines) <==> p != "" && exists l :: l in lines && Strip(l) == p
  {
    if lines != [] {
      CleanLinesMembers(lines[1..], p);
      assert forall l :: l in lines <==> l == lines[0] || l in lines[1..];
    }
  }

  /** Cleaning keeps file order: the candidates of two blocks of lines are the
      candidates of the first followed by those of the second. */
  lemma {:induction false} CleanLinesAppend(a: seq<string>, b: seq<string>)
    ensures CleanLines(a + b) == CleanLines(a) + CleanLines(b)
  {
    if a == [] {
      assert a + b == b;
    } else {
      assert (a + b)[0] == a[0] && (a + b)[1..] == a[1..] + b;
      CleanLinesAppend(a[1..], b);
    }
  }

  /** Cleaning a cleaned list changes nothing. */
  lemma {:induction false} CleanLinesIdempotent(lines: seq<string>)
    ensures CleanLines(CleanLines(lines)) == CleanLines(lines)
  {
    if lines != [] {
      CleanLinesIdempotent(lines[1..]);
      var s := Strip(lines[0]);
      if s != "" {
        StripIdempotent(lines[0]);
        assert CleanLines([s] + CleanLines(lines[1..])) == [s] + CleanLines(CleanLines(lines[1..]))
          by { assert ([s] + CleanLines(lines[1..]))[1..] == CleanLines(lines[1..]); }
      }
    }
  }

  /** The lines of `name\n` followed by more text. */
  lemma LinesOfFirst(name: string, rest: string)
    requires Free(name, {'\n', '\r'})
    ensures Lines(name + "\n" + rest) == [name] + Lines(rest)
  {
    assert name + "\n" + rest == name + ['\n'] + rest;
    SplitAfterPart(name, '\n', rest, {'\n', '\r'});
  }

  /** A proxy list file written one name per line, each line ended by `\n`. */
  function FileOf(names: seq<string>): string
  {
    if names == [] then "" else names[0] + "\n" + FileOf(names[1..])
  }

  /** A name that can stand on a line of the proxy file by itself. */
  predicate IsListable(name: string)
  {
    name != "" && Free(name, {'\n', '\r'}) && Strip(name) == name
  }

  lemma LinesOfFileStep(names: seq<string>)
    requires names != [] && Free(names[0], {'\n', '\r'})
    ensures Lines(FileOf(names)) == [names[0]] + Lines(FileOf(names[1..]))
  {
    var rest := FileOf(names[1..]);
    assert FileOf(names) == names[0] + "\n" + rest;
    LinesOfFirst(names[0], rest);
  }

  lemma {:induction false} LinesOfFile(names: seq<string>)
    requires forall i :: 0 <= i < |names| ==> Free(names[i], {'\n', '\r'})
    ensures Lines(FileOf(names)) == names + [""]
  {
    if names == [] {
      assert Lines("") == [""];
    } else {
      var rest := names[1..];
      LinesOfFileStep(names);
      LinesOfFile(rest);
      assert [names[0]] + (rest + [""]) == names + [""];
    }
  }

  lemma {:induction false} CleanListedLines(names: seq<string>)
    requires forall i :: 0 <= i < |names| ==> IsListable(names[i])
    ensures CleanLines(names + [""]) == names
  {
    if names == [] {
      assert names + [""] == [""];
      assert Strip("") == "";
    } else {
      assert (names + [""])[1..] == names[1..] + [""];
      CleanListedLines(names[1..]);
      assert [names[0]] + names[1..] == names;
    }
  }

  /** Reading back a proxy file written one stripped, non-blank name per
      line gives the names, in order (the three-proxy file
      `proxy1.com\nproxy2.com\nproxy3.com\n` is one instance). */
  lemma ReadWrittenFile(names: seq<string>)
    requires forall i :: 0 <= i < |names| ==> IsListable(names[i])
    ensures ProxyCandidates(FileOf(names)) == names
  {
    LinesOfFile(names);
    CleanListedLines(names);
  }

  /** An empty file lists no proxy. */
  lemma EmptyFileHasNoProxy()
    ensures ProxyCandidates("") == []
  {
    assert Lines("") == [""];
    assert Strip("") == "";
  }

  /** What `get_random_proxy(proxy_file)` returns: `[]` for a missing file,
      `None` for a file without a non-blank line, otherwise one proxy. */
  datatype ProxyPick = EmptyList | NoProxy | Proxy(address: string)

  /** `get_random_proxy(proxy_file)` with `random.choice` picking the
      `choice`-th candidate. */
  function GetRandomProxy(file: ProxyFile, choice: nat): ProxyPick
    requires file.Present? && ProxyCandidates(file.text) != [] ==> choice < |ProxyCandidates(file.text)|
  {
    match file
    case Missing => EmptyList
    case Present(text) =>
      var proxies := ProxyCandidates(text);
      if proxies == [] then NoProxy else Proxy(proxies[choice])
  }

  /** The three cases of `get_random_proxy`: a missing file gives `[]`, a file
      with candidates gives one of them, stripped and non-blank, and any
      other file gives `None`. */
  lemma GetRandomProxyCases(file: ProxyFile, choice: nat)
    requires file.Present? && ProxyCandidates(file.text) != [] ==> choice < |ProxyCandidates(file.text)|
    ensures GetRandomProxy(file, choice) == EmptyList <==> file.Missing?
    ensures GetRandomProxy(file, choice) == NoProxy <==> file.Present? && ProxyCandidates(file.text) == []
    ensures GetRandomProxy(file, choice).Proxy? ==>
              var p := GetRandomProxy(file, choice).address;
              && p in ProxyCandidates(file.text)
              && p != "" && Strip(p) == p
              && exists l :: l in Lines(file.text) && Strip(l) == p
  {
    if GetRandomProxy(file, choice).Proxy? {
      var p := GetRandomProxy(file, choice).address;
      CleanLinesMembers(Lines(file.text), p);
    }
  }
}
