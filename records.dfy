/** The repository records both crawlers build, what their BeautifulSoup
    calls read out of a page, and what `_parse_search_results`,
    `_get_repo_details` and `run` compute, stated as functions of the network
    and of the markup. */
module Records {
  import opened Wrappers
  import opened Text
  import opened Retry
  import opened UrlParse

  const BaseUrl: string := "https://github.com"

  /** `language_stats`: language name to percentage. The percentages come
      from `float(...)` and are opaque here. */
  type LanguageStats = map<string, real>

  datatype Extra = Extra(owner: string, languageStats: LanguageStats)

  /** One repository dictionary: `{'url': ...}`, plus `'extra'` once its
      details were fetched. */
  datatype RepoRecord = RepoRecord(url: string, extra: Option<Extra>)

  /** What the crawler reads out of a page's text with BeautifulSoup: the
      `href` of each anchor the search-result selector picks, in document
      order (`None` for an anchor without one); `_get_next_page_url`; and
      `_parse_language_stats`. */
  datatype Markup = Markup(
    resultLinks: string -> seq<Option<string>>,
    nextHref: string -> Option<string>,
    languageStats: string -> LanguageStats)

  /** A repository dictionary, which `_get_repo_details` extends in place. */
  class Repo {
    var url: string
    var extra: Option<Extra>

    constructor (url: string)
      ensures this.url == url && extra == None
    {
      this.url := url;
      extra := None;
    }

    function View(): RepoRecord
      reads this
    {
      RepoRecord(url, extra)
    }
  }

  /** The dictionaries `repos` hold, as they stand. */
  function Views(repos: seq<Repo>): (r: seq<RepoRecord>)
    reads repos
    ensures |r| == |repos|
  {
    if repos == [] then [] else Views(repos[..|repos| - 1]) + [repos[|repos| - 1].View()]
  }

  lemma {:induction false} ViewsAt(repos: seq<Repo>)
    ensures forall i :: 0 <= i < |repos| ==> Views(repos)[i] == repos[i].View()
    decreases |repos|
  {
    if repos != [] {
      ViewsAt(repos[..|repos| - 1]);
    }
  }

  lemma ViewsAppend(a: seq<Repo>, b: seq<Repo>)
    ensures Views(a + b) == Views(a) + Views(b)
  {
    ViewsAt(a + b);
    ViewsAt(a);
    ViewsAt(b);
    assert forall i :: 0 <= i < |a + b| ==> Views(a + b)[i] == (Views(a) + Views(b))[i];
  }

  /** The record `_parse_search_results` makes for one anchor. */
  function ResultRecord(href: string): RepoRecord
  {
    RepoRecord(UrlJoin(BaseUrl, href), None)
  }

  /** The `href` of every anchor, in document order; `link['href']` raises
      `KeyError` at the first anchor without one. */
  function Hrefs(links: seq<Option<string>>): (r: Result<seq<string>>)
    ensures r.Value? <==> forall i :: 0 <= i < |links| ==> links[i].Some?
    ensures r.Value? ==> |r.value| == |links| && forall i :: 0 <= i < |links| ==> r.value[i] == links[i].value
  {
    if links == [] then Value([])
    else
      var init := links[..|links| - 1];
      assert forall i :: 0 <= i < |init| ==> init[i] == links[i];
      match Hrefs(init)
      case Raised => Raised
      case Value(hs) => if links[|links| - 1].None? then Raised else Value(hs + [links[|links| - 1].value])
  }

  /** `_parse_search_results`: one record per anchor, in document order, its
      `href` resolved against `https://github.com`; `Raised` when an anchor
      has no `href`. */
  function SearchResults(links: seq<Option<string>>): (r: Result<seq<RepoRecord>>)
    ensures r.Value? <==> forall i :: 0 <= i < |links| ==> links[i].Some?
    ensures r.Value? ==> |r.value| == |links|
  {
    match Hrefs(links)
    case Raised => Raised
    case Value(hs) => Value(seq(|hs|, i requires 0 <= i < |hs| => ResultRecord(hs[i])))
  }

  /** A root-relative `href` with a plain path, maybe followed by `;params`,
      is appended to `https://github.com` once cleaned: without its tabs,
      carriage returns and line feeds, and without leading controls or
      spaces. */
  lemma ResultOfRootRelativeHref(href: string, path: string, params: string, query: string, fragment: string)
    requires IsPlainAbsolutePath(path) && Free(params, {'/', '?', '#'}) && Free(params, Unsafe)
    requires Free(query, {'#'}) && Free(query, Unsafe) && Free(fragment, Unsafe)
    requires Sanitize(href) == Reference(WithParams(path, params), query, fragment)
    ensures ResultRecord(href).url == BaseUrl + Reference(WithParams(path, params), query, fragment)
  {
    JoinPlainReference(href, path, params, query, fragment);
  }

  /** The anchor `href="/a\n"` gives the record of `https://github.com/a`:
      the line feed is dropped. */
  lemma ResultOfHrefWithNewline()
    ensures ResultRecord("/a\n").url == "https://github.com/a"
  {
    assert Sanitize("/a\n") == "/a" by {
      assert LStripC0("/a\n") == "/a\n";
      assert "/a\n" == "/a" + "\n";
      RemoveUnsafeAppend("/a", "\n");
      RemoveUnsafeOfFree("/a");
      assert RemoveUnsafe("\n") == "";
    }
    assert IsPlainAbsolutePath("/a") by {
      RootSegmentIsPlain("a");
      assert "/" + "a" == "/a";
    }
    JoinGitHubPath("/a\n", "/a");
  }

  lemma SearchSegmentJoin()
    ensures UrlJoin("https://github.com", "/" + "search") == "https://github.com" + "/" + "search"
  {
    assert Free("search", {'/', ';', '?', '#'}) && Free("search", Unsafe);
    JoinRootSegment("search");
  }

  /** `/search` and `https://github.com/search`, written out; kept apart so
      that these literals are joined without `UrlJoin` in view. */
  lemma SearchPageText()
    ensures "/" + "search" == "/search"
    ensures "https://github.com" + "/" + "search" == "https://github.com/search"
  {
  }

  lemma SearchPageUrl()
    ensures UrlJoin(BaseUrl, "/search") == "https://github.com/search"
  {
    SearchSegmentJoin();
    SearchPageText();
  }

  /** The query of `_get_search_url`: the keywords joined by single spaces
      as `q`, then the search type as `type`. */
  function SearchQuery(keywords: seq<string>, searchType: string): (r: seq<(string, string)>)
    ensures |r| == 2 && r[0].0 == "q" && r[1] == ("type", searchType)
  {
    [("q", Join(keywords, " ")), ("type", searchType)]
  }

  /** Splitting `q` at spaces gives back the keywords, as long as there is
      one and none holds a space. */
  lemma SearchQueryKeywords(keywords: seq<string>, searchType: string)
    ensures (keywords != [] && forall i :: 0 <= i < |keywords| ==> Free(keywords[i], {' '}))
            ==> Split(SearchQuery(keywords, searchType)[0].1, {' '}) == keywords
  {
    if keywords != [] && forall i :: 0 <= i < |keywords| ==> Free(keywords[i], {' '}) {
      SplitJoin(keywords, ' ', {' '});
    }
  }

  /** The request `_get_repo_details` sends: the record's URL, no parameters. */
  function DetailsRequest(rec: RepoRecord): Request
  {
    Request(rec.url, [])
  }

  /** `_get_repo_details` on a record: a truthy page adds `extra` with the
      first path segment as owner and the page's language statistics; a
      `None` or empty page leaves the record as it is. `Raised` when the fetch
      raises or the URL's path has no second `/`-separated part
      (`IndexError`). */
  function Enrich(net: Network, markup: Markup, rec: RepoRecord): Result<RepoRecord>
  {
    match FetchSpec(net, DetailsRequest(rec))
    case Raised => Raised
    case Value(html) =>
      if !Truthy(html) then Value(rec)
      else match FirstPathSegment(rec.url)
        case None => Raised
        case Some(owner) => Value(rec.(extra := Some(Extra(owner, markup.languageStats(html.value)))))
  }

  /** Enrichment never changes the URL, and adds `extra` to a record without
      one exactly when some attempt fetched a non-empty page after nothing
      but `ClientError`s; the owner is then the URL's first path segment. */
  lemma EnrichMeaning(net: Network, markup: Markup, rec: RepoRecord)
    requires rec.extra.None? && Enrich(net, markup, rec).Value?
    ensures Enrich(net, markup, rec).value.url == rec.url
    ensures Enrich(net, markup, rec).value.extra.Some? <==>
            exists k, body :: 0 <= k < NumberOfRetries && body != ""
              && AllClientErrors(net, DetailsRequest(rec), 0, k) && net(DetailsRequest(rec), k) == Ok(body)
    ensures Enrich(net, markup, rec).value.extra.Some? ==>
            Some(Enrich(net, markup, rec).value.extra.value.owner) == FirstPathSegment(rec.url)
  {
    var req := DetailsRequest(rec);
    match FetchSpec(net, req)
    case Value(Some(body)) =>
      FetchBody(net, req, body);
      forall k, b | 0 <= k < NumberOfRetries && b != "" && AllClientErrors(net, req, 0, k) && net(req, k) == Ok(b)
        ensures body != ""
      {
        FetchBody(net, req, b);
      }
    case Value(None) =>
      FetchNone(net, req);
    case Raised =>
  }

  /** `/<owner>/<name>` is a plain absolute path with the segments `owner`
      and `name`. */
  lemma RepoPathIsPlain(owner: string, name: string)
    requires owner != "" && Free(owner, {'/', ';', '?', '#'}) && Free(name, {'/', ';', '?', '#'})
    requires Free(owner, Unsafe) && Free(name, Unsafe)
    requires owner != "." && owner != ".." && name != "." && name != ".."
    ensures IsPlainAbsolutePath("/" + owner + "/" + name)
  {
    var path := "/" + owner + "/" + name;
    assert Split(path, {'/'}) == ["", owner, name] by {
      assert path == "" + ['/'] + (owner + ['/'] + name);
      SplitAfterPart("", '/', owner + ['/'] + name, {'/'});
      SplitAfterPart(owner, '/', name, {'/'});
      SplitOfFree(name, {'/'});
    }
    assert Free(path, {'?', '#'});
    assert Free(path, Unsafe);
    assert AfterLast(path, {'/'}) == |owner| + 2 by {
      assert path == ("/" + owner + "/") + name;
      AfterLastAppendFree("/" + owner + "/", name, {'/'});
    }
    assert path[|owner| + 2..] == name;
  }

  /** `https://github.com/<owner>/<name>` is the reference `/<owner>/<name>`
      written after `https://github.com`. */
  lemma RepoUrlIsReference(owner: string, name: string)
    ensures BaseUrl + "/" + owner + "/" + name == "https://github.com" + Reference("/" + owner + "/" + name, "", "")
  {
    var path := "/" + owner + "/" + name;
    ReferenceIsPathAndTail(path, "", "");
    assert Tail("", "") == "";
    assert BaseUrl + "/" + owner + "/" + name == BaseUrl + path;
  }

  /** The first path segment of a URL that cleans to
      `https://github.com/<owner>/<name>` is `owner`. */
  lemma RepoUrlOwner(url: string, owner: string, name: string)
    requires owner != "" && Free(owner, {'/', ';', '?', '#'}) && Free(name, {'/', ';', '?', '#'})
    requires Free(owner, Unsafe) && Free(name, Unsafe)
    requires owner != "." && owner != ".." && name != "." && name != ".."
    requires Sanitize(url) == BaseUrl + "/" + owner + "/" + name
    ensures FirstPathSegment(url) == Some(owner)
  {
    var sub := "/" + name;
    assert "/" + owner + sub == "/" + owner + "/" + name;
    RepoPathIsPlain(owner, name);
    RepoUrlIsReference(owner, name);
    FirstSegmentOfGitHubUrl(url, owner, sub, "", "");
  }

  /** A line feed inside the owner's segment is dropped before the path is
      split: `https://github.com/<before>\n<after>/<name>` has the owner
      `<before><after>`. */
  lemma OwnerAfterNewline(before: string, after: string, name: string)
    requires before + after != "" && Free(before + after, {'/', ';', '?', '#'}) && Free(before + after, Unsafe)
    requires Free(name, {'/', ';', '?', '#'}) && Free(name, Unsafe)
    requires before + after != "." && before + after != ".." && name != "." && name != ".."
    ensures FirstPathSegment(BaseUrl + "/" + before + "\n" + after + "/" + name) == Some(before + after)
  {
    var url := BaseUrl + "/" + before + "\n" + after + "/" + name;
    var head := BaseUrl + "/" + before;
    var tail := after + "/" + name;
    assert Free(before, Unsafe) && Free(after, Unsafe) by {
      assert forall k :: 0 <= k < |before| ==> before[k] == (before + after)[k];
      assert forall k :: 0 <= k < |after| ==> after[k] == (before + after)[|before| + k];
    }
    assert IsSanitized(head) && head != [] by {
      assert head[0] == 'h';
    }
    SanitizeDropsUnsafe(head, '\n', tail);
    assert url == head + ['\n'] + tail;
    assert head + tail == BaseUrl + "/" + (before + after) + "/" + name;
    RepoUrlOwner(url, before + after, name);
  }

  /** The details of a URL that cleans to `https://github.com/<owner>/<name>`
      name `owner` as the owner, once a non-empty page was fetched (`user` for
      `https://github.com/user/repo1`). */
  lemma EnrichOwner(net: Network, markup: Markup, url: string, owner: string, name: string)
    requires owner != "" && Free(owner, {'/', ';', '?', '#'}) && Free(name, {'/', ';', '?', '#'})
    requires Free(owner, Unsafe) && Free(name, Unsafe)
    requires owner != "." && owner != ".." && name != "." && name != ".."
    requires Sanitize(url) == BaseUrl + "/" + owner + "/" + name
    requires FetchSpec(net, Request(url, [])).Value? && Truthy(FetchSpec(net, Request(url, [])).value)
    ensures Enrich(net, markup, RepoRecord(url, None)).Value?
    ensures Enrich(net, markup, RepoRecord(url, None)).value.extra.Some?
    ensures Enrich(net, markup, RepoRecord(url, None)).value.extra.value.owner == owner
  {
    RepoUrlOwner(url, owner, name);
  }

  /** `asyncio.gather` over `_get_repo_details`: the records in listing
      order, or `Raised` when any of them raises. */
  function EnrichAll(net: Network, markup: Markup, recs: seq<RepoRecord>): (r: Result<seq<RepoRecord>>)
    ensures r.Raised? <==> exists i :: 0 <= i < |recs| && Enrich(net, markup, recs[i]).Raised?
    ensures r.Value? ==> |r.value| == |recs|
    ensures r.Value? ==> forall i :: 0 <= i < |recs| ==> Enrich(net, markup, recs[i]) == Value(r.value[i])
  {
    if recs == [] then Value([])
    else
      var init := recs[..|recs| - 1];
      assert forall i :: 0 <= i < |init| ==> init[i] == recs[i];
      match EnrichAll(net, markup, init)
      case Raised => Raised
      case Value(rs) =>
        match Enrich(net, markup, recs[|recs| - 1])
        case Raised => Raised
        case Value(r) => Value(rs + [r])
  }

  /** `details` enriches every record as `_get_repo_details` does. The
      methods that only pass enrichment along reason through such a
      function rather than through `Enrich` itself. */
  ghost predicate DetailsReader(net: Network, markup: Markup, details: RepoRecord -> Result<RepoRecord>)
  {
    forall rec {:trigger Enrich(net, markup, rec)} :: details(rec) == Enrich(net, markup, rec)
  }

  /** `Enrich` itself is such a function. */
  lemma ChooseDetailsReader(net: Network, markup: Markup) returns (details: RepoRecord -> Result<RepoRecord>)
    ensures DetailsReader(net, markup, details)
  {
    details := rec => Enrich(net, markup, rec);
  }

  /** Records that each enrich to the matching entry of `enriched` enrich,
      all together, to `enriched`. */
  lemma {:induction false} EnrichAllOf(net: Network, markup: Markup, details: RepoRecord -> Result<RepoRecord>,
                                       recs: seq<RepoRecord>, enriched: seq<RepoRecord>)
    requires DetailsReader(net, markup, details)
    requires |enriched| == |recs|
    requires forall k :: 0 <= k < |recs| ==> details(recs[k]) == Value(enriched[k])
    ensures EnrichAll(net, markup, recs) == Value(enriched)
    decreases |recs|
  {
    if recs != [] {
      var n := |recs| - 1;
      EnrichAllOf(net, markup, details, recs[..n], enriched[..n]);
      assert details(recs[n]) == Enrich(net, markup, recs[n]);
      assert enriched[..n] + [enriched[n]] == enriched;
    }
  }

  /** One record whose enrichment raises makes the whole gathering raise. */
  lemma EnrichAllRaised(net: Network, markup: Markup, details: RepoRecord -> Result<RepoRecord>,
                        recs: seq<RepoRecord>, i: nat)
    requires DetailsReader(net, markup, details)
    requires i < |recs| && details(recs[i]).Raised?
    ensures EnrichAll(net, markup, recs).Raised?
  {
    assert details(recs[i]) == Enrich(net, markup, recs[i]);
  }

  /** How `run` ends: it returns the records gathered, or an exception
      escapes it, or (in the model only) the page budget ran out while
      there was still a next page. */
  datatype Crawl<T> = Returned(repos: seq<T>) | Aborted | OutOfFuel

  /** How a pass of the loop of `run` ends, as the crawler sees it: the
      crawl aborts, the crawl ends (no page, or an empty one), or the loop
      goes on to the next page. */
  datatype Round = Abort | Halt | Next

  /** Records gathered before the rest of the crawl come first. */
  function Prepend<T>(prefix: seq<T>, c: Crawl<T>): Crawl<T>
  {
    match c
    case Returned(rs) => Returned(prefix + rs)
    case _ => c
  }

  /** The body of the page fetched for `req`, or `""` when there is none. */
  function PageBody(net: Network, req: Request): string
  {
    BodyOf(FetchSpec(net, req))
  }

  /** The text of a fetched page, `""` when there is none. */
  function BodyOf(fetched: Result<Option<string>>): string
  {
    match fetched
    case Value(Some(body)) => body
    case _ => ""
  }

  /** The records one fetched search page contributes: its anchors'
      records, each enriched; `Raised` when parsing or any enrichment
      raises. */
  function PageRecords(net: Network, markup: Markup, html: string): Result<seq<RepoRecord>>
  {
    match SearchResults(markup.resultLinks(html))
    case Raised => Raised
    case Value(found) => EnrichAll(net, markup, found)
  }

  /** How one pass of the loop of `run` ends: the crawl stops with
      `outcome`, or the page's records `found` are kept and the loop goes on
      to `nextUrl`. */
  datatype Pass<T> = Stop(outcome: Crawl<T>) | Continue(found: seq<T>, nextUrl: Option<string>)

  /** One pass of the loop of `run`, whatever fetching a page (`fetch`),
      reading its records (`page`) and finding the next page (`next`) come
      to: the page at `url` is fetched with `params`; a fetch that raises
      aborts the crawl; a `None` or empty page ends it; a page whose records
      cannot be read aborts it; otherwise its records are kept and the loop
      goes on to the page's next-page `href`. */
  function LoopPass<T>(fetch: Request -> Result<Option<string>>, page: string -> Result<seq<T>>,
                       next: string -> Option<string>, url: string, params: seq<(string, string)>): Pass<T>
  {
    match fetch(Request(url, params))
    case Raised => Stop(Aborted)
    case Value(html) =>
      if !Truthy(html) then Stop(Returned([]))
      else
        match page(html.value)
        case Raised => Stop(Aborted)
        case Value(found) => Continue(found, next(html.value))
  }

  /** The loop of `run`: from the page at `url`, fetched with `params`, with
      at most `fuel` more pages. A falsy URL ends the loop; otherwise each
      pass either stops the crawl or puts its page's records before those of
      the following pages, which are fetched from the next-page `href` as it
      stands and without parameters. */
  function Loop<T>(fetch: Request -> Result<Option<string>>, page: string -> Result<seq<T>>,
                   next: string -> Option<string>, fuel: nat, url: Option<string>,
                   params: seq<(string, string)>): Crawl<T>
    decreases fuel
  {
    if !Truthy(url) then Returned([])
    else if fuel == 0 then OutOfFuel
    else
      match LoopPass(fetch, page, next, url.value, params)
      case Stop(outcome) => outcome
      case Continue(found, nextUrl) => Prepend(found, Loop(fetch, page, next, fuel - 1, nextUrl, []))
  }

  /** `run` from the page at `url`: pages are fetched with `_fetch`, and
      their records are the anchors' records, each enriched. */
  function CrawlPages(net: Network, markup: Markup, fuel: nat, url: Option<string>, params: seq<(string, string)>): Crawl<RepoRecord>
  {
    Loop(req => FetchSpec(net, req), html => PageRecords(net, markup, html), markup.nextHref, fuel, url, params)
  }

  /** The page requests the loop of `run` sends, in order: one per round
      it starts, the last being the one whose page ended or aborted the
      crawl. */
  function LoopRequests<T>(fetch: Request -> Result<Option<string>>, page: string -> Result<seq<T>>,
                           next: string -> Option<string>, fuel: nat, url: Option<string>,
                           params: seq<(string, string)>): (r: seq<Request>)
    ensures |r| <= fuel
    decreases fuel
  {
    if !Truthy(url) || fuel == 0 then []
    else
      match LoopPass(fetch, page, next, url.value, params)
      case Stop(_) => [Request(url.value, params)]
      case Continue(_, nextUrl) => [Request(url.value, params)] + LoopRequests(fetch, page, next, fuel - 1, nextUrl, [])
  }

  /** The page requests `run` sends from the page at `url` on. */
  function CrawlRequests(net: Network, markup: Markup, fuel: nat, url: Option<string>, params: seq<(string, string)>): seq<Request>
  {
    LoopRequests(req => FetchSpec(net, req), html => PageRecords(net, markup, html), markup.nextHref, fuel, url, params)
  }

  /** `fetch` and `page` behave as `_fetch` and reading a page's records do,
      on every request and every page that the crawl's own terms name. The
      crawl's proofs reason about the loop through such a pair. */
  ghost predicate PageReaders(net: Network, markup: Markup,
                              fetch: Request -> Result<Option<string>>, page: string -> Result<seq<RepoRecord>>)
  {
    && (forall req {:trigger FetchSpec(net, req)} :: fetch(req) == FetchSpec(net, req))
    && PageReader(net, markup, page)
  }

  /** `page` reads every page's records as `PageRecords` does. */
  ghost predicate PageReader(net: Network, markup: Markup, page: string -> Result<seq<RepoRecord>>)
  {
    forall html {:trigger PageRecords(net, markup, html)} :: page(html) == PageRecords(net, markup, html)
  }

  /** The pair `CrawlPages` itself is built from. */
  lemma ChoosePageReaders(net: Network, markup: Markup)
    returns (fetch: Request -> Result<Option<string>>, page: string -> Result<seq<RepoRecord>>)
    ensures PageReaders(net, markup, fetch, page)
  {
    fetch := req => FetchSpec(net, req);
    page := html => PageRecords(net, markup, html);
  }

  /** `run`'s loop over any pair of page readers is `CrawlPages`, and its
      requests are `CrawlRequests`. */
  lemma {:induction false} CrawlIsLoop(net: Network, markup: Markup,
                                       fetch: Request -> Result<Option<string>>, page: string -> Result<seq<RepoRecord>>,
                                       fuel: nat, url: Option<string>, params: seq<(string, string)>)
    requires PageReaders(net, markup, fetch, page)
    ensures CrawlPages(net, markup, fuel, url, params) == Loop(fetch, page, markup.nextHref, fuel, url, params)
    ensures CrawlRequests(net, markup, fuel, url, params) == LoopRequests(fetch, page, markup.nextHref, fuel, url, params)
    decreases fuel
  {
    if Truthy(url) && fuel > 0 {
      var req := Request(url.value, params);
      assert fetch(req) == FetchSpec(net, req);
      var html := FetchSpec(net, req);
      if html.Value? && Truthy(html.value) {
        assert page(html.value.value) == PageRecords(net, markup, html.value.value);
        CrawlIsLoop(net, markup, fetch, page, fuel - 1, markup.nextHref(html.value.value), []);
      }
    }
  }

  /** A pass that stops the crawl decides what the loop comes to, and is
      its last request. */
  lemma LoopStop<T>(fetch: Request -> Result<Option<string>>, page: string -> Result<seq<T>>,
                    next: string -> Option<string>, fuel: nat, url: Option<string>, params: seq<(string, string)>)
    requires Truthy(url) && fuel > 0 && LoopPass(fetch, page, next, url.value, params).Stop?
    ensures Loop(fetch, page, next, fuel, url, params) == LoopPass(fetch, page, next, url.value, params).outcome
    ensures LoopRequests(fetch, page, next, fuel, url, params) == [Request(url.value, params)]
  {
  }

  /** The loop invariant of `run` carried over one page: what the whole
      crawl returns is what was gathered so far, then this page's records,
      then the rest of the crawl from the page's next-page `href`, without
      parameters; and the requests made so far, then this page's request,
      then the rest of the crawl's requests are all of them. */
  lemma LoopAdvance<T>(fetch: Request -> Result<Option<string>>, page: string -> Result<seq<T>>,
                       next: string -> Option<string>, whole: Crawl<T>, gathered: seq<T>,
                       made: seq<Request>, requests: seq<Request>,
                       fuel: nat, url: Option<string>, params: seq<(string, string)>,
                       found: seq<T>, nextUrl: Option<string>)
    requires Truthy(url) && fuel > 0
    requires LoopPass(fetch, page, next, url.value, params) == Continue(found, nextUrl)
    requires whole == Prepend(gathered, Loop(fetch, page, next, fuel, url, params))
    requires made == requests + LoopRequests(fetch, page, next, fuel, url, params)
    ensures whole == Prepend(gathered + found, Loop(fetch, page, next, fuel - 1, nextUrl, []))
    ensures made == (requests + [Request(url.value, params)]) + LoopRequests(fetch, page, next, fuel - 1, nextUrl, [])
  {
    var rest := Loop(fetch, page, next, fuel - 1, nextUrl, []);
    assert Loop(fetch, page, next, fuel, url, params) == Prepend(found, rest);
    PrependPrepend(gathered, found, rest);
    var later := LoopRequests(fetch, page, next, fuel - 1, nextUrl, []);
    assert LoopRequests(fetch, page, next, fuel, url, params) == [Request(url.value, params)] + later;
    assert requests + ([Request(url.value, params)] + later) == (requests + [Request(url.value, params)]) + later;
  }

  /** Prepending nothing changes nothing. */
  lemma PrependNothing<T>(c: Crawl<T>)
    ensures Prepend([], c) == c
  {
    if c.Returned? {
      assert [] + c.repos == c.repos;
    }
  }

  /** Prepending twice is prepending the concatenation. */
  lemma PrependPrepend<T>(a: seq<T>, b: seq<T>, c: Crawl<T>)
    ensures Prepend(a, Prepend(b, c)) == Prepend(a + b, c)
  {
    if c.Returned? {
      assert a + (b + c.repos) == (a + b) + c.repos;
    }
  }

  /** The loop read the page fetched for `req` and went on from it: the
      fetch came back with a non-empty page whose records could be read. */
  ghost predicate WentOn<T>(fetch: Request -> Result<Option<string>>, page: string -> Result<seq<T>>, req: Request)
  {
    fetch(req).Value? && Truthy(fetch(req).value) && page(fetch(req).value.value).Value?
  }

  /** The records the loop keeps from the page fetched for `req`: that
      page's records when it went on from it, none otherwise. */
  ghost function PageRead<T>(fetch: Request -> Result<Option<string>>, page: string -> Result<seq<T>>, req: Request): seq<T>
  {
    if WentOn(fetch, page, req) then page(fetch(req).value.value).value else []
  }

  /** The records kept from the pages fetched for `rs`, in request order. */
  ghost function PagesRead<T>(fetch: Request -> Result<Option<string>>, page: string -> Result<seq<T>>,
                              rs: seq<Request>): seq<T>
    decreases |rs|
  {
    if rs == [] then [] else PageRead(fetch, page, rs[0]) + PagesRead(fetch, page, rs[1..])
  }

  /** Every page request after the first is made without parameters, and
      follows a page the loop went on from: it goes to that page's next-page
      `href`. */
  ghost predicate FollowsLinks<T>(fetch: Request -> Result<Option<string>>, page: string -> Result<seq<T>>,
                                  next: string -> Option<string>, requests: seq<Request>)
  {
    && (forall j :: 0 < j < |requests| ==> requests[j].params == [])
    && (forall i, j :: 0 <= i < j < |requests| && j == i + 1 ==> LinkedTo(fetch, page, next, requests[i], requests[j]))
  }

  /** `after` is made to the next-page `href` of the page fetched for
      `before`, which the loop went on from; that `href` is truthy, so not
      empty. */
  ghost predicate LinkedTo<T>(fetch: Request -> Result<Option<string>>, page: string -> Result<seq<T>>,
                              next: string -> Option<string>, before: Request, after: Request)
  {
    WentOn(fetch, page, before) && Some(after.url) == next(BodyOf(fetch(before))) && after.url != ""
  }

  lemma FollowsLinksPrepend<T>(fetch: Request -> Result<Option<string>>, page: string -> Result<seq<T>>,
                               next: string -> Option<string>, req: Request, rest: seq<Request>)
    requires FollowsLinks(fetch, page, next, rest)
    requires rest != [] ==> rest[0].params == [] && LinkedTo(fetch, page, next, req, rest[0])
    ensures FollowsLinks(fetch, page, next, [req] + rest)
  {
    var all := [req] + rest;
    forall i, j | 0 <= i < j < |all| && j == i + 1
      ensures LinkedTo(fetch, page, next, all[i], all[j])
    {
      if i == 0 {
        assert all[i] == req && all[j] == rest[0];
      } else {
        assert all[i] == rest[i - 1] && all[j] == rest[j - 1];
      }
    }
    forall j | 0 < j < |all|
      ensures all[j].params == []
    {
      assert all[j] == rest[j - 1];
    }
  }

  /** The requests of the loop: at most one per page of the budget; none
      exactly when there is no URL to start from or no budget; the first
      is the starting request itself; and each later one goes, without
      parameters, to the non-empty next-page `href` of a page the loop went
      on from. */
  lemma {:induction false} LoopRequestsFollowLinks<T>(fetch: Request -> Result<Option<string>>, page: string -> Result<seq<T>>,
                                                      next: string -> Option<string>, fuel: nat,
                                                      url: Option<string>, params: seq<(string, string)>)
    ensures var rs := LoopRequests(fetch, page, next, fuel, url, params);
            && (rs != [] <==> Truthy(url) && fuel > 0)
            && (rs != [] ==> rs[0] == Request(url.value, params))
            && FollowsLinks(fetch, page, next, rs)
    decreases fuel
  {
    if Truthy(url) && fuel > 0 {
      var req := Request(url.value, params);
      var html := fetch(req);
      if WentOn(fetch, page, req) {
        var nextUrl := next(html.value.value);
        var rest := LoopRequests(fetch, page, next, fuel - 1, nextUrl, []);
        LoopRequestsFollowLinks(fetch, page, next, fuel - 1, nextUrl, []);
        assert BodyOf(fetch(req)) == html.value.value;
        FollowsLinksPrepend(fetch, page, next, req, rest);
      }
    }
  }

  /** The requests of `run`, read through a pair of page readers: at most
      one per page of the budget; none exactly when there is no URL to start
      from or no budget; the first is the starting request itself; and each
      later one goes, without parameters, to the non-empty next-page `href`
      of a page `run` read and went on from. */
  lemma CrawlRequestsFollowLinks(net: Network, markup: Markup,
                                 fetch: Request -> Result<Option<string>>, page: string -> Result<seq<RepoRecord>>,
                                 fuel: nat, url: Option<string>, params: seq<(string, string)>)
    requires PageReaders(net, markup, fetch, page)
    ensures var rs := CrawlRequests(net, markup, fuel, url, params);
            && |rs| <= fuel
            && (rs != [] <==> Truthy(url) && fuel > 0)
            && (rs != [] ==> rs[0] == Request(url.value, params))
            && FollowsLinks(fetch, page, markup.nextHref, rs)
  {
    CrawlIsLoop(net, markup, fetch, page, fuel, url, params);
    LoopRequestsFollowLinks(fetch, page, markup.nextHref, fuel, url, params);
  }

  /** A larger page budget changes nothing once the loop ended within the
      smaller one. */
  lemma {:induction false} LoopFuelMonotone<T>(fetch: Request -> Result<Option<string>>, page: string -> Result<seq<T>>,
                                               next: string -> Option<string>, fuel: nat, more: nat,
                                               url: Option<string>, params: seq<(string, string)>)
    requires Loop(fetch, page, next, fuel, url, params) != OutOfFuel
    ensures Loop(fetch, page, next, fuel + more, url, params) == Loop(fetch, page, next, fuel, url, params)
    decreases fuel
  {
    if Truthy(url) && fuel > 0 {
      var html := fetch(Request(url.value, params));
      if html.Value? && Truthy(html.value) && page(html.value.value).Value? {
        LoopFuelMonotone(fetch, page, next, fuel - 1, more, next(html.value.value), []);
      }
    }
  }

  /** A crawl that returns keeps, in order, the records of every page it
      requested and went on from, and nothing else; it went on from every
      page it requested but the last; and it stopped after the last because
      that page was missing or empty, or had no next-page `href`. */
  lemma {:induction false} LoopRecordsFromPages<T>(fetch: Request -> Result<Option<string>>, page: string -> Result<seq<T>>,
                                                   next: string -> Option<string>, fuel: nat,
                                                   url: Option<string>, params: seq<(string, string)>)
    requires Loop(fetch, page, next, fuel, url, params).Returned?
    ensures var rs := LoopRequests(fetch, page, next, fuel, url, params);
            && Loop(fetch, page, next, fuel, url, params).repos == PagesRead(fetch, page, rs)
            && (forall i :: 0 <= i < |rs| - 1 ==> WentOn(fetch, page, rs[i]))
            && (rs != [] ==>
                  var last := rs[|rs| - 1];
                  || (fetch(last).Value? && !Truthy(fetch(last).value))
                  || (WentOn(fetch, page, last) && !Truthy(next(BodyOf(fetch(last))))))
    decreases fuel
  {
    if Truthy(url) {
      var req := Request(url.value, params);
      match LoopPass(fetch, page, next, url.value, params)
      case Stop(outcome) =>
        LoopStop(fetch, page, next, fuel, url, params);
        assert !WentOn(fetch, page, req);
        assert PagesRead(fetch, page, [req]) == PageRead(fetch, page, req) + PagesRead(fetch, page, []);
      case Continue(found, nextUrl) =>
        var rrs := LoopRequests(fetch, page, next, fuel - 1, nextUrl, []);
        LoopRecordsFromPages(fetch, page, next, fuel - 1, nextUrl, []);
        var rs := [req] + rrs;
        assert LoopRequests(fetch, page, next, fuel, url, params) == rs;
        assert rs[0] == req && rs[1..] == rrs;
        assert WentOn(fetch, page, req) && PageRead(fetch, page, req) == found;
        forall i | 0 <= i < |rs| - 1
          ensures WentOn(fetch, page, rs[i])
        {
          if i > 0 {
            assert rs[i] == rrs[i - 1];
          }
        }
        if rrs == [] {
          assert !Truthy(nextUrl);
          assert nextUrl == next(BodyOf(fetch(req)));
        } else {
          assert rs[|rs| - 1] == rrs[|rrs| - 1];
        }
    }
  }

  /** A record that is kept from the pages fetched for `rs` is kept from
      the page fetched for one of them. */
  lemma {:induction false} InPagesRead<T>(fetch: Request -> Result<Option<string>>, page: string -> Result<seq<T>>,
                                          rs: seq<Request>, r: T) returns (i: nat)
    requires r in PagesRead(fetch, page, rs)
    ensures i < |rs| && r in PageRead(fetch, page, rs[i])
    decreases |rs|
  {
    if r in PageRead(fetch, page, rs[0]) {
      i := 0;
    } else {
      var j := InPagesRead(fetch, page, rs[1..], r);
      i := j + 1;
    }
  }

  /** `r` is the record of one of the anchors of a non-empty page fetched
      for `req`: its URL is that anchor's `href` resolved against
      `https://github.com`. */
  ghost predicate ReadFromAnchor(net: Network, markup: Markup, req: Request, r: RepoRecord)
  {
    && FetchSpec(net, req).Value? && Truthy(FetchSpec(net, req).value)
    && var links := markup.resultLinks(PageBody(net, req));
       exists k :: 0 <= k < |links| && links[k].Some? && r.url == UrlJoin(BaseUrl, links[k].value)
  }

  /** A page's records are its anchors' records, one per anchor in document
      order: each URL is the anchor's `href` resolved against
      `https://github.com`, and a record that carries `extra` names that
      URL's first path segment as its owner. */
  lemma PageRecordsFromAnchors(net: Network, markup: Markup, html: string)
    requires PageRecords(net, markup, html).Value?
    ensures var links := markup.resultLinks(html);
            var found := PageRecords(net, markup, html).value;
            && |found| == |links|
            && forall k :: 0 <= k < |found| ==>
                 && links[k].Some? && found[k].url == UrlJoin(BaseUrl, links[k].value)
                 && (found[k].extra.Some? ==> Some(found[k].extra.value.owner) == FirstPathSegment(found[k].url))
  {
    var links := markup.resultLinks(html);
    var records := SearchResults(links).value;
    var found := EnrichAll(net, markup, records).value;
    forall k | 0 <= k < |found|
      ensures links[k].Some? && found[k].url == UrlJoin(BaseUrl, links[k].value)
      ensures found[k].extra.Some? ==> Some(found[k].extra.value.owner) == FirstPathSegment(found[k].url)
    {
      assert records[k] == ResultRecord(links[k].value);
      EnrichMeaning(net, markup, records[k]);
    }
  }

  /** Every record `run` returns is the record of an anchor of one of the
      pages it requested, with the owner, when there is one, read from the
      record's own URL. */
  lemma CrawlRecordsFromAnchors(net: Network, markup: Markup, fuel: nat,
                                url: Option<string>, params: seq<(string, string)>)
    requires CrawlPages(net, markup, fuel, url, params).Returned?
    ensures var rs := CrawlRequests(net, markup, fuel, url, params);
            forall r :: r in CrawlPages(net, markup, fuel, url, params).repos ==>
              && (exists i :: 0 <= i < |rs| && ReadFromAnchor(net, markup, rs[i], r))
              && (r.extra.Some? ==> Some(r.extra.value.owner) == FirstPathSegment(r.url))
  {
    var fetch, page := ChoosePageReaders(net, markup);
    CrawlIsLoop(net, markup, fetch, page, fuel, url, params);
    var rs := LoopRequests(fetch, page, markup.nextHref, fuel, url, params);
    LoopRecordsFromPages(fetch, page, markup.nextHref, fuel, url, params);
    forall r | r in CrawlPages(net, markup, fuel, url, params).repos
      ensures exists i :: 0 <= i < |rs| && ReadFromAnchor(net, markup, rs[i], r)
      ensures r.extra.Some? ==> Some(r.extra.value.owner) == FirstPathSegment(r.url)
    {
      var i := InPagesRead(fetch, page, rs, r);
      var req := rs[i];
      assert fetch(req) == FetchSpec(net, req);
      assert WentOn(fetch, page, req);
      var html := fetch(req).value.value;
      assert page(html) == PageRecords(net, markup, html);
      assert PageBody(net, req) == html;
      PageRecordsFromAnchors(net, markup, html);
      var found := page(html).value;
      var k :| 0 <= k < |found| && found[k] == r;
      assert ReadFromAnchor(net, markup, req, r);
    }
  }

  /** A `run` that returns gives, in order, the records of every page it
      requested and read, and nothing else; every page it requested but the
      last was fetched non-empty and read; and it stopped after the last
      because that page was missing or empty, or had no next-page `href`. */
  lemma CrawlRecordsFromPages(net: Network, markup: Markup,
                              fetch: Request -> Result<Option<string>>, page: string -> Result<seq<RepoRecord>>,
                              fuel: nat, url: Option<string>, params: seq<(string, string)>)
    requires PageReaders(net, markup, fetch, page)
    requires CrawlPages(net, markup, fuel, url, params).Returned?
    ensures var rs := CrawlRequests(net, markup, fuel, url, params);
            && CrawlPages(net, markup, fuel, url, params).repos == PagesRead(fetch, page, rs)
            && (forall i :: 0 <= i < |rs| - 1 ==> WentOn(fetch, page, rs[i]))
            && (rs != [] ==>
                  var last := rs[|rs| - 1];
                  || (fetch(last).Value? && !Truthy(fetch(last).value))
                  || (WentOn(fetch, page, last) && !Truthy(markup.nextHref(BodyOf(fetch(last))))))
  {
    CrawlIsLoop(net, markup, fetch, page, fuel, url, params);
    LoopRecordsFromPages(fetch, page, markup.nextHref, fuel, url, params);
  }

  /** A single page without a next link yields exactly that page's records,
      in listing order. */
  lemma LoopSinglePage<T>(fetch: Request -> Result<Option<string>>, page: string -> Result<seq<T>>,
                          next: string -> Option<string>, fuel: nat, url: string, params: seq<(string, string)>,
                          body: string)
    requires url != "" && fuel > 0 && body != ""
    requires fetch(Request(url, params)) == Value(Some(body))
    requires !Truthy(next(body)) && page(body).Value?
    ensures Loop(fetch, page, next, fuel, Some(url), params) == Returned(page(body).value)
  {
    assert page(body).value + [] == page(body).value;
  }

  /** `run` with a first page that has no next link returns exactly that
      page's records, each enriched, in listing order. */
  lemma CrawlSinglePage(net: Network, markup: Markup, fuel: nat, url: string, params: seq<(string, string)>, body: string)
    requires url != "" && fuel > 0 && body != ""
    requires FetchSpec(net, Request(url, params)) == Value(Some(body))
    requires !Truthy(markup.nextHref(body))
    requires PageRecords(net, markup, body).Value?
    ensures CrawlPages(net, markup, fuel, Some(url), params) == Returned(PageRecords(net, markup, body).value)
  {
    LoopSinglePage(req => FetchSpec(net, req), html => PageRecords(net, markup, html), markup.nextHref, fuel, url, params, body);
  }

  /** `_parse_search_results(html)`, written alike in both crawlers: a new
      record per anchor, in document order, or `Raised` at the first anchor
      without an `href`. */
  method ParseSearchResults(markup: Markup, html: string) returns (r: Result<seq<Repo>>)
    ensures r.Value? <==> SearchResults(markup.resultLinks(html)).Value?
    ensures r.Value? ==> Views(r.value) == SearchResults(markup.resultLinks(html)).value
    ensures r.Value? ==> forall i :: 0 <= i < |r.value| ==> fresh(r.value[i])
    ensures r.Value? ==> forall i, j :: 0 <= i < j < |r.value| ==> r.value[i] != r.value[j]
  {
    var links := markup.resultLinks(html);
    var results: seq<Repo> := [];
    for i := 0 to |links|
      invariant |results| == i
      invariant forall k :: 0 <= k < i ==> links[k].Some? && results[k].View() == ResultRecord(links[k].value)
      invariant forall k :: 0 <= k < i ==> fresh(results[k])
      invariant forall k, l :: 0 <= k < l < i ==> results[k] != results[l]
    {
      if links[i].None? {
        r := Raised;
        return;
      }
      var repo := new Repo(ResultRecord(links[i].value).url);
      assert repo.View() == ResultRecord(links[i].value);
      results := results + [repo];
    }
    r := Value(results);
    ViewsAt(results);
    assert Views(results) == SearchResults(links).value;
  }
}
