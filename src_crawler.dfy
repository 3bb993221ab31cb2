/** `src/crawler.py`: the crawler that writes the search terms into the
    search URL with `urlencode`, fetches every page without query
    parameters, and picks a proxy from its loaded list afresh for every
    attempt. */
module SrcCrawler {
  import opened Wrappers
  import opened Text
  import opened UrlEncoding
  import opened UrlParse
  import opened Retry
  import opened Utils
  import opened SrcUtils
  import opened Records

  /** `urljoin('https://github.com', '/search?' + query)` for a query that
      `urlencode` wrote from at least one pair: the query is appended to
      `https://github.com/search?` as it stands. */
  lemma EncodedSearchUrl(ps: seq<(string, string)>)
    requires ps != []
    ensures UrlJoin(BaseUrl, "/search?" + UrlEncode(ps)) == "https://github.com/search?" + UrlEncode(ps)
  {
    var q := UrlEncode(ps);
    var href := "/search?" + q;
    UrlEncodeIsQuery(ps);
    SearchReference(q);
    assert Sanitize(href) == Reference("/search", q, "") by {
      ReferenceSanitized("/search", q, "");
      SanitizeOfSanitized(href);
    }
    assert WithParams("/search", "") == "/search";
    JoinPlainReference(href, "/search", "", q, "");
    assert UrlJoin(BaseUrl, href) == "https://github.com" + href;
    SearchUrlText(q);
  }

  lemma SearchReference(q: string)
    requires q != "" && Free(q, {'#'}) && Free(q, Unsafe)
    ensures Reference("/search", q, "") == "/search?" + q
    ensures IsPlainAbsolutePath("/search")
  {
    ReferenceIsPathAndTail("/search", q, "");
    SearchPathIsPlain();
  }

  lemma SearchUrlText(q: string)
    ensures "https://github.com" + ("/search?" + q) == "https://github.com/search?" + q
  {
    assert "https://github.com" + "/search?" == "https://github.com/search?";
  }

  lemma SearchPathIsPlain()
    ensures IsPlainAbsolutePath("/search")
  {
    assert Free("search", {'/', ';', '?', '#'}) && Free("search", Unsafe);
    RootSegmentIsPlain("search");
    assert "/" + "search" == "/search";
  }

  /** `urlparse` reads the search URL back as `https`, `github.com` and
      `/search`, and `parse_qsl` decodes its query into the very pairs that
      were encoded, in order. */
  lemma EncodedSearchUrlParses(ps: seq<(string, string)>)
    requires ps != []
    ensures UrlSplit("https://github.com/search?" + UrlEncode(ps), "")
            == Parts("https", "github.com", "/search", UrlEncode(ps), "")
    ensures ParseQuery(UrlSplit("https://github.com/search?" + UrlEncode(ps), "").query) == Some(ps)
  {
    var q := UrlEncode(ps);
    UrlEncodeIsQuery(ps);
    SearchPathIsPlain();
    ReferenceIsPathAndTail("/search", q, "");
    assert "https://github.com/search?" + q == "https://github.com" + Reference("/search", q, "");
    SplitGitHubReference("/search", q, "");
    ParseQueryUrlEncode(ps);
  }

  /** One attempt of `_fetch` as it was sent: the request `req`, well-formed
      headers, and a proxy picked from `proxies` (`None` when the list is
      empty, otherwise `http://` followed by an entry). */
  predicate SentThrough(a: Attempt, req: Request, proxies: seq<string>)
  {
    && a.request == req && WellFormedHeaders(a.headers)
    && (a.proxy.None? <==> proxies == [])
    && (a.proxy.Some? ==> var p := a.proxy.value; |p| >= 7 && p[..7] == "http://" && p[7..] in proxies)
  }

  class GitHubCrawler {
    const keywords: seq<string>
    const proxies: seq<string>
    const searchType: string

    constructor (keywords: seq<string>, proxies: seq<string>, searchType: string)
      ensures this.keywords == keywords && this.proxies == proxies && this.searchType == searchType
    {
      this.keywords := keywords;
      this.proxies := proxies;
      this.searchType := searchType;
    }

    /** `_get_search_url`: `https://github.com/search?` followed by the
        `urlencode`d keywords (joined by single spaces) as `q` and the search
        type as `type`. */
    function SearchUrl(): (r: string)
      ensures r == "https://github.com/search?" + UrlEncode(SearchQuery(keywords, searchType))
    {
      EncodedSearchUrl(SearchQuery(keywords, searchType));
      UrlJoin(BaseUrl, "/search?" + UrlEncode(SearchQuery(keywords, searchType)))
    }

    /** The search URL's query decodes to `q`, the keywords joined by single
        spaces, and `type`, the search type (`python ai` and `repositories`
        for the keywords `python`, `ai` and the type `repositories`). */
    lemma SearchUrlQuery()
      ensures UrlSplit(SearchUrl(), "").path == "/search"
      ensures ParseQuery(UrlSplit(SearchUrl(), "").query)
              == Some([("q", Join(keywords, " ")), ("type", searchType)])
    {
      EncodedSearchUrlParses(SearchQuery(keywords, searchType));
    }

    /** `_fetch(url)`: up to three attempts, each with fresh headers and a
        proxy picked afresh from the list (`None` when the list is empty); a
        pause of one to three seconds follows every `ClientError` but the
        last. The request carries no parameters. */
    method Fetch(net: Network, url: string)
      returns (r: Result<Option<string>>, attempts: seq<Attempt>, sleeps: seq<nat>)
      ensures r == FetchSpec(net, Request(url, []))
      ensures |attempts| == AttemptCount(net, Request(url, []))
      ensures forall i :: 0 <= i < |attempts| ==> SentThrough(attempts[i], Request(url, []), proxies)
      ensures |sleeps| == |attempts| - 1 && Paced(sleeps)
    {
      var req := Request(url, []);
      attempts := [];
      sleeps := [];
      for attempt := 0 to NumberOfRetries
        invariant attempt < NumberOfRetries
        invariant |attempts| == attempt && |sleeps| == attempt
        invariant AllClientErrors(net, req, 0, attempt)
        invariant Settle(net, req, attempt) == FetchSpec(net, req)
        invariant AttemptsMade(net, req, attempt) == AttemptCount(net, req)
        invariant forall i :: 0 <= i < |attempts| ==> SentThrough(attempts[i], req, proxies)
        invariant Paced(sleeps)
      {
        var choice: nat :| proxies != [] ==> choice < |proxies|;
        var proxy := SrcUtils.GetRandomProxy(proxies, choice);
        if proxy.Some? {
          GetRandomProxyListed(proxies, proxy.value);
        }
        var headers := GetRandomHeaders();
        assert SentThrough(Attempt(req, headers, proxy), req, proxies);
        attempts := attempts + [Attempt(req, headers, proxy)];
        match net(req, attempt)
        case Ok(body) =>
          r := Value(Some(body));
          return;
        case OtherErr =>
          r := Raised;
          return;
        case ClientErr =>
          if attempt == NumberOfRetries - 1 {
            r := Value(None);
            return;
          }
          var pause: nat :| RangeFrom <= pause <= RangeTo;
          sleeps := sleeps + [pause];
      }
      assert false;
    }

    /** `_get_repo_details(repo)`: fetches the repository page and, when the
        page is non-empty, sets `extra` in place; when it raises, the record
        is left as it was. */
    method GetRepoDetails(net: Network, markup: Markup, ghost details: RepoRecord -> Result<RepoRecord>, repo: Repo)
      returns (r: Result<Repo>)
      requires DetailsReader(net, markup, details)
      modifies repo
      ensures r.Raised? <==> details(old(repo.View())).Raised?
      ensures r.Value? ==> r.value == repo && repo.View() == details(old(repo.View())).value
      ensures r.Raised? ==> repo.View() == old(repo.View())
    {
      ghost var before := repo.View();
      assert details(before) == Enrich(net, markup, before);
      var html, attempts, sleeps := Fetch(net, repo.url);
      r := Value(repo);
      if html.Raised? {
        r := Raised;
      } else if Truthy(html.value) {
        var owner := FirstPathSegment(repo.url);
        if owner.None? {
          r := Raised;
        } else {
          var extra := Extra(owner.value, markup.languageStats(html.value.value));
          assert Enrich(net, markup, before) == Value(before.(extra := Some(extra)));
          repo.extra := Some(extra);
          assert repo.View() == before.(extra := Some(extra));
        }
      }
    }

    /** `asyncio.gather` over `_get_repo_details`, one record after the
        other: each record is enriched in place, in listing order; `Raised`
        when any enrichment raises. */
    method GatherDetails(net: Network, markup: Markup, ghost details: RepoRecord -> Result<RepoRecord>, repos: seq<Repo>)
      returns (r: Result<seq<Repo>>)
      requires DetailsReader(net, markup, details)
      requires forall i, j :: 0 <= i < j < |repos| ==> repos[i] != repos[j]
      modifies repos
      ensures r.Raised? <==> exists i :: 0 <= i < |repos| && details(old(repos[i].View())).Raised?
      ensures r.Value? ==> r.value == repos
      ensures r.Value? ==> forall i :: 0 <= i < |repos| ==> details(old(repos[i].View())) == Value(repos[i].View())
    {
      ghost var before := Views(repos);
      ViewsAt(repos);
      for i := 0 to |repos|
        invariant forall k :: 0 <= k < i ==> details(before[k]) == Value(repos[k].View())
        invariant forall k :: i <= k < |repos| ==> repos[k].View() == before[k]
      {
        var d := GetRepoDetails(net, markup, details, repos[i]);
        if d.Raised? {
          r := Raised;
          return;
        }
      }
      r := Value(repos);
    }

    /** The records of one fetched search page, as `run` gathers them: the
        page's anchors parsed into new records, each enriched in place. */
    method PageRepos(net: Network, markup: Markup, ghost details: RepoRecord -> Result<RepoRecord>,
                     ghost page: string -> Result<seq<RepoRecord>>, html: string)
      returns (r: Result<seq<Repo>>)
      requires DetailsReader(net, markup, details) && PageReader(net, markup, page)
      ensures r.Raised? <==> page(html).Raised?
      ensures r.Value? ==> Views(r.value) == page(html).value
      ensures r.Value? ==> forall i :: 0 <= i < |r.value| ==> fresh(r.value[i])
    {
      var repos := ParseSearchResults(markup, html);
      if repos.Raised? {
        assert page(html).Raised? by {
          assert page(html) == PageRecords(net, markup, html);
        }
        return Raised;
      }
      ghost var found := Views(repos.value);
      ViewsAt(repos.value);
      r := GatherDetails(net, markup, details, repos.value);
      if r.Raised? {
        ghost var i :| 0 <= i < |found| && details(found[i]).Raised?;
        EnrichAllRaised(net, markup, details, found, i);
        assert page(html).Raised? by {
          assert page(html) == PageRecords(net, markup, html);
        }
      } else {
        ViewsAt(r.value);
        EnrichAllOf(net, markup, details, found, Views(r.value));
        assert page(html) == Value(Views(r.value)) by {
          assert page(html) == PageRecords(net, markup, html);
        }
      }
    }

    /** One pass of the loop of `run`: the page at `url` is fetched and,
        when it is non-empty, its records are parsed and enriched. The pass
        ends as `LoopPass` says, read through the page readers `fetch` and
        `page`: it aborts or ends the crawl exactly when `LoopPass` stops it
        so, and otherwise hands on the page's records `found` and its
        next-page link `next`. */
    method CrawlRound(net: Network, markup: Markup,
                      ghost fetch: Request -> Result<Option<string>>, ghost page: string -> Result<seq<RepoRecord>>,
                      ghost details: RepoRecord -> Result<RepoRecord>, url: string)
      returns (r: Round, found: seq<Repo>, next: Option<string>)
      requires PageReaders(net, markup, fetch, page) && DetailsReader(net, markup, details)
      ensures r.Abort? <==> LoopPass(fetch, page, markup.nextHref, url, []) == Stop(Aborted)
      ensures r.Halt? <==> LoopPass(fetch, page, markup.nextHref, url, []) == Stop(Returned([]))
      ensures r.Next? ==> LoopPass(fetch, page, markup.nextHref, url, []) == Continue(Views(found), next)
    {
      var html, attempts, sleeps := Fetch(net, url);
      assert fetch(Request(url, [])) == html;
      if html.Raised? {
        return Abort, [], None;
      }
      if !Truthy(html.value) {
        return Halt, [], None;
      }
      var body := html.value.value;
      var repos := PageRepos(net, markup, details, page, body);
      if repos.Raised? {
        return Abort, [], None;
      }
      return Next, repos.value, markup.nextHref(body);
    }

    /** `run()` with at most `fuel` pages: fetches the search URL, then every
        next-page `href` as it stands, all without parameters, gathering each
        page's enriched records in order. `requests` are the page requests
        `_fetch` was called with. */
    method Run(net: Network, markup: Markup, fuel: nat) returns (r: Crawl<Repo>, requests: seq<Request>)
      ensures var spec := CrawlPages(net, markup, fuel, Some(SearchUrl()), []);
              && (r.Returned? <==> spec.Returned?)
              && (r.Aborted? <==> spec.Aborted?)
              && (r.Returned? ==> Views(r.repos) == spec.repos)
      ensures requests == CrawlRequests(net, markup, fuel, Some(SearchUrl()), [])
    {
      var url0 := SearchUrl();
      ghost var fetch, page := ChoosePageReaders(net, markup);
      ghost var details := ChooseDetailsReader(net, markup);
      CrawlIsLoop(net, markup, fetch, page, fuel, Some(url0), []);
      r, requests := CrawlFrom(net, markup, fetch, page, details, fuel, url0);
    }

    /** The loop of `run` from the page at `url0`, with at most `fuel`
        pages, read through the page readers `fetch` and `page` and the
        details reader `details`: it returns, aborts or runs out of pages as
        `Loop` does, with the records of `Loop` in order, and sends the
        requests of `LoopRequests`. */
    method CrawlFrom(net: Network, markup: Markup,
                     ghost fetch: Request -> Result<Option<string>>, ghost page: string -> Result<seq<RepoRecord>>,
                     ghost details: RepoRecord -> Result<RepoRecord>, fuel: nat, url0: string)
      returns (r: Crawl<Repo>, requests: seq<Request>)
      requires PageReaders(net, markup, fetch, page) && DetailsReader(net, markup, details)
      ensures var spec := Loop(fetch, page, markup.nextHref, fuel, Some(url0), []);
              && (r.Returned? <==> spec.Returned?)
              && (r.Aborted? <==> spec.Aborted?)
              && (r.Returned? ==> Views(r.repos) == spec.repos)
      ensures requests == LoopRequests(fetch, page, markup.nextHref, fuel, Some(url0), [])
    {
      ghost var none: seq<(string, string)> := [];
      ghost var whole := Loop(fetch, page, markup.nextHref, fuel, Some(url0), none);
      ghost var made := LoopRequests(fetch, page, markup.nextHref, fuel, Some(url0), none);
      var searchUrl: Option<string> := Some(url0);
      var allRepos: seq<Repo> := [];
      requests := [];
      var left := fuel;
      PrependNothing(whole);
      while Truthy(searchUrl)
        invariant whole == Prepend(Views(allRepos), Loop(fetch, page, markup.nextHref, left, searchUrl, none))
        invariant made == requests + LoopRequests(fetch, page, markup.nextHref, left, searchUrl, none)
        decreases left
      {
        if left == 0 {
          assert made == requests + [];
          return OutOfFuel, requests;
        }
        var req := Request(searchUrl.value, []);
        ghost var previous := requests;
        ghost var gathered := Views(allRepos);
        requests := requests + [req];
        var round, found, next := CrawlRound(net, markup, fetch, page, details, searchUrl.value);
        assert Views(allRepos) == gathered;
        match round
        case Abort =>
          LoopStop(fetch, page, markup.nextHref, left, searchUrl, none);
          return Aborted, requests;
        case Halt =>
          LoopStop(fetch, page, markup.nextHref, left, searchUrl, none);
          assert made == requests + [];
          assert Views(allRepos) + [] == Views(allRepos);
          return Returned(allRepos), requests;
        case Next =>
          LoopAdvance(fetch, page, markup.nextHref, whole, gathered, made, previous, left, searchUrl, none, Views(found), next);
          ViewsAppend(allRepos, found);
          allRepos := allRepos + found;
          searchUrl := next;
          left := left - 1;
      }
      r := Returned(allRepos);
      assert Views(allRepos) + [] == Views(allRepos);
    }
  }
}
