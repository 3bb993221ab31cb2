/** `crawler/crawler.py`: the crawler that sends every request through the
    one proxy it was built with and passes the search terms as query
    parameters of the first request only. */
module Crawler {
  import opened Wrappers
  import opened Text
  import opened UrlParse
  import opened Retry
  import opened Utils
  import opened Records

  class GitHubCrawler {
    const keywords: seq<string>
    const proxy: Option<string>
    const searchType: string

    constructor (keywords: seq<string>, proxy: Option<string>, searchType: string)
      ensures this.keywords == keywords && this.proxy == proxy && this.searchType == searchType
    {
      this.keywords := keywords;
      this.proxy := proxy;
      this.searchType := searchType;
    }

    /** `_get_search_url`: `urljoin` of the base URL and `/search`, which is
        `https://github.com/search`, with the keywords joined by single spaces
        as `q` and the search type as `type`; splitting `q` at spaces gives
        the keywords back when there is one and none holds a space. */
    function SearchUrl(): (r: (string, seq<(string, string)>))
      ensures r.0 == "https://github.com/search"
      ensures |r.1| == 2 && r.1[0] == ("q", Join(keywords, " ")) && r.1[1] == ("type", searchType)
      ensures (keywords != [] && forall i :: 0 <= i < |keywords| ==> Free(keywords[i], {' '}))
              ==> Split(r.1[0].1, {' '}) == keywords
    {
      SearchPageUrl();
      SearchQueryKeywords(keywords, searchType);
      (UrlJoin(BaseUrl, "/search"), SearchQuery(keywords, searchType))
    }

    /** `_fetch(url, query_params)`: up to three attempts, each with fresh
        headers and the crawler's proxy; a pause of one to three seconds
        follows every `ClientError` but the last. `attempts` are the
        requests as sent and `sleeps` the pauses taken. */
    method Fetch(net: Network, url: string, params: seq<(string, string)>)
      returns (r: Result<Option<string>>, attempts: seq<Attempt>, sleeps: seq<nat>)
      ensures r == FetchSpec(net, Request(url, params))
      ensures |attempts| == AttemptCount(net, Request(url, params))
      ensures forall i :: 0 <= i < |attempts| ==>
                attempts[i].request == Request(url, params) && attempts[i].proxy == proxy
                && WellFormedHeaders(attempts[i].headers)
      ensures |sleeps| == |attempts| - 1 && Paced(sleeps)
    {
      var req := Request(url, params);
      attempts := [];
      sleeps := [];
      for attempt := 0 to NumberOfRetries
        invariant attempt < NumberOfRetries
        invariant |attempts| == attempt && |sleeps| == attempt
        invariant AllClientErrors(net, req, 0, attempt)
        invariant Settle(net, req, attempt) == FetchSpec(net, req)
        invariant AttemptsMade(net, req, attempt) == AttemptCount(net, req)
        invariant forall i :: 0 <= i < |attempts| ==>
                    attempts[i].request == req && attempts[i].proxy == proxy && WellFormedHeaders(attempts[i].headers)
        invariant Paced(sleeps)
      {
        var headers := GetRandomHeaders();
        attempts := attempts + [Attempt(req, headers, proxy)];
        match net(req, attempt)
        case Ok(body) =>
          r := Value(Some(body));
          return;
        case OtherErr =>
          r := Raised;
          return;
        case ClientErr =>
          if attempt == NumberOfRetries - 1 {
            r := Value(None);
            return;
          }
          var pause: nat :| RangeFrom <= pause <= RangeTo;
          sleeps := sleeps + [pause];
      }
      assert false;
    }

    /** `_get_repo_details(repo)`: fetches the repository page without
        parameters and, when the page is non-empty, sets `extra` in place;
        when it raises, the record is left as it was. */
    method GetRepoDetails(net: Network, markup: Markup, ghost details: RepoRecord -> Result<RepoRecord>, repo: Repo)
      returns (r: Result<Repo>)
      requires DetailsReader(net, markup, details)
      modifies repo
      ensures r.Raised? <==> details(old(repo.View())).Raised?
      ensures r.Value? ==> r.value == repo && repo.View() == details(old(repo.View())).value
      ensures r.Raised? ==> repo.View() == old(repo.View())
    {
      ghost var before := repo.View();
      assert details(before) == Enrich(net, markup, before);
      var html, attempts, sleeps := Fetch(net, repo.url, []);
      r := Value(repo);
      if html.Raised? {
        r := Raised;
      } else if Truthy(html.value) {
        var owner := FirstPathSegment(repo.url);
        if owner.None? {
          r := Raised;
        } else {
          var extra := Extra(owner.value, markup.languageStats(html.value.value));
          assert Enrich(net, markup, before) == Value(before.(extra := Some(extra)));
          repo.extra := Some(extra);
          assert repo.View() == before.(extra := Some(extra));
        }
      }
    }

    /** `asyncio.gather` over `_get_repo_details`, one record after the
        other: each record is enriched in place, in listing order; `Raised`
        when any enrichment raises. */
    method GatherDetails(net: Network, markup: Markup, ghost details: RepoRecord -> Result<RepoRecord>, repos: seq<Repo>)
      returns (r: Result<seq<Repo>>)
      requires DetailsReader(net, markup, details)
      requires forall i, j :: 0 <= i < j < |repos| ==> repos[i] != repos[j]
      modifies repos
      ensures r.Raised? <==> exists i :: 0 <= i < |repos| && details(old(repos[i].View())).Raised?
      ensures r.Value? ==> r.value == repos
      ensures r.Value? ==> forall i :: 0 <= i < |repos| ==> details(old(repos[i].View())) == Value(repos[i].View())
    {
      ghost var before := Views(repos);
      ViewsAt(repos);
      for i := 0 to |repos|
        invariant forall k :: 0 <= k < i ==> details(before[k]) == Value(repos[k].View())
        invariant forall k :: i <= k < |repos| ==> repos[k].View() == before[k]
      {
        var d := GetRepoDetails(net, markup, details, repos[i]);
        if d.Raised? {
          r := Raised;
          return;
        }
      }
      r := Value(repos);
    }

    /** The records of one fetched search page, as `run` gathers them: the
        page's anchors parsed into new records, each enriched in place. */
    method PageRepos(net: Network, markup: Markup, ghost details: RepoRecord -> Result<RepoRecord>,
                     ghost page: string -> Result<seq<RepoRecord>>, html: string)
      returns (r: Result<seq<Repo>>)
      requires DetailsReader(net, markup, details) && PageReader(net, markup, page)
      ensures r.Raised? <==> page(html).Raised?
      ensures r.Value? ==> Views(r.value) == page(html).value
      ensures r.Value? ==> forall i :: 0 <= i < |r.value| ==> fresh(r.value[i])
    {
      var repos := ParseSearchResults(markup, html);
      if repos.Raised? {
        assert page(html).Raised? by {
          assert page(html) == PageRecords(net, markup, html);
        }
        return Raised;
      }
      ghost var found := Views(repos.value);
      ViewsAt(repos.value);
      r := GatherDetails(net, markup, details, repos.value);
      if r.Raised? {
        ghost var i :| 0 <= i < |found| && details(found[i]).Raised?;
        EnrichAllRaised(net, markup, details, found, i);
        assert page(html).Raised? by {
          assert page(html) == PageRecords(net, markup, html);
        }
      } else {
        ViewsAt(r.value);
        EnrichAllOf(net, markup, details, found, Views(r.value));
        assert page(html) == Value(Views(r.value)) by {
          assert page(html) == PageRecords(net, markup, html);
        }
      }
    }

    /** One pass of the loop of `run`: the page at `url` is fetched with `params` and,
        when it is non-empty, its records are parsed and enriched. The pass
        ends as `LoopPass` says, read through the page readers `fetch` and
        `page`: it aborts or ends the crawl exactly when `LoopPass` stops it
        so, and otherwise hands on the page's records `found` and its
        next-page link `next`. */
    method CrawlRound(net: Network, markup: Markup,
                      ghost fetch: Request -> Result<Option<string>>, ghost page: string -> Result<seq<RepoRecord>>,
                      ghost details: RepoRecord -> Result<RepoRecord>, url: string, params: seq<(string, string)>)
      returns (r: Round, found: seq<Repo>, next: Option<string>)
      requires PageReaders(net, markup, fetch, page) && DetailsReader(net, markup, details)
      ensures r.Abort? <==> LoopPass(fetch, page, markup.nextHref, url, params) == Stop(Aborted)
      ensures r.Halt? <==> LoopPass(fetch, page, markup.nextHref, url, params) == Stop(Returned([]))
      ensures r.Next? ==> LoopPass(fetch, page, markup.nextHref, url, params) == Continue(Views(found), next)
    {
      var html, attempts, sleeps := Fetch(net, url, params);
      assert fetch(Request(url, params)) == html;
      if html.Raised? {
        return Abort, [], None;
      }
      if !Truthy(html.value) {
        return Halt, [], None;
      }
      var body := html.value.value;
      var repos := PageRepos(net, markup, details, page, body);
      if repos.Raised? {
        return Abort, [], None;
      }
      return Next, repos.value, markup.nextHref(body);
    }

    /** `run()` with at most `fuel` pages: fetches the search page, then every
        next-page `href` as it stands and with `{}` as parameters, gathering
        each page's enriched records in order. `requests` are the page
        requests `_fetch` was called with. */
    method Run(net: Network, markup: Markup, fuel: nat) returns (r: Crawl<Repo>, requests: seq<Request>)
      ensures var spec := CrawlPages(net, markup, fuel, Some(SearchUrl().0), SearchUrl().1);
              && (r.Returned? <==> spec.Returned?)
              && (r.Aborted? <==> spec.Aborted?)
              && (r.Returned? ==> Views(r.repos) == spec.repos)
      ensures requests == CrawlRequests(net, markup, fuel, Some(SearchUrl().0), SearchUrl().1)
    {
      var (url0, params0) := SearchUrl();
      ghost var fetch, page := ChoosePageReaders(net, markup);
      ghost var details := ChooseDetailsReader(net, markup);
      CrawlIsLoop(net, markup, fetch, page, fuel, Some(url0), params0);
      r, requests := CrawlFrom(net, markup, fetch, page, details, fuel, url0, params0);
    }

    /** The loop of `run` from the page at `url0`, fetched with `params0`, with at most `fuel`
        pages, read through the page readers `fetch` and `page` and the
        details reader `details`: it returns, aborts or runs out of pages as
        `Loop` does, with the records of `Loop` in order, and sends the
        requests of `LoopRequests`. */
    method CrawlFrom(net: Network, markup: Markup,
                     ghost fetch: Request -> Result<Option<string>>, ghost page: string -> Result<seq<RepoRecord>>,
                     ghost details: RepoRecord -> Result<RepoRecord>, fuel: nat, url0: string, params0: seq<(string, string)>)
      returns (r: Crawl<Repo>, requests: seq<Request>)
      requires PageReaders(net, markup, fetch, page) && DetailsReader(net, markup, details)
      ensures var spec := Loop(fetch, page, markup.nextHref, fuel, Some(url0), params0);
              && (r.Returned? <==> spec.Returned?)
              && (r.Aborted? <==> spec.Aborted?)
              && (r.Returned? ==> Views(r.repos) == spec.repos)
      ensures requests == LoopRequests(fetch, page, markup.nextHref, fuel, Some(url0), params0)
    {
      ghost var whole := Loop(fetch, page, markup.nextHref, fuel, Some(url0), params0);
      ghost var made := LoopRequests(fetch, page, markup.nextHref, fuel, Some(url0), params0);
      var searchUrl: Option<string> := Some(url0);
      var queryParams := params0;
      var allRepos: seq<Repo> := [];
      requests := [];
      var left := fuel;
      var finished := false;
      PrependNothing(whole);
      while Truthy(searchUrl)
        invariant whole == Prepend(Views(allRepos), Loop(fetch, page, markup.nextHref, left, searchUrl, queryParams))
        invariant made == requests + LoopRequests(fetch, page, markup.nextHref, left, searchUrl, queryParams)
        decreases left
      {
        if left == 0 {
          r, finished := OutOfFuel, true;
          assert made == requests + [];
          break;
        }
        var req := Request(searchUrl.value, queryParams);
        ghost var previous := requests;
        ghost var gathered := Views(allRepos);
        requests := requests + [req];
        var round, found, next := CrawlRound(net, markup, fetch, page, details, searchUrl.value, queryParams);
        assert Views(allRepos) == gathered;
        match round
        case Abort =>
          LoopStop(fetch, page, markup.nextHref, left, searchUrl, queryParams);
          r, finished := Aborted, true;
          break;
        case Halt =>
          LoopStop(fetch, page, markup.nextHref, left, searchUrl, queryParams);
          assert made == requests + [];
          break;
        case Next =>
          LoopAdvance(fetch, page, markup.nextHref, whole, gathered, made, previous, left, searchUrl, queryParams, Views(found), next);
          ViewsAppend(allRepos, found);
          allRepos := allRepos + found;
          searchUrl := next;
          queryParams := [];
          left := left - 1;
      }
      if !finished {
        r := Returned(allRepos);
        assert Views(allRepos) + [] == Views(allRepos);
      }
    }
  }
}
