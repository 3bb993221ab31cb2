# GitHub search crawler, modelled in Dafny

This is a model of an asynchronous crawler for GitHub search results. It has two variants, and both are modelled:

- `crawler/` sends every request through one proxy, which it is given when it is built. It passes the search terms as query parameters of the first request.
- `src/` is given a list of proxies and picks one for every attempt. It writes the search terms into the first URL with `urlencode`.

Both variants do the same crawl:

1. Fetch the search page, with up to three attempts. Only an `aiohttp.ClientError` is retried, after a pause of one to three seconds.
2. Read the page's result anchors into `{'url': ...}` records.
3. Fetch each record's repository page and extend the record in place with `extra`: the owner, which is the URL's first path segment, and the language statistics.
4. Follow the page's next-page link, and stop at the first page that is missing or empty.

The modules follow the program's files:

| module | file |
|---|---|
| `Retry` | the retry policy of `_fetch` |
| `Utils` | `crawler/utils.py` |
| `SrcUtils` | `src/utils.py` |
| `Records` | the records, `_parse_search_results`, `_get_repo_details` and the loop of `run`, stated as functions |
| `Crawler` | `crawler/crawler.py` |
| `SrcCrawler` | `src/crawler.py` |
| `UrlParse`, `UrlEncoding`, `Utf8`, `Text` | the parts of `urllib.parse` and `str` the crawler relies on |

Each `GitHubCrawler` is a class. Its methods are proved against the functions in `Records` and `Retry`:

- `Fetch` has a `for` loop over the attempts, with invariants.
- `GatherDetails` and `GetRepoDetails` update `Repo` objects in place.
- `CrawlFrom` is the `while` loop of `run`.

The network is a parameter, `Network`. It says what the `k`-th attempt for a request comes to: a body, a `ClientError` or another exception. What BeautifulSoup reads out of a page is also a parameter, `Markup`. Random choices (the proxy, the accepted language, the user agent, the pause) are arbitrary values that the contracts quantify over. An exception that escapes is `Raised`.

## Model

| member | source | states |
|---|---|---|
| Retry.FetchNone | crawler/crawler.py:68-82 | `_fetch` returns `None` if and only if all three attempts raised a `ClientError` |
| Retry.FetchBody | crawler/crawler.py:68-82 | `_fetch` returns `body` if and only if some attempt answered `body` and every attempt before it raised a `ClientError` |
| Retry.FetchRaised | crawler/crawler.py:68-82 | `_fetch` raises if and only if its last attempt raised an exception other than `ClientError` |
| Retry.SettleNone | crawler/crawler.py:77-80 | From any attempt on, the loop gives up with the bare `return` exactly when every remaining attempt raised a `ClientError` |
| Retry.SettleBody | crawler/crawler.py:72-75 | From any attempt on, the loop returns a body exactly when a later attempt answered it after nothing but `ClientError`s |
| Retry.SettleDecidedBy | crawler/crawler.py:68-82 | The result is decided by the last attempt made: a body, an escaping exception, or `None` after a `ClientError` |
| Retry.AttemptsMade | crawler/crawler.py:68-80 | The loop makes 1 to 3 attempts; it goes past an attempt only when that attempt raised a `ClientError`; it stops early only after an attempt that did not |
| Retry.RetryThenSucceed | src/crawler.py:65-81 | A `ClientError` followed by a good response returns that response's body after two attempts |
| Retry.PersistentFailure | src/crawler.py:65-81 | A server that always fails with a `ClientError` makes `_fetch` return `None` after three attempts |
| Crawler.GitHubCrawler.constructor | crawler/crawler.py:43-45 | The crawler keeps its keywords, its proxy and its search type |
| Crawler.GitHubCrawler.SearchUrl | crawler/crawler.py:55-56 | `urljoin` of the base and `/search` is `https://github.com/search`. The params are `q`, the keywords joined by single spaces, then `type`, the search type. Splitting `q` at spaces gives back the keywords when there is at least one and none holds a space |
| Records.SearchPageUrl | crawler/crawler.py:56 | `urljoin('https://github.com', '/search')` is `https://github.com/search` |
| Records.SearchQueryKeywords | crawler/crawler.py:55 | Splitting the `q` parameter at spaces gives the keywords back, when there is at least one keyword and none holds a space |
| Crawler.GitHubCrawler.Fetch | crawler/crawler.py:68-82 | `_fetch` returns what the retry policy gives for the request with its params. The attempts sent are as many as the policy makes. Each carries the same request, the crawler's proxy and well-formed headers. There is one pause of 1 to 3 seconds between each two attempts |
| Crawler.GitHubCrawler.GetRepoDetails | crawler/crawler.py:139-147 | The record is changed in place to what `_get_repo_details` makes of it, and the same object is returned. When it raises, the record is unchanged |
| Crawler.GitHubCrawler.GatherDetails | crawler/crawler.py:183 | Every record of the page is enriched in place, in order, and the same list is returned. It raises exactly when enriching one of the records raises |
| Crawler.GitHubCrawler.PageRepos | crawler/crawler.py:182-183 | A page's records are the fresh parsed anchors, each enriched. It raises exactly when parsing or an enrichment raises |
| Crawler.GitHubCrawler.CrawlRound | crawler/crawler.py:176-186 | One pass of the loop aborts, halts or goes on to the next `href` with its page's records, exactly as the loop's step function says |
| Crawler.GitHubCrawler.CrawlFrom | crawler/crawler.py:175-186 | The `while` loop returns, aborts or runs out of pages as the loop function does, with its records in order. It sends exactly the loop function's requests |
| Crawler.GitHubCrawler.Run | crawler/crawler.py:170-188 | `run` returns the records of the crawl from the search URL with its query params, and sends the crawl's requests. Later pages are fetched with `{}` |
| SrcCrawler.GitHubCrawler.constructor | src/crawler.py:40-42 | The crawler keeps its keywords, its proxy list and its search type |
| SrcCrawler.GitHubCrawler.SearchUrl | src/crawler.py:52-53 | The search URL is `https://github.com/search?` followed by the URL-encoded `q` and `type` |
| SrcCrawler.EncodedSearchUrl | src/crawler.py:53 | `urljoin` of the base and `/search?<urlencoded query>` appends that reference to the base unchanged |
| SrcCrawler.EncodedSearchUrlParses | src/crawler.py:52-53 | Splitting the search URL gives back the path `/search`, and parsing its query gives back the encoded parameters, in order |
| SrcCrawler.GitHubCrawler.SearchUrlQuery | src/crawler.py:52-53 | The crawler's search URL has the path `/search`, and its query decodes to `q` (the joined keywords) and `type` |
| SrcCrawler.GitHubCrawler.Fetch | src/crawler.py:65-81 | As in `crawler/`, but every attempt is sent without params and with a proxy picked for it: `http://` followed by an entry of the list, or no proxy when the list is empty |
| SrcCrawler.GitHubCrawler.GetRepoDetails | src/crawler.py:137-145 | The same as in `crawler/`, with the fetch sent without params |
| SrcCrawler.GitHubCrawler.GatherDetails | src/crawler.py:181 | Every record of the page is enriched in place, in order. It raises exactly when one enrichment raises |
| SrcCrawler.GitHubCrawler.PageRepos | src/crawler.py:180-181 | A page's records are the fresh parsed anchors, each enriched. It raises exactly when parsing or an enrichment raises |
| SrcCrawler.GitHubCrawler.CrawlRound | src/crawler.py:174-183 | One pass of the loop, with every page fetched without params, matches the loop's step function |
| SrcCrawler.GitHubCrawler.CrawlFrom | src/crawler.py:173-183 | The `while` loop returns, aborts or runs out of pages as the loop function does, with its records in order. It sends the loop function's requests |
| SrcCrawler.GitHubCrawler.Run | src/crawler.py:168-185 | `run` returns the records of the crawl from the encoded search URL, and sends the crawl's requests |
| Records.ParseSearchResults | crawler/crawler.py:95-100 | `_parse_search_results` gives one fresh, distinct record per result anchor, in document order. Each URL is the anchor's `href` joined to the base. It raises when an anchor has no `href` |
| Records.Hrefs | crawler/crawler.py:97-98 | Reading the `href`s succeeds if and only if every anchor has one, and then gives them in order |
| Records.SearchResults | src/crawler.py:96-97 | Building the records succeeds if and only if every anchor has an `href`. There is then one record per anchor |
| Records.ResultOfRootRelativeHref | crawler/crawler.py:98 | An `href` that cleans to a root-relative reference becomes the base followed by that cleaned reference. The reference is a plain absolute path, then optional `;params`, query and fragment. A plain path has no `.` or `..` segment and no `;` in its last segment. Cleaning strips leading controls and spaces and deletes every tab, carriage return and line feed, as `urlsplit` does |
| Records.ResultOfHrefWithNewline | crawler/crawler.py:98 | The anchor `href="/a\n"` gives the record `https://github.com/a`: the line feed is dropped |
| Records.EnrichMeaning | crawler/crawler.py:140-145 | Enrichment keeps the URL. It adds `extra` exactly when an attempt fetched a non-empty page after nothing but `ClientError`s. The owner is then the URL's first path segment |
| Records.EnrichOwner | src/crawler.py:138-143 | For a URL that cleans to `https://github.com/<owner>/<name>`, with a non-empty page, the owner recorded is `<owner>` |
| Records.RepoUrlOwner | crawler/crawler.py:143 | `urlparse(url).path.split('/')[1]` of a URL that cleans to `https://github.com/<owner>/<name>` is `<owner>` |
| Records.OwnerAfterNewline | crawler/crawler.py:143 | A line feed inside the owner's segment is dropped: the owner of `https://github.com/<before>\n<after>/<name>` is `<before><after>` |
| Records.EnrichAll | crawler/crawler.py:183 | Enriching a page's records raises if and only if enriching one of them raises. Otherwise it gives each record's enrichment, in order |
| Records.EnrichAllOf | crawler/crawler.py:183 | Records enriched one by one, as `GatherDetails` does, are `EnrichAll` of the page |
| Records.CrawlIsLoop | crawler/crawler.py:175-186 | The crawl over `_fetch` and the page reader is the generic loop, in its records and in its requests |
| Records.LoopRequestsFollowLinks | crawler/crawler.py:175-186 | The loop makes a request exactly when it has a URL and budget left, starting at the first URL with its params. Each later request goes, without params, to the non-empty next-page `href` of the page before it, and that page was fetched non-empty and read |
| Records.CrawlRequestsFollowLinks | src/crawler.py:173-183 | `run` requests at most one page per unit of budget, the first being the search URL. Every later page is the non-empty next-page `href` of the page before it, which was fetched non-empty and read |
| Records.LoopFuelMonotone | crawler/crawler.py:175 | Once the crawl ends within the page bound, a larger bound does not change its result |
| Records.LoopRecordsFromPages | crawler/crawler.py:175-186 | A loop that returns gives exactly the records of the pages it requested and read, concatenated in request order. Every request but the last fetched a non-empty page that was read. The last fetched a missing or empty page, or one without a next-page `href` |
| Records.CrawlRecordsFromPages | crawler/crawler.py:175-186 | The same for `run`: its records are the in-order concatenation of the records of the pages it fetched non-empty, and it stops only at a missing or empty page or at one without a next link |
| Records.PageRecordsFromAnchors | crawler/crawler.py:95-100 | A page's records are one per result anchor, in document order. Each URL is that anchor's `href` joined to the base, and an owner, when recorded, is that URL's first path segment |
| Records.CrawlRecordsFromAnchors | crawler/crawler.py:175-186 | Every record `run` returns is the record of a result anchor of a page it requested and fetched non-empty: its URL is that anchor's `href` joined to the base |
| Records.LoopSinglePage | crawler/crawler.py:175-186 | A non-empty page with no next link ends the loop with exactly that page's records |
| Records.CrawlSinglePage | src/crawler.py:173-183 | With one non-empty page and no next link, `run` returns that page's records |
| Records.ViewsAppend | crawler/crawler.py:184 | `all_repos.extend(...)` appends the page's records after those gathered so far |
| Utils.HeadersWellFormed | crawler/utils.py:22-29 | A header map is well formed if and only if `get_random_headers` can return it for some user agent and accepted language |
| Utils.GetRandomHeaders | src/utils.py:22-29 | The headers have exactly the four keys, one of the two accepted languages, the fixed referer and the fixed encoding |
| Utils.CleanLines | crawler/utils.py:15 | Cleaning keeps at most as many lines, and each kept line is non-blank and already stripped |
| Utils.CleanLinesMembers | crawler/utils.py:15 | A proxy is kept if and only if it is the non-blank strip of some line |
| Utils.CleanLinesAppend | crawler/utils.py:15 | Cleaning works line by line and keeps the file's order |
| Utils.CleanLinesIdempotent | crawler/utils.py:15 | Cleaning the cleaned list changes nothing |
| Utils.ReadWrittenFile | crawler/utils.py:14-15 | A file written with one stripped, non-blank name per line reads back as those names, in order |
| Utils.EmptyFileHasNoProxy | crawler/utils.py:16 | An empty file has no proxy candidate |
| Utils.GetRandomProxyCases | crawler/utils.py:11-19 | A missing file gives `[]`. A file without candidates gives `None`. Otherwise the result is one of the stripped, non-blank lines |
| SrcUtils.LoadProxies | src/utils.py:7-14 | A missing file loads as `[]`. Every loaded proxy is non-blank and stripped |
| SrcUtils.LoadProxiesMembers | src/utils.py:11 | A proxy is loaded if and only if the file exists and the proxy is the non-blank strip of one of its lines |
| SrcUtils.LoadProxiesIdempotent | src/utils.py:11 | Cleaning the loaded list again changes nothing |
| SrcUtils.LoadWrittenFile | src/utils.py:10-11 | A file with one stripped, non-blank name per line loads as those names, in order |
| SrcUtils.NoProxiesLoaded | src/utils.py:9-14 | An empty file and a missing file both load as `[]` |
| SrcUtils.GetRandomProxy | src/utils.py:17-19 | No proxy if and only if the list is empty |
| SrcUtils.GetRandomProxyListed | src/utils.py:19 | A proxy can be picked if and only if it is `http://` followed by an entry of the list |
| Text.StripIsTrimmedSlice | crawler/utils.py:15 | `str.strip()` is the slice between the leading and trailing whitespace, and it starts and ends with non-whitespace |
| Text.StripIdempotent | src/utils.py:11 | Stripping twice is stripping once |
| UrlEncoding.UnquotePlusQuotePlus | src/crawler.py:53 | `unquote_plus(quote_plus(s)) == s` for every string |
| UrlEncoding.ParseQueryUrlEncode | src/crawler.py:53 | `parse_qsl(urlencode(ps), keep_blank_values=True) == ps` for every list of pairs, in order |
| Utf8.DecodeEncode | src/crawler.py:53 | Decoding the UTF-8 encoding of a string gives the string back, as `quote_plus` relies on |
| UrlParse.JoinPlainReference | crawler/crawler.py:98 | `urljoin('https://github.com', href)` is the base followed by the cleaned `href`, when that is a plain absolute path followed by optional `;params`, query and fragment. Non-empty params are kept after the path |
| UrlParse.JoinRootPath | crawler/crawler.py:98 | For an `href` that cleans to any root path, `urljoin` resolves the dot segments of the path before its params and puts the params back after the result |
| UrlParse.JoinDotsBeforeParams | crawler/crawler.py:98 | Dot segments are resolved before the params: `/<segment>/..;<params>` joins to `https://github.com/;<params>`, so `/a/..;p` gives `https://github.com/;p` |
| UrlParse.ParamsAfterPlainPath | crawler/crawler.py:143 | `urlparse` cuts params written after a plain absolute path off again, and finds none when none were written |
| UrlParse.JoinGitHubPath | crawler/crawler.py:56 | `urljoin('https://github.com', href)` is the base followed by the cleaned `href`, when that is a plain absolute path: no `.` or `..` segment and no `;` in its last segment |
| UrlParse.FirstSegmentOfGitHubUrl | src/crawler.py:141 | The first path segment of a URL that cleans to `https://github.com/<owner><sub>` plus a query and fragment is `<owner>`. This holds when `<owner>` has no `/` or `;`, `<sub>` is empty or starts with `/`, and `/<owner><sub>` is a root path: it does not start with `//` and has no `?`, `#`, tab, carriage return or line feed |
| Retry.Settle | crawler/crawler.py:70-82 | definition of the retry loop from a given attempt on; see Retry.SettleNone, Retry.SettleBody, Retry.SettleDecidedBy |
| Retry.FetchSpec | crawler/crawler.py:68-82 | definition of what `_fetch` returns; see Retry.FetchNone, Retry.FetchBody, Retry.FetchRaised |
| Records.Enrich | crawler/crawler.py:139-147 | definition of `_get_repo_details`; see Records.EnrichMeaning, Records.EnrichOwner |
| Records.LoopPass | crawler/crawler.py:176-186 | definition of one pass of the `while` loop of `run`; see Crawler.GitHubCrawler.CrawlRound, Records.LoopSinglePage |
| Records.Loop | crawler/crawler.py:175-186 | definition of the `while` loop of `run`; see Records.LoopRecordsFromPages, Records.LoopFuelMonotone, Crawler.GitHubCrawler.CrawlFrom |
| Utils.GetRandomProxy | crawler/utils.py:11-19 | definition of `get_random_proxy`; see Utils.GetRandomProxyCases |
| Utils.RandomHeaders | crawler/utils.py:22-29 | definition of `get_random_headers`; see Utils.HeadersWellFormed, Utils.GetRandomHeaders |
| UrlParse.UrlSplit | crawler/crawler.py:143 | definition of `urlsplit`; see UrlParse.FirstSegmentOfGitHubUrl, SrcCrawler.EncodedSearchUrlParses |
| UrlParse.UrlJoin | crawler/crawler.py:98 | definition of `urljoin`; see UrlParse.JoinPlainReference, UrlParse.JoinRootPath, UrlParse.JoinDotsBeforeParams |
| UrlParse.UrlParsePath | crawler/crawler.py:143 | definition of `urlparse(url).path`; see UrlParse.ParamsAfterPlainPath, Records.RepoUrlOwner |
| UrlParse.FirstPathSegment | crawler/crawler.py:143 | definition of `urlparse(url).path.split('/')[1]`; see UrlParse.FirstSegmentOfGitHubUrl, Records.OwnerAfterNewline |
| UrlEncoding.QuotePlus | src/crawler.py:53 | definition of `quote_plus`; see UrlEncoding.UnquotePlusQuotePlus |
| UrlEncoding.UrlEncode | src/crawler.py:53 | definition of `urlencode`; see UrlEncoding.ParseQueryUrlEncode |
| UrlEncoding.ParseQuery | src/crawler.py:53 | definition of `parse_qsl` with `keep_blank_values=True`, the inverse of `urlencode`; see UrlEncoding.ParseQueryUrlEncode |

## Left out

- BeautifulSoup is not modelled. The result anchors' `href`s, `_get_next_page_url` and `_parse_language_stats` are the fields of `Markup`, so nothing is stated about selectors or HTML.
- `_parse_language_stats` is not modelled: its `float(...)` parsing and its `Languages` lookup are outside the model. `LanguageStats` is an opaque map.
- The network, the `aiohttp` session and the 5-second timeout are not modelled. An attempt's outcome is a parameter of each call.
- `asyncio.gather` runs the detail fetches concurrently. The model runs them one after another in list order.
- Crawler.GitHubCrawler.GatherDetails: when one enrichment raises, the contract does not say which of the other records were already enriched. Concurrently, that depends on scheduling.
- SrcCrawler.GitHubCrawler.GatherDetails: the same as in `crawler/`.
- The `while` loop of `run` has no bound in the source. The model bounds it by `fuel` pages and reports `OutOfFuel` past that. `Records.LoopFuelMonotone` shows the bound does not change a crawl that ends within it.
- Logging, `print` and the entry points (`main.py`, command-line parsing, writing the JSON output) are not modelled, nor are the tests.
- `urlsplit`, `urljoin`, `urlencode` and `parse_qsl` are modelled only as far as the crawler uses them, with the lemmas stated for root-relative references against `https://github.com`. Other schemes, IPv6 hosts and netloc validation are not modelled.
- UTF-8 decoding is strict: invalid bytes give `None`, where Python would substitute U+FFFD. The crawler never decodes invalid bytes.
- Reading the proxy file fails only with a missing file. Other I/O errors are not modelled.
- Text-mode reading of the proxy file is modelled by cutting lines at `\n` and `\r`. This differs from Python only in empty lines, which cleaning drops.
- `random.choice`, `random.randint`, `ua.random` and `asyncio.sleep` are arbitrary values within their ranges. Each pause is recorded, and no time passes.
- Crawler.GitHubCrawler.GetRepoDetails and SrcCrawler.GitHubCrawler.GetRepoDetails do not return the log of attempts of their fetch. Their contracts speak only of the record.
- `main.py` validates the result of `get_random_proxy` as an optional string before it builds the `crawler/` crawler, so the crawler receives `None` or an address, as its optional proxy does in the model. That validation is not modelled.
- UrlEncoding.ParseQuery models `parse_qsl` with `keep_blank_values=True`. With the default, and in `parse_qs`, a pair with an empty value such as `("q", "")` (no keywords) is dropped, so the round trip holds there only for non-empty values.
- Retry.Network / Retry.FetchSpec: an outcome depends only on the request and the attempt number. So fetching the same URL twice replays the same outcomes, and two anchors with the same `href` get the same details. The proxy and the headers cannot change an outcome.
- UrlParse.UrlSplit cleans the URL as `urlsplit` does from Python 3.11.4 on, but not the default-scheme argument: `urljoin` passes it only schemes that `urlsplit` produced, which are already clean.
