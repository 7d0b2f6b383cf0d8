# Parameter crawler, modelled in Dafny

This project models the core of `crawler.py`, a crawler that hunts for URL
query parameters. Starting from a seed URL and the pages listed in the seed
site's `sitemap.xml`, it walks a FIFO frontier of URLs. For every page it
synthesizes candidate parameter URLs:

- from anchors whose `href` carries `?key=value`;
- from forms, built out of their named controls.

It follows the page's links only when the page itself yields candidates and
is not too deep. It queues a link only when the link yields candidates of
its own. The result is the set of candidate URLs found.

The network and the HTML/XML parser are inputs of the model:

- A `Web` (in `crawler.dfy`) maps each fetchable URL to its parsed page. A
  page (`Markup.Page`) is its elements in document order, each with a tag,
  attributes and, for forms, descendants.
- A sitemap resolver (`Sitemap.Resolver`) holds a map from sitemap URL to
  the raw text of its `<loc>` elements.

URLs absent from these maps are fetches that failed or came back empty.

Modules, one per concern of the source:

| file | module | models |
|---|---|---|
| `text.dfy` | `Text` | the Python string operations used: `split`, `join`, `strip`, `lower`, `endswith` |
| `markup.dfy` | `Markup` | parsed elements and pages |
| `urls.dfy` | `Urls` | `urlparse`/`urlunparse` on a six-part record; `urljoin` with urllib's scheme tables, resolving paths by RFC 3986 section 5.2.3 (merge) and section 5.2.4 (remove_dot_segments), which differs from urllib's own segment loop in the cases under "Left out"; ASCII `unquote`; `normalize_url`; the depth expression |
| `params.dfy` | `Parameters` | `extract_parameters` after parsing |
| `links.dfy` | `Links` | `extract_links` after parsing |
| `sitemap.dfy` | `Sitemap` | `fetch_and_parse_sitemap` with its cache, and `parse_sitemap_urls` |
| `crawler.dfy` | `Crawler` | the loop of `crawl_and_extract_params` |

The loop is specified by a step function `Crawler.Step` and its closure
`Crawler.Run`. Both work over `Crawler.Sources`: the parameter set, the
normalised links and the depth of each URL. `Crawler.Answers` ties a
`Sources` value to the extractors run on a `Web`. The imperative loop
`Crawler.Frontier` is proved to return exactly the found set of `Run`.

Four behaviours of the code that a reader might expect otherwise, each
stated in the model:

- **No cycle guard.** `fetch_and_parse_sitemap` (crawler.py:49-57) writes
  `cached_sitemaps[sitemap_url]` only after `parse_sitemap_urls` returns,
  so a sitemap that lists itself recurses without end. The model assumes
  an acyclic sitemap graph: a rank that decreases along every nested link.
- **Duplicates are kept.** `parse_sitemap_urls` (crawler.py:75-77) extends
  the list with each nested result, so an entry listed twice appears twice
  (`Sitemap.Resolver.ListedTwiceYieldsTwice`).
- **`normalize_url` is not idempotent.** It percent-decodes the joined path
  on every call (crawler.py:163), so `%2541` becomes `%41` and then `A`. The
  model proves only that canonical URLs are fixed points
  (`Urls.CanonicalIsFixedPoint`).
- **One pair per `?`.** The pattern `\?([^=&]+)=([^&]+)` (crawler.py:93)
  needs a `?` before every pair, so `?x=1&y=2` yields only `x=1`
  (`Parameters.OnlyPairAfterQuestionMark`).

## Model

| member | source | states |
|---|---|---|
| `Urls.ParseUnparse` | crawler.py:156-168 | `urlparse` gives back every well-formed record that `urlunparse` wrote |
| `Urls.NormalizeKeepsComponents` | crawler.py:152-170 | the normalised URL re-reads with: the scheme and authority of `url` if present, else those of the base; query and fragment from `url`, never from the base; empty params; the decoded base path when `url` has no path, else the decoded join of the two paths |
| `Urls.CanonicalIsFixedPoint` | crawler.py:152-170 | normalising a canonical URL without a base gives it back. A canonical URL has an absolute or empty path with no `%` and no dot segment |
| `Urls.RemoveDotsIdentity` | crawler.py:162 | RFC 3986 remove_dot_segments leaves a path without `.` or `..` segments unchanged |
| `Urls.UnquoteNoPercent` | crawler.py:163 | `unquote` is the identity on text without `%` |
| `Urls.UnquoteShortens` | crawler.py:163 | decoding never lengthens the path |
| `Urls.DepthCountsSlashes` | crawler.py:192 | `len(path.split('/')) - 1` equals the number of `/` in the path |
| `Urls.ResolveKeepsDirectory` | crawler.py:162 | a relative path with no dot segments, resolved against a base path, lands in the base's directory: the base up to its last `/`, then the reference |
| `Urls.ParentOfTopDirectory` | crawler.py:162 | `../name` resolved against `/dir/file` climbs out of `dir` and is `/name` |
| `Urls.NormalizeRelative` | crawler.py:152-170 | a bare relative path found on a well-formed page URL keeps the page's scheme and host, takes the decoded join of the two paths, and has no query or fragment |
| `Urls.NormalizeSibling` | crawler.py:152-170 | `normalize_url("path2", "http://ex.com/dir/path1")` is `http://ex.com/dir/path2` |
| `Urls.NormalizeParent` | crawler.py:152-170 | `normalize_url("../path2", "http://ex.com/dir/path1")` is `http://ex.com/path2` |
| `Parameters.MatchAt` | crawler.py:93 | a match at the start is `?`, a non-empty key with no `=` or `&`, `=`, then a non-empty value with no `&` that runs up to the next `&` or the end; and a match is found whenever such a pair starts the text |
| `Parameters.Scan` | crawler.py:93 | every pair found has a non-empty key free of `=` and `&` and a non-empty value free of `&`, and `?key=value` occurs in the text |
| `Parameters.ScanEmptyIff` | crawler.py:93-94 | the scan finds nothing exactly when no `?key=value` occurrence exists anywhere in the href |
| `Parameters.OnlyPairAfterQuestionMark` | crawler.py:93 | `?x=1&y=2` yields only the pair `(x, 1)` |
| `Parameters.PairTexts` | crawler.py:95 | one `key=value` text per pair, in order |
| `Parameters.QueryRoundTrip` | crawler.py:95-96 | splitting the joined `k=v&...` string on `&` and at the first `=` gives back the scanned pairs |
| `Parameters.NamedControls` | crawler.py:100-101 | every form entry has a non-empty name |
| `Parameters.NamedControlsIff` | crawler.py:100-101 | an entry is present exactly when an `input`/`textarea`/`select`/`button` descendant has that non-empty name and that value (`""` when missing) |
| `Parameters.Put` | crawler.py:100 | a dict store keeps keys distinct. It adds the key. A new key goes at the end; an existing key keeps its position and takes the new value. Nothing else changes |
| `Parameters.DictOf` | crawler.py:100-101 | the dict comprehension's entries have distinct keys |
| `Parameters.DictKeys` | crawler.py:100-101 | the dict's keys are exactly the names that occur |
| `Parameters.DictLastValues` | crawler.py:100-101 | each key holds the value of its last occurrence |
| `Parameters.DictFirstOrder` | crawler.py:100-101 | keys appear in the order of their first occurrence |
| `Parameters.FormCandidateIff` | crawler.py:102-104 | a form adds a candidate exactly when it has a named control |
| `Parameters.HrefParamsIff` | crawler.py:90-96 | a string comes from the anchors exactly when some `a` element with an `href` yields it as page URL + `?` + its joined pairs |
| `Parameters.ParamsOnPageUrl` | crawler.py:96-104 | every candidate, from an anchor or a form, begins with the page URL followed by `?` |
| `Parameters.ExtractParameters` | crawler.py:88-105 | the two loops over anchors and forms return exactly the page's candidate set |
| `Links.WithAttr` | crawler.py:126-127 | `find_all(tag, attr=True)` returns exactly the page elements with that tag that carry that attribute |
| `Links.ElementListedPerAttribute` | crawler.py:124-127 | a lone element is listed with its preferred value, once per link attribute it carries for every time its tag is scanned, and nothing else is listed |
| `Links.LinkingElementListed` | crawler.py:122-127 | on a page of one element of the eight tags, that element contributes its preferred value (`src` > `href` > `action` > `data`) once for each of those attributes it has |
| `Links.LinkAttributesListed` | crawler.py:122-127 | on any page, the values the tag loop lists are, as a multiset, each element of the eight tags contributing its preferred value once per link attribute it has |
| `Links.PageTargetsIff` | crawler.py:122-127 | a value is listed exactly when some element of the eight tags carries a link attribute and has that value as its preferred one |
| `Links.FirstRefresh` | crawler.py:130 | the element found is the first `meta` with `http-equiv="refresh"` and `URL=` in its content; none is found exactly when the page has no such element |
| `Links.UrlSearch` | crawler.py:133-134 | the capture is the whole non-whitespace run after the leftmost `url=` that is followed by a non-space, so it is non-empty and has no whitespace; the search fails exactly when no `url=` is followed by a non-space character |
| `Links.RefreshTargetLowerCase` | crawler.py:132-136 | the redirect target has no upper-case letters, because the content is lower-cased first |
| `Links.DescriptorAt` | crawler.py:139 | a srcset match at the start is a non-space run, a whitespace run, digits and `w`; whenever some prefix has that shape, that prefix is the match found |
| `Links.SrcsetScan` | crawler.py:139-141 | every srcset match has that shape, keeps its `Nw` descriptor and occurs in the text |
| `Links.SrcsetScanEmptyIff` | crawler.py:139-141 | the scan finds nothing exactly when no position of the text starts a match |
| `Links.JoinAllAppend` | crawler.py:125 | joining a concatenation against the base joins each part |
| `Links.WebOnly` | crawler.py:144 | only links from the list whose scheme is http or https are kept |
| `Links.WebOnlyIff` | crawler.py:144 | a link is kept exactly when it is in the list and its scheme is http or https |
| `Links.PageLinksIff` | crawler.py:122-144 | a link is returned exactly when it is http(s) and is the join of a tag value, the refresh target or a srcset match |
| `Links.ExtractLinks` | crawler.py:118-145 | the loops over tags, refresh and srcset return exactly the page's links |
| `Sitemap.Stripped` | crawler.py:65 | one stripped text per `<loc>` |
| `Text.Strip` | crawler.py:65 | `str.strip()`: the result is a slice of the text with only whitespace cut before and after it, and it neither starts nor ends with whitespace |
| `Sitemap.Leaves` | crawler.py:69-73 | the kept entries are exactly the listed entries that do not end in `.xml` |
| `Sitemap.Children` | crawler.py:69-71 | the recursed entries are exactly the listed entries ending in `.xml` |
| `Sitemap.EntriesSplit` | crawler.py:69-73 | every entry goes to exactly one of the two lists: their lengths add up to the number of entries |
| `Sitemap.Resolver.Resolve` | crawler.py:49-79 | no resolved URL ends in `.xml` |
| `Sitemap.Resolver.ResolveAllIff` | crawler.py:75-77 | a URL comes from the nested sitemaps exactly when one of them resolves to it |
| `Sitemap.Resolver.ListedTwiceYieldsTwice` | crawler.py:69-77 | a nested sitemap listed twice contributes its URLs twice |
| `Sitemap.Resolver.constructor` | crawler.py:48 | the cache starts empty |
| `Sitemap.Resolver.FetchAndParse` | crawler.py:49-57 | the answer is the sitemap's resolution, and the key is cached. Cached entries are never changed. A cached key is answered without a fetch. An uncached key is fetched, and a failed fetch caches `[]` |
| `Sitemap.Resolver.ParseSitemapUrls` | crawler.py:59-79 | the result is the page entries in order, then each nested sitemap's resolution in task order. The cache stays valid and keeps its old entries |
| `Sitemap.Resolver.Gather` | crawler.py:75-77 | sequential resolution of the tasks concatenates their results in task order |
| `Crawler.ParamsOf` | crawler.py:82-86 | a page that cannot be fetched yields no parameters |
| `Crawler.NormalizeAll` | crawler.py:195 | one normalised link per extracted link |
| `Crawler.SourcesOf` | crawler.py:189-198 | the extractors on a web are a bounded source of answers |
| `Crawler.Admitted` | crawler.py:196-201 | a queued link is a candidate, is not visited, and has a non-empty parameter set |
| `Crawler.AdmittedCounts` | crawler.py:196-201 | every candidate that is not visited and has a non-empty parameter set is queued, as many times as it occurs among the candidates |
| `Crawler.Step` | crawler.py:184-201 | the popped URL ends up visited; a URL already visited is only dropped from the queue; otherwise the page's own parameters are reported; nothing reported is lost |
| `Crawler.StepDecreases` | crawler.py:183-201 | each iteration either visits a new page of `src.pages` (the fetchable URLs, which include every URL with parameters) or leaves the unvisited ones alone and shortens the queue, so the loop ends |
| `Crawler.Run` | crawler.py:183-207 | the loop ends with an empty queue or a reached cap; the visited set and the result only grow |
| `Crawler.ProcessedAreNew` | crawler.py:184-187 | the processed URLs are exactly those added to `visited_urls`, and none was visited before |
| `Crawler.ProcessedOnce` | crawler.py:184-187 | no URL is processed twice |
| `Crawler.FoundSound` | crawler.py:191-201 | every reported candidate was synthesized from some page, whether the page was popped or only queued |
| `Crawler.AdmittedParamsCover` | crawler.py:196-201 | the inner loop reports the parameters of every candidate it does not skip as visited |
| `Crawler.RunReports` | crawler.py:184-201 | every page the run processes has its parameters in the result, and so has every candidate link of a processed page with parameters that passes the depth gate; every visited page stays reported |
| `Crawler.CrawlReports` | crawler.py:179-207 | from `[seed_url] + sitemap_urls`, every processed page and every candidate link of a processed page past the depth gate has its parameters in the result |
| `Crawler.StepAppends` | crawler.py:190-201 | the queue keeps its rest in order. A link is appended only if four conditions hold: the popped URL was new, it had parameters, it passed the depth gate, and the link is unvisited with parameters of its own |
| `Crawler.DepthGateBlocks` | crawler.py:192-193 | a page at or past `max_depth` has its parameters reported but queues no link |
| `Crawler.AdmittedKeepsRepeats` | crawler.py:196-200 | a link appearing twice among the candidates is queued twice |
| `Crawler.SeedParamsReported` | crawler.py:182-191 | when the cap is absent or positive, all of the seed's parameters are reported |
| `Crawler.CapOvershoot` | crawler.py:183 | with `max_urls` 1 and two seed candidates, both are reported |
| `Crawler.AdmitLinks` | crawler.py:196-201 | the inner loop appends the admitted links and adds the parameters of every unvisited candidate |
| `Crawler.Frontier` | crawler.py:179-207 | the `while` loop returns exactly the found set of `Run` from `[seed_url] + sitemap_urls` |
| `Crawler.CrawlAndExtractParams` | crawler.py:172-207 | the crawl returns the found set of `Run` from the seed and the resolved top sitemap. The resolver stays valid |

## Left out

- Network I/O is not modelled: `get_page`, `fetch_sitemap_urls`, sessions, status checks, headers and the random User-Agent. Fetch results are the `Web` and `Resolver.sitemaps` maps.
- HTML and XML parsing is not modelled: `BeautifulSoup`, `find_all`, `.text`. Pages are given as element lists in document order.
- Concurrency is not modelled. The `asyncio.gather` calls run one after another, in list order. The cache race between sibling sitemap tasks is not modelled.
- Exception handlers are modelled only as empty results (`set()` / `[]`). The diagnostic `print` in `extract_links` is left out.
- Cyclic sitemap graphs are not modelled. The code recurses forever on them; the model requires an acyclic rank.
- `Sitemap.Resolver.FetchAndParse`: a missing URL stands for every failed fetch. The model does not distinguish a `ClientError` from an exception that would escape, such as a timeout.
- `Crawler.CrawlAndExtractParams`: the top-level sitemap is fetched outside the cache, as in the code, and is not recorded in `Resolver.fetched`.
- `Urls.Parse` does not model `urlsplit`'s stripping of control characters, its IPv6 bracket checks or its `ValueError`.
- `Urls.UrlJoin` / `Urls.JoinPaths`: paths are resolved by RFC 3986 sections 5.2.3-5.2.4 rather than urllib's segment loop. The two differ in two cases. urllib drops empty middle segments: `b//c` against `http://x/a/` gives `/a/b/c` there and `/a/b//c` here. Without an authority, a `..` that climbs past the root makes urllib drop the leading `/`: `../../b` against `/a` gives `b` there and `/b` here. Three more cases need a base without an authority whose path does not start with `/`: `../c` against `a/b` gives `c` there and `/c` here; `.` against `a` gives `/` there and the empty path here; and `a` against `?q` (an empty base path) gives `/a` there and `a` here. A page URL with an authority has a path that is empty or starts with `/`, and against an empty path with an authority both give `/a` (`Urls.Merge` adds the `/`), so the crawl does not reach these three.
- `Urls.Unquote` decodes only escapes of ASCII characters and leaves other escapes as they are. Python decodes them as UTF-8.
- `Text.Lower`, `Text.IsSpace` and `Text.IsDigit` cover ASCII and the Python whitespace set only, with no Unicode case mapping or digits.
- `Urls.CanonicalIsFixedPoint` states idempotence only for canonical URLs, because `normalize_url` decodes again on every call.
- The CLI and timing are not modelled: `main`, `input`, `print`, `time.time()`, `asyncio.run`.
