/** The crawl (`crawl_and_extract_params`): a FIFO frontier seeded with the
    start URL and the sitemap's pages, a set of visited URLs, and the growing
    set of candidate parameter URLs it returns. */
module Crawler {
  import opened Text
  import opened Markup
  import opened Urls
  import opened Parameters
  import opened Links
  import opened Sitemap

  /** The pages the crawler can fetch, already parsed. A URL missing here
      fails to fetch, answers with a status other than 200, or has an empty
      body: both extractors then give nothing. */
  type Web = map<string, Page>

  /** `extract_parameters(session, url)`. */
  function ParamsOf(web: Web, url: string): (r: set<string>)
    ensures r != {} ==> url in web
  {
    if url in web then PageParams(url, web[url]) else {}
  }

  /** `extract_links(session, url)`. */
  function LinksOf(web: Web, url: string): seq<string> {
    if url in web then PageLinks(url, web[url]) else []
  }

  /** `[normalize_url(link, base) for link in links]`. */
  function NormalizeAll(links: seq<string>, base: string): (r: seq<string>)
    ensures |r| == |links|
  {
    seq(|links|, i requires 0 <= i < |links| => Normalize(links[i], base))
  }

  /** What the loop asks of the web about a URL: its parameter set, its
      links after normalisation against it, and its depth. `pages` bounds the
      URLs with a non-empty parameter set, which makes the crawl finite. */
  datatype Sources = Sources(params: string -> set<string>, cands: string -> seq<string>,
                             depth: string -> int, pages: set<string>)

  ghost predicate Bounded(src: Sources) {
    forall u :: src.params(u) != {} ==> u in src.pages
  }

  /** `src` answers as the crawler's own code does on `web`:
      `extract_parameters`, `extract_links` followed by
      `normalize_url(link, url)`, and the depth expression. */
  ghost predicate Answers(src: Sources, web: Web) {
    && ParamsAnswer(src, web)
    && (forall u :: src.cands(u) == NormalizeAll(LinksOf(web, u), u))
    && (forall u :: src.depth(u) == Depth(u))
    && src.pages == web.Keys
  }

  /** `src` reports the parameter sets `extract_parameters` finds on `web`. */
  ghost predicate ParamsAnswer(src: Sources, web: Web) {
    forall u :: src.params(u) == ParamsOf(web, u)
  }

  /** Those answers, as a value. */
  function SourcesOf(web: Web): (src: Sources)
    ensures Answers(src, web) && Bounded(src)
  {
    Sources(u => ParamsOf(web, u), u => NormalizeAll(LinksOf(web, u), u), u => Depth(u), web.Keys)
  }

  /** `max_depth` and `max_urls`; `None` is Python's `None` (no limit). */
  datatype Config = Config(maxDepth: Option<int>, maxUrls: Option<int>)

  /** The loop's state: `urls_to_visit`, `visited_urls`, `params_list`. */
  datatype Crawl = Crawl(queue: seq<string>, visited: set<string>, found: set<string>)

  /** The loop head: a URL is waiting and the cap is not reached. */
  predicate Continues(cfg: Config, s: Crawl) {
    s.queue != [] && (cfg.maxUrls.None? || |s.found| < cfg.maxUrls.value)
  }

  /** The depth gate: a page this deep has its links left unexplored. */
  predicate DepthBlocked(src: Sources, cfg: Config, url: string) {
    cfg.maxDepth.Some? && src.depth(url) >= cfg.maxDepth.value
  }

  /** The candidates of the inner loop that are queued, in order: those not
      visited whose own parameter set is non-empty. Repeats are kept
      (`AdmittedCounts`). */
  function Admitted(src: Sources, visited: set<string>, cands: seq<string>): (r: seq<string>)
    ensures forall n | n in r :: n in cands && n !in visited && src.params(n) != {}
  {
    if cands == [] then []
    else
      var n := cands[|cands| - 1];
      Admitted(src, visited, cands[..|cands| - 1]) + (if n !in visited && src.params(n) != {} then [n] else [])
  }

  /** Every admissible candidate is queued, as often as it occurs. */
  lemma {:induction false} AdmittedCounts(src: Sources, visited: set<string>, cands: seq<string>)
    ensures forall n | n in cands && n !in visited && src.params(n) != {} :: n in Admitted(src, visited, cands)
    ensures forall n | n !in visited && src.params(n) != {} ::
              multiset(Admitted(src, visited, cands))[n] == multiset(cands)[n]
  {
    if cands != [] {
      var prefix := cands[..|cands| - 1];
      AdmittedCounts(src, visited, prefix);
      assert cands == prefix + [cands[|cands| - 1]];
    }
  }

  /** The parameters the inner loop adds: those of every candidate not
      visited (an empty set adds nothing). */
  function AdmittedParams(src: Sources, visited: set<string>, cands: seq<string>): set<string> {
    if cands == [] then {}
    else
      var n := cands[|cands| - 1];
      AdmittedParams(src, visited, cands[..|cands| - 1]) + (if n !in visited then src.params(n) else {})
  }

  /** One iteration of the loop body. The popped URL ends up visited; a URL
      already visited is only dropped from the queue; otherwise the page's
      own parameters are reported, and nothing reported is lost. */
  function Step(src: Sources, cfg: Config, s: Crawl): (t: Crawl)
    requires s.queue != []
    ensures t.visited == s.visited + {s.queue[0]}
    ensures s.queue[0] in s.visited ==> t == Crawl(s.queue[1..], s.visited, s.found)
    ensures s.found + src.params(s.queue[0]) <= t.found || s.queue[0] in s.visited
    ensures s.found <= t.found
  {
    var url := s.queue[0];
    var rest := s.queue[1..];
    if url in s.visited then Crawl(rest, s.visited, s.found)
    else
      var visited := s.visited + {url};
      var params := src.params(url);
      if params == {} then Crawl(rest, visited, s.found)
      else if DepthBlocked(src, cfg, url) then Crawl(rest, visited, s.found + params)
      else
        var cands := src.cands(url);
        Crawl(rest + Admitted(src, visited, cands), visited,
              s.found + params + AdmittedParams(src, visited, cands))
  }

  /** The number of fetchable pages (`src.pages`) not yet visited; every
      URL with parameters is one of them. */
  function Unvisited(src: Sources, s: Crawl): nat {
    |src.pages - s.visited|
  }

  /** Each step either visits a new page, or leaves the visited pages alone
      and shortens the queue. */
  lemma StepDecreases(src: Sources, cfg: Config, s: Crawl)
    requires Bounded(src) && s.queue != []
    ensures var t := Step(src, cfg, s);
            Unvisited(src, t) < Unvisited(src, s)
            || (Unvisited(src, t) == Unvisited(src, s) && |t.queue| < |s.queue|)
  {
    var url := s.queue[0];
    if url !in s.visited {
      var visited := s.visited + {url};
      if url in src.pages {
        assert src.pages - visited == (src.pages - s.visited) - {url};
        assert url in src.pages - s.visited;
      } else {
        assert src.pages - visited == src.pages - s.visited;
      }
    }
  }

  /** The loop run to its end from `s`. The loop ends exactly when the queue
      is empty or the cap is reached; the visited and found sets only grow. */
  function Run(src: Sources, cfg: Config, s: Crawl): (r: Crawl)
    requires Bounded(src)
    ensures !Continues(cfg, r)
    ensures s.visited <= r.visited && s.found <= r.found
    decreases Unvisited(src, s), |s.queue|
  {
    if !Continues(cfg, s) then s
    else
      StepDecreases(src, cfg, s);
      Run(src, cfg, Step(src, cfg, s))
  }

  lemma RunStep(src: Sources, cfg: Config, s: Crawl)
    requires Bounded(src) && Continues(cfg, s)
    ensures Run(src, cfg, s) == Run(src, cfg, Step(src, cfg, s))
  {
  }

  /** The URLs whose pages the run processes, in order: each popped URL
      that was not visited yet. */
  function Processed(src: Sources, cfg: Config, s: Crawl): seq<string>
    requires Bounded(src)
    decreases Unvisited(src, s), |s.queue|
  {
    if !Continues(cfg, s) then []
    else
      StepDecreases(src, cfg, s);
      (if s.queue[0] in s.visited then [] else [s.queue[0]]) + Processed(src, cfg, Step(src, cfg, s))
  }

  predicate NoRepeats(xs: seq<string>) {
    forall i, j | 0 <= i < j < |xs| :: xs[i] != xs[j]
  }

  lemma ConsNoRepeats(x: string, xs: seq<string>)
    requires NoRepeats(xs) && x !in xs
    ensures NoRepeats([x] + xs)
  {
    var p := [x] + xs;
    forall i, j | 0 <= i < j < |p| ensures p[i] != p[j] {
      assert p[j] == xs[j - 1];
      if i > 0 {
        assert p[i] == xs[i - 1];
      }
    }
  }

  lemma SetOfCons(x: string, xs: seq<string>)
    ensures (set u | u in [x] + xs) == {x} + (set u | u in xs)
  {
    assert forall u | u in [x] + xs :: u == x || u in xs;
  }

  /** The processed URLs are exactly the URLs the run adds to the visited
      set, and none of them was visited when the run started. */
  lemma {:induction false} ProcessedAreNew(src: Sources, cfg: Config, s: Crawl)
    requires Bounded(src)
    ensures forall u | u in Processed(src, cfg, s) :: u !in s.visited
    ensures (set u | u in Processed(src, cfg, s)) == Run(src, cfg, s).visited - s.visited
    decreases Unvisited(src, s), |s.queue|
  {
    if Continues(cfg, s) {
      StepDecreases(src, cfg, s);
      var t := Step(src, cfg, s);
      ProcessedAreNew(src, cfg, t);
      var rest := Processed(src, cfg, t);
      var url := s.queue[0];
      assert Run(src, cfg, s) == Run(src, cfg, t);
      if url !in s.visited {
        assert t.visited == s.visited + {url};
        assert Processed(src, cfg, s) == [url] + rest;
        SetOfCons(url, rest);
      } else {
        assert t.visited == s.visited;
        assert Processed(src, cfg, s) == rest;
      }
    }
  }

  /** No URL is processed twice. */
  lemma {:induction false} ProcessedOnce(src: Sources, cfg: Config, s: Crawl)
    requires Bounded(src)
    ensures NoRepeats(Processed(src, cfg, s))
    decreases Unvisited(src, s), |s.queue|
  {
    if Continues(cfg, s) {
      StepDecreases(src, cfg, s);
      var t := Step(src, cfg, s);
      ProcessedOnce(src, cfg, t);
      var rest := Processed(src, cfg, t);
      var url := s.queue[0];
      if url !in s.visited {
        ProcessedAreNew(src, cfg, t);
        assert url in t.visited;
        assert Processed(src, cfg, s) == [url] + rest;
        ConsNoRepeats(url, rest);
      } else {
        assert Processed(src, cfg, s) == rest;
      }
    }
  }

  /** Every parameter URL any page yields. */
  ghost function AllParams(src: Sources): set<string> {
    set u, r | u in src.pages && r in src.params(u) :: r
  }

  lemma {:induction false} AdmittedParamsSound(src: Sources, visited: set<string>, cands: seq<string>)
    requires Bounded(src)
    ensures AdmittedParams(src, visited, cands) <= AllParams(src)
  {
    if cands != [] {
      AdmittedParamsSound(src, visited, cands[..|cands| - 1]);
    }
  }

  /** Every candidate URL the run reports came out of the parameter
      synthesizer for some page. */
  lemma {:induction false} FoundSound(src: Sources, cfg: Config, s: Crawl)
    requires Bounded(src)
    ensures Run(src, cfg, s).found <= s.found + AllParams(src)
    decreases Unvisited(src, s), |s.queue|
  {
    if Continues(cfg, s) {
      StepDecreases(src, cfg, s);
      var url := s.queue[0];
      if url !in s.visited {
        AdmittedParamsSound(src, s.visited + {url}, src.cands(url));
      }
      FoundSound(src, cfg, Step(src, cfg, s));
    }
  }

  /** Every visited page has had its parameters reported. */
  ghost predicate Reported(src: Sources, s: Crawl) {
    forall v | v in s.visited :: src.params(v) <= s.found
  }

  lemma StepKeepsReported(src: Sources, cfg: Config, s: Crawl)
    requires s.queue != [] && Reported(src, s)
    ensures Reported(src, Step(src, cfg, s))
  {
  }

  /** The inner loop reports the parameters of every candidate it does not
      skip as visited. */
  lemma {:induction false} AdmittedParamsCover(src: Sources, visited: set<string>, cands: seq<string>)
    ensures forall n | n in cands && n !in visited :: src.params(n) <= AdmittedParams(src, visited, cands)
  {
    if cands != [] {
      var prefix := cands[..|cands| - 1];
      AdmittedParamsCover(src, visited, prefix);
      assert forall n | n in cands :: n in prefix || n == cands[|cands| - 1];
    }
  }

  /** Nothing a page yields is lost: every page the run processes has its
      parameters in the result, and so has every candidate link of a
      processed page with parameters that the depth gate lets through. */
  lemma {:induction false} RunReports(src: Sources, cfg: Config, s: Crawl)
    requires Bounded(src) && Reported(src, s)
    ensures Reported(src, Run(src, cfg, s))
    ensures forall u | u in Processed(src, cfg, s) :: src.params(u) <= Run(src, cfg, s).found
    ensures forall u, n | u in Processed(src, cfg, s) && src.params(u) != {} && !DepthBlocked(src, cfg, u)
                         && n in src.cands(u) :: src.params(n) <= Run(src, cfg, s).found
    decreases Unvisited(src, s), |s.queue|
  {
    if Continues(cfg, s) {
      StepDecreases(src, cfg, s);
      StepKeepsReported(src, cfg, s);
      var t := Step(src, cfg, s);
      RunReports(src, cfg, t);
      var r := Run(src, cfg, t);
      assert Run(src, cfg, s) == r;
      var url := s.queue[0];
      if url !in s.visited {
        assert Processed(src, cfg, s) == [url] + Processed(src, cfg, t);
        if src.params(url) != {} && !DepthBlocked(src, cfg, url) {
          var visited := s.visited + {url};
          AdmittedParamsCover(src, visited, src.cands(url));
          assert AdmittedParams(src, visited, src.cands(url)) <= t.found;
          forall n | n in src.cands(url) ensures src.params(n) <= r.found {
            if n in visited {
              assert src.params(n) <= t.found;
            }
          }
        }
      } else {
        assert Processed(src, cfg, s) == Processed(src, cfg, t);
      }
    }
  }

  /** From the start state: every processed page, and every candidate link
      of a processed page the depth gate lets through, has its parameters
      in the crawl's result. */
  lemma CrawlReports(src: Sources, cfg: Config, seed: string, sitemapUrls: seq<string>)
    requires Bounded(src)
    ensures var s := Start(seed, sitemapUrls);
            && (forall u | u in Processed(src, cfg, s) :: src.params(u) <= Run(src, cfg, s).found)
            && (forall u, n | u in Processed(src, cfg, s) && src.params(u) != {} && !DepthBlocked(src, cfg, u)
                             && n in src.cands(u) :: src.params(n) <= Run(src, cfg, s).found)
  {
    RunReports(src, cfg, Start(seed, sitemapUrls));
  }

  /** A step keeps the rest of the queue in order and appends only links of
      the popped page, and only when: the popped URL was not visited, its own
      parameter set is non-empty, the depth gate lets it through, and the
      link is not visited and has parameters of its own. */
  lemma StepAppends(src: Sources, cfg: Config, s: Crawl)
    requires s.queue != []
    ensures var t := Step(src, cfg, s); var url := s.queue[0];
            && |s.queue| - 1 <= |t.queue| && t.queue[..|s.queue| - 1] == s.queue[1..]
            && (|t.queue| > |s.queue| - 1 ==>
                  url !in s.visited && src.params(url) != {} && !DepthBlocked(src, cfg, url))
            && (forall i | |s.queue| - 1 <= i < |t.queue| ::
                  t.queue[i] in src.cands(url) && t.queue[i] !in s.visited + {url} && src.params(t.queue[i]) != {})
  {
    var t := Step(src, cfg, s);
    var url := s.queue[0];
    if url !in s.visited && src.params(url) != {} && !DepthBlocked(src, cfg, url) {
      var added := Admitted(src, s.visited + {url}, src.cands(url));
      assert t.queue == s.queue[1..] + added;
      forall i | |s.queue| - 1 <= i < |t.queue|
        ensures t.queue[i] in added
      {
        assert t.queue[i] == added[i - (|s.queue| - 1)];
      }
    }
  }

  /** A page at or past the depth limit still has its parameters reported,
      but none of its links is queued. */
  lemma DepthGateBlocks(src: Sources, cfg: Config, s: Crawl)
    requires s.queue != [] && DepthBlocked(src, cfg, s.queue[0])
    ensures Step(src, cfg, s).queue == s.queue[1..]
    ensures s.queue[0] !in s.visited ==> Step(src, cfg, s).found == s.found + src.params(s.queue[0])
  {
  }

  /** Appends are not deduplicated: a link that appears twice among a
      page's candidates is queued twice. */
  lemma AdmittedKeepsRepeats(src: Sources, visited: set<string>, n: string)
    requires n !in visited && src.params(n) != {}
    ensures Admitted(src, visited, [n, n]) == [n, n]
  {
    assert [n, n][..1] == [n];
    assert [n][..0] == [];
    assert Admitted(src, visited, []) == [];
    assert Admitted(src, visited, [n]) == [n];
  }

  /** The start state: the seed, then the sitemap's pages. */
  function Start(seed: string, sitemapUrls: seq<string>): Crawl {
    Crawl([seed] + sitemapUrls, {}, {})
  }

  /** The cap is only tested at the loop head, so the seed's parameters are
      always all reported once the loop runs at all, even when there are
      more of them than the cap allows. */
  lemma SeedParamsReported(src: Sources, cfg: Config, seed: string, sitemapUrls: seq<string>)
    requires Bounded(src)
    requires cfg.maxUrls.None? || cfg.maxUrls.value > 0
    ensures src.params(seed) <= Run(src, cfg, Start(seed, sitemapUrls)).found
  {
    var s := Start(seed, sitemapUrls);
    assert Continues(cfg, s);
    StepDecreases(src, cfg, s);
    assert src.params(seed) <= Step(src, cfg, s).found;
  }

  /** The cap can be overshot: with `max_urls` 1 and a seed page yielding
      two candidates, the crawl reports both. */
  lemma CapOvershoot()
    ensures var src := Sources(u => if u == "s" then {"s?a=1", "s?b=2"} else {}, u => [], u => 0, {"s"});
            Bounded(src) && |Run(src, Config(None, Some(1)), Start("s", [])).found| == 2
  {
    var src := Sources(u => if u == "s" then {"s?a=1", "s?b=2"} else {}, u => [], u => 0, {"s"});
    var cfg := Config(None, Some(1));
    var s := Start("s", []);
    StepDecreases(src, cfg, s);
    var t := Step(src, cfg, s);
    assert Admitted(src, {"s"}, []) == [];
    assert t.queue == [] && t.found == {"s?a=1", "s?b=2"};
    assert Run(src, cfg, s) == Run(src, cfg, t) == t;
  }

  lemma AdmittedPrefix(src: Sources, visited: set<string>, cands: seq<string>, i: nat)
    requires i < |cands|
    ensures var n := cands[i];
            && Admitted(src, visited, cands[..i + 1])
               == Admitted(src, visited, cands[..i]) + (if n !in visited && src.params(n) != {} then [n] else [])
            && AdmittedParams(src, visited, cands[..i + 1])
               == AdmittedParams(src, visited, cands[..i]) + (if n !in visited then src.params(n) else {})
  {
    assert cands[..i + 1][..i] == cands[..i];
  }

  /** The inner `for normalized_link in normalized_links` loop: a link not
      visited whose own parameter set is non-empty is queued and its
      parameters reported. */
  method AdmitLinks(web: Web, ghost src: Sources, visited: set<string>, normalized: seq<string>,
                    queue0: seq<string>, found0: set<string>)
    returns (queue: seq<string>, found: set<string>)
    requires ParamsAnswer(src, web)
    ensures queue == queue0 + Admitted(src, visited, normalized)
    ensures found == found0 + AdmittedParams(src, visited, normalized)
  {
    queue, found := queue0, found0;
    for i := 0 to |normalized|
      invariant queue == queue0 + Admitted(src, visited, normalized[..i])
      invariant found == found0 + AdmittedParams(src, visited, normalized[..i])
    {
      var link := normalized[i];
      if link !in visited {
        var linkParams := {};
        if link in web {
          linkParams := ExtractParameters(link, web[link]);
        }
        assert linkParams == src.params(link);
        AdmitNext(src, visited, normalized, i, queue0, found0, queue, found);
        if linkParams != {} {
          queue := queue + [link];
          found := found + linkParams;
        }
      } else {
        AdmitNext(src, visited, normalized, i, queue0, found0, queue, found);
      }
    }
    assert normalized[..|normalized|] == normalized;
  }

  /** How one more candidate extends the inner loop's queue and found set. */
  lemma AdmitNext(src: Sources, visited: set<string>, cands: seq<string>, i: nat,
                  queue0: seq<string>, found0: set<string>, queue: seq<string>, found: set<string>)
    requires i < |cands|
    requires queue == queue0 + Admitted(src, visited, cands[..i])
    requires found == found0 + AdmittedParams(src, visited, cands[..i])
    ensures var n := cands[i];
            && (n !in visited && src.params(n) != {} ==>
                  queue + [n] == queue0 + Admitted(src, visited, cands[..i + 1])
                  && found + src.params(n) == found0 + AdmittedParams(src, visited, cands[..i + 1]))
            && (n !in visited && src.params(n) == {} ==>
                  queue == queue0 + Admitted(src, visited, cands[..i + 1])
                  && found == found0 + AdmittedParams(src, visited, cands[..i + 1]))
            && (n in visited ==>
                  queue == queue0 + Admitted(src, visited, cands[..i + 1])
                  && found == found0 + AdmittedParams(src, visited, cands[..i + 1]))
  {
    AdmittedPrefix(src, visited, cands, i);
    var admitted := Admitted(src, visited, cands[..i]);
    assert (queue0 + admitted) + [cands[i]] == queue0 + (admitted + [cands[i]]);
  }

  /** The `while` loop of `crawl_and_extract_params`, from the queue
      `[seed_url] + sitemap_urls`: it returns the found set of the run. */
  method Frontier(web: Web, ghost src: Sources, cfg: Config, start: seq<string>) returns (found: set<string>)
    requires Answers(src, web) && Bounded(src)
    ensures found == Run(src, cfg, Crawl(start, {}, {})).found
  {
    var visited: set<string> := {};
    found := {};
    var queue := start;
    while queue != [] && (cfg.maxUrls.None? || |found| < cfg.maxUrls.value)
      invariant Run(src, cfg, Crawl(queue, visited, found)) == Run(src, cfg, Crawl(start, {}, {}))
      decreases Unvisited(src, Crawl(queue, visited, found)), |queue|
    {
      ghost var s := Crawl(queue, visited, found);
      ghost var t := Step(src, cfg, s);
      StepDecreases(src, cfg, s);
      RunStep(src, cfg, s);
      var url := queue[0];
      queue := queue[1..];
      if url in visited {
        assert Crawl(queue, visited, found) == t;
        continue;
      }
      visited := visited + {url};
      var parameters := {};
      if url in web {
        parameters := ExtractParameters(url, web[url]);
      }
      assert parameters == src.params(url);
      if parameters != {} {
        found := found + parameters;
        if cfg.maxDepth.Some? && |Split(Parse(url).path, '/')| - 1 >= cfg.maxDepth.value {
          assert DepthBlocked(src, cfg, url);
          assert Crawl(queue, visited, found) == t;
          continue;
        }
        assert !DepthBlocked(src, cfg, url);
        var links := [];
        if url in web {
          links := ExtractLinks(url, web[url]);
        }
        var normalized := NormalizeAll(links, url);
        assert normalized == src.cands(url);
        queue, found := AdmitLinks(web, src, visited, normalized, queue, found);
      }
      assert Crawl(queue, visited, found) == t;
    }
  }

  /** `crawl_and_extract_params(seed_url, max_depth, max_urls)`. The top
      sitemap, `urljoin(seed_url, 'sitemap.xml')`, is fetched and parsed
      directly, without the cache; its nested sitemaps go through the cache.
      The result is the found set of the loop run from the seed and the
      sitemap's pages. */
  method CrawlAndExtractParams(web: Web, resolver: Resolver, seed: string, cfg: Config) returns (found: set<string>)
    requires resolver.Valid()
    modifies resolver
    ensures resolver.Valid()
    ensures found == Run(SourcesOf(web), cfg, Start(seed, resolver.Resolve(UrlJoin(seed, "sitemap.xml")))).found
  {
    var sitemapUrl := UrlJoin(seed, "sitemap.xml");
    var sitemapUrls := [];
    if sitemapUrl in resolver.sitemaps {
      sitemapUrls := resolver.ParseSitemapUrls(resolver.sitemaps[sitemapUrl], resolver.rank[sitemapUrl]);
    }
    found := Frontier(web, SourcesOf(web), cfg, [seed] + sitemapUrls);
  }
}
