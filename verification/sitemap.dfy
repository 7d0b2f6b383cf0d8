/** Sitemap discovery (`fetch_and_parse_sitemap`, `parse_sitemap_urls`):
    the `<loc>` entries of a sitemap ending in ".xml" are nested sitemaps,
    resolved recursively through a cache keyed by sitemap URL; every other
    entry is a page URL. */
module Sitemap {
  import opened Text

  /** `[url_tag.text.strip() for url_tag in url_tags]`. */
  function Stripped(raw: seq<string>): (locs: seq<string>)
    ensures |locs| == |raw|
  {
    seq(|raw|, i requires 0 <= i < |raw| => Strip(raw[i]))
  }

  predicate IsNested(loc: string) {
    EndsWith(loc, ".xml")
  }

  /** The page URLs of a sitemap's entries, in order. */
  function Leaves(locs: seq<string>): (r: seq<string>)
    ensures forall x | x in r :: x in locs && !IsNested(x)
    ensures forall x | x in locs && !IsNested(x) :: x in r
  {
    if locs == [] then []
    else
      var last := locs[|locs| - 1];
      assert forall x | x in locs :: x == last || x in locs[..|locs| - 1];
      Leaves(locs[..|locs| - 1]) + (if IsNested(last) then [] else [last])
  }

  /** The nested sitemaps of a sitemap's entries, in order. */
  function Children(locs: seq<string>): (r: seq<string>)
    ensures forall x | x in r :: x in locs && IsNested(x)
    ensures forall x | x in locs && IsNested(x) :: x in r
  {
    if locs == [] then []
    else
      var last := locs[|locs| - 1];
      assert forall x | x in locs :: x == last || x in locs[..|locs| - 1];
      Children(locs[..|locs| - 1]) + (if IsNested(last) then [last] else [])
  }

  /** Every entry is either a page URL or a nested sitemap, never both and
      never neither: the two lists split the entries between them. */
  lemma {:induction false} EntriesSplit(locs: seq<string>)
    ensures |Leaves(locs)| + |Children(locs)| == |locs|
  {
    if locs != [] {
      EntriesSplit(locs[..|locs| - 1]);
    }
  }

  /** A list of nested sitemaps has no page entry and is all recursed into. */
  lemma {:induction false} NestedOnly(locs: seq<string>)
    requires forall i | 0 <= i < |locs| :: IsNested(locs[i])
    ensures Leaves(locs) == [] && Children(locs) == locs
  {
    if locs != [] {
      var prefix := locs[..|locs| - 1];
      var last := locs[|locs| - 1];
      NestedOnly(prefix);
      assert IsNested(last);
      assert Leaves(locs) == Leaves(prefix);
      assert Children(locs) == Children(prefix) + [last];
      assert prefix + [last] == locs;
    }
  }

  /** The nested sitemaps listed by `locs` that can be fetched all have a
      rank below `bound`. */
  ghost predicate Below(sitemaps: map<string, seq<string>>, rank: map<string, nat>, locs: seq<string>, bound: nat) {
    forall c | c in locs && IsNested(c) && c in sitemaps :: c in rank && rank[c] < bound
  }

  /** Every fetchable sitemap has a rank larger than those of the nested
      sitemaps it lists: the sitemap graph has no cycle. The resolver has no
      guard of its own against one. */
  ghost predicate RankedBy(sitemaps: map<string, seq<string>>, rank: map<string, nat>) {
    forall u | u in sitemaps :: u in rank && Below(sitemaps, rank, Stripped(sitemaps[u]), rank[u])
  }

  /** The sitemap resolver and its cache. `sitemaps` holds, for every sitemap
      URL that fetches with a non-empty body, the raw text of its `<loc>`
      elements in document order; any other URL fetches as nothing. */
  class Resolver {
    const sitemaps: map<string, seq<string>>
    ghost const rank: map<string, nat>
    /** `cached_sitemaps`. */
    var cache: map<string, seq<string>>
    /** The sitemap URLs fetched so far, in the order of their fetches. */
    var fetched: seq<string>

    ghost predicate Ranked() {
      RankedBy(sitemaps, rank)
    }

    /** Every cached entry holds what resolving its sitemap gives, and was
        fetched. */
    ghost predicate Valid()
      reads this
    {
      Ranked() && Consistent(cache, fetched)
    }

    ghost predicate Consistent(cache: map<string, seq<string>>, fetched: seq<string>)
      requires Ranked()
    {
      && (forall k | k in cache :: cache[k] == Resolve(k))
      && (forall k | k in cache :: k in fetched)
    }

    /** Logging a fetch and caching its resolution keeps the cache
        consistent. */
    lemma StoreKeepsConsistent(cache: map<string, seq<string>>, fetched: seq<string>, u: string)
      requires Ranked() && Consistent(cache, fetched) && u in fetched
      ensures Consistent(cache[u := Resolve(u)], fetched)
    {
    }

    ghost function RankOf(u: string): nat
      requires Ranked()
    {
      if u in sitemaps then rank[u] + 1 else 0
    }

    /** All page URLs reachable from sitemap `u`: its own page entries, then
        those of each nested sitemap in turn. No entry is a sitemap, and
        every entry is stripped. */
    ghost function Resolve(u: string): (r: seq<string>)
      requires Ranked()
      ensures forall x | x in r :: !IsNested(x)
      decreases RankOf(u), 0, 0
    {
      if u in sitemaps then ParseLocs(Stripped(sitemaps[u]), rank[u]) else []
    }

    ghost function ParseLocs(locs: seq<string>, bound: nat): (r: seq<string>)
      requires Ranked() && Below(sitemaps, rank, locs, bound)
      ensures forall x | x in r :: !IsNested(x)
      decreases bound, 2, 0
    {
      Leaves(locs) + ResolveAll(Children(locs), bound)
    }

    ghost function ResolveAll(cs: seq<string>, bound: nat): (r: seq<string>)
      requires Ranked() && Below(sitemaps, rank, cs, bound)
      requires forall c | c in cs :: IsNested(c)
      ensures forall x | x in r :: !IsNested(x)
      decreases bound, 1, |cs|
    {
      if cs == [] then []
      else
        assert forall c | c in cs[..|cs| - 1] :: c in cs;
        ResolveAll(cs[..|cs| - 1], bound) + Resolve(cs[|cs| - 1])
    }

    lemma ResolveAllStep(cs: seq<string>, i: nat, bound: nat)
      requires Ranked() && Below(sitemaps, rank, cs, bound)
      requires forall c | c in cs :: IsNested(c)
      requires i < |cs|
      ensures Below(sitemaps, rank, cs[..i + 1], bound)
      ensures ResolveAll(cs[..i + 1], bound) == ResolveAll(cs[..i], bound) + Resolve(cs[i])
    {
      assert cs[..i + 1][..i] == cs[..i];
      assert forall c | c in cs[..i + 1] :: c in cs;
    }

    /** A URL comes out of the nested sitemaps exactly when one of them
        yields it. */
    lemma {:induction false} ResolveAllIff(cs: seq<string>, bound: nat, x: string)
      requires Ranked() && Below(sitemaps, rank, cs, bound)
      requires forall c | c in cs :: IsNested(c)
      ensures x in ResolveAll(cs, bound) <==> exists c | c in cs :: x in Resolve(c)
    {
      if cs != [] {
        var prefix := cs[..|cs| - 1];
        assert forall c | c in prefix :: c in cs;
        ResolveAllIff(prefix, bound, x);
        assert cs == prefix + [cs[|cs| - 1]];
        assert forall c | c in cs :: c in prefix || c == cs[|cs| - 1];
      }
    }

    /** Repeats are not removed: a sitemap that lists the same nested sitemap
        twice yields that sitemap's URLs twice, one copy after the other. */
    lemma ListedTwiceYieldsTwice(c: string, bound: nat)
      requires Ranked() && IsNested(c) && Below(sitemaps, rank, [c, c], bound)
      ensures ParseLocs([c, c], bound) == Resolve(c) + Resolve(c)
    {
      NestedOnly([c, c]);
      assert [c, c][..1] == [c];
      assert [c][..0] == [];
      assert ResolveAll([c], bound) == Resolve(c);
    }

    constructor(sitemaps: map<string, seq<string>>, ghost rank: map<string, nat>)
      requires RankedBy(sitemaps, rank)
      ensures Valid() && cache == map[] && fetched == []
      ensures this.sitemaps == sitemaps && this.rank == rank
    {
      this.sitemaps := sitemaps;
      this.rank := rank;
      cache := map[];
      fetched := [];
    }

    /** `fetch_and_parse_sitemap(u)`: answers from the cache when it can;
        otherwise fetches `u` once, resolves it, and caches the answer (the
        empty list when the fetch gives nothing). Entries already cached are
        never changed. */
    method FetchAndParse(u: string) returns (urls: seq<string>)
      requires Valid()
      modifies this
      ensures Valid()
      ensures urls == Resolve(u) && u in cache
      ensures forall k | k in old(cache) :: k in cache && cache[k] == old(cache)[k]
      ensures u in old(cache) ==> cache == old(cache) && fetched == old(fetched)
      ensures u !in old(cache) ==> |fetched| > |old(fetched)| && fetched[|old(fetched)|] == u
      ensures |old(fetched)| <= |fetched| && fetched[..|old(fetched)|] == old(fetched)
      decreases RankOf(u), 0
    {
      if u !in cache {
        fetched := fetched + [u];
        ghost var logged := fetched;
        var parsed := [];
        if u in sitemaps {
          parsed := ParseSitemapUrls(sitemaps[u], rank[u]);
        }
        assert fetched[..|logged|] == logged;
        assert fetched[|logged| - 1] == logged[|logged| - 1] == u;
        assert fetched[..|old(fetched)|] == logged[..|old(fetched)|] == old(fetched);
        StoreKeepsConsistent(cache, fetched, u);
        cache := cache[u := parsed];
      }
      urls := cache[u];
    }

    /** `parse_sitemap_urls`: page entries first, in order, then the
        resolution of each nested sitemap, in the order they are listed. */
    method ParseSitemapUrls(raw: seq<string>, ghost bound: nat) returns (urls: seq<string>)
      requires Valid() && Below(sitemaps, rank, Stripped(raw), bound)
      modifies this
      ensures Valid()
      ensures urls == ParseLocs(Stripped(raw), bound)
      ensures forall k | k in old(cache) :: k in cache && cache[k] == old(cache)[k]
      ensures |old(fetched)| <= |fetched| && fetched[..|old(fetched)|] == old(fetched)
      decreases bound, 2
    {
      var locs := Stripped(raw);
      urls := [];
      var tasks := [];
      for i := 0 to |locs|
        invariant urls == Leaves(locs[..i]) && tasks == Children(locs[..i])
      {
        assert locs[..i + 1][..i] == locs[..i];
        if IsNested(locs[i]) {
          tasks := tasks + [locs[i]];
        } else {
          urls := urls + [locs[i]];
        }
      }
      assert locs[..|locs|] == locs;
      assert Below(sitemaps, rank, tasks, bound);
      var nested := Gather(tasks, bound);
      urls := urls + nested;
    }

    /** `asyncio.gather` over the nested sitemaps, its results concatenated
        in the order the sitemaps are listed. The tasks run one after another
        here. */
    method Gather(tasks: seq<string>, ghost bound: nat) returns (urls: seq<string>)
      requires Valid() && Below(sitemaps, rank, tasks, bound)
      requires forall c | c in tasks :: IsNested(c)
      modifies this
      ensures Valid()
      ensures urls == ResolveAll(tasks, bound)
      ensures forall k | k in old(cache) :: k in cache && cache[k] == old(cache)[k]
      ensures |old(fetched)| <= |fetched| && fetched[..|old(fetched)|] == old(fetched)
      decreases bound, 1
    {
      urls := [];
      for i := 0 to |tasks|
        invariant Valid()
        invariant urls == ResolveAll(tasks[..i], bound)
        invariant forall k | k in old(cache) :: k in cache && cache[k] == old(cache)[k]
        invariant |old(fetched)| <= |fetched| && fetched[..|old(fetched)|] == old(fetched)
      {
        ResolveAllStep(tasks, i, bound);
        var sub := FetchAndParse(tasks[i]);
        urls := urls + sub;
      }
      assert tasks[..|tasks|] == tasks;
    }
  }
}
