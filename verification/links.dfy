/** The link extractor (`extract_links`): every URL a fetched page points
    at, resolved against the page's own URL and kept only when its scheme is
    http or https. */
module Links {
  import opened Text
  import opened Markup
  import opened Urls

  // ---------------------------------------------------------------------
  // Link attributes

  /** The tags whose link attributes are followed, in the order they are scanned. */
  const LinkTags: seq<string> := ["a", "link", "script", "img", "iframe", "form", "area", "object"]

  /** `link.get('src', link.get('href', link.get('action', link.get('data'))))`:
      the first of these attributes the element has. It is only asked of
      elements found by one of the four attributes, so "" is never used. */
  function Target(e: Element): string {
    if "src" in e.attrs then e.attrs["src"]
    else if "href" in e.attrs then e.attrs["href"]
    else if "action" in e.attrs then e.attrs["action"]
    else Get(e, "data", "")
  }

  /** `soup.find_all(tag, attr=True)`: the elements with that tag carrying
      that attribute, in document order. */
  function WithAttr(page: Page, tag: string, attr: string): (found: seq<Element>)
    ensures forall e | e in found :: e in page && e.tag == tag && attr in e.attrs
    ensures forall e | e in page && e.tag == tag && attr in e.attrs :: e in found
  {
    if page == [] then []
    else
      var last := page[|page| - 1];
      assert forall e | e in page :: e == last || e in page[..|page| - 1];
      WithAttr(page[..|page| - 1], tag, attr) + (if last.tag == tag && attr in last.attrs then [last] else [])
  }

  function Targets(es: seq<Element>): (vs: seq<string>)
    ensures |vs| == |es|
  {
    seq(|es|, i requires 0 <= i < |es| => Target(es[i]))
  }

  /** The raw link values one tag contributes: its elements with `src`, then
      those with `href`, with `action`, with `data`; an element appears once
      for each of these attributes it has, always with its preferred value. */
  function TagTargets(page: Page, tag: string): seq<string> {
    Targets(WithAttr(page, tag, "src") + WithAttr(page, tag, "href")
            + WithAttr(page, tag, "action") + WithAttr(page, tag, "data"))
  }

  /** The raw values of the tags in `tags`, tag by tag. */
  function AttrTargets(page: Page, tags: seq<string>): seq<string> {
    if tags == [] then []
    else AttrTargets(page, tags[..|tags| - 1]) + TagTargets(page, tags[|tags| - 1])
  }

  /** How many of the four link attributes `e` carries. */
  function LinkAttrCount(e: Element): nat {
    (if "src" in e.attrs then 1 else 0) + (if "href" in e.attrs then 1 else 0)
    + (if "action" in e.attrs then 1 else 0) + (if "data" in e.attrs then 1 else 0)
  }

  function Repeat(v: string, n: nat): (r: seq<string>)
    ensures |r| == n && forall x | x in r :: x == v
  {
    seq(n, _ => v)
  }

  function Occurrences(tag: string, tags: seq<string>): nat {
    if tags == [] then 0
    else Occurrences(tag, tags[..|tags| - 1]) + (if tags[|tags| - 1] == tag then 1 else 0)
  }

  lemma WithAttrOfOne(e: Element, tag: string, attr: string)
    ensures WithAttr([e], tag, attr) == if e.tag == tag && attr in e.attrs then [e] else []
  {
    assert [e][..0] == [];
  }

  lemma TargetsOfCopies(e: Element, es: seq<Element>)
    requires forall x | x in es :: x == e
    ensures Targets(es) == Repeat(Target(e), |es|)
  {
    forall i | 0 <= i < |es| ensures Targets(es)[i] == Target(e) {
      assert es[i] in es;
    }
  }

  lemma TagTargetsOfOne(e: Element, tag: string)
    ensures TagTargets([e], tag) == if e.tag == tag then Repeat(Target(e), LinkAttrCount(e)) else []
  {
    WithAttrOfOne(e, tag, "src");
    WithAttrOfOne(e, tag, "href");
    WithAttrOfOne(e, tag, "action");
    WithAttrOfOne(e, tag, "data");
    var es := WithAttr([e], tag, "src") + WithAttr([e], tag, "href")
              + WithAttr([e], tag, "action") + WithAttr([e], tag, "data");
    if e.tag == tag {
      assert |es| == LinkAttrCount(e);
    } else {
      assert es == [];
    }
    TargetsOfCopies(e, es);
  }

  lemma RepeatAppend(v: string, m: nat, n: nat)
    ensures Repeat(v, m) + Repeat(v, n) == Repeat(v, m + n)
  {
  }

  /** On a page made of one element, the scan over `tags` lists the element
      once per link attribute it carries, for every time its tag is scanned,
      and each time with its preferred value. */
  lemma {:induction false} ElementListedPerAttribute(e: Element, tags: seq<string>)
    ensures AttrTargets([e], tags) == Repeat(Target(e), Occurrences(e.tag, tags) * LinkAttrCount(e))
  {
    if tags == [] {
      assert Repeat(Target(e), 0) == [];
    } else {
      var prefix := tags[..|tags| - 1];
      var last := tags[|tags| - 1];
      ElementListedPerAttribute(e, prefix);
      TagTargetsOfOne(e, last);
      var o := Occurrences(e.tag, prefix);
      var k := LinkAttrCount(e);
      assert AttrTargets([e], tags) == Repeat(Target(e), o * k) + TagTargets([e], last);
      if last == e.tag {
        RepeatAppend(Target(e), o * k, k);
        MultiplyStep(o, k);
      } else {
        assert Repeat(Target(e), o * k) + [] == Repeat(Target(e), o * k);
      }
    }
  }

  lemma MultiplyStep(o: nat, k: nat)
    ensures (o + 1) * k == o * k + k
  {
  }

  lemma {:induction false} OccursOnce(x: string, tags: seq<string>)
    requires x in tags
    requires forall i, j | 0 <= i < j < |tags| :: tags[i] != tags[j]
    ensures Occurrences(x, tags) == 1
  {
    var prefix := tags[..|tags| - 1];
    if tags[|tags| - 1] == x {
      OccursNot(x, prefix);
    } else {
      assert x in prefix;
      OccursOnce(x, prefix);
    }
  }

  lemma {:induction false} OccursNot(x: string, tags: seq<string>)
    requires x !in tags
    ensures Occurrences(x, tags) == 0
  {
    if tags != [] {
      OccursNot(x, tags[..|tags| - 1]);
    }
  }

  lemma LinkTagsDistinct()
    ensures forall i, j | 0 <= i < j < |LinkTags| :: LinkTags[i] != LinkTags[j]
  {
  }

  /** The tags scanned are distinct, so a linking element is listed exactly
      once per link attribute it carries. */
  lemma LinkingElementListed(e: Element)
    requires e.tag in LinkTags
    ensures AttrTargets([e], LinkTags) == Repeat(Target(e), LinkAttrCount(e))
  {
    var tags := LinkTags;
    LinkTagsDistinct();
    OccursOnce(e.tag, tags);
    ElementListedPerAttribute(e, tags);
    assert 1 * LinkAttrCount(e) == LinkAttrCount(e);
  }

  /** What one element adds to the link-attribute scan: its preferred value
      once per link attribute it carries, when its tag is a link tag. */
  function Listing(e: Element): multiset<string> {
    if e.tag in LinkTags then multiset(Repeat(Target(e), LinkAttrCount(e))) else multiset{}
  }

  /** The elements' contributions, summed over the page. */
  function PageListing(page: Page): multiset<string> {
    if page == [] then multiset{}
    else PageListing(page[..|page| - 1]) + Listing(page[|page| - 1])
  }

  lemma WithAttrAppend(page: Page, e: Element, tag: string, attr: string)
    ensures WithAttr(page + [e], tag, attr) == WithAttr(page, tag, attr) + WithAttr([e], tag, attr)
  {
    assert (page + [e])[..|page|] == page;
    WithAttrOfOne(e, tag, attr);
  }

  lemma TargetsAppend(x: seq<Element>, y: seq<Element>)
    ensures Targets(x + y) == Targets(x) + Targets(y)
  {
    var l, r := Targets(x + y), Targets(x) + Targets(y);
    forall i | 0 <= i < |l| ensures l[i] == r[i] {
      if i < |x| {
        assert (x + y)[i] == x[i];
      } else {
        assert (x + y)[i] == y[i - |x|];
      }
    }
  }

  /** Four concatenations regrouped: the multiset only counts. */
  lemma RegroupFour(a: seq<string>, b: seq<string>, c: seq<string>, d: seq<string>,
                    a': seq<string>, b': seq<string>, c': seq<string>, d': seq<string>)
    ensures multiset((a + a') + (b + b') + (c + c') + (d + d'))
         == multiset(a + b + c + d) + multiset(a' + b' + c' + d')
  {
  }

  lemma TagTargetsAppend(page: Page, e: Element, tag: string)
    ensures multiset(TagTargets(page + [e], tag))
         == multiset(TagTargets(page, tag)) + multiset(TagTargets([e], tag))
  {
    var p := page + [e];
    WithAttrAppend(page, e, tag, "src");
    WithAttrAppend(page, e, tag, "href");
    WithAttrAppend(page, e, tag, "action");
    WithAttrAppend(page, e, tag, "data");
    var a, b, c, d := WithAttr(page, tag, "src"), WithAttr(page, tag, "href"),
                      WithAttr(page, tag, "action"), WithAttr(page, tag, "data");
    var a', b', c', d' := WithAttr([e], tag, "src"), WithAttr([e], tag, "href"),
                          WithAttr([e], tag, "action"), WithAttr([e], tag, "data");
    TargetsAppend(a + a', b + b');
    TargetsAppend(a + a' + (b + b'), c + c');
    TargetsAppend(a + a' + (b + b') + (c + c'), d + d');
    TargetsAppend(a, a');
    TargetsAppend(b, b');
    TargetsAppend(c, c');
    TargetsAppend(d, d');
    TargetsAppend(a, b);
    TargetsAppend(a + b, c);
    TargetsAppend(a + b + c, d);
    TargetsAppend(a', b');
    TargetsAppend(a' + b', c');
    TargetsAppend(a' + b' + c', d');
    RegroupFour(Targets(a), Targets(b), Targets(c), Targets(d),
                Targets(a'), Targets(b'), Targets(c'), Targets(d'));
  }

  lemma {:induction false} AttrTargetsAppend(page: Page, e: Element, tags: seq<string>)
    ensures multiset(AttrTargets(page + [e], tags))
         == multiset(AttrTargets(page, tags)) + multiset(AttrTargets([e], tags))
  {
    if tags != [] {
      AttrTargetsAppend(page, e, tags[..|tags| - 1]);
      TagTargetsAppend(page, e, tags[|tags| - 1]);
    }
  }

  lemma {:induction false} NothingListed(tags: seq<string>)
    ensures AttrTargets([], tags) == []
  {
    if tags != [] {
      NothingListed(tags[..|tags| - 1]);
    }
  }

  /** On a whole page the scan lists every element of a link tag once per
      link attribute it carries, with its preferred value, and lists nothing
      else: the values found are, with their multiplicities, the sum of the
      elements' contributions. */
  lemma {:induction false} LinkAttributesListed(page: Page)
    ensures multiset(AttrTargets(page, LinkTags)) == PageListing(page)
  {
    if page == [] {
      NothingListed(LinkTags);
    } else {
      var p, e := page[..|page| - 1], page[|page| - 1];
      assert page == p + [e];
      LinkAttributesListed(p);
      AttrTargetsAppend(p, e, LinkTags);
      if e.tag in LinkTags {
        LinkingElementListed(e);
      } else {
        OccursNot(e.tag, LinkTags);
        ElementListedPerAttribute(e, LinkTags);
        assert Occurrences(e.tag, LinkTags) * LinkAttrCount(e) == 0;
        assert AttrTargets([e], LinkTags) == [];
      }
      assert multiset(AttrTargets([e], LinkTags)) == Listing(e);
      assert PageListing(page) == PageListing(p) + Listing(e);
    }
  }

  lemma {:induction false} PageListingIff(page: Page, v: string)
    ensures v in PageListing(page)
        <==> exists e | e in page :: e.tag in LinkTags && LinkAttrCount(e) > 0 && Target(e) == v
  {
    if page != [] {
      var p, e := page[..|page| - 1], page[|page| - 1];
      PageListingIff(p, v);
      assert page == p + [e];
      var r := Repeat(Target(e), LinkAttrCount(e));
      if e.tag in LinkTags && LinkAttrCount(e) > 0 {
        assert r[0] in r;
      }
      if v in Listing(e) {
        assert e.tag in LinkTags && LinkAttrCount(e) > 0 && Target(e) == v;
      }
      if exists x | x in page :: x.tag in LinkTags && LinkAttrCount(x) > 0 && Target(x) == v {
        var x :| x in page && x.tag in LinkTags && LinkAttrCount(x) > 0 && Target(x) == v;
        if x != e {
          assert x in p;
        }
      }
    }
  }

  /** A value is among the page's link-attribute values exactly when some
      element of a link tag carries a link attribute and prefers that value. */
  lemma PageTargetsIff(page: Page, v: string)
    ensures v in AttrTargets(page, LinkTags)
        <==> exists e | e in page :: e.tag in LinkTags && LinkAttrCount(e) > 0 && Target(e) == v
  {
    LinkAttributesListed(page);
    PageListingIff(page, v);
  }

  // ---------------------------------------------------------------------
  // Meta refresh

  /** The end of the run of non-whitespace characters starting at `i`. */
  function NonSpaceEnd(s: string, i: nat): (j: nat)
    requires i <= |s|
    ensures i <= j <= |s|
    ensures forall k | i <= k < j :: !IsSpace(s[k])
    ensures j < |s| ==> IsSpace(s[j])
    decreases |s| - i
  {
    if i == |s| || IsSpace(s[i]) then i else NonSpaceEnd(s, i + 1)
  }

  /** `re.compile('URL=')` used as an attribute filter: the value contains "URL=". */
  predicate IsRefresh(e: Element) {
    e.tag == "meta" && "http-equiv" in e.attrs && e.attrs["http-equiv"] == "refresh"
    && "content" in e.attrs && HasInfix(e.attrs["content"], "URL=")
  }

  /** `soup.find(...)`: the first meta refresh element of the page, in
      document order. */
  function FirstRefresh(page: Page): (r: Option<Element>)
    ensures r.Some? ==> exists i | 0 <= i < |page| :: page[i] == r.value && IsRefresh(page[i])
                          && forall j | 0 <= j < i :: !IsRefresh(page[j])
    ensures r.None? <==> forall e | e in page :: !IsRefresh(e)
  {
    var i := RefreshIndex(page, 0);
    if i < |page| then Some(page[i]) else None
  }

  /** The index of the first meta refresh element at or after `from`, or
      `|page|` when there is none. */
  function RefreshIndex(page: Page, from: nat): (i: nat)
    requires from <= |page|
    ensures from <= i <= |page|
    ensures forall j | from <= j < i :: !IsRefresh(page[j])
    ensures i < |page| ==> IsRefresh(page[i])
    decreases |page| - from
  {
    if from == |page| || IsRefresh(page[from]) then from else RefreshIndex(page, from + 1)
  }

  /** "url=" followed by a non-whitespace character at position `i`. */
  predicate UrlAt(s: string, i: nat) {
    i + 4 < |s| && s[i..i + 4] == "url=" && !IsSpace(s[i + 4])
  }

  /** The leftmost position at or after `from` where `UrlAt` holds, or `|s|`. */
  function UrlIndex(s: string, from: nat): (i: nat)
    requires from <= |s|
    ensures from <= i <= |s|
    ensures forall k: nat | from <= k < i :: !UrlAt(s, k)
    ensures i < |s| ==> UrlAt(s, i)
    decreases |s| - from
  {
    if from == |s| || UrlAt(s, from) then from else UrlIndex(s, from + 1)
  }

  /** `re.search('url=([^\s]+)', s).group(1)`: the maximal non-whitespace
      run after the leftmost "url=" that has one; the search fails exactly
      when no "url=" is followed by a non-space. */
  function UrlSearch(s: string): (r: Option<string>)
    ensures r.Some? ==> r.value != [] && forall k | 0 <= k < |r.value| :: !IsSpace(r.value[k])
    ensures r.Some? ==> exists i: nat | UrlAt(s, i) ::
                          (forall k: nat | k < i :: !UrlAt(s, k))
                          && r.value == s[i + 4..NonSpaceEnd(s, i + 4)]
    ensures r.None? <==> forall i: nat | i < |s| :: !UrlAt(s, i)
  {
    var i := UrlIndex(s, 0);
    if i < |s| then Some(s[i + 4..NonSpaceEnd(s, i + 4)]) else None
  }

  /** The redirect target of the first meta refresh, read from its content
      after lower-casing. */
  function RefreshTarget(page: Page): Option<string> {
    match FirstRefresh(page)
    case None => None
    case Some(m) => UrlSearch(Lower(m.attrs["content"]))
  }

  /** Lower-casing the whole content first means the redirect target never
      holds an upper-case letter, whatever the page wrote. */
  lemma RefreshTargetLowerCase(page: Page)
    ensures RefreshTarget(page).Some? ==> forall c | c in RefreshTarget(page).value :: !IsUpper(c)
  {
    if FirstRefresh(page).Some? {
      var s := Lower(FirstRefresh(page).value.attrs["content"]);
      assert forall c | c in s :: !IsUpper(c);
    }
  }

  // ---------------------------------------------------------------------
  // srcset

  /** `' '.join(img.get('srcset', '') for img in soup.find_all('img'))`. */
  function SrcsetText(page: Page): string {
    Join(" ", SrcsetValues(page))
  }

  function SrcsetValues(page: Page): seq<string> {
    if page == [] then []
    else (if page[0].tag == "img" then [Get(page[0], "srcset", "")] else []) + SrcsetValues(page[1..])
  }

  /** The end of the run of digits starting at `i`. */
  function DigitEnd(s: string, i: nat): (j: nat)
    requires i <= |s|
    ensures i <= j <= |s|
    ensures forall k | i <= k < j :: IsDigit(s[k])
    ensures j < |s| ==> !IsDigit(s[j])
    decreases |s| - i
  {
    if i == |s| || !IsDigit(s[i]) then i else DigitEnd(s, i + 1)
  }

  /** `m` is `\S+\s+\d+w` in full: a non-space run of length `a`, a space run
      of length `b`, a digit run of length `c` and a final 'w'. */
  predicate DescriptorShape(m: string, a: nat, b: nat, c: nat) {
    0 < a && 0 < b && 0 < c && |m| == a + b + c + 1 && m[a + b + c] == 'w'
    && (forall k | 0 <= k < a :: !IsSpace(m[k]))
    && (forall k | a <= k < a + b :: IsSpace(m[k]))
    && (forall k | a + b <= k < a + b + c :: IsDigit(m[k]))
  }

  /** The match of `\S+\s+\d+w` at the start of `s`, as its length. Each run
      is taken whole: a shorter run would leave the next part facing a
      character it cannot match, so backtracking finds nothing else, and a
      match is found whenever one exists. */
  function DescriptorAt(s: string): (r: Option<nat>)
    ensures r.Some? ==> r.value <= |s| && exists a: nat, b: nat, c: nat :: DescriptorShape(s[..r.value], a, b, c)
    ensures forall n: nat, a: nat, b: nat, c: nat | n <= |s| && DescriptorShape(s[..n], a, b, c) :: r == Some(n)
  {
    var a := NonSpaceEnd(s, 0);
    var b := SpaceEnd(s, a);
    var c := DigitEnd(s, b);
    ShapesAreRuns(s);
    if 0 < a < b < c < |s| && s[c] == 'w' then
      RunsMakeShape(s, a, b, c);
      Some(c + 1)
    else None
  }

  /** The three runs `s` starts with, ending at `a`, `b` and `c`, none of
      them empty and followed by a 'w', make a shape. */
  lemma RunsMakeShape(s: string, a: nat, b: nat, c: nat)
    requires a == NonSpaceEnd(s, 0) && b == SpaceEnd(s, a) && c == DigitEnd(s, b)
    requires 0 < a < b < c < |s| && s[c] == 'w'
    ensures DescriptorShape(s[..c + 1], a, b - a, c - b)
  {
  }

  /** Every shape at the start of `s` is made of the runs `s` starts with,
      and so ends one past their end. */
  lemma ShapesAreRuns(s: string)
    ensures forall n: nat, a: nat, b: nat, c: nat | n <= |s| && DescriptorShape(s[..n], a, b, c) ::
              var x := NonSpaceEnd(s, 0);
              var y := SpaceEnd(s, x);
              var z := DigitEnd(s, y);
              0 < x < y < z < |s| && s[z] == 'w' && n == z + 1
  {
    forall n: nat, a: nat, b: nat, c: nat | n <= |s| && DescriptorShape(s[..n], a, b, c)
      ensures var x := NonSpaceEnd(s, 0);
              var y := SpaceEnd(s, x);
              var z := DigitEnd(s, y);
              0 < x < y < z < |s| && s[z] == 'w' && n == z + 1
    {
      ShapeRuns(s, n, a, b, c);
    }
  }

  lemma ShapeRuns(s: string, n: nat, a: nat, b: nat, c: nat)
    requires n <= |s| && DescriptorShape(s[..n], a, b, c)
    ensures n == a + b + c + 1 && s[a + b + c] == 'w'
    ensures NonSpaceEnd(s, 0) == a && SpaceEnd(s, a) == a + b && DigitEnd(s, a + b) == a + b + c
  {
    var m := s[..n];
    forall k | 0 <= k < n ensures s[k] == m[k] { }
    NonSpaceEndIs(s, 0, a);
    SpaceEndIs(s, a, a + b);
    DigitEndIs(s, a + b, a + b + c);
  }

  lemma NonSpaceEndIs(s: string, i: nat, j: nat)
    requires i <= j < |s| && IsSpace(s[j]) && forall k | i <= k < j :: !IsSpace(s[k])
    ensures NonSpaceEnd(s, i) == j
  {
  }

  lemma SpaceEndIs(s: string, i: nat, j: nat)
    requires i <= j < |s| && !IsSpace(s[j]) && forall k | i <= k < j :: IsSpace(s[k])
    ensures SpaceEnd(s, i) == j
  {
  }

  lemma DigitEndIs(s: string, i: nat, j: nat)
    requires i <= j < |s| && !IsDigit(s[j]) && forall k | i <= k < j :: IsDigit(s[k])
    ensures DigitEnd(s, i) == j
  {
  }

  /** `re.findall(r'\S+\s+\d+w', s)`: each match is the URL together with
      its width descriptor, and is a piece of `s`. */
  function SrcsetScan(s: string): (ms: seq<string>)
    ensures forall m | m in ms :: exists a: nat, b: nat, c: nat :: DescriptorShape(m, a, b, c)
    ensures forall m | m in ms :: HasInfix(s, m)
    decreases |s|
  {
    if s == [] then []
    else
      match DescriptorAt(s)
      case Some(n) =>
        var rest := SrcsetScan(s[n..]);
        InfixOfSuffix(s, n, rest);
        assert StartsWith(s, s[..n]);
        [s[..n]] + rest
      case None =>
        var rest := SrcsetScan(s[1..]);
        InfixOfSuffix(s, 1, rest);
        rest
  }

  /** What occurs in a suffix of `s` occurs in `s`. */
  lemma InfixOfSuffix(s: string, n: nat, ms: seq<string>)
    requires n <= |s|
    requires forall m | m in ms :: HasInfix(s[n..], m)
    ensures forall m | m in ms :: HasInfix(s, m)
  {
    forall m | m in ms ensures HasInfix(s, m) {
      SuffixInfix(s, n, m);
    }
  }

  /** The scan finds nothing exactly when no position of `s` starts a
      match, `DescriptorAt` deciding each position. */
  lemma {:induction false} SrcsetScanEmptyIff(s: string)
    ensures SrcsetScan(s) == [] <==> forall i | 0 <= i < |s| :: DescriptorAt(s[i..]).None?
    decreases |s|
  {
    if s != [] {
      NoDescriptorSplit(s);
      if DescriptorAt(s).None? {
        SrcsetScanEmptyIff(s[1..]);
      }
    }
  }

  /** No position of `s` starts a match exactly when its first position
      does not and no position of its tail does. */
  lemma NoDescriptorSplit(s: string)
    requires s != []
    ensures (forall i | 0 <= i < |s| :: DescriptorAt(s[i..]).None?)
        <==> DescriptorAt(s).None? && forall i | 0 <= i < |s| - 1 :: DescriptorAt(s[1..][i..]).None?
  {
    if forall i | 0 <= i < |s| :: DescriptorAt(s[i..]).None? {
      assert DescriptorAt(s[0..]).None?;
      assert s[0..] == s;
      forall i | 0 <= i < |s| - 1 ensures DescriptorAt(s[1..][i..]).None? {
        assert s[1..][i..] == s[i + 1..];
      }
    }
    if DescriptorAt(s).None? && forall i | 0 <= i < |s| - 1 :: DescriptorAt(s[1..][i..]).None? {
      forall i | 0 <= i < |s| ensures DescriptorAt(s[i..]).None? {
        if i == 0 {
          assert s[0..] == s;
        } else {
          assert s[i..] == s[1..][i - 1..];
        }
      }
    }
  }

  // ---------------------------------------------------------------------
  // The whole page

  /** Every raw link value of the page, in the order the extractor appends
      them: link attributes tag by tag, the meta refresh target, the srcset
      matches. */
  function RawTargets(page: Page): seq<string> {
    AttrTargets(page, LinkTags)
    + (match RefreshTarget(page) case Some(t) => [t] case None => [])
    + SrcsetScan(SrcsetText(page))
  }

  /** `f` applied to every element, in order. */
  function Map(f: string -> string, vs: seq<string>): (r: seq<string>)
    ensures |r| == |vs| && forall i | 0 <= i < |vs| :: r[i] == f(vs[i])
  {
    seq(|vs|, i requires 0 <= i < |vs| => f(vs[i]))
  }

  lemma MapAppend(f: string -> string, x: seq<string>, y: seq<string>)
    ensures Map(f, x + y) == Map(f, x) + Map(f, y)
  {
    var l, r := Map(f, x + y), Map(f, x) + Map(f, y);
    forall i | 0 <= i < |l| ensures l[i] == r[i] {
      if i < |x| {
        assert (x + y)[i] == x[i];
      } else {
        assert (x + y)[i] == y[i - |x|];
      }
    }
  }

  /** `[urljoin(base, v) for v in vs]`. */
  function JoinAll(base: string, vs: seq<string>): (r: seq<string>)
    ensures |r| == |vs|
  {
    Map(v => UrlJoin(base, v), vs)
  }

  lemma JoinAllAppend(base: string, x: seq<string>, y: seq<string>)
    ensures JoinAll(base, x + y) == JoinAll(base, x) + JoinAll(base, y)
  {
    MapAppend(v => UrlJoin(base, v), x, y);
  }

  predicate IsWeb(link: string) {
    Parse(link).scheme in {"http", "https"}
  }

  /** `[link for link in links if urlparse(link).scheme in ['http', 'https']]`. */
  function WebOnly(links: seq<string>): (r: seq<string>)
    ensures forall l | l in r :: l in links && IsWeb(l)
  {
    if links == [] then []
    else (if IsWeb(links[0]) then [links[0]] else []) + WebOnly(links[1..])
  }

  /** The filter keeps exactly the http and https links. */
  lemma {:induction false} WebOnlyIff(links: seq<string>, l: string)
    ensures l in WebOnly(links) <==> l in links && IsWeb(l)
  {
    if links != [] {
      WebOnlyIff(links[1..], l);
      assert l in links <==> l == links[0] || l in links[1..];
    }
  }

  /** What `extract_links` returns for a page fetched from `url`. */
  function PageLinks(url: string, page: Page): seq<string> {
    WebOnly(JoinAll(url, RawTargets(page)))
  }

  /** `extract_links` after the fetch: one pass per link tag, then the meta
      refresh, then srcset, then the scheme filter. */
  method ExtractLinks(url: string, page: Page) returns (links: seq<string>)
    ensures links == PageLinks(url, page)
  {
    links := [];
    for i := 0 to |LinkTags|
      invariant links == JoinAll(url, AttrTargets(page, LinkTags[..i]))
    {
      assert LinkTags[..i + 1][..i] == LinkTags[..i];
      assert AttrTargets(page, LinkTags[..i + 1]) == AttrTargets(page, LinkTags[..i]) + TagTargets(page, LinkTags[i]);
      JoinAllAppend(url, AttrTargets(page, LinkTags[..i]), TagTargets(page, LinkTags[i]));
      links := links + JoinAll(url, TagTargets(page, LinkTags[i]));
    }
    assert LinkTags[..|LinkTags|] == LinkTags;
    var refresh := match RefreshTarget(page) case Some(t) => [t] case None => [];
    var srcset := SrcsetScan(SrcsetText(page));
    JoinAllAppend(url, AttrTargets(page, LinkTags), refresh);
    JoinAllAppend(url, AttrTargets(page, LinkTags) + refresh, srcset);
    // the redirect target, when there is one, resolved like the rest
    links := links + JoinAll(url, refresh);
    links := links + JoinAll(url, srcset);
    assert RawTargets(page) == AttrTargets(page, LinkTags) + refresh + srcset;
    links := WebOnly(links);
  }

  /** The extractor returns exactly the page's raw values resolved against
      the page's URL whose scheme is http or https. */
  lemma PageLinksIff(url: string, page: Page, l: string)
    ensures l in PageLinks(url, page) <==> IsWeb(l) && l in JoinAll(url, RawTargets(page))
  {
    WebOnlyIff(JoinAll(url, RawTargets(page)), l);
  }
}
