/** The parameter synthesizer (`extract_parameters`): from the anchors and
    forms of a fetched page it builds candidate URLs `url?k1=v1&k2=v2...`,
    always on the page's own URL. */
module Parameters {
  import opened Text
  import opened Markup

  type Pair = (string, string)

  // ---------------------------------------------------------------------
  // The href scan: re.findall(r'\?([^=&]+)=([^&]+)', href)

  /** A pair the pattern can capture: a non-empty key without '=' or '&', and
      a non-empty value without '&'. */
  predicate ValidPair(p: Pair) {
    p.0 != "" && '=' !in p.0 && '&' !in p.0 && p.1 != "" && '&' !in p.1
  }

  /** The pattern matched at the start of `s`: '?', then the longest run of
      key characters, which must be followed by '=', then the longest run of
      value characters. The result is the captured pair and the length of the
      match. Since neither run can be followed by one of its own characters,
      the regex engine cannot find a different match by backtracking. */
  function MatchAt(s: string): (r: Option<(Pair, nat)>)
    ensures r.Some? ==> ValidPair(r.value.0) && 3 <= r.value.1 <= |s|
    ensures r.Some? ==> s[..r.value.1] == "?" + r.value.0.0 + "=" + r.value.0.1
    ensures r.Some? ==> r.value.1 == |s| || s[r.value.1] == '&'
    ensures forall j: nat, l: nat | PairAt(s, 0, j, l) :: r.Some?
  {
    PairAtStartRuns(s);
    if s == [] || s[0] != '?' then None
    else
      var k := FirstIn(s[1..], {'=', '&'});
      if k == 0 || 1 + k >= |s| || s[1 + k] != '=' then None
      else
        var v := FirstIn(s[2 + k..], {'&'});
        if v == 0 then None
        else
          var key, value := s[1..1 + k], s[2 + k..2 + k + v];
          assert s[..2 + k + v] == "?" + key + "=" + value;
          Some(((key, value), 2 + k + v))
  }

  /** `re.findall` with the pattern above: the captured pairs, scanning left
      to right and resuming after each match. */
  function Scan(s: string): (pairs: seq<Pair>)
    ensures forall p | p in pairs :: ValidPair(p)
    ensures forall p | p in pairs :: HasInfix(s, "?" + p.0 + "=" + p.1)
    decreases |s|
  {
    if s == [] then []
    else
      match MatchAt(s)
      case Some((pair, n)) =>
        var rest := Scan(s[n..]);
        PairsOfSuffix(s, n, rest);
        assert StartsWith(s, "?" + pair.0 + "=" + pair.1);
        [pair] + rest
      case None =>
        var rest := Scan(s[1..]);
        PairsOfSuffix(s, 1, rest);
        rest
  }

  /** A pair text that occurs in a suffix of `s` occurs in `s`. */
  lemma PairsOfSuffix(s: string, n: nat, pairs: seq<Pair>)
    requires n <= |s|
    requires forall p | p in pairs :: HasInfix(s[n..], "?" + p.0 + "=" + p.1)
    ensures forall p | p in pairs :: HasInfix(s, "?" + p.0 + "=" + p.1)
  {
    forall p | p in pairs ensures HasInfix(s, "?" + p.0 + "=" + p.1) {
      SuffixInfix(s, n, "?" + p.0 + "=" + p.1);
    }
  }

  /** An occurrence of the pattern anywhere in `s`: '?' at `i`, '=' at `j`,
      the match ending at `l`. */
  predicate PairAt(s: string, i: nat, j: nat, l: nat) {
    i + 1 < j && j + 1 < l <= |s| && s[i] == '?' && s[j] == '='
    && (forall k | i < k < j :: s[k] != '=' && s[k] != '&')
    && (forall k | j < k < l :: s[k] != '&')
  }

  ghost predicate HasPair(s: string) {
    exists i: nat, j: nat, l: nat :: PairAt(s, i, j, l)
  }

  /** An occurrence at the start fixes the key run `MatchAt` measures and
      leaves a non-empty value run after it. */
  lemma PairAtStartRuns(s: string)
    ensures forall j: nat, l: nat | PairAt(s, 0, j, l) ::
              FirstIn(s[1..], {'=', '&'}) == j - 1 && FirstIn(s[j + 1..], {'&'}) > 0
  {
    forall j: nat, l: nat | PairAt(s, 0, j, l)
      ensures FirstIn(s[1..], {'=', '&'}) == j - 1 && FirstIn(s[j + 1..], {'&'}) > 0
    {
      assert s[1..][j - 1] == '=';
      assert s[j + 1..][0] != '&';
    }
  }

  lemma PairAtShift(s: string, i: nat, j: nat, l: nat)
    requires s != []
    ensures PairAt(s[1..], i, j, l) <==> PairAt(s, i + 1, j + 1, l + 1)
  {
    if PairAt(s[1..], i, j, l) {
      forall k | i + 1 < k < j + 1 ensures s[k] != '=' && s[k] != '&' {
        assert s[k] == s[1..][k - 1];
      }
      forall k | j + 1 < k < l + 1 ensures s[k] != '&' {
        assert s[k] == s[1..][k - 1];
      }
    }
    if PairAt(s, i + 1, j + 1, l + 1) {
      forall k | i < k < j ensures s[1..][k] != '=' && s[1..][k] != '&' {
        assert s[1..][k] == s[k + 1];
      }
      forall k | j < k < l ensures s[1..][k] != '&' {
        assert s[1..][k] == s[k + 1];
      }
    }
  }

  lemma MatchAtPairs(s: string)
    requires MatchAt(s).Some?
    ensures PairAt(s, 0, 1 + |MatchAt(s).value.0.0|, MatchAt(s).value.1)
  {
    var pair := MatchAt(s).value.0;
    var n := MatchAt(s).value.1;
    var j := 1 + |pair.0|;
    assert s[..n] == "?" + pair.0 + "=" + pair.1;
    forall k | 0 < k < j ensures s[k] != '=' && s[k] != '&' {
      assert s[k] == s[..n][k] == pair.0[k - 1];
    }
    forall k | j < k < n ensures s[k] != '&' {
      assert s[k] == s[..n][k] == pair.1[k - j - 1];
    }
  }

  /** Whatever the scan captures is an occurrence of the pattern. */
  lemma {:induction false} ScanFindsOnlyPairs(s: string)
    ensures Scan(s) != [] ==> HasPair(s)
    decreases |s|
  {
    if s != [] {
      match MatchAt(s)
      case Some(_) =>
        MatchAtPairs(s);
      case None =>
        ScanFindsOnlyPairs(s[1..]);
        if HasPair(s[1..]) {
          var i: nat, j: nat, l: nat :| PairAt(s[1..], i, j, l);
          PairAtShift(s, i, j, l);
        }
    }
  }

  /** Every occurrence of the pattern makes the scan capture something. */
  lemma {:induction false} ScanFindsEveryPair(s: string, i: nat, j: nat, l: nat)
    requires PairAt(s, i, j, l)
    ensures Scan(s) != []
    decreases i
  {
    if MatchAt(s).None? && i > 0 {
      PairAtShift(s, i - 1, j - 1, l - 1);
      ScanFindsEveryPair(s[1..], i - 1, j - 1, l - 1);
    }
  }

  /** The scan finds nothing exactly when no '?' is followed by a key, '='
      and a value anywhere in the text. */
  lemma ScanEmptyIff(s: string)
    ensures Scan(s) == [] <==> !HasPair(s)
  {
    ScanFindsOnlyPairs(s);
    if HasPair(s) {
      var i: nat, j: nat, l: nat :| PairAt(s, i, j, l);
      ScanFindsEveryPair(s, i, j, l);
    }
  }

  // ---------------------------------------------------------------------
  // Building the candidate URL

  function PairText(p: Pair): string {
    p.0 + "=" + p.1
  }

  function PairTexts(pairs: seq<Pair>): (texts: seq<string>)
    ensures |texts| == |pairs|
    ensures forall i | 0 <= i < |pairs| :: texts[i] == PairText(pairs[i])
  {
    if pairs == [] then [] else [PairText(pairs[0])] + PairTexts(pairs[1..])
  }

  /** `'&'.join(f"{key}={value}" for key, value in pairs)`. */
  function QueryOf(pairs: seq<Pair>): string {
    Join("&", PairTexts(pairs))
  }

  /** Reading a query back: split on '&', then each item at its first '='. */
  function ReadQuery(query: string): seq<Pair> {
    var items := Split(query, '&');
    seq(|items|, i requires 0 <= i < |items| => SplitOnce(items[i], '='))
  }

  /** For pairs the scan can produce, reading the joined query gives back
      exactly the pairs, in order. */
  lemma QueryRoundTrip(pairs: seq<Pair>)
    requires pairs != []
    requires forall p | p in pairs :: ValidPair(p)
    ensures ReadQuery(QueryOf(pairs)) == pairs
  {
    var texts := PairTexts(pairs);
    forall t | t in texts
      ensures '&' !in t
    {
      var i :| 0 <= i < |texts| && texts[i] == t;
      assert ValidPair(pairs[i]);
    }
    SplitJoin(texts, '&');
    forall i | 0 <= i < |pairs|
      ensures SplitOnce(texts[i], '=') == pairs[i]
    {
      assert ValidPair(pairs[i]);
      SplitOnceAtText(pairs[i].0, pairs[i].1);
    }
  }

  lemma SplitOnceAtText(key: string, value: string)
    requires '=' !in key
    ensures SplitOnce(key + "=" + value, '=') == (key, value)
  {
    var s := key + "=" + value;
    FirstInSkipText(key, ['='] + value);
    assert s == key + (['='] + value);
    assert s[..|key|] == key && s[|key| + 1..] == value;
  }

  lemma {:induction false} FirstInSkipText(a: string, b: string)
    requires '=' !in a
    ensures FirstIn(a + b, {'='}) == |a| + FirstIn(b, {'='})
  {
    if a == [] {
      assert a + b == b;
    } else {
      assert (a + b)[1..] == a[1..] + b;
      FirstInSkipText(a[1..], b);
    }
  }

  /** The candidate an anchor's href yields: the page URL, '?', and the
      captured pairs joined; nothing when the scan finds no pair. */
  function HrefCandidate(url: string, href: string): Option<string> {
    var pairs := Scan(href);
    if pairs == [] then None else Some(url + "?" + QueryOf(pairs))
  }

  // ---------------------------------------------------------------------
  // Form synthesis: {e.get('name', ''): e.get('value', '') for e in controls if e.get('name')}

  const ControlTags: set<string> := {"input", "textarea", "select", "button"}

  /** The `(name, value)` of every control with a non-empty name, in
      document order; a missing value reads as "". */
  function NamedControls(descendants: seq<Element>): (entries: seq<Pair>)
    ensures forall p | p in entries :: p.0 != ""
  {
    if descendants == [] then []
    else
      var e := descendants[0];
      var rest := NamedControls(descendants[1..]);
      if e.tag in ControlTags && Get(e, "name", "") != "" then [(Get(e, "name", ""), Get(e, "value", ""))] + rest
      else rest
  }

  /** Control `e` contributes the entry `p`. */
  predicate ControlGives(e: Element, p: Pair) {
    e.tag in ControlTags && Get(e, "name", "") == p.0 && p.0 != "" && Get(e, "value", "") == p.1
  }

  /** An entry is listed exactly when some named control carries it: a
      control without a name, or with an empty one, is skipped, and a missing
      value reads as "". */
  lemma {:induction false} NamedControlsIff(descendants: seq<Element>, p: Pair)
    ensures p in NamedControls(descendants) <==> exists e | e in descendants :: ControlGives(e, p)
  {
    if descendants != [] {
      var e := descendants[0];
      var tail := descendants[1..];
      NamedControlsIff(tail, p);
      assert descendants == [e] + tail;
      assert forall x | x in descendants :: x == e || x in tail;
      assert forall x | x in tail :: x in descendants;
      if e.tag in ControlTags && Get(e, "name", "") != "" {
        var q := (Get(e, "name", ""), Get(e, "value", ""));
        assert NamedControls(descendants) == [q] + NamedControls(tail);
        assert ControlGives(e, p) <==> p == q;
      } else {
        assert NamedControls(descendants) == NamedControls(tail);
        assert !ControlGives(e, p);
      }
    }
  }

  /** Position of the first entry with key `k`, or `|d|`. */
  function KeyIndex(d: seq<Pair>, k: string): (i: nat)
    ensures i <= |d|
    ensures i < |d| ==> d[i].0 == k
    ensures forall j | 0 <= j < i :: d[j].0 != k
  {
    if d == [] then 0
    else if d[0].0 == k then 0
    else 1 + KeyIndex(d[1..], k)
  }

  function Keys(d: seq<Pair>): set<string> {
    set p | p in d :: p.0
  }

  lemma KeyIndexFound(d: seq<Pair>, k: string)
    ensures KeyIndex(d, k) < |d| <==> k in Keys(d)
  {
    if k in Keys(d) {
      var p :| p in d && p.0 == k;
      var j :| 0 <= j < |d| && d[j] == p;
      assert KeyIndex(d, k) <= j;
    }
  }

  lemma KeysOfUpdate(d: seq<Pair>, i: nat, p: Pair)
    requires i < |d| && d[i].0 == p.0
    ensures Keys(d[i := p]) == Keys(d)
  {
    forall k | k in Keys(d) ensures k in Keys(d[i := p]) {
      var q :| q in d && q.0 == k;
      var j :| 0 <= j < |d| && d[j] == q;
      assert d[i := p][j].0 == k;
    }
  }

  /** A dict's keys are pairwise distinct. */
  predicate Distinct(d: seq<Pair>) {
    forall i, j | 0 <= i < j < |d| :: d[i].0 != d[j].0
  }

  /** `d[k] = v` on an insertion-ordered dict held as a list of pairs: an
      existing key keeps its place and takes the new value; a new key goes
      at the end; every other entry is untouched. */
  function Put(d: seq<Pair>, k: string, v: string): (r: seq<Pair>)
    requires Distinct(d)
    ensures Distinct(r)
    ensures Keys(r) == Keys(d) + {k}
    ensures |r| == if k in Keys(d) then |d| else |d| + 1
    ensures k !in Keys(d) ==> r[|d|] == (k, v)
    ensures forall i | 0 <= i < |d| :: r[i].0 == d[i].0 && r[i].1 == if d[i].0 == k then v else d[i].1
  {
    var i := KeyIndex(d, k);
    KeyIndexFound(d, k);
    if i < |d| then
      KeysOfUpdate(d, i, (k, v));
      d[i := (k, v)]
    else
      assert forall j | 0 <= j < |d| :: d[j].0 != k;
      KeysExtend(d, (k, v));
      d + [(k, v)]
  }

  /** The dict a comprehension builds from `entries`, assigning in order;
      each name ends up in it once. */
  function DictOf(entries: seq<Pair>): (d: seq<Pair>)
    ensures Distinct(d)
  {
    if entries == [] then []
    else
      var last := entries[|entries| - 1];
      Put(DictOf(entries[..|entries| - 1]), last.0, last.1)
  }

  /** The value of the last entry with key `k` (reference definition). */
  function LastValue(entries: seq<Pair>, k: string): string {
    if entries == [] then ""
    else if entries[|entries| - 1].0 == k then entries[|entries| - 1].1
    else LastValue(entries[..|entries| - 1], k)
  }

  lemma KeysExtend(d: seq<Pair>, x: Pair)
    ensures Keys(d + [x]) == Keys(d) + {x.0}
  {
    assert forall p | p in d + [x] :: p in d || p == x;
  }

  lemma KeyIndexExtend(d: seq<Pair>, x: Pair, k: string)
    ensures KeyIndex(d + [x], k) == if KeyIndex(d, k) < |d| || x.0 == k then KeyIndex(d, k) else |d| + 1
  {
    if d != [] {
      assert (d + [x])[1..] == d[1..] + [x];
      KeyIndexExtend(d[1..], x, k);
    }
  }

  /** The dict holds exactly the names of the entries. */
  lemma {:induction false} DictKeys(entries: seq<Pair>)
    ensures Keys(DictOf(entries)) == Keys(entries)
  {
    if entries != [] {
      var prefix := entries[..|entries| - 1];
      assert entries == prefix + [entries[|entries| - 1]];
      KeysExtend(prefix, entries[|entries| - 1]);
      DictKeys(prefix);
    }
  }

  /** Each name carries the value of its last entry. */
  lemma {:induction false} DictLastValues(entries: seq<Pair>)
    ensures forall i | 0 <= i < |DictOf(entries)| :: DictOf(entries)[i].1 == LastValue(entries, DictOf(entries)[i].0)
  {
    if entries != [] {
      var prefix := entries[..|entries| - 1];
      var last := entries[|entries| - 1];
      DictLastValues(prefix);
      var d0 := DictOf(prefix);
      var d := DictOf(entries);
      forall i | 0 <= i < |d|
        ensures d[i].1 == LastValue(entries, d[i].0)
      {
        if i < |d0| && d0[i].0 != last.0 {
          assert d[i].1 == d0[i].1 == LastValue(prefix, d0[i].0);
        }
      }
    }
  }

  /** Keys sit in `d` in the order of their first entries in `entries`. */
  predicate FirstOrdered(entries: seq<Pair>, d: seq<Pair>) {
    forall i, j | 0 <= i < j < |d| :: KeyIndex(entries, d[i].0) < KeyIndex(entries, d[j].0)
  }

  /** Appending an entry leaves the first position of every earlier key. */
  lemma EarlierKeysStay(prefix: seq<Pair>, last: Pair, d0: seq<Pair>)
    requires Keys(d0) == Keys(prefix)
    ensures forall i | 0 <= i < |d0| :: KeyIndex(prefix + [last], d0[i].0) == KeyIndex(prefix, d0[i].0) < |prefix|
  {
    forall i | 0 <= i < |d0|
      ensures KeyIndex(prefix + [last], d0[i].0) == KeyIndex(prefix, d0[i].0) < |prefix|
    {
      assert d0[i] in d0;
      KeyIndexExtend(prefix, last, d0[i].0);
      KeyIndexFound(prefix, d0[i].0);
    }
  }

  /** A new key's first entry is the appended one, after every earlier key. */
  lemma NewKeyLast(prefix: seq<Pair>, last: Pair)
    requires last.0 !in Keys(prefix)
    ensures KeyIndex(prefix + [last], last.0) == |prefix|
  {
    KeyIndexExtend(prefix, last, last.0);
    KeyIndexFound(prefix, last.0);
  }

  /** Names sit in the order of their first entries. */
  lemma {:induction false} DictFirstOrder(entries: seq<Pair>)
    ensures FirstOrdered(entries, DictOf(entries))
  {
    if entries != [] {
      var prefix := entries[..|entries| - 1];
      var last := entries[|entries| - 1];
      assert entries == prefix + [last];
      DictFirstOrder(prefix);
      DictKeys(prefix);
      var d0 := DictOf(prefix);
      var d := Put(d0, last.0, last.1);
      assert DictOf(entries) == d;
      EarlierKeysStay(prefix, last, d0);
      if last.0 !in Keys(d0) {
        NewKeyLast(prefix, last);
      }
      forall i, j | 0 <= i < j < |d|
        ensures KeyIndex(entries, d[i].0) < KeyIndex(entries, d[j].0)
      {
        assert d[i].0 == d0[i].0;
        if j < |d0| {
          assert d[j].0 == d0[j].0;
          assert KeyIndex(prefix, d0[i].0) < KeyIndex(prefix, d0[j].0);
        } else {
          assert d[j] == last;
        }
      }
    }
  }

  /** The candidate a form yields: nothing when none of its controls is named. */
  function FormCandidate(url: string, form: Element): Option<string> {
    var fields := DictOf(NamedControls(form.descendants));
    if fields == [] then None else Some(url + "?" + QueryOf(fields))
  }

  // ---------------------------------------------------------------------
  // The whole page

  predicate IsAnchor(e: Element) {
    e.tag == "a" && "href" in e.attrs
  }

  /** Candidates from the anchors of `page`, in set form. */
  function HrefParams(url: string, page: Page): set<string> {
    if page == [] then {}
    else
      var e := page[|page| - 1];
      HrefParams(url, page[..|page| - 1])
        + (if IsAnchor(e) && HrefCandidate(url, e.attrs["href"]).Some? then {HrefCandidate(url, e.attrs["href"]).value} else {})
  }

  /** Candidates from the forms of `page`, in set form. */
  function FormParams(url: string, page: Page): set<string> {
    if page == [] then {}
    else
      var e := page[|page| - 1];
      FormParams(url, page[..|page| - 1])
        + (if e.tag == "form" && FormCandidate(url, e).Some? then {FormCandidate(url, e).value} else {})
  }

  /** What `extract_parameters` returns for a fetched page. */
  function PageParams(url: string, page: Page): set<string> {
    HrefParams(url, page) + FormParams(url, page)
  }

  lemma HrefParamsPrefix(url: string, page: Page, i: nat)
    requires i < |page|
    ensures var e := page[i];
            HrefParams(url, page[..i + 1]) == HrefParams(url, page[..i])
              + (if IsAnchor(e) && HrefCandidate(url, e.attrs["href"]).Some? then {HrefCandidate(url, e.attrs["href"]).value} else {})
  {
    assert page[..i + 1][..i] == page[..i];
  }

  lemma FormParamsPrefix(url: string, page: Page, i: nat)
    requires i < |page|
    ensures var e := page[i];
            FormParams(url, page[..i + 1]) == FormParams(url, page[..i])
              + (if e.tag == "form" && FormCandidate(url, e).Some? then {FormCandidate(url, e).value} else {})
  {
    assert page[..i + 1][..i] == page[..i];
  }

  /** `extract_parameters` after the fetch: one pass over the anchors, one
      over the forms, collecting candidates in a set. */
  method ExtractParameters(url: string, page: Page) returns (results: set<string>)
    ensures results == PageParams(url, page)
  {
    results := {};
    for i := 0 to |page|
      invariant results == HrefParams(url, page[..i])
    {
      HrefParamsPrefix(url, page, i);
      var e := page[i];
      if e.tag == "a" && "href" in e.attrs {
        var pairs := Scan(e.attrs["href"]);
        if pairs != [] {
          results := results + {url + "?" + QueryOf(pairs)};
        }
      }
    }
    assert page[..|page|] == page;
    var fromForms := {};
    for i := 0 to |page|
      invariant fromForms == FormParams(url, page[..i])
    {
      FormParamsPrefix(url, page, i);
      var e := page[i];
      if e.tag == "form" {
        var fields := DictOf(NamedControls(e.descendants));
        if fields != [] {
          fromForms := fromForms + {url + "?" + QueryOf(fields)};
        }
      }
    }
    results := results + fromForms;
  }

  /** Both sources rebase what they find onto the page's own URL: every
      candidate is the page URL, '?', and a query. */
  lemma {:induction false} ParamsOnPageUrl(url: string, page: Page)
    ensures forall r | r in PageParams(url, page) :: StartsWith(r, url + "?")
  {
    if page != [] {
      ParamsOnPageUrl(url, page[..|page| - 1]);
    }
  }

  /** Anchor `e` yields candidate `r`. */
  predicate AnchorYields(url: string, e: Element, r: string) {
    IsAnchor(e) && HrefCandidate(url, e.attrs["href"]) == Some(r)
  }

  /** Each anchor contributes its candidate, so the result holds one string
      per distinct candidate, however many anchors share it. */
  lemma {:induction false} HrefParamsIff(url: string, page: Page, r: string)
    ensures r in HrefParams(url, page) <==> exists e | e in page :: AnchorYields(url, e, r)
  {
    if page != [] {
      var prefix := page[..|page| - 1];
      var e := page[|page| - 1];
      assert page == prefix + [e];
      HrefParamsIff(url, prefix, r);
      assert forall x | x in page :: x in prefix || x == e;
      assert r in HrefParams(url, page) <==> r in HrefParams(url, prefix) || AnchorYields(url, e, r);
    }
  }

  /** A form whose controls carry no name adds nothing; one with a named
      control always adds a candidate. */
  lemma FormCandidateIff(url: string, form: Element)
    ensures FormCandidate(url, form).Some? <==> NamedControls(form.descendants) != []
  {
    var entries := NamedControls(form.descendants);
    DictKeys(entries);
    if entries != [] {
      assert entries[0].0 in Keys(entries);
    }
  }

  /** Every pair must begin right after a '?': a query of two pairs yields
      only its first one, because the second follows '&'. */
  lemma OnlyPairAfterQuestionMark()
    ensures Scan("?x=1&y=2") == [("x", "1")]
  {
    var s := "?x=1&y=2";
    assert FirstIn(s[1..], {'=', '&'}) == 1;
    assert FirstIn(s[3..], {'&'}) == 1;
    assert s[1..2] == "x" && s[3..4] == "1";
    assert MatchAt(s) == Some((("x", "1"), 4));
    var t := s[4..];
    assert t == "&y=2";
    assert MatchAt(t) == None;
    assert MatchAt(t[1..]) == None;
    assert MatchAt(t[2..]) == None;
    assert MatchAt(t[3..]) == None;
    assert t[4..] == [];
  }
}
