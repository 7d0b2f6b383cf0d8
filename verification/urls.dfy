/** URL handling used by the crawler: the six-part record of `urlparse`,
    splitting a string into it and joining it back, relative resolution
    (`urljoin`), percent-decoding (`unquote`), and the crawler's own
    `normalize_url` and depth measure. */
module Urls {
  import opened Text

  /** `(scheme, netloc, path, params, query, fragment)` as `urlparse` returns it. */
  datatype Url = Url(scheme: string, netloc: string, path: string, params: string, query: string, fragment: string)

  // The scheme tables of Python's urllib.parse.
  const UsesRelative: set<string> := {"", "ftp", "http", "gopher", "nntp", "imap", "wais", "file",
    "https", "shttp", "mms", "prospero", "rtsp", "rtsps", "rtspu", "sftp", "svn", "svn+ssh", "ws", "wss"}
  const UsesNetloc: set<string> := {"", "ftp", "http", "gopher", "nntp", "telnet", "imap", "wais",
    "file", "mms", "https", "shttp", "snews", "prospero", "rtsp", "rtsps", "rtspu", "rsync", "svn",
    "svn+ssh", "sftp", "nfs", "git", "git+ssh", "ws", "wss", "itms-services"}
  const UsesParams: set<string> := {"", "ftp", "hdl", "prospero", "http", "imap", "https", "shttp",
    "rtsp", "rtsps", "rtspu", "sip", "sips", "mms", "sftp", "tel"}

  predicate IsSchemeChar(c: char) {
    IsLetter(c) || IsDigit(c) || c == '+' || c == '-' || c == '.'
  }

  /** The scheme test of `urlsplit`: the text before the first ':' is
      non-empty, starts with an ASCII letter and holds only scheme characters. */
  predicate HasScheme(s: string) {
    var i := FirstIn(s, {':'});
    0 < i < |s| && IsLetter(s[0]) && forall k | 0 <= k < i :: IsSchemeChar(s[k])
  }

  /** Scheme (lower-cased) and the rest; `default` when there is no scheme. */
  function SplitScheme(s: string, default: string): (string, string) {
    if HasScheme(s) then
      var i := FirstIn(s, {':'});
      (Lower(s[..i]), s[i + 1..])
    else (default, s)
  }

  /** After a leading "//", the authority runs up to the first '/', '?' or '#'. */
  function SplitNetloc(s: string): (string, string) {
    if StartsWith(s, "//") then
      var j := FirstIn(s[2..], {'/', '?', '#'});
      (s[2..2 + j], s[2 + j..])
    else ("", s)
  }

  /** Where the last path segment starts: the last '/', or 0 without one. */
  function LastSegmentStart(p: string): (from: nat)
    ensures from <= |p|
  {
    match LastIndex(p, '/')
    case Some(k) => k
    case None => 0
  }

  /** `;params` are cut off at the first ';' of the last path segment. */
  function SplitParams(p: string): (string, string) {
    var from := LastSegmentStart(p);
    var i := from + FirstIn(p[from..], {';'});
    if i < |p| then (p[..i], p[i + 1..]) else (p, "")
  }

  /** `urlparse(s, default)`. */
  function ParseWith(s: string, default: string): Url {
    var (scheme, afterScheme) := SplitScheme(s, default);
    var (netloc, afterNetloc) := SplitNetloc(afterScheme);
    var (beforeFragment, fragment) := SplitOnce(afterNetloc, '#');
    var (beforeQuery, query) := SplitOnce(beforeFragment, '?');
    var (path, params) := if scheme in UsesParams then SplitParams(beforeQuery) else (beforeQuery, "");
    Url(scheme, netloc, path, params, query, fragment)
  }

  /** `urlparse(s)`. */
  function Parse(s: string): Url {
    ParseWith(s, "")
  }

  function QueryFragment(query: string, fragment: string): string {
    (if query != "" then "?" + query else "") + (if fragment != "" then "#" + fragment else "")
  }

  /** Whether `urlunsplit` writes a "//authority" part. */
  predicate WritesAuthority(scheme: string, netloc: string, path: string) {
    netloc != "" || (scheme != "" && scheme in UsesNetloc && !StartsWith(path, "//"))
  }

  /** Everything after "scheme:" up to the query. */
  function Hierarchy(scheme: string, netloc: string, path: string): string {
    if WritesAuthority(scheme, netloc, path) then
      "//" + netloc + (if path != "" && path[0] != '/' then "/" + path else path)
    else path
  }

  /** `urlunparse((scheme, netloc, path, params, query, fragment))`. */
  function Unparse(u: Url): string {
    var path := if u.params != "" then u.path + ";" + u.params else u.path;
    var hier := Hierarchy(u.scheme, u.netloc, path);
    (if u.scheme != "" then u.scheme + ":" + hier else hier) + QueryFragment(u.query, u.fragment)
  }

  // ---------------------------------------------------------------------
  // Relative resolution, section 5.2 of RFC 3986

  /** The output buffer of remove_dot_segments without its last segment and
      the '/' before it. */
  function DropLastSegment(output: string): string {
    match LastIndex(output, '/')
    case Some(k) => output[..k]
    case None => ""
  }

  /** Length of the first segment of a non-empty input, with its leading '/'. */
  function FirstSegmentEnd(input: string): (n: nat)
    requires input != ""
    ensures 0 < n <= |input|
  {
    if input[0] == '/' then 1 + FirstIn(input[1..], {'/'}) else FirstIn(input, {'/'})
  }

  /** One pass of the loop of remove_dot_segments (section 5.2.4 of RFC
      3986): rules A to E, tried in order, on the input and the output
      buffer. The input always gets shorter. */
  function RuleStep(input: string, output: string): (r: (string, string))
    requires input != ""
    ensures |r.0| < |input|
  {
    if StartsWith(input, "../") then (input[3..], output)
    else if StartsWith(input, "./") then (input[2..], output)
    else if StartsWith(input, "/./") then (input[2..], output)
    else if input == "/." then ("/", output)
    else if StartsWith(input, "/../") then (input[3..], DropLastSegment(output))
    else if input == "/.." then ("/", DropLastSegment(output))
    else if input == "." || input == ".." then ("", output)
    else
      var n := FirstSegmentEnd(input);
      (input[n..], output + input[..n])
  }

  /** The loop of remove_dot_segments, with `output` the output buffer. */
  function RemoveDots(input: string, output: string): string
    decreases |input|
  {
    if input == "" then output
    else
      var next := RuleStep(input, output);
      RemoveDots(next.0, next.1)
  }

  function RemoveDotSegments(path: string): string {
    RemoveDots(path, "")
  }

  /** Section 5.2.3 of RFC 3986: the reference path appended to the base
      path without its last segment. */
  function Merge(hasAuthority: bool, basePath: string, refPath: string): string {
    if hasAuthority && basePath == "" then "/" + refPath
    else
      match LastIndex(basePath, '/')
      case Some(k) => basePath[..k + 1] + refPath
      case None => refPath
  }

  function ResolvePath(hasAuthority: bool, basePath: string, refPath: string): string {
    if StartsWith(refPath, "/") then RemoveDotSegments(refPath)
    else RemoveDotSegments(Merge(hasAuthority, basePath, refPath))
  }

  /** `urljoin(base, ref)` on two strings. */
  function UrlJoin(base: string, ref: string): string {
    if base == "" then ref
    else if ref == "" then base
    else
      var b := Parse(base);
      var r := ParseWith(ref, b.scheme);
      if r.scheme != b.scheme || r.scheme !in UsesRelative then ref
      else if r.scheme in UsesNetloc && r.netloc != "" then Unparse(r)
      else
        var netloc := if r.scheme in UsesNetloc then b.netloc else r.netloc;
        if r.path == "" && r.params == "" then
          Unparse(Url(r.scheme, netloc, b.path, b.params, if r.query != "" then r.query else b.query, r.fragment))
        else
          Unparse(Url(r.scheme, netloc, ResolvePath(b.netloc != "", b.path, r.path), r.params, r.query, r.fragment))
  }

  /** `urljoin(base_path, path)` on two bare paths, as `normalize_url` uses it. */
  function JoinPaths(basePath: string, refPath: string): string {
    if basePath == "" then refPath
    else if refPath == "" then basePath
    else ResolvePath(false, basePath, refPath)
  }

  // ---------------------------------------------------------------------
  // Percent-decoding

  predicate IsHex(c: char) {
    IsDigit(c) || 'a' <= c <= 'f' || 'A' <= c <= 'F'
  }

  function HexValue(c: char): nat
    requires IsHex(c)
  {
    if IsDigit(c) then c as nat - '0' as nat
    else if 'a' <= c <= 'f' then c as nat - 'a' as nat + 10
    else c as nat - 'A' as nat + 10
  }

  /** The character an escape "%XY" stands for, when it is ASCII. */
  function AsciiEscape(s: string): Option<char> {
    if |s| >= 3 && s[0] == '%' && IsHex(s[1]) && IsHex(s[2]) && HexValue(s[1]) * 16 + HexValue(s[2]) < 128
    then Some((HexValue(s[1]) * 16 + HexValue(s[2])) as char)
    else None
  }

  /** `unquote(s)` for escapes of ASCII characters; other escapes are kept. */
  function Unquote(s: string): string
    decreases |s|
  {
    if s == [] then []
    else
      match AsciiEscape(s)
      case Some(c) => [c] + Unquote(s[3..])
      case None => [s[0]] + Unquote(s[1..])
  }

  // ---------------------------------------------------------------------
  // The crawler's own URL logic

  /** The record `normalize_url(url, base)` builds before joining it back:
      scheme and authority from `url` unless empty, the path resolved against
      the base path and decoded, no params, query and fragment from `url`. */
  function NormalizedParts(url: string, base: string): Url {
    var u := Parse(url);
    var b := Parse(if base == "" then url else base);
    Url(if u.scheme != "" then u.scheme else b.scheme,
        if u.netloc != "" then u.netloc else b.netloc,
        Unquote(if u.path == "" then b.path else JoinPaths(b.path, u.path)),
        "", u.query, u.fragment)
  }

  /** `normalize_url(url, base)`; an empty `base` stands for a missing one. */
  function Normalize(url: string, base: string): string {
    Unparse(NormalizedParts(url, base))
  }

  /** The depth gate's measure: pieces of the path split on '/', minus one. */
  function Depth(url: string): int {
    |Split(Parse(url).path, '/')| - 1
  }

  // ---------------------------------------------------------------------
  // Parsing undoes joining

  predicate IsCanonicalScheme(s: string) {
    s != [] && IsLetter(s[0]) && forall k | 0 <= k < |s| :: IsSchemeChar(s[k]) && !IsUpper(s[k])
  }

  /** The records that `urlparse` gives back unchanged from their
      `urlunparse`: no params, a lower-case scheme, no delimiter inside a
      component that would end it early, a path that can follow an
      authority, and no path that would read as an authority or a scheme. */
  predicate WellFormed(u: Url) {
    && u.params == ""
    && (u.scheme == "" || IsCanonicalScheme(u.scheme))
    && '/' !in u.netloc && '?' !in u.netloc && '#' !in u.netloc
    && '?' !in u.path && '#' !in u.path && '#' !in u.query
    && (WritesAuthority(u.scheme, u.netloc, u.path) ==> u.path == "" || u.path[0] == '/')
    && (u.netloc == "" ==> !StartsWith(u.path, "//"))
    && (u.scheme in UsesParams ==> ';' !in u.path[LastSegmentStart(u.path)..])
    && (u.scheme == "" && u.netloc == "" ==> !HasScheme(u.path))
  }

  lemma {:induction false} FirstInSkip(a: string, b: string, stops: set<char>)
    requires forall k | 0 <= k < |a| :: a[k] !in stops
    ensures FirstIn(a + b, stops) == |a| + FirstIn(b, stops)
  {
    if a == [] {
      assert a + b == b;
    } else {
      assert (a + b)[1..] == a[1..] + b;
      FirstInSkip(a[1..], b, stops);
    }
  }

  lemma {:induction false} FirstInPrefix(a: string, b: string, stops: set<char>)
    requires FirstIn(a, stops) < |a|
    ensures FirstIn(a + b, stops) == FirstIn(a, stops)
  {
    if a[0] !in stops {
      assert (a + b)[1..] == a[1..] + b;
      FirstInPrefix(a[1..], b, stops);
    }
  }

  lemma SplitOnceAt(a: string, c: char, b: string)
    requires c !in a
    ensures SplitOnce(a + [c] + b, c) == (a, b)
  {
    FirstInSkip(a, [c] + b, {c});
    assert a + [c] + b == a + ([c] + b);
  }

  lemma SplitOnceAbsent(a: string, c: char)
    requires c !in a
    ensures SplitOnce(a, c) == (a, "")
  {
  }

  lemma LowerCanonical(s: string)
    requires forall k | 0 <= k < |s| :: !IsUpper(s[k])
    ensures Lower(s) == s
  {
  }

  /** Without a scheme or an authority, a well-formed path followed by its
      query and fragment still does not read as "scheme:". */
  lemma NoSchemeAfterPath(path: string, qf: string)
    requires !HasScheme(path)
    requires qf == [] || qf[0] == '?' || qf[0] == '#'
    ensures !HasScheme(path + qf)
  {
    var s := path + qf;
    var i := FirstIn(path, {':'});
    if i < |path| {
      FirstInPrefix(path, qf, {':'});
      if 0 < i {
        assert s[0] == path[0];
        assert forall k | 0 <= k < i :: s[k] == path[k];
      }
    } else if qf != [] {
      FirstInSkip(path, qf, {':'});
      assert s[|path|] == qf[0];
      assert !IsSchemeChar(s[|path|]);
    } else {
      assert s == path;
    }
  }

  lemma QueryFragmentShape(query: string, fragment: string)
    ensures var qf := QueryFragment(query, fragment); qf == [] || qf[0] == '?' || qf[0] == '#'
  {
  }

  lemma SchemePrefix(scheme: string, rest: string)
    requires IsCanonicalScheme(scheme)
    ensures SplitScheme(scheme + ":" + rest, "") == (scheme, rest)
  {
    var s := scheme + ":" + rest;
    assert s == scheme + ([':'] + rest);
    FirstInSkip(scheme, [':'] + rest, {':'});
    assert s[..|scheme|] == scheme;
    LowerCanonical(scheme);
    assert s[|scheme| + 1..] == rest;
  }

  lemma SchemeStep(u: Url)
    requires WellFormed(u)
    ensures SplitScheme(Unparse(u), "")
         == (u.scheme, Hierarchy(u.scheme, u.netloc, u.path) + QueryFragment(u.query, u.fragment))
  {
    var hier := Hierarchy(u.scheme, u.netloc, u.path);
    var qf := QueryFragment(u.query, u.fragment);
    if u.scheme != "" {
      assert Unparse(u) == u.scheme + ":" + (hier + qf);
      SchemePrefix(u.scheme, hier + qf);
    } else {
      assert Unparse(u) == hier + qf;
      if u.netloc != "" {
        assert (hier + qf)[0] == '/';
      } else {
        assert hier == u.path;
        QueryFragmentShape(u.query, u.fragment);
        NoSchemeAfterPath(u.path, qf);
      }
    }
  }

  lemma AuthorityStep(netloc: string, path: string, qf: string)
    requires '/' !in netloc && '?' !in netloc && '#' !in netloc
    requires path == "" || path[0] == '/'
    requires qf == [] || qf[0] == '?' || qf[0] == '#'
    ensures SplitNetloc("//" + netloc + path + qf) == (netloc, path + qf)
  {
    var stops := {'/', '?', '#'};
    var t := path + qf;
    var x := netloc + t;
    assert "//" + netloc + path + qf == "//" + x;
    assert forall k | 0 <= k < |netloc| :: netloc[k] !in stops;
    FirstInSkip(netloc, t, stops);
    assert FirstIn(t, stops) == 0;
    NetlocOf(x, |netloc|);
    assert x[..|netloc|] == netloc && x[|netloc|..] == t;
  }

  lemma NetlocOf(x: string, j: nat)
    requires j == FirstIn(x, {'/', '?', '#'})
    ensures SplitNetloc("//" + x) == (x[..j], x[j..])
  {
    var s := "//" + x;
    assert s[..2] == "//" && s[2..] == x;
    assert s[2..2 + j] == x[..j] && s[2 + j..] == x[j..];
  }

  lemma NoAuthorityStep(path: string, qf: string)
    requires !StartsWith(path, "//")
    requires qf == [] || qf[0] == '?' || qf[0] == '#'
    ensures SplitNetloc(path + qf) == ("", path + qf)
  {
    var s := path + qf;
    if |path| >= 2 {
      assert s[..2] == path[..2];
    } else if |s| >= 2 {
      assert s[|path|] == qf[0];
      assert s[..2] != "//";
    }
  }

  lemma NetlocStep(u: Url)
    requires WellFormed(u)
    ensures var qf := QueryFragment(u.query, u.fragment);
            SplitNetloc(Hierarchy(u.scheme, u.netloc, u.path) + qf) == (u.netloc, u.path + qf)
  {
    var qf := QueryFragment(u.query, u.fragment);
    QueryFragmentShape(u.query, u.fragment);
    if WritesAuthority(u.scheme, u.netloc, u.path) {
      assert Hierarchy(u.scheme, u.netloc, u.path) == "//" + u.netloc + u.path;
      AuthorityStep(u.netloc, u.path, qf);
    } else {
      NoAuthorityStep(u.path, qf);
    }
  }

  /** The text before the query, with the query, if any. */
  function WithQuery(path: string, query: string): string {
    if query != "" then path + "?" + query else path
  }

  lemma FragmentStep(head: string, fragment: string)
    requires '#' !in head
    ensures SplitOnce(head + (if fragment != "" then "#" + fragment else ""), '#') == (head, fragment)
  {
    if fragment != "" {
      SplitOnceAt(head, '#', fragment);
      assert head + ("#" + fragment) == head + ['#'] + fragment;
    } else {
      SplitOnceAbsent(head, '#');
      assert head + "" == head;
    }
  }

  lemma QueryStep(path: string, query: string)
    requires '?' !in path
    ensures SplitOnce(WithQuery(path, query), '?') == (path, query)
  {
    if query != "" {
      SplitOnceAt(path, '?', query);
      assert path + "?" + query == path + ['?'] + query;
    } else {
      SplitOnceAbsent(path, '?');
    }
  }

  lemma QueryFragmentStep(path: string, query: string, fragment: string)
    requires '?' !in path && '#' !in path && '#' !in query
    ensures SplitOnce(path + QueryFragment(query, fragment), '#') == (WithQuery(path, query), fragment)
            && SplitOnce(WithQuery(path, query), '?') == (path, query)
  {
    var head := WithQuery(path, query);
    assert '#' !in head;
    assert path + QueryFragment(query, fragment) == head + (if fragment != "" then "#" + fragment else "");
    FragmentStep(head, fragment);
    QueryStep(path, query);
  }

  lemma ParamsStep(p: string)
    requires ';' !in p[LastSegmentStart(p)..]
    ensures SplitParams(p) == (p, "")
  {
    var from := LastSegmentStart(p);
    assert FirstIn(p[from..], {';'}) == |p[from..]|;
  }

  /** `urlparse(urlunparse(u)) == u` for every well-formed record. */
  lemma ParseUnparse(u: Url)
    requires WellFormed(u)
    ensures Parse(Unparse(u)) == u
  {
    SchemeStep(u);
    NetlocStep(u);
    QueryFragmentStep(u.path, u.query, u.fragment);
    if u.scheme in UsesParams {
      ParamsStep(u.path);
    }
  }

  // ---------------------------------------------------------------------
  // Dot segments

  predicate NoDotSegments(path: string) {
    forall seg | seg in Split(path, '/') :: seg != "." && seg != ".."
  }

  lemma DotSegmentsOfPrefix(input: string)
    ensures (StartsWith(input, "../") || input == "..") ==> ".." in Split(input, '/')
    ensures (StartsWith(input, "./") || input == ".") ==> "." in Split(input, '/')
  {
    if StartsWith(input, "../") {
      assert input == ".." + ['/'] + input[3..];
      SplitAfterPiece("..", '/', input[3..]);
    } else if input == ".." {
      SplitNoSeparator("..", '/');
    }
    if StartsWith(input, "./") {
      assert input == "." + ['/'] + input[2..];
      SplitAfterPiece(".", '/', input[2..]);
    } else if input == "." {
      SplitNoSeparator(".", '/');
    }
  }

  lemma DotSegmentsOfSlashPrefix(input: string)
    ensures (StartsWith(input, "/../") || input == "/..") ==> ".." in Split(input, '/')
    ensures (StartsWith(input, "/./") || input == "/.") ==> "." in Split(input, '/')
  {
    if input != "" && input[0] == '/' {
      assert input == [] + ['/'] + input[1..];
      SplitAfterPiece([], '/', input[1..]);
      var tail := input[1..];
      assert StartsWith(input, "/../") ==> StartsWith(tail, "../");
      assert StartsWith(input, "/./") ==> StartsWith(tail, "./");
      DotSegmentsOfPrefix(tail);
    }
  }

  /** What is left after rule E moves the first segment has no segment the
      whole input did not have, apart from empty ones. */
  lemma SegmentsAfterFirst(input: string)
    requires input != ""
    ensures var rest := input[FirstSegmentEnd(input)..];
            forall seg | seg in Split(rest, '/') :: seg == "" || seg in Split(input, '/')
  {
    var n := FirstSegmentEnd(input);
    var rest := input[n..];
    if rest != "" {
      assert input[n] == '/';
      assert rest == [] + ['/'] + rest[1..];
      SplitAfterPiece([], '/', rest[1..]);
      if input[0] == '/' {
        assert input == [] + ['/'] + input[1..];
        SplitAfterPiece([], '/', input[1..]);
        assert input[1..] == input[1..n] + ['/'] + rest[1..];
        SplitAfterPiece(input[1..n], '/', rest[1..]);
      } else {
        assert input == input[..n] + ['/'] + rest[1..];
        SplitAfterPiece(input[..n], '/', rest[1..]);
      }
    }
  }

  /** remove_dot_segments copies a path without dot segments unchanged. */
  lemma {:induction false} RemoveDotsIdentity(input: string, output: string)
    requires NoDotSegments(input)
    ensures RemoveDots(input, output) == output + input
    decreases |input|
  {
    if input != "" {
      var n := FirstSegmentEnd(input);
      RemoveDotsCopies(input, output);
      NoDotSegmentsAfterFirst(input);
      RemoveDotsIdentity(input[n..], output + input[..n]);
      SplitAt(output, input, n);
    }
  }

  lemma SplitAt(output: string, input: string, n: nat)
    requires n <= |input|
    ensures output + input[..n] + input[n..] == output + input
  {
    assert input[..n] + input[n..] == input;
  }

  lemma NoDotSegmentsAfterFirst(input: string)
    requires input != "" && NoDotSegments(input)
    ensures NoDotSegments(input[FirstSegmentEnd(input)..])
  {
    SegmentsAfterFirst(input);
  }

  /** On an input without dot segments only rule E applies. */
  lemma RemoveDotsCopies(input: string, output: string)
    requires input != "" && NoDotSegments(input)
    ensures RuleStep(input, output) == (input[FirstSegmentEnd(input)..], output + input[..FirstSegmentEnd(input)])
  {
    DotSegmentsOfPrefix(input);
    DotSegmentsOfSlashPrefix(input);
    assert !StartsWith(input, "../") && !StartsWith(input, "./");
    assert !StartsWith(input, "/./") && !StartsWith(input, "/../");
    assert input != "/." && input != "/.." && input != "." && input != "..";
  }

  /** A relative reference resolved against a base path lands in the base
      path's directory: the base up to and including its last '/', then the
      reference, when the two together hold no dot segment. */
  lemma ResolveKeepsDirectory(hasAuthority: bool, dir: string, file: string, ref: string)
    requires '/' !in file && !StartsWith(ref, "/")
    requires NoDotSegments(dir + "/" + ref)
    ensures ResolvePath(hasAuthority, dir + "/" + file, ref) == dir + "/" + ref
  {
    MergeInDirectory(hasAuthority, dir, file, ref);
    RemoveDotsIdentity(dir + "/" + ref, "");
    assert "" + (dir + "/" + ref) == dir + "/" + ref;
  }

  /** A bare relative path: nothing in it reads as a scheme, an authority,
      a query, a fragment or params. */
  predicate BarePath(p: string) {
    p != "" && ':' !in p && '?' !in p && '#' !in p && ';' !in p && !StartsWith(p, "//")
  }

  /** `urlparse` reads a bare relative path as a path and nothing else. */
  lemma BarePathParses(p: string)
    requires BarePath(p)
    ensures Parse(p) == Url("", "", p, "", "", "")
  {
    var u := Url("", "", p, "", "", "");
    assert Unparse(u) == p;
    assert LastIndex(p, '/').None? ==> LastSegmentStart(p) == 0;
    assert ';' !in p[LastSegmentStart(p)..];
    ParseUnparse(u);
  }

  /** A bare relative path found on a page keeps the page's scheme and
      authority, is resolved against the page's path and decoded, and takes
      no params, query or fragment from the page. */
  lemma NormalizeRelative(b: Url, ref: string)
    requires WellFormed(b) && b.path != ""
    requires BarePath(ref)
    ensures Normalize(ref, Unparse(b))
         == Unparse(Url(b.scheme, b.netloc, Unquote(ResolvePath(false, b.path, ref)), "", "", ""))
  {
    ParseUnparse(b);
    BarePathParses(ref);
  }

  /** A path segment that is neither empty nor a dot segment. */
  predicate PlainSegment(seg: string) {
    seg != "" && seg != "." && seg != ".." && '/' !in seg
  }

  /** The last '/' of `dir + "/" + seg`, when `seg` has none, is the one
      between them. */
  lemma LastSlash(dir: string, seg: string)
    requires '/' !in seg
    ensures LastIndex(dir + "/" + seg, '/') == Some(|dir|)
  {
    var s := dir + "/" + seg;
    var j := LastIndex(s, '/').value;
    forall i | j < i < |s| ensures s[i] != '/' {
      assert s[i] == s[j + 1..][i - j - 1];
    }
    forall i | |dir| < i < |s| ensures s[i] != '/' {
      assert s[i] == seg[i - |dir| - 1];
    }
    assert s[|dir|] == '/' && s[j] == '/';
  }

  /** Rules A to D and the lone-dot rules all need the input to start with
      a dot segment; an input starting with '/' and a segment that is not
      one falls through to rule E. */
  lemma RuleEOnSlash(input: string, output: string)
    requires |input| >= 2 && input[0] == '/'
    requires !(input[1] == '.' && (|input| == 2 || input[2] == '/'))
    requires !(|input| >= 3 && input[1] == '.' && input[2] == '.' && (|input| == 3 || input[3] == '/'))
    ensures RuleStep(input, output) == (input[FirstSegmentEnd(input)..], output + input[..FirstSegmentEnd(input)])
  {
    assert !StartsWith(input, "../") && !StartsWith(input, "./") by {
      assert input[..2][0] == '/';
      assert |input| >= 3 ==> input[..3][0] == '/';
    }
    assert !StartsWith(input, "/./") by {
      assert |input| >= 3 ==> input[..3][1] == input[1] && input[..3][2] == input[2];
    }
    assert !StartsWith(input, "/../") by {
      assert |input| >= 4 ==> input[..4][1] == input[1] && input[..4][2] == input[2] && input[..4][3] == input[3];
    }
    assert input != "/." && input != "/.." && input != "." && input != "..";
  }

  /** Rule E on a plain segment: "/seg" moves to the output buffer. */
  lemma MoveSegment(seg: string, rest: string, output: string)
    requires PlainSegment(seg) && (rest == "" || rest[0] == '/')
    ensures RuleStep("/" + seg + rest, output) == (rest, output + "/" + seg)
  {
    var input := "/" + seg + rest;
    assert input[0] == '/' && input[1] == seg[0];
    assert |seg| == 1 ==> seg == [seg[0]];
    assert |seg| == 2 ==> seg == [seg[0], seg[1]];
    assert |seg| >= 2 ==> input[2] == seg[1];
    assert |seg| >= 3 ==> input[3] == seg[2];
    assert rest != "" ==> input[1 + |seg|] == '/';
    RuleEOnSlash(input, output);
    assert input[1..] == seg + rest;
    FirstInSkip(seg, rest, {'/'});
    assert FirstIn(rest, {'/'}) == 0;
    assert FirstSegmentEnd(input) == 1 + |seg|;
    assert input[..1 + |seg|] == "/" + seg;
    assert output + ("/" + seg) == output + "/" + seg;
    assert input[1 + |seg|..] == rest;
  }

  /** Rule C of remove_dot_segments: "/../" drops the last segment of the
      output buffer. */
  lemma ClimbSegment(tail: string, output: string)
    ensures RuleStep("/../" + tail, output) == ("/" + tail, DropLastSegment(output))
  {
    var input := "/../" + tail;
    assert input[..4] == "/../" && input[3..] == "/" + tail;
    assert input[..3] == "/.." && input[..2] == "/.";
    assert !StartsWith(input, "../") && !StartsWith(input, "./") && !StartsWith(input, "/./") by {
      assert input[..3][0] == '/' && input[..2][0] == '/' && input[..3][2] == '.';
    }
  }

  /** Climbing out of a top-level directory: "../name" resolved against
      "/dir/file" is "/name". */
  lemma ParentOfTopDirectory(dir: string, file: string, name: string)
    requires PlainSegment(dir) && '/' !in file && PlainSegment(name)
    ensures ResolvePath(false, "/" + dir + "/" + file, "../" + name) == "/" + name
  {
    MergeInDirectory(false, "/" + dir, file, "../" + name);
    assert "/" + dir + "/" + ("../" + name) == "/" + dir + ("/../" + name);
    ClimbOut(dir, name);
  }

  /** remove_dot_segments on "/dir/../name", one rule at a time. */
  lemma ClimbOut(dir: string, name: string)
    requires PlainSegment(dir) && PlainSegment(name)
    ensures RemoveDots("/" + dir + ("/../" + name), "") == "/" + name
  {
    MoveSegment(dir, "/../" + name, "");
    assert "" + "/" + dir == "/" + dir;
    RemoveDotsStep("/" + dir + ("/../" + name), "", ("/../" + name, "/" + dir));
    ClimbSegment(name, "/" + dir);
    LastSlash("", dir);
    assert "" + "/" + dir == "/" + dir;
    RemoveDotsStep("/../" + name, "/" + dir, ("/" + name, ""));
    MoveSegment(name, "", "");
    assert "/" + name + "" == "/" + name;
    assert "" + "/" + name == "/" + name;
    RemoveDotsStep("/" + name, "", ("", "/" + name));
  }

  lemma RemoveDotsStep(input: string, output: string, next: (string, string))
    requires input != "" && RuleStep(input, output) == next
    ensures RemoveDots(input, output) == RemoveDots(next.0, next.1)
  {
  }

  /** Section 5.2.3 of RFC 3986 on a base "dir/file": the reference goes
      after "dir/". */
  lemma MergeInDirectory(hasAuthority: bool, dir: string, file: string, ref: string)
    requires '/' !in file
    ensures Merge(hasAuthority, dir + "/" + file, ref) == dir + "/" + ref
  {
    LastSlash(dir, file);
    assert (dir + "/" + file)[..|dir| + 1] == dir + "/";
  }

  // ---------------------------------------------------------------------
  // Two worked examples on the page "http://ex.com/dir/path1"

  /** A sibling page: "path2" found on "http://ex.com/dir/path1" is
      "http://ex.com/dir/path2". */
  lemma NormalizeSibling()
    ensures Normalize("path2", "http://ex.com/dir/path1") == "http://ex.com/dir/path2"
  {
    ExamplePage();
    SiblingBare();
    NormalizeRelative(Url("http", "ex.com", "/dir/path1", "", "", ""), "path2");
    SiblingPath();
    SiblingUnparses();
  }

  /** A parent reference: "../path2" found on "http://ex.com/dir/path1"
      climbs out of "dir" and is "http://ex.com/path2". */
  lemma NormalizeParent()
    ensures Normalize("../path2", "http://ex.com/dir/path1") == "http://ex.com/path2"
  {
    ExamplePage();
    ParentBare();
    NormalizeRelative(Url("http", "ex.com", "/dir/path1", "", "", ""), "../path2");
    ParentPath();
    ParentUnparses();
  }

  lemma ExamplePage()
    ensures WellFormed(Url("http", "ex.com", "/dir/path1", "", "", ""))
    ensures Unparse(Url("http", "ex.com", "/dir/path1", "", "", "")) == "http://ex.com/dir/path1"
  {
    ExampleUnparses();
    ExampleWellFormed();
  }

  lemma ExampleUnparses()
    ensures Unparse(Url("http", "ex.com", "/dir/path1", "", "", "")) == "http://ex.com/dir/path1"
  {
  }

  lemma ExampleWellFormed()
    ensures WellFormed(Url("http", "ex.com", "/dir/path1", "", "", ""))
  {
    ExampleScheme();
    ExampleHost();
    ExamplePath();
    ExampleLastSegment();
  }

  lemma ExampleScheme()
    ensures IsCanonicalScheme("http")
  {
  }

  lemma ExampleHost()
    ensures '/' !in "ex.com" && '?' !in "ex.com" && '#' !in "ex.com"
  {
  }

  lemma ExamplePath()
    ensures '?' !in "/dir/path1" && '#' !in "/dir/path1" && !StartsWith("/dir/path1", "//")
  {
    assert "/dir/path1"[..2][1] == 'd';
  }

  lemma ExampleLastSegment()
    ensures LastSegmentStart("/dir/path1") == 4 && ';' !in "/dir/path1"[4..]
  {
    LastSlash("/dir", "path1");
    assert "/dir" + "/" + "path1" == "/dir/path1";
  }

  lemma SiblingBare()
    ensures BarePath("path2")
  {
    assert "path2"[..2][1] == 'a';
  }

  lemma ParentBare()
    ensures BarePath("../path2")
  {
    assert "../path2"[..2][0] == '.';
  }

  lemma SiblingPath()
    ensures Unquote(ResolvePath(false, "/dir/path1", "path2")) == "/dir/path2"
  {
    ExampleSegments();
    SiblingInDirectory("dir", "path1", "path2");
    ExampleConcatenations();
  }

  /** A plain name resolved against "/dir/file" stays in "dir", and with
      no '%' in it unquoting leaves the result as it is. */
  lemma SiblingInDirectory(dir: string, file: string, name: string)
    requires PlainSegment(dir) && '/' !in file && PlainSegment(name)
    requires '%' !in dir && '%' !in name
    ensures Unquote(ResolvePath(false, "/" + dir + "/" + file, name)) == "/" + dir + "/" + name
  {
    TwoPlainSegments(dir, name);
    assert "/" + dir + "/" + name == ("/" + dir) + "/" + name;
    assert !StartsWith(name, "/") by {
      assert name[0] in name;
    }
    ResolveKeepsDirectory(false, "/" + dir, file, name);
    UnquoteNoPercent("/" + dir + "/" + name);
  }

  /** "../name" resolved against "/dir/file" is "/name", which unquoting
      leaves as it is when it has no '%'. */
  lemma ParentInDirectory(dir: string, file: string, name: string)
    requires PlainSegment(dir) && '/' !in file && PlainSegment(name) && '%' !in name
    ensures Unquote(ResolvePath(false, "/" + dir + "/" + file, "../" + name)) == "/" + name
  {
    ParentOfTopDirectory(dir, file, name);
    UnquoteNoPercent("/" + name);
  }

  lemma ExampleSegments()
    ensures PlainSegment("dir") && '/' !in "path1" && PlainSegment("path2")
    ensures '%' !in "dir" && '%' !in "path2"
  {
  }

  lemma ExampleConcatenations()
    ensures "/" + "dir" + "/" + "path1" == "/dir/path1"
    ensures "/" + "dir" + "/" + "path2" == "/dir/path2"
    ensures "../" + "path2" == "../path2"
    ensures "/" + "path2" == "/path2"
  {
  }

  /** "/a/b" with plain segments has no dot segment. */
  lemma TwoPlainSegments(a: string, b: string)
    requires PlainSegment(a) && PlainSegment(b)
    ensures NoDotSegments("/" + a + "/" + b)
  {
    SplitNoSeparator(b, '/');
    SplitAfterPiece(a, '/', b);
    SplitAfterPiece("", '/', a + "/" + b);
    assert "/" + a + "/" + b == "" + ['/'] + (a + ['/'] + b);
    assert Split("/" + a + "/" + b, '/') == ["", a, b];
  }

  lemma ParentPath()
    ensures Unquote(ResolvePath(false, "/dir/path1", "../path2")) == "/path2"
  {
    ExampleSegments();
    ParentInDirectory("dir", "path1", "path2");
    ExampleConcatenations();
  }

  lemma SiblingUnparses()
    ensures Unparse(Url("http", "ex.com", "/dir/path2", "", "", "")) == "http://ex.com/dir/path2"
  {
  }

  lemma ParentUnparses()
    ensures Unparse(Url("http", "ex.com", "/path2", "", "", "")) == "http://ex.com/path2"
  {
  }

  // ---------------------------------------------------------------------
  // Facts about unquote, normalize_url and the depth gate

  /** `unquote` leaves a string without '%' alone. */
  lemma {:induction false} UnquoteNoPercent(s: string)
    requires '%' !in s
    ensures Unquote(s) == s
  {
    if s != [] {
      assert s[1..] == s[1..] && '%' !in s[1..];
      UnquoteNoPercent(s[1..]);
      assert [s[0]] + s[1..] == s;
    }
  }

  /** Decoding never lengthens a string. */
  lemma {:induction false} UnquoteShortens(s: string)
    ensures |Unquote(s)| <= |s|
  {
    if s != [] {
      match AsciiEscape(s)
      case Some(c) => UnquoteShortens(s[3..]);
      case None => UnquoteShortens(s[1..]);
    }
  }

  /** Re-reading the output of `normalize_url` gives back the scheme and the
      authority of `url` when they are there and of the base otherwise, the
      query and fragment of `url` (never of the base), no params, and the
      base path (decoded) when `url` has no path. */
  lemma NormalizeKeepsComponents(url: string, base: string)
    requires WellFormed(NormalizedParts(url, base))
    ensures var r := Parse(Normalize(url, base));
            var u := Parse(url);
            var b := Parse(if base == "" then url else base);
            && r.scheme == (if u.scheme != "" then u.scheme else b.scheme)
            && r.netloc == (if u.netloc != "" then u.netloc else b.netloc)
            && r.params == ""
            && r.query == u.query
            && r.fragment == u.fragment
            && (u.path == "" ==> r.path == Unquote(b.path))
            && (u.path != "" ==> r.path == Unquote(JoinPaths(b.path, u.path)))
  {
    ParseUnparse(NormalizedParts(url, base));
  }

  /** A URL already in canonical form (well-formed, with an absolute or empty
      path holding no '%' and no dot segment) is a fixed point of
      `normalize_url` without a base. */
  lemma CanonicalIsFixedPoint(u: Url)
    requires WellFormed(u)
    requires u.path == "" || u.path[0] == '/'
    requires '%' !in u.path && NoDotSegments(u.path)
    ensures Normalize(Unparse(u), "") == Unparse(u)
  {
    ParseUnparse(u);
    RemoveDotsIdentity(u.path, "");
    UnquoteNoPercent(u.path);
    if u.path != "" {
      assert StartsWith(u.path, "/");
      assert "" + u.path == u.path;
      assert JoinPaths(u.path, u.path) == u.path;
    }
    assert NormalizedParts(Unparse(u), "") == u;
  }

  /** The depth of a URL is the number of '/' in its path. */
  lemma DepthCountsSlashes(url: string)
    ensures Depth(url) == CountChar(Parse(url).path, '/')
  {
    SplitCount(Parse(url).path, '/');
  }
}
