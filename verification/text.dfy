/** Character classes and the handful of Python `str` operations the crawler
    relies on: `find`, `split`, `join`, `endswith`, `lower` and `strip`. */
module Text {

  datatype Option<T> = None | Some(value: T)

  /** Python's `str.isspace`, which is also what `\s` matches in a `str` pattern. */
  predicate IsSpace(c: char) {
    var n := c as int;
    (9 <= n <= 13) || (28 <= n <= 32) || n == 0x85 || n == 0xA0 || n == 0x1680
    || (0x2000 <= n <= 0x200A) || n == 0x2028 || n == 0x2029 || n == 0x202F
    || n == 0x205F || n == 0x3000
  }

  predicate IsDigit(c: char) { '0' <= c <= '9' }

  predicate IsUpper(c: char) { 'A' <= c <= 'Z' }

  predicate IsLetter(c: char) { 'a' <= c <= 'z' || 'A' <= c <= 'Z' }

  function ToLower(c: char): char {
    if IsUpper(c) then (c as int + 32) as char else c
  }

  /** `s.lower()`, restricted to the ASCII letters. */
  function Lower(s: string): string {
    seq(|s|, i requires 0 <= i < |s| => ToLower(s[i]))
  }

  predicate StartsWith(s: string, prefix: string) {
    |prefix| <= |s| && s[..|prefix|] == prefix
  }

  predicate EndsWith(s: string, suffix: string) {
    |suffix| <= |s| && s[|s| - |suffix|..] == suffix
  }

  /** True when `sub` occurs somewhere in `s` (Python's `sub in s`). */
  predicate HasInfix(s: string, sub: string)
    decreases |s|
  {
    StartsWith(s, sub) || (s != [] && HasInfix(s[1..], sub))
  }

  /** What occurs in a suffix of `s` occurs in `s`. */
  lemma {:induction false} SuffixInfix(s: string, n: nat, sub: string)
    requires n <= |s| && HasInfix(s[n..], sub)
    ensures HasInfix(s, sub)
    decreases n
  {
    if n > 0 {
      assert s[1..][n - 1..] == s[n..];
      SuffixInfix(s[1..], n - 1, sub);
    }
  }

  /** Index of the first character of `s` that is in `stops`, or `|s|` when
      there is none. */
  function FirstIn(s: string, stops: set<char>): (i: nat)
    ensures i <= |s|
    ensures forall k | 0 <= k < i :: s[k] !in stops
    ensures i < |s| ==> s[i] in stops
  {
    if s == [] then 0
    else if s[0] in stops then 0
    else 1 + FirstIn(s[1..], stops)
  }

  /** Index of the last occurrence of `c` in `s` (Python's `rfind`). */
  function LastIndex(s: string, c: char): (r: Option<nat>)
    ensures r.None? <==> c !in s
    ensures r.Some? ==> r.value < |s| && s[r.value] == c && c !in s[r.value + 1..]
  {
    if s == [] then None
    else if s[|s| - 1] == c then Some(|s| - 1)
    else
      var r := LastIndex(s[..|s| - 1], c);
      assert s == s[..|s| - 1] + [s[|s| - 1]];
      r
  }

  /** `s.split(c, 1)` read as a pair: the text before the first `c` and the
      text after it; `(s, "")` when `c` does not occur. */
  function SplitOnce(s: string, c: char): (string, string) {
    var i := FirstIn(s, {c});
    if i < |s| then (s[..i], s[i + 1..]) else (s, "")
  }

  function CountChar(s: string, c: char): nat {
    if s == [] then 0 else (if s[0] == c then 1 else 0) + CountChar(s[1..], c)
  }

  /** Python's `s.split(c)` for a one-character separator. */
  function Split(s: string, c: char): (parts: seq<string>)
    ensures |parts| >= 1
    ensures forall p | p in parts :: c !in p
  {
    if s == [] then [[]]
    else
      var rest := Split(s[1..], c);
      if s[0] == c then [[]] + rest
      else [[s[0]] + rest[0]] + rest[1..]
  }

  /** Python's `sep.join(parts)`. */
  function Join(sep: string, parts: seq<string>): string {
    if parts == [] then []
    else if |parts| == 1 then parts[0]
    else parts[0] + sep + Join(sep, parts[1..])
  }

  /** The end of the run of whitespace starting at `i`. */
  function SpaceEnd(s: string, i: nat): (j: nat)
    requires i <= |s|
    ensures i <= j <= |s|
    ensures forall k | i <= k < j :: IsSpace(s[k])
    ensures j < |s| ==> !IsSpace(s[j])
    decreases |s| - i
  {
    if i == |s| || !IsSpace(s[i]) then i else SpaceEnd(s, i + 1)
  }

  /** The start of the run of whitespace ending at `j`, going no lower than `i`. */
  function SpaceStart(s: string, i: nat, j: nat): (k: nat)
    requires i <= j <= |s|
    ensures i <= k <= j
    ensures forall m | k <= m < j :: IsSpace(s[m])
    ensures i < k ==> !IsSpace(s[k - 1])
    decreases j - i
  {
    if j == i || !IsSpace(s[j - 1]) then j else SpaceStart(s, i, j - 1)
  }

  /** Python's `s.strip()`: a slice `s[i..j]` with only whitespace before
      `i` and from `j` on, which neither starts nor ends with whitespace. */
  function Strip(s: string): (r: string)
    ensures r == [] || (!IsSpace(r[0]) && !IsSpace(r[|r| - 1]))
    ensures exists i, j | 0 <= i <= j <= |s| ::
              r == s[i..j] && (forall k | 0 <= k < i :: IsSpace(s[k])) && (forall k | j <= k < |s| :: IsSpace(s[k]))
  {
    var i := SpaceEnd(s, 0);
    var j := SpaceStart(s, i, |s|);
    assert s[i..j] == [] || (s[i..j][0] == s[i] && s[i..j][j - i - 1] == s[j - 1]);
    s[i..j]
  }

  /** `str.split` produces one more piece than there are separators. */
  lemma {:induction false} SplitCount(s: string, c: char)
    ensures |Split(s, c)| == CountChar(s, c) + 1
  {
    if s != [] {
      SplitCount(s[1..], c);
    }
  }

  lemma {:induction false} SplitNoSeparator(a: string, c: char)
    requires c !in a
    ensures Split(a, c) == [a]
  {
    if a != [] {
      SplitNoSeparator(a[1..], c);
      assert a[0] != c;
      assert [a[0]] + a[1..] == a;
    }
  }

  lemma {:induction false} SplitAfterPiece(a: string, c: char, b: string)
    requires c !in a
    ensures Split(a + [c] + b, c) == [a] + Split(b, c)
  {
    if a == [] {
      assert (a + [c] + b)[1..] == b;
    } else {
      assert (a + [c] + b)[1..] == a[1..] + [c] + b;
      SplitAfterPiece(a[1..], c, b);
      assert [a[0]] + a[1..] == a;
    }
  }

  /** Splitting on the separator undoes a join of separator-free pieces. */
  lemma {:induction false} SplitJoin(parts: seq<string>, c: char)
    requires |parts| >= 1
    requires forall p | p in parts :: c !in p
    ensures Split(Join([c], parts), c) == parts
  {
    if |parts| == 1 {
      SplitNoSeparator(parts[0], c);
    } else {
      SplitJoin(parts[1..], c);
      SplitAfterPiece(parts[0], c, Join([c], parts[1..]));
      assert [parts[0]] + parts[1..] == parts;
    }
  }

  /** Joining the pieces of a split gives back the original text. */
  lemma {:induction false} JoinSplit(s: string, c: char)
    ensures Join([c], Split(s, c)) == s
  {
    if s != [] {
      JoinSplit(s[1..], c);
      var rest := Split(s[1..], c);
      if s[0] != c {
        JoinHeadExtend(rest, [s[0]], [c]);
      }
    }
  }

  lemma JoinHeadExtend(parts: seq<string>, h: string, sep: string)
    requires |parts| >= 1
    ensures Join(sep, [h + parts[0]] + parts[1..]) == h + Join(sep, parts)
  {
    if |parts| > 1 {
      assert ([h + parts[0]] + parts[1..])[1..] == parts[1..];
    }
  }
}
