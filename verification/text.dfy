/** String operations the backend borrows from Python's `str` type and `re`
    module, stated on `seq<char>`: white space, stripping, slicing with
    negative indices, `rfind`, `replace`, `split`, `join`, lower-casing, and
    the `re.sub(r'[class]+', rep, s)` idiom of collapsing runs of a character
    class into one replacement character. */
module Text {

  /** Python's `str.isspace()`, which is also what the regex class `\s`
      matches in a `str` pattern: the ASCII controls tab through carriage
      return, the four separators 0x1C-0x1F, the space, NEL, and the Unicode
      space separators, line and paragraph separators. */
  predicate IsSpace(c: char) {
    || c == ' '
    || '\t' <= c <= '\r'
    || '\U{1C}' <= c <= '\U{1F}'
    || c == '\U{85}'
    || c == '\U{A0}'
    || c == '\U{1680}'
    || '\U{2000}' <= c <= '\U{200A}'
    || c == '\U{2028}'
    || c == '\U{2029}'
    || c == '\U{202F}'
    || c == '\U{205F}'
    || c == '\U{3000}'
  }

  predicate IsAsciiDigit(c: char) {
    '0' <= c <= '9'
  }

  predicate IsAsciiLower(c: char) {
    'a' <= c <= 'z'
  }

  predicate IsAsciiUpper(c: char) {
    'A' <= c <= 'Z'
  }

  /** `str.lower()` restricted to ASCII: upper-case ASCII letters map to
      lower case, every other character is left alone. */
  function LowerChar(c: char): (d: char)
    ensures !IsAsciiUpper(d)
    ensures IsAsciiUpper(c) ==> IsAsciiLower(d)
    ensures !IsAsciiUpper(c) ==> d == c
  {
    if IsAsciiUpper(c) then (c as int - 'A' as int + 'a' as int) as char else c
  }

  function LowerAscii(s: string): (r: string)
    ensures |r| == |s|
    ensures forall i :: 0 <= i < |s| ==> r[i] == LowerChar(s[i])
  {
    seq(|s|, i requires 0 <= i < |s| => LowerChar(s[i]))
  }

  /** Lower-casing leaves a string without upper-case ASCII letters alone. */
  lemma LowerAsciiIdentity(s: string)
    requires forall i :: 0 <= i < |s| ==> !IsAsciiUpper(s[i])
    ensures LowerAscii(s) == s
  {
  }

  /** Lower-casing leaves no upper-case ASCII letter behind, so doing it
      twice is the same as doing it once. */
  lemma LowerAsciiIdempotent(s: string)
    ensures forall i :: 0 <= i < |s| ==> !IsAsciiUpper(LowerAscii(s)[i])
    ensures LowerAscii(LowerAscii(s)) == LowerAscii(s)
  {
    LowerAsciiIdentity(LowerAscii(s));
  }

  /** `p` occurs in `s` starting at index `i`. */
  predicate OccursAt(s: string, p: string, i: int) {
    0 <= i && i + |p| <= |s| && s[i..i + |p|] == p
  }

  predicate StartsWith(s: string, p: string) {
    |p| <= |s| && s[..|p|] == p
  }

  /** Python's `p in s`. */
  predicate Contains(s: string, p: string)
    decreases |s|
  {
    StartsWith(s, p) || (|s| > 0 && Contains(s[1..], p))
  }

  /** A string lacking the character at index `k` of `p` does not contain `p`. */
  lemma {:induction false} MissingCharNotContained(s: string, p: string, k: nat)
    requires k < |p|
    requires forall i :: 0 <= i < |s| ==> s[i] != p[k]
    ensures !Contains(s, p)
    decreases |s|
  {
    if |s| > 0 {
      assert !StartsWith(s, p) by {
        if |p| <= |s| {
          assert s[..|p|][k] == s[k];
        }
      }
      MissingCharNotContained(s[1..], p, k);
    }
  }

  /** An occurrence of `p` at index `k` is an occurrence in `s`. */
  lemma {:induction false} ContainsAt(s: string, p: string, k: nat)
    requires OccursAt(s, p, k)
    ensures Contains(s, p)
    decreases k
  {
    if k > 0 {
      assert s[1..][k - 1..k - 1 + |p|] == s[k..k + |p|];
      ContainsAt(s[1..], p, k - 1);
    }
  }

  /** A string whose first character differs from that of `p` does not start with `p`. */
  lemma FirstCharMismatch(s: string, p: string)
    requires |p| > 0 && (s == [] || s[0] != p[0])
    ensures !StartsWith(s, p)
  {
  }

  /** The characters of `s` that satisfy `keep`, in order. */
  function Filter(s: string, keep: char -> bool): (r: string)
    ensures |r| <= |s|
    ensures forall i :: 0 <= i < |r| ==> keep(r[i])
    decreases |s|
  {
    if s == [] then []
    else if keep(s[0]) then [s[0]] + Filter(s[1..], keep)
    else Filter(s[1..], keep)
  }

  lemma {:induction false} FilterAppend(a: string, b: string, keep: char -> bool)
    ensures Filter(a + b, keep) == Filter(a, keep) + Filter(b, keep)
    decreases |a|
  {
    if a == [] {
      assert a + b == b;
    } else {
      assert (a + b)[1..] == a[1..] + b;
      FilterAppend(a[1..], b, keep);
    }
  }

  /** Filtering keeps a string all of whose characters are kept. */
  lemma {:induction false} FilterAll(s: string, keep: char -> bool)
    requires forall i :: 0 <= i < |s| ==> keep(s[i])
    ensures Filter(s, keep) == s
    decreases |s|
  {
    if s != [] {
      FilterAll(s[1..], keep);
      assert [s[0]] + s[1..] == s;
    }
  }

  /** Every character of the filtered string has a property every character
      of the original has. */
  lemma {:induction false} FilterPreserves(s: string, keep: char -> bool, p: char -> bool)
    requires forall i :: 0 <= i < |s| ==> p(s[i])
    ensures forall i :: 0 <= i < |Filter(s, keep)| ==> p(Filter(s, keep)[i])
    decreases |s|
  {
    if s != [] {
      FilterPreserves(s[1..], keep, p);
    }
  }

  /** Filtering drops a string none of whose characters is kept. */
  lemma {:induction false} FilterNone(s: string, keep: char -> bool)
    requires forall i :: 0 <= i < |s| ==> !keep(s[i])
    ensures Filter(s, keep) == []
    decreases |s|
  {
    if s != [] {
      FilterNone(s[1..], keep);
    }
  }

  /** Cutting off a prefix none of whose characters is kept leaves the
      filtered string as it was. */
  lemma {:induction false} FilterDropsPrefix(s: string, keep: char -> bool, lo: nat)
    requires lo <= |s|
    requires forall i :: 0 <= i < lo ==> !keep(s[i])
    ensures Filter(s[lo..], keep) == Filter(s, keep)
    decreases lo
  {
    if lo == 0 {
      assert s[lo..] == s;
    } else {
      assert s[1..][lo - 1..] == s[lo..];
      FilterDropsPrefix(s[1..], keep, lo - 1);
    }
  }

  /** Cutting off a suffix none of whose characters is kept leaves the
      filtered string as it was. */
  lemma FilterDropsSuffix(s: string, keep: char -> bool, hi: nat)
    requires hi <= |s|
    requires forall i :: hi <= i < |s| ==> !keep(s[i])
    ensures Filter(s[..hi], keep) == Filter(s, keep)
  {
    var a, b := s[..hi], s[hi..];
    assert s == a + b;
    FilterAppend(a, b, keep);
    forall i | 0 <= i < |b|
      ensures !keep(b[i])
    {
      assert b[i] == s[hi + i];
    }
    FilterNone(b, keep);
  }

  /** Cutting off ends none of whose characters is kept leaves the filtered
      string as it was. */
  lemma FilterDropsEnds(s: string, keep: char -> bool, lo: int, hi: int)
    requires 0 <= lo <= hi <= |s|
    requires forall i :: 0 <= i < lo ==> !keep(s[i])
    requires forall i :: hi <= i < |s| ==> !keep(s[i])
    ensures Filter(s[lo..hi], keep) == Filter(s, keep)
  {
    var t := s[..hi];
    assert t[lo..] == s[lo..hi];
    FilterDropsSuffix(s, keep, hi);
    FilterDropsPrefix(t, keep, lo);
  }

  /** Filtering twice, the second time with a stricter test, is filtering
      once with the stricter test. */
  lemma {:induction false} FilterFilter(s: string, keep: char -> bool, strict: char -> bool)
    requires forall x :: strict(x) ==> keep(x)
    ensures Filter(Filter(s, keep), strict) == Filter(s, strict)
    decreases |s|
  {
    if s != [] {
      FilterFilter(s[1..], keep, strict);
    }
  }

  /** Trimming characters of `p` off both ends drops nothing `keep` keeps,
      when `keep` accepts no character of `p`. */
  lemma FilterTrimBoth(s: string, p: char -> bool, keep: char -> bool)
    requires forall x :: keep(x) ==> !p(x)
    ensures Filter(TrimRight(TrimLeft(s, p), p), keep) == Filter(s, keep)
  {
    var t := TrimLeft(s, p);
    FilterDropsPrefix(s, keep, |s| - |t|);
    var u := TrimRight(t, p);
    FilterDropsSuffix(t, keep, |u|);
  }

  /** A property every character of `s` has holds in every slice of `s`. */
  lemma AllInSlice(s: string, p: char -> bool, lo: int, hi: int)
    requires 0 <= lo <= hi <= |s|
    requires forall i :: 0 <= i < |s| ==> p(s[i])
    ensures forall i :: 0 <= i < hi - lo ==> p(s[lo..hi][i])
  {
  }

  /** The length of the longest prefix of `s` whose characters all satisfy `p`. */
  function PrefixRun(s: string, p: char -> bool): (n: nat)
    ensures n <= |s|
    ensures forall i :: 0 <= i < n ==> p(s[i])
    ensures n == |s| || !p(s[n])
    decreases |s|
  {
    if s == [] || !p(s[0]) then 0 else 1 + PrefixRun(s[1..], p)
  }

  /** The length of the longest suffix of `s` whose characters all satisfy `p`. */
  function SuffixRun(s: string, p: char -> bool): (n: nat)
    ensures n <= |s|
    ensures forall i :: |s| - n <= i < |s| ==> p(s[i])
    ensures n == |s| || !p(s[|s| - n - 1])
    decreases |s|
  {
    if s == [] || !p(s[|s| - 1]) then 0 else 1 + SuffixRun(s[..|s| - 1], p)
  }

  /** Drops the longest prefix whose characters all satisfy `p`. */
  function TrimLeft(s: string, p: char -> bool): (r: string)
    ensures |r| <= |s| && r == s[|s| - |r|..]
    ensures r == [] || !p(r[0])
    ensures forall i :: 0 <= i < |s| - |r| ==> p(s[i])
  {
    s[PrefixRun(s, p)..]
  }

  /** Drops the longest suffix whose characters all satisfy `p`. */
  function TrimRight(s: string, p: char -> bool): (r: string)
    ensures |r| <= |s| && r == s[..|r|]
    ensures r == [] || !p(r[|r| - 1])
    ensures forall i :: |r| <= i < |s| ==> p(s[i])
  {
    s[..|s| - SuffixRun(s, p)]
  }

  /** Trimming a string whose ends fail `p` changes nothing. */
  lemma TrimNothing(s: string, p: char -> bool)
    requires s == [] || (!p(s[0]) && !p(s[|s| - 1]))
    ensures TrimRight(TrimLeft(s, p), p) == s
  {
  }

  /** Trimming a string that starts with a character satisfying `p` is
      trimming its tail. */
  lemma TrimLeftStep(s: string, p: char -> bool)
    requires s != [] && p(s[0])
    ensures TrimLeft(s, p) == TrimLeft(s[1..], p)
  {
    assert s[1 + PrefixRun(s[1..], p)..] == s[1..][PrefixRun(s[1..], p)..];
  }

  /** Trimming both ends leaves the slice of `s` from `off` on whose first and
      last characters fail `p`: Python's `s.strip(chars)`. */
  lemma TrimBothSlice(s: string, p: char -> bool) returns (off: nat, len: nat)
    ensures off + len <= |s|
    ensures TrimRight(TrimLeft(s, p), p) == s[off..off + len]
    ensures len > 0 ==> !p(s[off]) && !p(s[off + len - 1])
  {
    var t := TrimLeft(s, p);
    var r := TrimRight(t, p);
    off, len := |s| - |t|, |r|;
    assert r == s[off..off + |r|];
    if r != [] {
      assert s[off] == r[0];
      assert s[off + |r| - 1] == r[|r| - 1];
    }
  }

  /** Python's `str.strip()` with no argument. The result is the part of `s`
      that starts at `LeadingSpace(s)`; everything cut off is white space and
      the result neither starts nor ends with white space. */
  function Strip(s: string): (r: string)
    ensures LeadingSpace(s) + |r| <= |s|
    ensures r == s[LeadingSpace(s)..LeadingSpace(s) + |r|]
    ensures forall i :: 0 <= i < LeadingSpace(s) ==> IsSpace(s[i])
    ensures forall i :: LeadingSpace(s) + |r| <= i < |s| ==> IsSpace(s[i])
    ensures r == [] || (!IsSpace(r[0]) && !IsSpace(r[|r| - 1]))
  {
    var t := TrimLeft(s, IsSpace);
    var r := TrimRight(t, IsSpace);
    assert r == [] || r[0] == t[0];
    r
  }

  /** The number of white-space characters `Strip` removes at the front. */
  function LeadingSpace(s: string): nat {
    |s| - |TrimLeft(s, IsSpace)|
  }

  /** A string that neither starts nor ends with white space is its own strip. */
  lemma StripStripped(s: string)
    requires s == [] || (!IsSpace(s[0]) && !IsSpace(s[|s| - 1]))
    ensures Strip(s) == s
  {
  }

  lemma {:induction false} PrefixRunPadded(pre: string, rest: string, p: char -> bool)
    requires forall i :: 0 <= i < |pre| ==> p(pre[i])
    requires rest != [] && !p(rest[0])
    ensures PrefixRun(pre + rest, p) == |pre|
    decreases |pre|
  {
    if pre != [] {
      assert (pre + rest)[1..] == pre[1..] + rest;
      PrefixRunPadded(pre[1..], rest, p);
    } else {
      assert pre + rest == rest;
    }
  }

  lemma {:induction false} SuffixRunPadded(rest: string, post: string, p: char -> bool)
    requires forall i :: 0 <= i < |post| ==> p(post[i])
    requires rest != [] && !p(rest[|rest| - 1])
    ensures SuffixRun(rest + post, p) == |post|
    decreases |post|
  {
    if post != [] {
      var s := rest + post;
      assert s[..|s| - 1] == rest + post[..|post| - 1];
      SuffixRunPadded(rest, post[..|post| - 1], p);
    } else {
      assert rest + post == rest;
    }
  }

  /** Characters satisfying `p` around a string whose ends fail `p` are
      exactly what trimming removes. */
  lemma TrimPadded(pre: string, u: string, post: string, p: char -> bool)
    requires forall i :: 0 <= i < |pre| ==> p(pre[i])
    requires forall i :: 0 <= i < |post| ==> p(post[i])
    requires u != [] && !p(u[0]) && !p(u[|u| - 1])
    ensures TrimRight(TrimLeft(pre + u + post, p), p) == u
  {
    assert pre + u + post == pre + (u + post);
    PrefixRunPadded(pre, u + post, p);
    assert (pre + (u + post))[|pre|..] == u + post;
    SuffixRunPadded(u, post, p);
    assert (u + post)[..|u|] == u;
  }

  /** White space around a string that neither starts nor ends with white
      space is exactly what `Strip` removes. */
  lemma StripPadded(pre: string, u: string, post: string)
    requires forall i :: 0 <= i < |pre| ==> IsSpace(pre[i])
    requires forall i :: 0 <= i < |post| ==> IsSpace(post[i])
    requires u != [] && !IsSpace(u[0]) && !IsSpace(u[|u| - 1])
    ensures Strip(pre + u + post) == u
  {
    TrimPadded(pre, u, post, IsSpace);
  }

  /** Stripping is idempotent. */
  lemma StripIdempotent(s: string)
    ensures Strip(Strip(s)) == Strip(s)
  {
    StripStripped(Strip(s));
  }

  /** Index normalisation of a Python slice bound: a negative index counts from
      the end, and the result is clamped into `0..n`. */
  function PyIndex(i: int, n: nat): (k: nat)
    ensures k <= n
    ensures 0 <= i <= n ==> k == i
    ensures -(n as int) <= i < 0 ==> k == i + n
  {
    if i < 0 then (if i + n < 0 then 0 else i + n) else if i > n then n else i
  }

  /** Python's `s[a:b]`, including negative and out-of-range bounds. */
  function PySlice(s: string, a: int, b: int): (r: string)
    ensures |r| <= |s|
    ensures 0 <= a <= b <= |s| ==> r == s[a..b]
    ensures 0 <= b <= a ==> r == []
    ensures a <= b ==> |r| <= b - a
  {
    var lo := PyIndex(a, |s|);
    var hi := PyIndex(b, |s|);
    if lo < hi then s[lo..hi] else []
  }

  /** Python's `s.rfind(p)` for a non-empty `p`: the last index where `p`
      occurs, or -1. */
  function RFind(s: string, p: string): (r: int)
    requires |p| > 0
    ensures r == -1 || OccursAt(s, p, r)
    ensures forall i :: r < i ==> !OccursAt(s, p, i)
  {
    RFindAtOrBelow(s, p, |s| - |p|)
  }

  function RFindAtOrBelow(s: string, p: string, k: int): (r: int)
    requires |p| > 0
    requires k <= |s| - |p|
    ensures r == -1 || (r <= k && OccursAt(s, p, r))
    ensures forall i :: r < i <= k ==> !OccursAt(s, p, i)
    decreases k + 1
  {
    if k < 0 then -1 else if OccursAt(s, p, k) then k else RFindAtOrBelow(s, p, k - 1)
  }

  /** Python's `s.replace(pat, repl)` for a non-empty `pat`: every occurrence,
      found left to right without overlap, is replaced. */
  function ReplaceAll(s: string, pat: string, repl: string): string
    requires |pat| > 0
    decreases |s|
  {
    if |s| < |pat| then s
    else if StartsWith(s, pat) then repl + ReplaceAll(s[|pat|..], pat, repl)
    else [s[0]] + ReplaceAll(s[1..], pat, repl)
  }

  /** Python's `s.split(sep)` for a non-empty `sep`. */
  function Split(s: string, sep: string): (parts: seq<string>)
    requires |sep| > 0
    ensures |parts| >= 1
    decreases |s|
  {
    if |s| < |sep| then [s]
    else if StartsWith(s, sep) then [[]] + Split(s[|sep|..], sep)
    else
      var rest := Split(s[1..], sep);
      [[s[0]] + rest[0]] + rest[1..]
  }

  /** Python's `sep.join(parts)`. */
  function Join(sep: string, parts: seq<string>): string
    decreases |parts|
  {
    if |parts| == 0 then []
    else if |parts| == 1 then parts[0]
    else parts[0] + sep + Join(sep, parts[1..])
  }

  /** A string without `pat` is left unchanged by `replace`. */
  lemma {:induction false} ReplaceAllAbsent(s: string, pat: string, repl: string)
    requires |pat| > 0
    requires !Contains(s, pat)
    ensures ReplaceAll(s, pat, repl) == s
    decreases |s|
  {
    if |s| >= |pat| {
      ReplaceAllAbsent(s[1..], pat, repl);
      assert s == [s[0]] + s[1..];
    }
  }

  lemma JoinConsHead(sep: string, c: char, parts: seq<string>)
    requires |parts| >= 1
    ensures Join(sep, [[c] + parts[0]] + parts[1..]) == [c] + Join(sep, parts)
  {
    var ps := [[c] + parts[0]] + parts[1..];
    assert ps[1..] == parts[1..];
  }

  /** `replace` agrees with its reference definition in Python's data model:
      `s.replace(pat, repl) == repl.join(s.split(pat))`. */
  lemma {:induction false} ReplaceAllIsJoinOfSplit(s: string, pat: string, repl: string)
    requires |pat| > 0
    ensures ReplaceAll(s, pat, repl) == Join(repl, Split(s, pat))
    decreases |s|
  {
    if |s| < |pat| {
    } else if StartsWith(s, pat) {
      ReplaceAllIsJoinOfSplit(s[|pat|..], pat, repl);
      var ps := [[]] + Split(s[|pat|..], pat);
      assert ps[1..] == Split(s[|pat|..], pat);
    } else {
      ReplaceAllIsJoinOfSplit(s[1..], pat, repl);
      JoinConsHead(repl, s[0], Split(s[1..], pat));
    }
  }

  /** Splitting on a one-character separator a string that lacks it gives the
      string itself. */
  lemma {:induction false} SplitWithoutSeparator(p: string, sep: string)
    requires |sep| == 1 && sep[0] !in p
    ensures Split(p, sep) == [p]
    decreases |p|
  {
    if |p| >= 1 {
      SplitWithoutSeparator(p[1..], sep);
      assert [p[0]] + p[1..] == p;
    }
  }

  lemma {:induction false} SplitAfterFirstPart(p: string, sep: string, rest: string)
    requires |sep| == 1 && sep[0] !in p
    ensures Split(p + sep + rest, sep) == [p] + Split(rest, sep)
    decreases |p|
  {
    var s := p + sep + rest;
    if p == [] {
      assert s[|sep|..] == rest;
    } else {
      assert s[1..] == p[1..] + sep + rest;
      SplitAfterFirstPart(p[1..], sep, rest);
      assert [p[0]] + p[1..] == p;
    }
  }

  /** Joining with a one-character separator that no part contains, and then
      splitting on it, gives back the parts. */
  lemma {:induction false} SplitOfJoin(parts: seq<string>, sep: string)
    requires |sep| == 1 && |parts| >= 1
    requires forall i :: 0 <= i < |parts| ==> sep[0] !in parts[i]
    ensures Split(Join(sep, parts), sep) == parts
    decreases |parts|
  {
    if |parts| == 1 {
      SplitWithoutSeparator(parts[0], sep);
    } else {
      SplitOfJoin(parts[1..], sep);
      SplitAfterFirstPart(parts[0], sep, Join(sep, parts[1..]));
      assert [parts[0]] + parts[1..] == parts;
    }
  }

  /** `re.sub(r'[C]+', rep, s)` where `sep` is the class `C`: every maximal run
      of characters in `sep` becomes one `rep`; other characters are kept. */
  function CollapseRuns(s: string, sep: char -> bool, rep: char): (r: string)
    ensures |s| > 0 <==> |r| > 0
    ensures |s| > 0 && sep(s[0]) ==> r[0] == rep
    ensures |s| > 0 && !sep(s[0]) ==> r[0] == s[0]
    ensures forall i :: 0 <= i < |r| ==> r[i] == rep || !sep(r[i])
    ensures sep(rep) ==> forall i :: 0 <= i < |r| - 1 ==> !sep(r[i]) || !sep(r[i + 1])
    decreases |s|
  {
    if s == [] then []
    else if sep(s[0]) then [rep] + CollapseRuns(TrimLeft(s[1..], sep), sep, rep)
    else [s[0]] + CollapseRuns(s[1..], sep, rep)
  }

  /** Every character of the trimmed string has a property every character
      of the original has. */
  lemma TrimLeftPreserves(s: string, q: char -> bool, p: char -> bool)
    requires forall i :: 0 <= i < |s| ==> p(s[i])
    ensures forall i :: 0 <= i < |TrimLeft(s, q)| ==> p(TrimLeft(s, q)[i])
  {
    var n := PrefixRun(s, q);
    assert forall i :: 0 <= i < |s| - n ==> s[n..][i] == s[n + i];
  }

  /** Every character of the collapsed string has a property that `rep` and
      every character of the original have. */
  lemma {:induction false} CollapseRunsPreserves(s: string, sep: char -> bool, rep: char, p: char -> bool)
    requires p(rep)
    requires forall i :: 0 <= i < |s| ==> p(s[i])
    ensures forall i :: 0 <= i < |CollapseRuns(s, sep, rep)| ==> p(CollapseRuns(s, sep, rep)[i])
    decreases |s|
  {
    if s != [] {
      if sep(s[0]) {
        var t := TrimLeft(s[1..], sep);
        TrimLeftPreserves(s[1..], sep, p);
        CollapseRunsPreserves(t, sep, rep, p);
      } else {
        CollapseRunsPreserves(s[1..], sep, rep, p);
      }
    }
  }

  /** A string whose class characters are all `rep`, none next to another, is
      already collapsed. */
  lemma {:induction false} CollapseRunsFixpoint(s: string, sep: char -> bool, rep: char)
    requires forall i :: 0 <= i < |s| ==> sep(s[i]) ==> s[i] == rep
    requires forall i :: 0 <= i < |s| - 1 ==> !sep(s[i]) || !sep(s[i + 1])
    ensures CollapseRuns(s, sep, rep) == s
    decreases |s|
  {
    if s != [] {
      CollapseRunsFixpoint(s[1..], sep, rep);
      assert [s[0]] + s[1..] == s;
    }
  }

  /** Trimming characters of `sep` off the front drops nothing `keep` keeps. */
  lemma FilterTrimLeft(s: string, sep: char -> bool, keep: char -> bool)
    requires forall x :: keep(x) == !sep(x)
    ensures Filter(TrimLeft(s, sep), keep) == Filter(s, keep)
  {
    FilterDropsPrefix(s, keep, PrefixRun(s, sep));
  }

  /** Collapsing runs of a class that contains `rep` keeps every character
      outside the class (the characters `keep` accepts), in order. */
  lemma {:induction false} CollapseRunsKeepsOthers(s: string, sep: char -> bool, rep: char, keep: char -> bool)
    requires sep(rep)
    requires forall x :: keep(x) == !sep(x)
    ensures Filter(CollapseRuns(s, sep, rep), keep) == Filter(s, keep)
    decreases |s|
  {
    if s != [] {
      if sep(s[0]) {
        CollapseRunsKeepsOthers(TrimLeft(s[1..], sep), sep, rep, keep);
        FilterTrimLeft(s[1..], sep, keep);
        var r := CollapseRuns(s, sep, rep);
        assert r[1..] == CollapseRuns(TrimLeft(s[1..], sep), sep, rep);
      } else {
        CollapseRunsKeepsOthers(s[1..], sep, rep, keep);
        var r := CollapseRuns(s, sep, rep);
        assert r[1..] == CollapseRuns(s[1..], sep, rep);
      }
    }
  }

  /** A collapsed string (class characters are `rep` only, never two in a row)
      stays collapsed in every slice. */
  lemma CollapsedSlice(c: string, sep: char -> bool, rep: char, lo: int, hi: int, r: string)
    requires 0 <= lo <= hi <= |c| && r == c[lo..hi]
    requires forall i :: 0 <= i < |c| ==> c[i] == rep || !sep(c[i])
    requires forall i :: 0 <= i < |c| - 1 ==> !sep(c[i]) || !sep(c[i + 1])
    ensures forall i :: 0 <= i < |r| ==> r[i] == rep || !sep(r[i])
    ensures forall i :: 0 <= i < |r| - 1 ==> !sep(r[i]) || !sep(r[i + 1])
  {
    forall i | 0 <= i < |r| - 1
      ensures !sep(r[i]) || !sep(r[i + 1])
    {
      assert r[i] == c[lo + i] && r[i + 1] == c[lo + i + 1];
    }
  }
}
