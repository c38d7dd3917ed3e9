/** The URL allow-list of the ingestion pipeline (`validate_and_sanitize_url`)
    and the post-processing of the sitemap's `<loc>` entries in `get_all_urls`
    of backend/analyze_chunks.py. The HTTP fetch and the XML parse are not
    modelled: the `<loc>` texts arrive as a sequence, in document order. */
module UrlSanitizer {
  import opened Wrappers
  import opened Text

  /** URLs longer than this are rejected. */
  const MaxUrlLength := 2048

  /** The one-off migration shim applied to every `<loc>` before sanitising. */
  const LegacyHost := "https://muhammad-saad-ahmed.github.io/"
  const CanonicalHost := "https://hackathon-in-classnew.vercel.app/"

  predicate HasWebScheme(u: string) {
    StartsWith(u, "http://") || StartsWith(u, "https://")
  }

  /** The lower-cased URL contains one of the four smuggled-scheme patterns.
      Lower-casing is ASCII only (see the README). */
  predicate HasForbiddenPattern(u: string) {
    var l := LowerAscii(u);
    Contains(l, "javascript:") || Contains(l, "vbscript:") || Contains(l, "data:") || Contains(l, "file:")
  }

  /** What an already stripped URL must satisfy to be accepted. */
  predicate Acceptable(u: string) {
    HasWebScheme(u) && !HasForbiddenPattern(u) && |u| <= MaxUrlLength
  }

  /** `validate_and_sanitize_url`: `None` for a rejected URL, otherwise the
      URL with surrounding white space removed. The empty string is rejected
      before stripping; a blank string is rejected by the scheme test. */
  function Sanitize(url: string): (r: Option<string>)
    ensures r.Some? <==> url != [] && Acceptable(Strip(url))
    ensures r.Some? ==> r.value == Strip(url)
  {
    if url == [] then None
    else
      var u := Strip(url);
      if !HasWebScheme(u) then None
      else if HasForbiddenPattern(u) then None
      else if |u| > MaxUrlLength then None
      else Some(u)
  }

  /** An accepted URL is a web URL of at most 2048 characters in which none
      of the four smuggled-scheme patterns occurs, in any letter case. */
  lemma SanitizedIsSafe(url: string)
    requires Sanitize(url).Some?
    ensures var u := Sanitize(url).value;
            && HasWebScheme(u) && |u| <= MaxUrlLength
            && !Contains(LowerAscii(u), "javascript:") && !Contains(LowerAscii(u), "vbscript:")
            && !Contains(LowerAscii(u), "data:") && !Contains(LowerAscii(u), "file:")
  {
  }

  /** Sanitising an accepted URL accepts it again, unchanged. */
  lemma SanitizeIdempotent(url: string, u: string)
    requires Sanitize(url) == Some(u)
    ensures Sanitize(u) == Some(u)
  {
    StripIdempotent(url);
  }

  /** A string without upper-case ASCII letters that misses one character of
      each smuggled-scheme pattern (the one at index `j`, `v`, `d`, `f`
      respectively) has none of them. */
  lemma NoForbiddenPattern(u: string, j: nat, v: nat, d: nat, f: nat)
    requires j < |"javascript:"| && v < |"vbscript:"| && d < |"data:"| && f < |"file:"|
    requires forall i :: 0 <= i < |u| ==>
               && !IsAsciiUpper(u[i])
               && u[i] != "javascript:"[j] && u[i] != "vbscript:"[v]
               && u[i] != "data:"[d] && u[i] != "file:"[f]
    ensures !HasForbiddenPattern(u)
  {
    LowerAsciiIdentity(u);
    MissingCharNotContained(u, "javascript:", j);
    MissingCharNotContained(u, "vbscript:", v);
    MissingCharNotContained(u, "data:", d);
    MissingCharNotContained(u, "file:", f);
  }

  /** A stripped acceptable URL is accepted as it is. */
  lemma AcceptsStripped(u: string)
    requires Acceptable(u) && !IsSpace(u[|u| - 1])
    ensures Sanitize(u) == Some(u)
  {
    StripStripped(u);
  }

  /** The accepted examples of the project's tests come back unchanged. */
  lemma SanitizeAcceptsHttps(u: string)
    requires u == "https://example.com"
    ensures Sanitize(u) == Some(u)
  {
    assert StartsWith(u, "https://");
    NoForbiddenPattern(u, 0, 0, 0, 0);
    AcceptsStripped(u);
  }

  lemma SanitizeAcceptsHttp(u: string)
    requires u == "http://example.com"
    ensures Sanitize(u) == Some(u)
  {
    assert StartsWith(u, "http://");
    NoForbiddenPattern(u, 0, 0, 0, 0);
    AcceptsStripped(u);
  }

  /** White space around a URL that neither starts nor ends with white
      space makes no difference to the verdict. */
  lemma SanitizePadded(pre: string, u: string, post: string)
    requires forall i :: 0 <= i < |pre| ==> IsSpace(pre[i])
    requires forall i :: 0 <= i < |post| ==> IsSpace(post[i])
    requires u != [] && !IsSpace(u[0]) && !IsSpace(u[|u| - 1])
    ensures Sanitize(pre + u + post) == Sanitize(u)
  {
    StripPadded(pre, u, post);
    StripPadded([], u, []);
    assert [] + u + [] == u;
    SanitizeByStrip(pre + u + post, u);
  }

  /** The verdict on a non-empty string depends on its stripped form only. */
  lemma SanitizeByStrip(a: string, b: string)
    requires a != [] && b != [] && Strip(a) == Strip(b)
    ensures Sanitize(a) == Sanitize(b)
  {
  }

  /** Surrounding white space is stripped from an accepted URL. */
  lemma SanitizeStripsExample(padded: string)
    requires padded == "  https://example.com  "
    ensures Sanitize(padded) == Some("https://example.com")
  {
    var u := "https://example.com";
    assert padded == "  " + u + "  ";
    SanitizePadded("  ", u, "  ");
    SanitizeAcceptsHttps(u);
  }

  /** The rejected examples of the project's tests. */
  lemma SanitizeRejectsExamples(u: string)
    requires || u == "javascript:alert(1)"
             || u == "vbscript:alert(1)"
             || u == "data:text/html,<script>alert(1)</script>"
             || u == "ftp://example.com"
             || u == ""
             || u == "not-a-url"
    ensures Sanitize(u) == None
  {
    if u != [] {
      RejectsWithoutScheme(u);
    }
  }

  /** A URL that neither starts with white space nor with `h` is rejected. */
  lemma RejectsWithoutScheme(u: string)
    requires u != [] && !IsSpace(u[0]) && !IsSpace(u[|u| - 1]) && u[0] != 'h'
    ensures Sanitize(u) == None
  {
    StripStripped(u);
    FirstCharMismatch(u, "http://");
    FirstCharMismatch(u, "https://");
  }

  /** A smuggled-scheme pattern occurring in any letter case at any
      position counts as forbidden. */
  lemma ForbiddenAt(u: string, pat: string, k: nat)
    requires pat == "javascript:" || pat == "vbscript:" || pat == "data:" || pat == "file:"
    requires k + |pat| <= |u| && LowerAscii(u[k..k + |pat|]) == pat
    ensures HasForbiddenPattern(u)
  {
    var l := LowerAscii(u);
    assert l[k..k + |pat|] == LowerAscii(u[k..k + |pat|]);
    ContainsAt(l, pat, k);
  }

  /** A stripped URL with a forbidden pattern is rejected, whatever its scheme. */
  lemma RejectsForbidden(u: string)
    requires u != [] && Strip(u) == u
    requires HasForbiddenPattern(u)
    ensures Sanitize(u) == None
  {
  }

  /** A web URL smuggling a forbidden scheme further in, in any letter case,
      is rejected too. */
  lemma SanitizeRejectsSmuggledScheme(pre: string, mid: string, post: string)
    requires var u := pre + mid + post; u != [] && Strip(u) == u
    requires var l := LowerAscii(mid); l == "javascript:" || l == "vbscript:" || l == "data:" || l == "file:"
    ensures Sanitize(pre + mid + post) == None
  {
    var u := pre + mid + post;
    assert u[|pre|..|pre| + |mid|] == mid;
    ForbiddenAt(u, LowerAscii(mid), |pre|);
    RejectsForbidden(u);
  }

  /** The migration shim: every occurrence of the legacy host becomes the
      canonical host. */
  function RewriteLegacyHost(u: string): string {
    ReplaceAll(u, LegacyHost, CanonicalHost)
  }

  /** What becomes of one `<loc>` text: stripped, rewritten, then sanitised. */
  function ProcessLoc(loc: string): Option<string> {
    Sanitize(RewriteLegacyHost(Strip(loc)))
  }

  /** The values `f` keeps, in order. */
  function FilterMap<A, B>(xs: seq<A>, f: A -> Option<B>): (ys: seq<B>)
    ensures |ys| <= |xs|
    decreases |xs|
  {
    if xs == [] then []
    else if f(xs[0]).Some? then [f(xs[0]).value] + FilterMap(xs[1..], f)
    else FilterMap(xs[1..], f)
  }

  /** Every kept value is one `f` gives for some element. */
  lemma {:induction false} FilterMapFrom<A, B>(xs: seq<A>, f: A -> Option<B>)
    ensures forall i :: 0 <= i < |FilterMap(xs, f)| ==> exists k :: 0 <= k < |xs| && f(xs[k]) == Some(FilterMap(xs, f)[i])
    decreases |xs|
  {
    if xs != [] {
      FilterMapFrom(xs[1..], f);
      var rest, ys := FilterMap(xs[1..], f), FilterMap(xs, f);
      forall i | 0 <= i < |ys|
        ensures exists k :: 0 <= k < |xs| && f(xs[k]) == Some(ys[i])
      {
        if f(xs[0]).Some? && i == 0 {
          assert f(xs[0]) == Some(ys[0]);
        } else {
          var j := if f(xs[0]).Some? then i - 1 else i;
          assert ys[i] == rest[j];
          var k :| 0 <= k < |xs[1..]| && f(xs[1..][k]) == Some(rest[j]);
          assert f(xs[k + 1]) == Some(ys[i]);
        }
      }
    } else {
      assert FilterMap(xs, f) == [];
    }
  }

  /** Filter-mapping a concatenation is filter-mapping each part in turn. */
  lemma {:induction false} FilterMapAppend<A, B>(a: seq<A>, b: seq<A>, f: A -> Option<B>)
    ensures FilterMap(a + b, f) == FilterMap(a, f) + FilterMap(b, f)
    decreases |a|
  {
    if a != [] {
      assert (a + b)[0] == a[0] && (a + b)[1..] == a[1..] + b;
      FilterMapAppend(a[1..], b, f);
    } else {
      assert a + b == b;
    }
  }

  /** The loop of `get_all_urls`: the accepted URLs, in `<loc>` order. */
  function SitemapUrls(locs: seq<string>): seq<string> {
    FilterMap(locs, ProcessLoc)
  }

  /** Every URL the loop keeps comes from one of the `<loc>` texts and is
      already sanitised: sanitising it again gives it back unchanged. */
  lemma SitemapUrlsSanitized(locs: seq<string>)
    ensures |SitemapUrls(locs)| <= |locs|
    ensures forall i :: 0 <= i < |SitemapUrls(locs)| ==>
              (exists k :: 0 <= k < |locs| && ProcessLoc(locs[k]) == Some(SitemapUrls(locs)[i]))
              && Sanitize(SitemapUrls(locs)[i]) == Some(SitemapUrls(locs)[i])
  {
    var urls := SitemapUrls(locs);
    FilterMapFrom(locs, ProcessLoc);
    forall i | 0 <= i < |urls|
      ensures Sanitize(urls[i]) == Some(urls[i])
    {
      var k :| 0 <= k < |locs| && ProcessLoc(locs[k]) == Some(urls[i]);
      SanitizeIdempotent(RewriteLegacyHost(Strip(locs[k])), urls[i]);
    }
  }

  /** Together with `SitemapUrlsSingle`, this pins `SitemapUrls` down as the
      order-preserving filter-map of `ProcessLoc`: the URLs of a concatenation
      of sitemap fragments are the concatenation of their URLs. */
  lemma SitemapUrlsAppend(a: seq<string>, b: seq<string>)
    ensures SitemapUrls(a + b) == SitemapUrls(a) + SitemapUrls(b)
  {
    FilterMapAppend(a, b, ProcessLoc);
  }

  lemma SitemapUrlsSingle(loc: string)
    ensures ProcessLoc(loc).Some? ==> SitemapUrls([loc]) == [ProcessLoc(loc).value]
    ensures ProcessLoc(loc).None? ==> SitemapUrls([loc]) == []
  {
    assert [loc][1..] == [];
  }

  /** A `<loc>` on the legacy host is rewritten before it is sanitised: the
      URL kept for it is the canonical host followed by its path, in which
      every further legacy-host occurrence is rewritten too (and which is
      kept unchanged when it holds none). */
  lemma LegacyLocRewritten(loc: string, path: string)
    requires Strip(loc) == LegacyHost + path
    ensures ProcessLoc(loc) == Sanitize(CanonicalHost + RewriteLegacyHost(path))
    ensures !Contains(path, LegacyHost) ==> ProcessLoc(loc) == Sanitize(CanonicalHost + path)
  {
    var s := LegacyHost + path;
    assert StartsWith(s, LegacyHost);
    assert s[|LegacyHost|..] == path;
    if !Contains(path, LegacyHost) {
      ReplaceAllAbsent(path, LegacyHost, CanonicalHost);
    }
  }
}
