/** Naming and filling of Prompt History Records, from `PHRGenerator` in
    backend/phr_generator.py: the next record number in a directory, the slug
    of a title, the directory a record is routed to, its file name, and the
    placeholder substitution that turns the template into the record. The
    directory listing, the template text and the current date are
    parameters; reading and writing files is not modelled. */
module PromptHistory {
  import opened Wrappers
  import opened Text

  // ---------------------------------------------------------------------
  // Decimal numerals

  function DigitValue(c: char): nat
    requires IsAsciiDigit(c)
  {
    c as int - '0' as int
  }

  function DigitChar(d: nat): (c: char)
    requires d < 10
    ensures IsAsciiDigit(c) && DigitValue(c) == d
  {
    ('0' as int + d) as char
  }

  predicate AllDigits(s: string) {
    forall i :: 0 <= i < |s| ==> IsAsciiDigit(s[i])
  }

  /** `int(s)` for a string of ASCII digits (leading zeros allowed). */
  function DigitsValue(s: string): nat
    requires AllDigits(s)
    decreases |s|
  {
    if s == [] then 0 else DigitsValue(s[..|s| - 1]) * 10 + DigitValue(s[|s| - 1])
  }

  /** `str(n)` for a natural number: its shortest decimal numeral. */
  function NatToString(n: nat): (s: string)
    ensures |s| >= 1 && AllDigits(s)
    ensures |s| > 1 ==> s[0] != '0'
    decreases n
  {
    if n < 10 then [DigitChar(n)] else NatToString(n / 10) + [DigitChar(n % 10)]
  }

  /** Reading back a numeral gives the number. */
  lemma {:induction false} NatToStringValue(n: nat)
    ensures DigitsValue(NatToString(n)) == n
    decreases n
  {
    if n >= 10 {
      NatToStringValue(n / 10);
      var s := NatToString(n);
      assert s[..|s| - 1] == NatToString(n / 10);
    }
  }

  /** A leading zero does not change the value of a numeral. */
  lemma {:induction false} LeadingZeroValue(s: string)
    requires AllDigits(s)
    ensures AllDigits(['0'] + s) && DigitsValue(['0'] + s) == DigitsValue(s)
    decreases |s|
  {
    var t := ['0'] + s;
    if s != [] {
      assert t[..|t| - 1] == ['0'] + s[..|s| - 1];
      LeadingZeroValue(s[..|s| - 1]);
    }
  }

  function Zeros(k: nat): (z: string)
    ensures |z| == k && AllDigits(z)
    ensures forall i :: 0 <= i < k ==> z[i] == '0'
  {
    seq(k, i => '0')
  }

  /** `s.zfill(w)` for a string without a sign: padded on the left with `0`
      up to width `w`. */
  function ZFill(s: string, w: nat): (r: string)
    ensures |r| == if |s| >= w then |s| else w
    ensures r[|r| - |s|..] == s
    ensures forall i :: 0 <= i < |r| - |s| ==> r[i] == '0'
  {
    if |s| >= w then s else Zeros(w - |s|) + s
  }

  /** Zero-padding keeps a numeral a numeral of the same value. */
  lemma {:induction false} ZerosValue(k: nat, s: string)
    requires AllDigits(s)
    ensures AllDigits(Zeros(k) + s) && DigitsValue(Zeros(k) + s) == DigitsValue(s)
    decreases k
  {
    if k == 0 {
      assert Zeros(k) + s == s;
    } else {
      ZerosValue(k - 1, s);
      assert Zeros(k) + s == ['0'] + (Zeros(k - 1) + s);
      LeadingZeroValue(Zeros(k - 1) + s);
    }
  }

  lemma ZFillValue(s: string, w: nat)
    requires AllDigits(s)
    ensures AllDigits(ZFill(s, w)) && DigitsValue(ZFill(s, w)) == DigitsValue(s)
  {
    if |s| < w {
      ZerosValue(w - |s|, s);
    }
  }

  // ---------------------------------------------------------------------
  // Record numbers: `_get_next_id`

  const PromptSuffix := ".prompt.md"

  /** The number of leading ASCII digits of `s`. */
  function LeadingDigits(s: string): (n: nat)
    ensures n <= |s|
    ensures AllDigits(s[..n])
    ensures n < |s| ==> !IsAsciiDigit(s[n])
    decreases |s|
  {
    if s == [] || !IsAsciiDigit(s[0]) then 0
    else
      var n := 1 + LeadingDigits(s[1..]);
      assert s[..n] == [s[0]] + s[1..][..n - 1];
      n
  }

  /** `.*\.prompt\.md` matches `s` from index `k` on: `.prompt.md` occurs at
      some `j >= k` and no line break lies between `k` and `j` (`.` does not
      match a line break). */
  predicate SuffixMatchFrom(s: string, k: nat)
    decreases |s| - k
  {
    if OccursAt(s, PromptSuffix, k) then true
    else if k >= |s| || s[k] == '\n' then false
    else SuffixMatchFrom(s, k + 1)
  }

  /** `re.match(r"(\d+)-.*\.prompt\.md", name)`, giving `int(group(1))`. The
      greedy digit run must stop at the `-`, so group 1 is the whole run of
      leading digits. `\d` is taken to be the ASCII digits. */
  function MatchId(name: string): Option<nat> {
    var d := LeadingDigits(name);
    if 0 < d < |name| && name[d] == '-' && SuffixMatchFrom(name, d + 1) then Some(DigitsValue(name[..d]))
    else None
  }

  /** `_get_next_id`: one more than the largest record number in the listing,
      or 1 when no file name carries one. A missing directory is an empty
      listing. */
  function NextId(names: seq<string>): (n: nat)
    ensures n >= 1
    ensures forall i :: 0 <= i < |names| && MatchId(names[i]).Some? ==> MatchId(names[i]).value < n
    decreases |names|
  {
    if names == [] then 1
    else
      var rest := NextId(names[..|names| - 1]);
      match MatchId(names[|names| - 1])
      case None => rest
      case Some(id) => if id + 1 > rest then id + 1 else rest
  }

  /** `NextId` is 1 exactly when no name matches, and otherwise one more than
      a number some name carries: the bound of `NextId`'s contract is tight. */
  lemma NextIdAttained(names: seq<string>)
    ensures NextId(names) == 1 <==> forall i :: 0 <= i < |names| ==> MatchId(names[i]).None? || MatchId(names[i]).value == 0
    ensures NextId(names) > 1 ==> exists i :: 0 <= i < |names| && MatchId(names[i]) == Some(NextId(names) - 1)
  {
    NextIdWitness(names);
  }

  /** The witness for `NextIdAttained`: the name carrying the largest number. */
  lemma {:induction false} NextIdWitness(names: seq<string>)
    ensures NextId(names) > 1 ==> exists i :: 0 <= i < |names| && MatchId(names[i]) == Some(NextId(names) - 1)
    decreases |names|
  {
    if names != [] {
      var init := names[..|names| - 1];
      var last := MatchId(names[|names| - 1]);
      NextIdWitness(init);
      if NextId(names) > 1 && NextId(names) == NextId(init) {
        var i :| 0 <= i < |init| && MatchId(init[i]) == Some(NextId(init) - 1);
        assert names[i] == init[i];
      }
    }
  }

  /** The listing order does not matter; only the largest number does. A
      listing plus one more name yields at least the old next number. */
  lemma NextIdGrows(names: seq<string>, name: string)
    ensures NextId(names + [name]) >= NextId(names)
    ensures MatchId(name).Some? ==> NextId(names + [name]) > MatchId(name).value
  {
    assert (names + [name])[..|names|] == names;
  }

  // ---------------------------------------------------------------------
  // Slugs: `_create_slug`

  predicate IsWordChar(c: char) {
    IsAsciiLower(c) || IsAsciiUpper(c) || IsAsciiDigit(c) || c == '_'
  }

  /** The complement of the class `[^\w\s-]`: what the first substitution keeps. */
  predicate KeptBySlug(c: char) {
    IsWordChar(c) || IsSpace(c) || c == '-'
  }

  /** The class `[\s_-]` whose runs become one `-`. */
  predicate IsSlugSeparator(c: char) {
    IsSpace(c) || c == '_' || c == '-'
  }

  predicate IsDash(c: char) {
    c == '-'
  }

  /** `_create_slug`: lower-case, drop everything but word characters, white
      space and `-`, turn each run of white space, `_` and `-` into one `-`,
      then strip `-` from both ends. `str.lower` and `\w` are taken to be
      ASCII. */
  function CreateSlug(title: string): string {
    var lowered := LowerAscii(title);
    var kept := Filter(lowered, KeptBySlug);
    var dashed := CollapseRuns(kept, IsSlugSeparator, '-');
    TrimRight(TrimLeft(dashed, IsDash), IsDash)
  }

  predicate IsSlugChar(c: char) {
    IsAsciiLower(c) || IsAsciiDigit(c) || c == '-'
  }

  /** No `--` in `s`. */
  predicate NoDoubleDash(s: string) {
    forall i :: 0 <= i < |s| - 1 ==> s[i] != '-' || s[i + 1] != '-'
  }

  /** The shape of every slug: lower-case letters, digits and single dashes
      between them. */
  predicate IsSlug(s: string) {
    && (forall i :: 0 <= i < |s| ==> IsSlugChar(s[i]))
    && (s == [] || (s[0] != '-' && s[|s| - 1] != '-'))
    && NoDoubleDash(s)
  }

  /** A slug character is neither white space nor `_`. */
  lemma SlugCharIsPlain(c: char)
    requires IsSlugChar(c)
    ensures !IsSpace(c) && c != '_' && !IsAsciiUpper(c)
  {
  }

  predicate NotUpper(c: char) {
    !IsAsciiUpper(c)
  }

  /** What survives lower-casing and the first substitution. */
  predicate SlugCandidate(c: char) {
    !IsAsciiUpper(c) && KeptBySlug(c)
  }

  /** What the first two steps leave: lower-case word characters, white
      space and `-`, with `-` for every run of separators. */
  lemma DashedChars(title: string)
    ensures var kept := Filter(LowerAscii(title), KeptBySlug);
            var dashed := CollapseRuns(kept, IsSlugSeparator, '-');
            && (forall i :: 0 <= i < |dashed| ==> IsSlugChar(dashed[i]))
            && NoDoubleDash(dashed)
  {
    var lowered := LowerAscii(title);
    assert forall i :: 0 <= i < |lowered| ==> NotUpper(lowered[i]);
    FilterPreserves(lowered, KeptBySlug, NotUpper);
    var kept := Filter(lowered, KeptBySlug);
    assert forall i :: 0 <= i < |kept| ==> SlugCandidate(kept[i]);
    CollapseRunsPreserves(kept, IsSlugSeparator, '-', SlugCandidate);
    var dashed := CollapseRuns(kept, IsSlugSeparator, '-');
    forall i | 0 <= i < |dashed|
      ensures IsSlugChar(dashed[i])
    {
      assert SlugCandidate(dashed[i]);
    }
  }

  /** A slice of a string of slug characters without `--` is a slug when
      it neither starts nor ends with `-`. */
  lemma SliceIsSlug(d: string, lo: int, hi: int)
    requires 0 <= lo <= hi <= |d|
    requires forall i :: 0 <= i < |d| ==> IsSlugChar(d[i])
    requires NoDoubleDash(d)
    requires lo < hi ==> d[lo] != '-' && d[hi - 1] != '-'
    ensures IsSlug(d[lo..hi])
  {
    AllInSlice(d, IsSlugChar, lo, hi);
    var r := d[lo..hi];
    forall i | 0 <= i < |r| - 1
      ensures r[i] != '-' || r[i + 1] != '-'
    {
      assert r[i] == d[lo + i] && r[i + 1] == d[lo + i + 1];
    }
  }

  /** Stripping the dashes off the ends of a string of slug characters
      without `--` leaves a slug. */
  lemma TrimDashes(d: string)
    requires forall i :: 0 <= i < |d| ==> IsSlugChar(d[i])
    requires NoDoubleDash(d)
    ensures IsSlug(TrimRight(TrimLeft(d, IsDash), IsDash))
  {
    var off, len := TrimBothSlice(d, IsDash);
    SliceIsSlug(d, off, off + len);
  }

  /** Every slug has the slug shape: no upper case, white space or `_`, no
      `--`, and no `-` at either end. */
  lemma CreateSlugIsSlug(title: string)
    ensures IsSlug(CreateSlug(title))
  {
    DashedChars(title);
    TrimDashes(CollapseRuns(Filter(LowerAscii(title), KeptBySlug), IsSlugSeparator, '-'));
  }

  /** The characters of a slug survive the first two steps of slugging. */
  lemma SlugCharsPlain(s: string)
    requires forall i :: 0 <= i < |s| ==> IsSlugChar(s[i])
    ensures forall i :: 0 <= i < |s| ==> !IsAsciiUpper(s[i]) && KeptBySlug(s[i])
    ensures forall i :: 0 <= i < |s| ==> IsSlugSeparator(s[i]) ==> s[i] == '-'
  {
    forall i | 0 <= i < |s|
      ensures !IsAsciiUpper(s[i]) && KeptBySlug(s[i]) && (IsSlugSeparator(s[i]) ==> s[i] == '-')
    {
      SlugCharIsPlain(s[i]);
    }
  }

  /** A string of slug shape is its own slug. */
  lemma SlugFixpoint(s: string)
    requires IsSlug(s)
    ensures CreateSlug(s) == s
  {
    SlugCharsPlain(s);
    LowerAsciiIdentity(s);
    FilterAll(s, KeptBySlug);
    CollapseRunsFixpoint(s, IsSlugSeparator, '-');
    TrimNothing(s, IsDash);
  }

  predicate IsLowerAlnum(c: char) {
    IsAsciiLower(c) || IsAsciiDigit(c)
  }

  predicate NotSlugSeparator(c: char) {
    !IsSlugSeparator(c)
  }

  /** A lower-case ASCII letter or digit is kept by every step of slugging. */
  lemma LowerAlnumIsKept()
    ensures forall x :: IsLowerAlnum(x) ==> !IsDash(x) && NotSlugSeparator(x) && KeptBySlug(x)
    ensures forall x :: NotSlugSeparator(x) == !IsSlugSeparator(x)
  {
    forall x | IsLowerAlnum(x)
      ensures !IsSpace(x)
    {
      assert 'a' <= x <= 'z' || '0' <= x <= '9';
    }
  }

  /** What a slug keeps of its title: the title's lower-cased ASCII letters
      and digits, all of them and in order; everything else is a `-` or gone. */
  lemma CreateSlugKeepsAlnum(title: string)
    ensures Filter(CreateSlug(title), IsLowerAlnum) == Filter(LowerAscii(title), IsLowerAlnum)
  {
    var lowered := LowerAscii(title);
    var kept := Filter(lowered, KeptBySlug);
    var dashed := CollapseRuns(kept, IsSlugSeparator, '-');
    LowerAlnumIsKept();
    FilterTrimBoth(dashed, IsDash, IsLowerAlnum);
    FilterFilter(dashed, NotSlugSeparator, IsLowerAlnum);
    CollapseRunsKeepsOthers(kept, IsSlugSeparator, '-', NotSlugSeparator);
    FilterFilter(kept, NotSlugSeparator, IsLowerAlnum);
    FilterFilter(lowered, KeptBySlug, IsLowerAlnum);
  }

  /** Slugging a slug changes nothing. */
  lemma CreateSlugIdempotent(title: string)
    ensures CreateSlug(CreateSlug(title)) == CreateSlug(title)
  {
    CreateSlugIsSlug(title);
    SlugFixpoint(CreateSlug(title));
  }

  // ---------------------------------------------------------------------
  // Routing and file names

  /** The stages that go to a feature's directory. */
  const FeatureStages := ["spec", "plan", "tasks", "red", "green", "refactor", "explainer", "misc"]

  /** The directory, under the history root, a record of `stage` goes to. */
  function Route(stage: string, feature: Option<string>): string {
    if stage == "constitution" then "constitution"
    else if feature.Some? && feature.value != [] && stage in FeatureStages then feature.value
    else "general"
  }

  /** `os.path.join(a, b)` on POSIX: an absolute `b` replaces `a`; otherwise a
      `/` is inserted unless `a` is empty or already ends with one. */
  function PathJoin(a: string, b: string): string {
    if StartsWith(b, "/") then b
    else if a == [] || a[|a| - 1] == '/' then a + b
    else a + "/" + b
  }

  /** `f"{str(phr_id).zfill(3)}-{slug}.{stage}.prompt.md"`. */
  function FileName(id: nat, slug: string, stage: string): string {
    ZFill(NatToString(id), 3) + "-" + slug + "." + stage + PromptSuffix
  }

  lemma {:induction false} LeadingDigitsOf(a: string, b: string)
    requires AllDigits(a)
    requires b == [] || !IsAsciiDigit(b[0])
    ensures LeadingDigits(a + b) == |a|
    decreases |a|
  {
    if a != [] {
      assert (a + b)[1..] == a[1..] + b;
      LeadingDigitsOf(a[1..], b);
    } else {
      assert a + b == b;
    }
  }

  /** `.*\.prompt\.md` matches when `.prompt.md` occurs at `j >= k` with no
      line break in between. */
  lemma {:induction false} SuffixMatchWhen(s: string, k: nat, j: nat)
    requires k <= j && OccursAt(s, PromptSuffix, j)
    requires forall i :: k <= i < j ==> s[i] != '\n'
    ensures SuffixMatchFrom(s, k)
    decreases j - k
  {
    if k < j && !OccursAt(s, PromptSuffix, k) {
      SuffixMatchWhen(s, k + 1, j);
    }
  }

  /** A name made of a prefix, a part without line breaks and `.prompt.md`
      matches `.*\.prompt\.md` right after the prefix. */
  lemma SuffixMatchAfter(pre: string, mid: string)
    requires forall i :: 0 <= i < |mid| ==> mid[i] != '\n'
    ensures SuffixMatchFrom(pre + mid + PromptSuffix, |pre|)
  {
    var name := pre + mid + PromptSuffix;
    var j := |pre| + |mid|;
    assert name[j..j + |PromptSuffix|] == PromptSuffix;
    forall i | |pre| <= i < j
      ensures name[i] != '\n'
    {
      assert name[i] == mid[i - |pre|];
    }
    SuffixMatchWhen(name, |pre|, j);
  }

  /** A numeral, a `-`, a part without line breaks and `.prompt.md`: the
      shape `_get_next_id` reads the numeral back from. */
  lemma MatchIdOfShape(z: string, mid: string)
    requires |z| > 0 && AllDigits(z)
    requires forall i :: 0 <= i < |mid| ==> mid[i] != '\n'
    ensures MatchId(z + "-" + mid + PromptSuffix) == Some(DigitsValue(z))
  {
    var rest := "-" + mid + PromptSuffix;
    var name := z + rest;
    assert z + "-" + mid + PromptSuffix == name == (z + "-") + mid + PromptSuffix;
    LeadingDigitsOf(z, rest);
    SuffixMatchAfter(z + "-", mid);
    MatchIdAt(name, z);
  }

  /** The match of a name that opens with the digit run `z` and a `-`. */
  lemma MatchIdAt(name: string, z: string)
    requires 0 < |z| < |name| && name[..|z|] == z && name[|z|] == '-'
    requires LeadingDigits(name) == |z| && SuffixMatchFrom(name, |z| + 1)
    ensures MatchId(name) == Some(DigitsValue(z))
  {
  }

  /** The middle of a file name, `slug.stage`, holds no line break when the
      stage holds none. */
  lemma SlugStageNoNewline(slug: string, stage: string)
    requires IsSlug(slug)
    requires '\n' !in stage
    ensures forall i :: 0 <= i < |slug + "." + stage| ==> (slug + "." + stage)[i] != '\n'
  {
    var mid := slug + "." + stage;
    forall i | 0 <= i < |mid|
      ensures mid[i] != '\n'
    {
      if i < |slug| {
        assert mid[i] == slug[i];
      } else if i > |slug| {
        assert mid[i] == stage[i - |slug| - 1];
      }
    }
  }

  /** The file name of record `id` parses back to `id`, provided the stage
      holds no line break (the slug never does). */
  lemma FileNameRoundTrip(id: nat, slug: string, stage: string)
    requires IsSlug(slug)
    requires '\n' !in stage
    ensures MatchId(FileName(id, slug, stage)) == Some(id)
  {
    var z := ZFill(NatToString(id), 3);
    var mid := slug + "." + stage;
    assert FileName(id, slug, stage) == z + "-" + mid + PromptSuffix;
    ZFillValue(NatToString(id), 3);
    NatToStringValue(id);
    SlugStageNoNewline(slug, stage);
    MatchIdOfShape(z, mid);
  }

  /** Writing record `NextId(names)` into a directory makes the next record
      number one higher: numbers are handed out in sequence. */
  lemma NextIdAfterWrite(names: seq<string>, slug: string, stage: string)
    requires IsSlug(slug)
    requires '\n' !in stage
    ensures NextId(names + [FileName(NextId(names), slug, stage)]) == NextId(names) + 1
  {
    var name := FileName(NextId(names), slug, stage);
    FileNameRoundTrip(NextId(names), slug, stage);
    assert (names + [name])[..|names|] == names;
  }

  // ---------------------------------------------------------------------
  // Filling the template: `generate_phr`

  /** The arguments of `generate_phr`. `feature` is `None` when not given;
      `links` maps link kinds (`spec`, `ticket`, `adr`, `pr`) to URLs. */
  datatype PhrRequest = PhrRequest(
    promptText: string, responseText: string, title: string, stage: string,
    feature: Option<string>, model: string, branch: string, user: string,
    command: string, labels: seq<string>, links: map<string, string>,
    files: seq<string>, tests: seq<string>, outcomeImpact: string,
    testsSummary: string, filesSummary: string, nextPrompts: string,
    reflectionNote: string, failureModes: string, graderResults: string,
    promptVariantId: string, nextExperiment: string)

  /** A request that gives only the four required arguments; every other
      argument takes its default. */
  function DefaultRequest(promptText: string, responseText: string, title: string, stage: string): PhrRequest {
    PhrRequest(promptText, responseText, title, stage, None, "gemini-1.5-flash", "main", "default_user",
               "", [], map[], [], [], "", "", "", "", "", "", "", "", "")
  }

  /** The names of the template placeholders, in the order they are
      substituted. */
  const PlaceholderNames: seq<string> := [
    "ID", "TITLE", "STAGE", "DATE_ISO", "SURFACE", "MODEL", "FEATURE", "BRANCH",
    "USER", "COMMAND", "LABELS", "LINKS_SPEC", "LINKS_TICKET", "LINKS_ADR",
    "LINKS_PR", "FILES_YAML", "TESTS_YAML", "PROMPT_TEXT", "RESPONSE_TEXT",
    "OUTCOME_IMPACT", "TESTS_SUMMARY", "FILES_SUMMARY", "NEXT_PROMPTS",
    "REFLECTION_NOTE", "FAILURE_MODES", "GRADER_RESULTS", "PROMPT_VARIANT_ID",
    "NEXT_EXPERIMENT"]

  /** The placeholder `{{NAME}}` as it appears in the template. */
  function Placeholder(name: string): (key: string)
    ensures |key| == |name| + 4 && StartsWith(key, "{{")
  {
    "{{" + name + "}}"
  }

  /** `feature if feature else "none"`. */
  function FeatureValue(feature: Option<string>): string {
    if feature.Some? && feature.value != [] then feature.value else "none"
  }

  /** `links.get(kind) if links.get(kind) else "null"`. */
  function LinkValue(links: map<string, string>, kind: string): string {
    if kind in links && links[kind] != [] then links[kind] else "null"
  }

  function YamlItems(xs: seq<string>): (items: seq<string>)
    ensures |items| == |xs|
    ensures forall i :: 0 <= i < |xs| ==> items[i] == "  - " + xs[i]
  {
    seq(|xs|, i requires 0 <= i < |xs| => "  - " + xs[i])
  }

  /** A YAML block list, one `  - x` line per element, or `  - none` for an
      empty list. */
  function YamlList(xs: seq<string>): string {
    var joined := Join("\n", YamlItems(xs));
    if joined != [] then joined else "  - none"
  }

  /** `', '.join(f'"{label}"' for label in labels)`. */
  function LabelList(labels: seq<string>): string {
    Join(", ", seq(|labels|, i requires 0 <= i < |labels| => "\"" + labels[i] + "\""))
  }

  /** The value substituted for each placeholder, in placeholder order.
      `dateIso` is the clock reading the source takes when it runs. */
  function PlaceholderValues(req: PhrRequest, id: nat, dateIso: string): (vs: seq<string>)
    ensures |vs| == |PlaceholderNames|
  {
    [NatToString(id), req.title, req.stage, dateIso, "agent", req.model,
     FeatureValue(req.feature), req.branch, req.user, req.command, LabelList(req.labels),
     LinkValue(req.links, "spec"), LinkValue(req.links, "ticket"), LinkValue(req.links, "adr"),
     LinkValue(req.links, "pr"), YamlList(req.files), YamlList(req.tests),
     req.promptText, req.responseText, req.outcomeImpact, req.testsSummary, req.filesSummary,
     req.nextPrompts, req.reflectionNote, req.failureModes, req.graderResults,
     req.promptVariantId, req.nextExperiment]
  }

  /** The `replacements` dictionary as its items, in insertion order. */
  function Replacements(req: PhrRequest, id: nat, dateIso: string): (r: seq<(string, string)>)
    ensures |r| == |PlaceholderNames|
    ensures forall i :: 0 <= i < |r| ==> r[i].0 == Placeholder(PlaceholderNames[i])
    ensures NonEmptyKeys(r)
  {
    var vs := PlaceholderValues(req, id, dateIso);
    seq(|PlaceholderNames|, i requires 0 <= i < |PlaceholderNames| => (Placeholder(PlaceholderNames[i]), vs[i]))
  }

  predicate NonEmptyKeys(pairs: seq<(string, string)>) {
    forall i :: 0 <= i < |pairs| ==> |pairs[i].0| > 0
  }

  /** `for key, value in replacements.items(): t = t.replace(key, value)`. */
  function Substitute(t: string, pairs: seq<(string, string)>): string
    requires NonEmptyKeys(pairs)
    decreases |pairs|
  {
    if pairs == [] then t else Substitute(ReplaceAll(t, pairs[0].0, pairs[0].1), pairs[1..])
  }

  /** The replacements run one after another: substituting a concatenation of
      pair lists is substituting the first list, then the second. */
  lemma {:induction false} SubstituteAppend(t: string, a: seq<(string, string)>, b: seq<(string, string)>)
    requires NonEmptyKeys(a) && NonEmptyKeys(b)
    ensures NonEmptyKeys(a + b)
    ensures Substitute(t, a + b) == Substitute(Substitute(t, a), b)
    decreases |a|
  {
    if a == [] {
      assert a + b == b;
    } else {
      assert (a + b)[1..] == a[1..] + b;
      SubstituteAppend(ReplaceAll(t, a[0].0, a[0].1), a[1..], b);
    }
  }

  /** A string containing `key` contains every prefix of `key`. */
  lemma {:induction false} ContainsPrefix(t: string, key: string, p: string)
    requires Contains(t, key) && StartsWith(key, p)
    ensures Contains(t, p)
    decreases |t|
  {
    if !StartsWith(t, key) {
      ContainsPrefix(t[1..], key, p);
    } else {
      assert t[..|p|] == key[..|p|];
    }
  }

  /** Every key opens with `{{`: text without `{{` is left alone. */
  lemma {:induction false} SubstituteUntouched(t: string, pairs: seq<(string, string)>)
    requires NonEmptyKeys(pairs)
    requires forall i :: 0 <= i < |pairs| ==> StartsWith(pairs[i].0, "{{")
    requires !Contains(t, "{{")
    ensures Substitute(t, pairs) == t
    decreases |pairs|
  {
    if pairs != [] {
      if Contains(t, pairs[0].0) {
        ContainsPrefix(t, pairs[0].0, "{{");
      }
      ReplaceAllAbsent(t, pairs[0].0, pairs[0].1);
      SubstituteUntouched(t, pairs[1..]);
    }
  }

  /** A template without placeholders comes out unchanged, whatever the request. */
  lemma TemplateWithoutPlaceholders(template: string, req: PhrRequest, id: nat, dateIso: string)
    requires !Contains(template, "{{")
    ensures Substitute(template, Replacements(req, id, dateIso)) == template
  {
    var r := Replacements(req, id, dateIso);
    forall i | 0 <= i < |r|
      ensures StartsWith(r[i].0, "{{")
    {
      assert r[i].0 == Placeholder(PlaceholderNames[i]);
    }
    SubstituteUntouched(template, r);
  }

  /** Replacing a whole string by itself as pattern yields the replacement. */
  lemma ReplaceWhole(s: string, repl: string)
    requires |s| > 0
    ensures ReplaceAll(s, s, repl) == repl
  {
    assert s[|s|..] == [];
  }

  /** The dictionary opens with the number, the title and the stage. */
  lemma FirstReplacements(req: PhrRequest, id: nat, dateIso: string)
    ensures var r := Replacements(req, id, dateIso);
            && r[0] == (Placeholder("ID"), NatToString(id))
            && r[1] == (Placeholder("TITLE"), req.title)
            && r[2] == (Placeholder("STAGE"), req.stage)
  {
    var vs := PlaceholderValues(req, id, dateIso);
    assert vs[0] == NatToString(id) && vs[1] == req.title && vs[2] == req.stage;
    assert PlaceholderNames[0] == "ID" && PlaceholderNames[1] == "TITLE" && PlaceholderNames[2] == "STAGE";
  }

  /** Substitution cascades: a value that is itself a later placeholder gets
      replaced in turn. A template holding just `{{TITLE}}`, with the title
      `{{STAGE}}`, becomes the stage. */
  lemma SubstituteCascades(req: PhrRequest, id: nat, dateIso: string)
    requires req.title == Placeholder("STAGE")
    requires !Contains(req.stage, "{{")
    ensures Substitute(Placeholder("TITLE"), Replacements(req, id, dateIso)) == req.stage
  {
    var r := Replacements(req, id, dateIso);
    FirstReplacements(req, id, dateIso);
    TitleWithoutId(NatToString(id));
    ReplaceWhole(Placeholder("TITLE"), req.title);
    ReplaceWhole(Placeholder("STAGE"), req.stage);
    LaterReplacementsUntouched(req, id, dateIso, req.stage);
    SubstituteThree(Placeholder("TITLE"), r, Placeholder("TITLE"), req.title, req.stage);
  }

  /** `{{TITLE}}` holds no `D`, so it does not contain `{{ID}}`. */
  lemma TitleWithoutId(v: string)
    ensures ReplaceAll(Placeholder("TITLE"), Placeholder("ID"), v) == Placeholder("TITLE")
  {
    var title := Placeholder("TITLE");
    assert title == "{{TITLE}}" && Placeholder("ID") == "{{ID}}";
    MissingCharNotContained(title, Placeholder("ID"), 3);
    ReplaceAllAbsent(title, Placeholder("ID"), v);
  }

  /** Three steps of the substitution loop, after which the rest of the
      pairs leave the text alone. */
  lemma SubstituteThree(t: string, pairs: seq<(string, string)>, t1: string, t2: string, t3: string)
    requires NonEmptyKeys(pairs) && |pairs| >= 3
    requires ReplaceAll(t, pairs[0].0, pairs[0].1) == t1
    requires ReplaceAll(t1, pairs[1].0, pairs[1].1) == t2
    requires ReplaceAll(t2, pairs[2].0, pairs[2].1) == t3
    requires Substitute(t3, pairs[3..]) == t3
    ensures Substitute(t, pairs) == t3
  {
    assert pairs[1..][1..] == pairs[2..] && pairs[2..][1..] == pairs[3..];
    SubstituteFirst(t, pairs, t1);
    SubstituteFirst(t1, pairs[1..], t2);
    SubstituteFirst(t2, pairs[2..], t3);
  }

  /** Text without `{{` passes through all replacements after the stage. */
  lemma LaterReplacementsUntouched(req: PhrRequest, id: nat, dateIso: string, t: string)
    requires !Contains(t, "{{")
    ensures Substitute(t, Replacements(req, id, dateIso)[3..]) == t
  {
    var r := Replacements(req, id, dateIso);
    forall i | 0 <= i < |r[3..]|
      ensures StartsWith(r[3..][i].0, "{{")
    {
      assert r[3..][i].0 == Placeholder(PlaceholderNames[i + 3]);
    }
    SubstituteUntouched(t, r[3..]);
  }

  /** One step of the substitution loop. */
  lemma SubstituteFirst(t: string, pairs: seq<(string, string)>, t': string)
    requires NonEmptyKeys(pairs) && pairs != []
    requires ReplaceAll(t, pairs[0].0, pairs[0].1) == t'
    ensures Substitute(t, pairs) == Substitute(t', pairs[1..])
  {
  }

  /** The defaults of `generate_phr`: a missing or empty feature reads
      `none`, a missing or empty link reads `null`, an empty file or test list
      reads `  - none`, and no labels give the empty string. */
  lemma DefaultValues(links: map<string, string>, kind: string)
    requires kind !in links || links[kind] == []
    ensures FeatureValue(None) == "none" && FeatureValue(Some("")) == "none"
    ensures LinkValue(links, kind) == "null"
    ensures YamlList([]) == "  - none"
    ensures LabelList([]) == ""
  {
    assert YamlItems([]) == [];
  }

  /** Those defaults are what a request with only the required arguments
      fills in for the feature, the four links and the two lists. */
  lemma DefaultRequestValues(promptText: string, responseText: string, title: string, stage: string, id: nat, dateIso: string)
    ensures var req := DefaultRequest(promptText, responseText, title, stage);
            var vs := PlaceholderValues(req, id, dateIso);
            && vs[6] == FeatureValue(None)
            && vs[11] == LinkValue(map[], "spec") && vs[12] == LinkValue(map[], "ticket")
            && vs[13] == LinkValue(map[], "adr") && vs[14] == LinkValue(map[], "pr")
            && vs[15] == YamlList([]) && vs[16] == YamlList([])
  {
  }

  /** A non-empty list gives one `  - x` line per element, in order: splitting
      the block at line breaks gives the lines back, provided no element
      holds a line break. */
  lemma YamlListLines(xs: seq<string>)
    requires xs != []
    requires forall i :: 0 <= i < |xs| ==> '\n' !in xs[i]
    ensures Split(YamlList(xs), "\n") == YamlItems(xs)
  {
    var items := YamlItems(xs);
    forall i | 0 <= i < |items|
      ensures "\n"[0] !in items[i]
    {
      assert items[i] == "  - " + xs[i];
    }
    assert items[0] != [];
    assert Join("\n", items) != [] by {
      if |items| > 1 {
        assert Join("\n", items) == items[0] + "\n" + Join("\n", items[1..]);
      }
    }
    SplitOfJoin(items, "\n");
  }

  /** What `generate_phr` decides and writes: the directory, the file name,
      the full path and the file's contents. */
  datatype PhrFile = PhrFile(directory: string, fileName: string, path: string, content: string)

  /** `generate_phr`, given the history root, the listing of the routed
      directory, the template's text and the clock reading. */
  function GeneratePhr(req: PhrRequest, historyRoot: string, listing: seq<string>, template: string, dateIso: string): PhrFile {
    var dir := PathJoin(historyRoot, Route(req.stage, req.feature));
    var id := NextId(listing);
    var name := FileName(id, CreateSlug(req.title), req.stage);
    PhrFile(dir, name, PathJoin(dir, name), Substitute(template, Replacements(req, id, dateIso)))
  }

  /** The record written is numbered one above every record already in its
      directory, its file name reads back to that number, and the next record
      written there gets the following number. */
  lemma GeneratePhrNumbering(req: PhrRequest, historyRoot: string, listing: seq<string>, template: string, dateIso: string)
    requires '\n' !in req.stage
    ensures var f := GeneratePhr(req, historyRoot, listing, template, dateIso);
            && MatchId(f.fileName) == Some(NextId(listing))
            && (forall i :: 0 <= i < |listing| && MatchId(listing[i]).Some? ==> MatchId(listing[i]).value < NextId(listing))
            && NextId(listing + [f.fileName]) == NextId(listing) + 1
  {
    CreateSlugIsSlug(req.title);
    FileNameRoundTrip(NextId(listing), CreateSlug(req.title), req.stage);
    NextIdAfterWrite(listing, CreateSlug(req.title), req.stage);
  }

  /** A record's file name starts with a digit, so `os.path.join` never
      treats it as absolute. */
  lemma FileNameStartsWithDigit(id: nat, slug: string, stage: string)
    ensures var name := FileName(id, slug, stage);
            name != [] && IsAsciiDigit(name[0]) && !StartsWith(name, "/")
  {
    var z := ZFill(NatToString(id), 3);
    assert IsAsciiDigit(z[0]) by {
      var s := NatToString(id);
      if |z| - |s| == 0 {
        assert z[0] == z[|z| - |s|..][0] == s[0];
      }
    }
    var name := FileName(id, slug, stage);
    assert name[0] == z[0];
  }

  /** `os.path.join` with a relative second part keeps the first. */
  lemma PathJoinRelative(a: string, b: string)
    requires b != [] && b[0] != '/'
    ensures PathJoin(a, b) == a + (if a == [] || a[|a| - 1] == '/' then "" else "/") + b
  {
    assert b[..1][0] == b[0];
  }

  lemma FileInDirectory(f: PhrFile)
    requires f.path == PathJoin(f.directory, f.fileName)
    requires f.fileName != [] && f.fileName[0] != '/'
    ensures var d := f.directory;
            f.path == d + (if d == [] || d[|d| - 1] == '/' then "" else "/") + f.fileName
  {
    PathJoinRelative(f.directory, f.fileName);
  }

  /** The record is written inside its directory: the path is the directory,
      a `/` unless the directory is empty or already ends with one, then the
      file name. */
  lemma RecordInDirectory(req: PhrRequest, historyRoot: string, listing: seq<string>, template: string, dateIso: string)
    ensures var f := GeneratePhr(req, historyRoot, listing, template, dateIso);
            var d := f.directory;
            f.path == d + (if d == [] || d[|d| - 1] == '/' then "" else "/") + f.fileName
  {
    FileNameStartsWithDigit(NextId(listing), CreateSlug(req.title), req.stage);
    FileInDirectory(GeneratePhr(req, historyRoot, listing, template, dateIso));
  }

  /** The routed directory is a non-empty relative name when the feature
      (if any) neither starts nor ends with `/`. */
  lemma RouteRelative(stage: string, feature: Option<string>)
    requires feature.Some? && feature.value != [] ==>
               feature.value[0] != '/' && feature.value[|feature.value| - 1] != '/'
    ensures var d := Route(stage, feature);
            d != [] && d[0] != '/' && d[|d| - 1] != '/'
  {
  }

  /** Joining a root without a trailing `/`, a relative name without a
      trailing `/` and a relative file name puts one `/` between each. */
  lemma PathJoinTwice(root: string, d: string, name: string)
    requires root != [] && root[|root| - 1] != '/'
    requires d != [] && d[0] != '/' && d[|d| - 1] != '/'
    requires name != [] && name[0] != '/'
    ensures PathJoin(PathJoin(root, d), name) == root + "/" + d + "/" + name
  {
    PathJoinRelative(root, d);
    var dir := root + "/" + d;
    assert dir[|dir| - 1] == d[|d| - 1];
    PathJoinRelative(dir, name);
  }

  lemma RoutedPath(historyRoot: string, stage: string, feature: Option<string>, name: string)
    requires historyRoot != [] && historyRoot[|historyRoot| - 1] != '/'
    requires feature.Some? && feature.value != [] ==>
               feature.value[0] != '/' && feature.value[|feature.value| - 1] != '/'
    requires name != [] && name[0] != '/'
    ensures PathJoin(PathJoin(historyRoot, Route(stage, feature)), name)
         == historyRoot + "/" + Route(stage, feature) + "/" + name
  {
    RouteRelative(stage, feature);
    PathJoinTwice(historyRoot, Route(stage, feature), name);
  }

  /** Where a record lands under a history root that does not end in `/`,
      for a feature (if any) that neither starts nor ends with `/`: the
      root, `/`, the routed directory, `/`, the file name. */
  lemma RecordPath(req: PhrRequest, historyRoot: string, listing: seq<string>, template: string, dateIso: string)
    requires historyRoot != [] && historyRoot[|historyRoot| - 1] != '/'
    requires req.feature.Some? && req.feature.value != [] ==>
               req.feature.value[0] != '/' && req.feature.value[|req.feature.value| - 1] != '/'
    ensures var f := GeneratePhr(req, historyRoot, listing, template, dateIso);
            f.path == historyRoot + "/" + Route(req.stage, req.feature) + "/" + f.fileName
  {
    var name := FileName(NextId(listing), CreateSlug(req.title), req.stage);
    FileNameStartsWithDigit(NextId(listing), CreateSlug(req.title), req.stage);
    RoutedPath(historyRoot, req.stage, req.feature, name);
  }

  /** A feature that starts with `/` is an absolute path to `os.path.join`:
      the directory of a feature stage is then the feature itself, whatever
      the root. */
  lemma AbsoluteFeatureRoute(historyRoot: string, stage: string, feature: Option<string>)
    requires stage in FeatureStages
    requires feature.Some? && StartsWith(feature.value, "/")
    ensures PathJoin(historyRoot, Route(stage, feature)) == feature.value
  {
    assert "constitution" != stage by {
      assert forall i :: 0 <= i < |FeatureStages| ==> FeatureStages[i][0] != 'c';
    }
  }

  /** A record of a feature stage whose feature starts with `/` leaves the
      history root: it goes to the feature's directory itself. */
  lemma AbsoluteFeatureLeavesRoot(req: PhrRequest, historyRoot: string, listing: seq<string>, template: string, dateIso: string)
    requires req.stage in FeatureStages
    requires req.feature.Some? && StartsWith(req.feature.value, "/")
    ensures GeneratePhr(req, historyRoot, listing, template, dateIso).directory == req.feature.value
  {
    AbsoluteFeatureRoute(historyRoot, req.stage, req.feature);
  }
}
