/** The clean-up `extract_text_from_url` of backend/analyze_chunks.py applies
    to a page's text before chunking it: `re.sub(r'\s+', ' ', content).strip()`.
    Fetching and parsing the page are not modelled. */
module Extraction {
  import opened Text

  /** Every maximal run of white space becomes one space, then the ends are
      stripped. */
  function CollapseWhitespace(s: string): string {
    Strip(CollapseRuns(s, IsSpace, ' '))
  }

  /** The characters white-space clean-up never touches. */
  predicate NotSpace(c: char) {
    !IsSpace(c)
  }

  /** The cleaned-up text neither starts nor ends with white space, its only
      white space is the plain space, and no two white-space characters are
      adjacent. */
  lemma CollapseWhitespaceShape(s: string)
    ensures var r := CollapseWhitespace(s);
            && (r == [] || (!IsSpace(r[0]) && !IsSpace(r[|r| - 1])))
            && (forall i :: 0 <= i < |r| ==> r[i] == ' ' || !IsSpace(r[i]))
            && (forall i :: 0 <= i < |r| - 1 ==> !IsSpace(r[i]) || !IsSpace(r[i + 1]))
  {
    var c := CollapseRuns(s, IsSpace, ' ');
    var r := Strip(c);
    var lead := LeadingSpace(c);
    CollapsedSlice(c, IsSpace, ' ', lead, lead + |r|, r);
  }

  /** Stripping removes white space only: the other characters stay, in order. */
  lemma StripKeepsOthers(s: string)
    ensures Filter(Strip(s), NotSpace) == Filter(s, NotSpace)
  {
    var r := Strip(s);
    var lead := LeadingSpace(s);
    FilterDropsEnds(s, NotSpace, lead, lead + |r|);
  }

  /** The clean-up keeps every character that is not white space, in order:
      only white space is replaced or removed. */
  lemma CollapseWhitespaceKeepsText(s: string)
    ensures Filter(CollapseWhitespace(s), NotSpace) == Filter(s, NotSpace)
  {
    var c := CollapseRuns(s, IsSpace, ' ');
    CollapseRunsKeepsOthers(s, IsSpace, ' ', NotSpace);
    StripKeepsOthers(c);
  }

  /** Cleaning up cleaned-up text changes nothing. */
  lemma CollapseWhitespaceIdempotent(s: string)
    ensures CollapseWhitespace(CollapseWhitespace(s)) == CollapseWhitespace(s)
  {
    var r := CollapseWhitespace(s);
    CollapseWhitespaceShape(s);
    CollapseRunsFixpoint(r, IsSpace, ' ');
    StripStripped(r);
  }
}
