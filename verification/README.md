# A verified model of the RAG backend's text and record logic

This project models, in Dafny, the deterministic core of a small
retrieval-augmented question-answering backend written in Python:

- **URL allow-list and sitemap post-processing** (`validate_and_sanitize_url`
  and the `<loc>` loop of `get_all_urls` in backend/analyze_chunks.py):
  module `UrlSanitizer`.
- **The page clean-up** `re.sub(r'\s+', ' ', content).strip()`
  (backend/analyze_chunks.py): module `Extraction`.
- **Two text chunkers.** `FixedChunker` is the plain fixed-window
  `chunk_text` of backend/main.py. `SnapChunker` is the sentence-snapping
  `chunk_text` of backend/analyze_chunks.py, whose loop does not always end.
- **The embedding pipeline of backend/main.py**: the sitemap address and
  the points `main` upserts for a page (module `Ingest`).
- **Prompt History Records** (`PHRGenerator` in backend/phr_generator.py):
  the next record number, the slug, directory routing, the file name and the
  placeholder substitution (module `PromptHistory`).
- **Search hits to document chunks** (`process_hits` in backend/retrieving.py
  and backend/agent.py), and the JSON records `retrieve` prints (module
  `Retrieval`).
- **The question-answering run** `run_agent` of backend/agent.py, as the
  trace of its observable steps (module `Agent`).

The module `Text` holds the Python string operations these rely on:
`str.strip`, slicing with negative bounds, `rfind`, `replace`, `split`,
`join`, `re.sub` of a character class and ASCII `lower`. Each is stated
against Python's behaviour and related to a reference definition. `Wrappers`
holds `Option` and `Result`.

Every network, HTML, embedding, vector-store, language-model, clock and
file-system call is a parameter or left out. A directory listing is a
`seq<string>`. The template text and the date are strings. The search, the
model, the score formatting and the record writer of a run are the function
fields of `Agent.Services`. Scores and vectors are opaque type parameters.

Where the code and the project's tests disagree, the model follows the code:

- backend/tests/test_main.py imports `validate_and_sanitize_url` from
  backend/main.py, which does not define it. Its chunking assertions describe
  the snapping chunker of backend/analyze_chunks.py, and the sanitiser
  examples are proved against that file's function.
- backend/tests/test_agent.py patches an OpenAI client and calls `run_agent`
  with one argument. The code takes a query and a command line and calls
  Gemini; the model has the two-argument form with the language model as a
  parameter.

## Model

| member | source | states |
|---|---|---|
| UrlSanitizer.Sanitize | backend/analyze_chunks.py:39-73 | accepts exactly a non-empty input whose stripped form has an `http://`/`https://` prefix, no forbidden pattern in lower case and at most 2048 characters; an accepted result is the stripped input |
| UrlSanitizer.SanitizedIsSafe | backend/analyze_chunks.py:58-70 | every accepted URL starts with `http://` or `https://`, is at most 2048 characters long, and its lower-cased form contains none of `javascript:`, `vbscript:`, `data:`, `file:` |
| UrlSanitizer.SanitizeIdempotent | backend/analyze_chunks.py:55-70 | sanitising an accepted URL accepts it again, unchanged |
| UrlSanitizer.SanitizeByStrip | backend/analyze_chunks.py:51-55 | two non-empty inputs with the same stripped form get the same verdict |
| UrlSanitizer.SanitizePadded | backend/analyze_chunks.py:55 | white space around a URL with non-blank ends does not change the verdict |
| UrlSanitizer.SanitizeAcceptsHttps | backend/tests/test_main.py:43-53 | `https://example.com` is accepted unchanged |
| UrlSanitizer.SanitizeAcceptsHttp | backend/tests/test_main.py:43-53 | `http://example.com` is accepted unchanged |
| UrlSanitizer.SanitizeStripsExample | backend/tests/test_main.py:70-74 | `  https://example.com  ` is accepted as `https://example.com` |
| UrlSanitizer.SanitizeRejectsExamples | backend/tests/test_main.py:55-68 | the six rejected test inputs, the empty string included, are rejected |
| UrlSanitizer.RejectsWithoutScheme | backend/analyze_chunks.py:58-59 | a URL with non-blank ends that does not start with `h` is rejected |
| UrlSanitizer.ForbiddenAt | backend/analyze_chunks.py:63 | a forbidden pattern occurring at any position, in any ASCII letter case, makes the URL forbidden |
| UrlSanitizer.RejectsForbidden | backend/analyze_chunks.py:63-64 | a stripped URL holding a forbidden pattern is rejected whatever its scheme |
| UrlSanitizer.SanitizeRejectsSmuggledScheme | backend/analyze_chunks.py:63-64 | a web URL with a forbidden scheme smuggled anywhere inside, in any letter case, is rejected |
| UrlSanitizer.NoForbiddenPattern | backend/analyze_chunks.py:63 | a string without upper-case letters that lacks one character of each pattern holds no forbidden pattern |
| UrlSanitizer.AcceptsStripped | backend/analyze_chunks.py:55-70 | an acceptable URL with a non-blank end is accepted as it is |
| UrlSanitizer.FilterMapFrom | backend/analyze_chunks.py:101-108 | every value the loop keeps is what the step gives for some entry |
| UrlSanitizer.FilterMapAppend | backend/analyze_chunks.py:101-108 | the kept values of a concatenation are the kept values of each part, in order |
| UrlSanitizer.SitemapUrlsSanitized | backend/analyze_chunks.py:101-108 | the loop yields at most one URL per `<loc>`; each comes from some `<loc>` and is a fixpoint of the sanitiser |
| UrlSanitizer.SitemapUrlsAppend | backend/analyze_chunks.py:101-108 | the URLs of concatenated `<loc>` lists are the concatenated URLs: order is kept |
| UrlSanitizer.SitemapUrlsSingle | backend/analyze_chunks.py:103-108 | one `<loc>` gives its processed URL when accepted and nothing when rejected |
| UrlSanitizer.LegacyLocRewritten | backend/analyze_chunks.py:104-106 | a `<loc>` on the legacy host is sanitised as the canonical host followed by its path, with every further legacy-host occurrence in the path rewritten too; a path without one is kept as it is |
| Extraction.CollapseWhitespaceShape | backend/analyze_chunks.py:194 | the cleaned text has no white space at either end, only plain spaces inside, and never two in a row |
| Extraction.CollapseWhitespaceKeepsText | backend/analyze_chunks.py:194 | the clean-up keeps every non-white-space character, in order |
| Extraction.StripKeepsOthers | backend/analyze_chunks.py:194 | stripping removes white space only |
| Extraction.CollapseWhitespaceIdempotent | backend/analyze_chunks.py:194 | cleaning cleaned text changes nothing |
| Text.Strip | backend/analyze_chunks.py:55 | the result is a slice of the input; everything cut off on either side is white space; the result neither starts nor ends with white space |
| Text.StripStripped | backend/analyze_chunks.py:55 | a string with non-blank ends is its own strip |
| Text.StripPadded | backend/analyze_chunks.py:55 | white space around a string with non-blank ends is exactly what strip removes |
| Text.StripIdempotent | backend/analyze_chunks.py:55 | stripping twice is stripping once |
| Text.TrimBothSlice | backend/phr_generator.py:34 | `strip('-')` leaves a slice of the input whose ends are not `-` |
| Text.PySlice | backend/analyze_chunks.py:244-247 | Python slicing: an in-range slice is the Dafny slice, a reversed one is empty, and the length never exceeds `b - a` |
| Text.RFind | backend/analyze_chunks.py:250-255 | `rfind` gives -1 or an occurrence, with no occurrence after it |
| Text.LowerAsciiIdentity | backend/analyze_chunks.py:63 | `lower` leaves a string without upper-case ASCII letters unchanged |
| Text.LowerAsciiIdempotent | backend/analyze_chunks.py:63 | `lower` leaves no upper-case ASCII letter, so applying it twice is the same as once |
| Text.ReplaceAllIsJoinOfSplit | backend/phr_generator.py:124 | `s.replace(p, r)` equals `r.join(s.split(p))` |
| Text.ReplaceAllAbsent | backend/phr_generator.py:124 | `replace` leaves a string without the pattern unchanged |
| Text.SplitOfJoin | backend/agent.py:94 | joining with a separator no part contains and splitting on it gives the parts back |
| Text.CollapseRuns | backend/phr_generator.py:33 | `re.sub` of a class with `+`: the first character maps correctly, class characters survive only as the replacement, and (when the replacement is in the class) two never meet |
| Text.CollapseRunsFixpoint | backend/analyze_chunks.py:194 | an already collapsed string is unchanged |
| Text.CollapseRunsKeepsOthers | backend/analyze_chunks.py:194 | collapsing keeps every character outside the class, in order |
| Text.FilterDropsEnds | backend/phr_generator.py:32 | removing ends the filter drops leaves the filtered string unchanged |
| Text.FilterAppend | backend/phr_generator.py:32 | the filter of a concatenation is the concatenation of the filters |
| FixedChunker.FixedChunksClosedForm | backend/main.py:69-82 | for `0 <= overlap < size` the loop ends within `ceil(n/step)` iterations, and chunk `k` is `text[k*step : k*step+size]` |
| FixedChunker.FixedLoopFrom | backend/main.py:78-81 | the loop entered at the `j`-th window start yields exactly the remaining windows |
| FixedChunker.ChunkCountIsCeiling | backend/main.py:78-81 | the number of chunks is the least `c` with `c*step >= n` |
| FixedChunker.CountIndex | backend/main.py:78 | window `j` starts inside the text exactly when `j` is below the chunk count |
| FixedChunker.WindowStartIsProduct | backend/main.py:81 | the `k`-th start, built by repeated addition, is `k*step` |
| FixedChunker.ClosedFormChunk | backend/main.py:80 | every chunk is a substring of the text, clamped at its end, of at most `size` characters |
| FixedChunker.ClosedFormCovers | backend/main.py:78-81 | every character of the text lies in chunk `i / step` at the right offset |
| FixedChunker.ClosedFormOverlap | backend/main.py:78-81 | consecutive chunks share `overlap` characters, or fewer at the end of the text |
| FixedChunker.EmptyText | backend/main.py:73-74 | the empty text gives no chunk |
| FixedChunker.OneChunk | backend/main.py:78-81 | a text no longer than one step is its only chunk |
| FixedChunker.TwoChunks | backend/main.py:78-81 | a text longer than one step and at most one window gives the whole text, then its suffix after one step |
| FixedChunker.FixedChunkerDiverges | backend/main.py:81 | with `overlap >= size` and a non-empty text, no fuel is enough: the loop does not end |
| SnapChunker.LastBoundaryIsMaxRFind | backend/analyze_chunks.py:250-255 | the backward scan finds the maximum of the four `rfind`s |
| SnapChunker.LastBoundarySpec | backend/analyze_chunks.py:250-255 | the index found is a sentence ending, or -1, with no ending after it |
| SnapChunker.BoundaryIsPattern | backend/analyze_chunks.py:251-254 | a sentence ending is an occurrence of `. `, `? `, `! ` or a newline |
| SnapChunker.SnapStepMatchesSource | backend/analyze_chunks.py:240-261 | the modelled step equals the loop body as written |
| SnapChunker.SnapStepByLastBoundary | backend/analyze_chunks.py:247-261 | a window short of the end is cut after its last sentence ending `r` exactly when `0 < r < len(chunk) - overlap` |
| SnapChunker.SnapCut | backend/analyze_chunks.py:258-261 | a window cut short ends a sentence and holds at most `size - overlap` characters |
| SnapChunker.SnapProgress | backend/analyze_chunks.py:239-264 | when `0 <= overlap < size` and either `overlap <= 1` or the text has no sentence ending, each window is non-empty, at most `size` long, and the next start lies after the current one and within the text |
| SnapChunker.SnapLoopTerminates | backend/analyze_chunks.py:239-264 | under the same conditions the loop ends within `len(text) - start` iterations |
| SnapChunker.SnapLoopDeterministic | backend/analyze_chunks.py:239-264 | once the fuel suffices, the result does not depend on it |
| SnapChunker.SnapLoopTiles | backend/analyze_chunks.py:239-264 | the windows start at `start`, the last ends at the end of the text, each is non-empty and at most `size` long, and each next one starts `overlap` before the previous end |
| SnapChunker.TilesCover | backend/analyze_chunks.py:239-264 | every position of the text lies in some window |
| SnapChunker.SnapChunksProperties | backend/analyze_chunks.py:220-266 | under the terminating conditions: the loop ends, tiles and covers the text, each chunk is its window's slice, and cut windows end sentences |
| SnapChunker.SnapLoopChunkSizes | backend/analyze_chunks.py:239-264 | for any overlap, every chunk of a finished loop holds at most `size` characters, negative starts included |
| SnapChunker.ChunkTextSizes | backend/analyze_chunks.py:220-266 | whenever `chunk_text` returns, each chunk holds at most `chunk_size` characters |
| SnapChunker.ShortText | backend/analyze_chunks.py:232-244 | the empty text gives no chunk; a non-empty text within one window is its only chunk |
| SnapChunker.StuckWindow | backend/analyze_chunks.py:258-264 | a last sentence ending at relative index `overlap - 1` restarts the next window at the same start, so the loop never ends |
| SnapChunker.StuckExample | backend/analyze_chunks.py:239-264 | `chunk_text("x. yyyyyyy", 5, 2)` runs out of any fuel |
| SnapChunker.NegativeStartSteps | backend/analyze_chunks.py:258-264 | a cut before relative index `overlap - 1` in the first window sends `start` to -1 and yields an empty chunk |
| SnapChunker.NegativeStartExample | backend/analyze_chunks.py:220-266 | `chunk_text("a. bbbbbbbbbb", 6, 3)` returns `["a.", "", " bbbbb", "bbbbbb", "bbbbb"]` |
| SnapChunker.GuardedLoopTiles | backend/analyze_chunks.py:239-264 | the corrected loop (the next start forced past the current one) always ends; its windows start at `start`, are non-empty, at most `size` long and inside the text, each next one starts after the previous start and no later than its end, and the last reaches the end of the text |
| SnapChunker.GuardedChunkText | backend/analyze_chunks.py:220-266 | the corrected chunker returns no chunk exactly for the empty text, and otherwise non-empty chunks of at most `size` characters |
| SnapChunker.GuardedAgrees | backend/analyze_chunks.py:239-264 | under `GoodParams` (`0 <= overlap < size`, and `overlap <= 1` or no sentence ending in the text) the loop as written ends and returns the corrected loop's windows |
| Ingest.SitemapUrlShape | backend/main.py:34 | the sitemap address is the base URL without its trailing slashes, then `/sitemap.xml` |
| Ingest.SitemapUrlTrailingSlash | backend/main.py:34 | a trailing slash on the base URL makes no difference |
| Ingest.SitemapUrlOfDefaultTarget | backend/main.py:18 | the default target gives `https://hackathon-in-classnew.vercel.app/sitemap.xml` |
| Ingest.SaveChunk | backend/main.py:109-125 | one point with the chunk, url, title and vector, or none for an empty vector |
| Ingest.SaveFromIsFilteredZip | backend/main.py:152-154 | the loop saves exactly the pairs (chunk `k`, vector `k`) with a non-empty vector, in order |
| Ingest.SaveAllBounds | backend/main.py:152-154 | at most `min(len(chunks), len(vectors))` points, each with the page's url and title, a non-empty vector and a chunk paired with the vector of the same index |
| Ingest.SaveAllPairs | backend/main.py:152-154 | with non-empty vectors, point `k` is chunk `k` with vector `k` |
| Ingest.IngestChunks | backend/main.py:145-154 | with the defaults the chunker ends and every saved point carries one of the page's chunks, of at most 1000 characters |
| Ingest.IngestNothing | backend/main.py:145 | a failed or empty extraction saves nothing |
| PromptHistory.NextId | backend/phr_generator.py:16-27 | the next number is at least 1 and above every number in the listing |
| PromptHistory.NextIdAttained | backend/phr_generator.py:21-27 | it is 1 exactly when no name carries a positive number, and otherwise one more than a number some name carries |
| PromptHistory.NextIdGrows | backend/phr_generator.py:25-27 | one more name never lowers the next number, and the next number exceeds that name's own |
| PromptHistory.NatToStringValue | backend/phr_generator.py:80 | `str(n)` reads back as `n` |
| PromptHistory.ZFillValue | backend/phr_generator.py:80 | `zfill` keeps a numeral a numeral of the same value |
| PromptHistory.ZFill | backend/phr_generator.py:80 | the result has width `max(len, w)`, ends with the input and is padded with `0` |
| PromptHistory.MatchIdOfShape | backend/phr_generator.py:21-23 | a numeral, `-`, a part without line breaks and `.prompt.md` match with the numeral's value |
| PromptHistory.FileNameRoundTrip | backend/phr_generator.py:80 | the file name of record `id` parses back to `id` under the record-number regex of `_get_next_id` |
| PromptHistory.NextIdAfterWrite | backend/phr_generator.py:16-27 | after writing record `NextId`, the next number is one higher |
| PromptHistory.CreateSlugIsSlug | backend/phr_generator.py:29-34 | a slug holds only lower-case letters, digits and `-`, no `--`, and no `-` at either end |
| PromptHistory.CreateSlugIdempotent | backend/phr_generator.py:29-34 | slugging a slug changes nothing |
| PromptHistory.CreateSlugKeepsAlnum | backend/phr_generator.py:29-34 | the slug keeps every lower-cased ASCII letter and digit of the title, in order, and drops or dashes everything else |
| PromptHistory.SlugFixpoint | backend/phr_generator.py:29-34 | every string of slug shape is its own slug |
| PromptHistory.DashedChars | backend/phr_generator.py:31-33 | after the two substitutions only slug characters remain, with no `--` |
| PromptHistory.RecordInDirectory | backend/phr_generator.py:80-81 | the record's file name never starts with `/`, so the path is its directory, one `/` unless the directory is empty or ends with one, then the file name |
| PromptHistory.RecordPath | backend/phr_generator.py:67-81 | under a root without a trailing `/`, and for a feature without `/` at either end, the path is `root/<routed directory>/<file name>` |
| PromptHistory.AbsoluteFeatureLeavesRoot | backend/phr_generator.py:67-72 | a feature stage whose feature starts with `/` writes to the feature as an absolute directory, whatever the history root |
| PromptHistory.SubstituteAppend | backend/phr_generator.py:123-124 | substituting two lists of pairs is substituting the first, then the second |
| PromptHistory.SubstituteUntouched | backend/phr_generator.py:123-124 | text without `{{` passes through every replacement |
| PromptHistory.TemplateWithoutPlaceholders | backend/phr_generator.py:92-124 | a template without placeholders comes out unchanged whatever the request |
| PromptHistory.FirstReplacements | backend/phr_generator.py:92-95 | the dictionary starts with the number, the title and the stage |
| PromptHistory.SubstituteCascades | backend/phr_generator.py:92-124 | a title that is itself `{{STAGE}}` is replaced in turn: `{{TITLE}}` becomes the stage |
| PromptHistory.DefaultValues | backend/phr_generator.py:99-109 | a missing feature reads `none`, a missing or empty link `null`, an empty list `  - none`, and no labels the empty string |
| PromptHistory.DefaultRequestValues | backend/phr_generator.py:99-109 | a request with only the required arguments (the other parameters at their defaults) gets `none` for the feature, `null` for each of the four links and `  - none` for the file and test lists |
| PromptHistory.YamlListLines | backend/phr_generator.py:87-88 | a non-empty list gives one `  - x` line per element, in order |
| PromptHistory.GeneratePhrNumbering | backend/phr_generator.py:76-80 | the record's file name reads back to a number above every existing one, and the next record gets the following number |
| Retrieval.MapResultFails | backend/retrieving.py:23-36 | the loop succeeds exactly when every hit converts, and otherwise fails with the first failing hit's error |
| Retrieval.MapResultAt | backend/retrieving.py:25-35 | on success, result `i` is the conversion of hit `i` |
| Retrieval.MapResultAppend | backend/retrieving.py:25-35 | converting a concatenation is converting each part in turn |
| Retrieval.ProcessHitsSpec | backend/agent.py:42-58 | one chunk per hit, in order, each the conversion of its hit; the first hit that raises ends the loop with its error |
| Retrieval.ProcessHitsAppend | backend/retrieving.py:23-36 | processing concatenated hit lists is processing each in turn |
| Retrieval.EmptyPayload | backend/retrieving.py:26-34 | a hit without payload, or with an empty one, gives empty text, url and chunk id and keeps its score |
| Retrieval.MissingMetadata | backend/agent.py:48-55 | a payload without metadata defaults url and chunk id to the empty string |
| Retrieval.NullMetadata | backend/agent.py:49-54 | a present metadata value that is not a dictionary raises |
| Retrieval.WellFormedHit | backend/tests/test_retrieving.py:47-61 | text from the payload, url and chunk id from its metadata, score copied |
| Retrieval.DumpAllLoad | backend/retrieving.py:59 | one record per result, in order, and each record loads back to the result at its position |
| Retrieval.DumpLoad | backend/retrieving.py:59 | a printed record holds the whole chunk, read back through the `chunkId` alias, and has no `chunk_id` key |
| Agent.EmptyQuery | backend/agent.py:84-86 | an empty query prints the error and does nothing else |
| Agent.NoDocuments | backend/agent.py:88-92 | no hit: the search is followed by the apology and nothing else |
| Agent.RunRaises | backend/agent.py:88 | among the errors of `process_hits`: the run raises exactly when some hit fails to convert, right after the search, with the first such hit's error |
| Agent.RunShape | backend/agent.py:84-107 | a non-empty query is searched first and only once, and the model is asked exactly when there were hits and all converted |
| Agent.AnswerTrace | backend/agent.py:94-122 | with documents, the run is the answered layout for the model's answer and the record written |
| Agent.AnsweredLayout | backend/agent.py:103-122 | after the prompt come `Answer:`, the answer, `Sources:`, one line per document in order, the record and its path |
| Agent.PromptRecoversContext | backend/agent.py:94-96 | the prompt is the preamble, the texts joined by newlines (recoverable by splitting when no text holds one), the question header and the query |
| Agent.CommandLineRecoversQuery | backend/agent.py:129 | the query is read back from between the quotes of the command line |
| Agent.AgentRecord | backend/agent.py:110-121 | the record goes to `general`, is numbered above the existing records, and holds the query, the answer, the command line and the source urls |

## Left out

- Network, HTML and XML parsing, embeddings, the vector store, the language model, the clock and the file system: these are inputs or function parameters, as described above.
- `extract_text_from_url` in both files, apart from the final clean-up; `main_analysis` of backend/analyze_chunks.py, an exception-swallowing counting loop; the Typer command-line entry points and their JSON file loading.
- `retrieve_documents` and `retrieve`: the query encoder and the search (with its `limit=5`) are the `search` parameter of a run; only the conversion of hits and the printed records are modelled.
- The random point id of `save_chunk_to_qdrant`, the `json.dumps` summary of sources and the `:.4f` score format: parameters or left out.
- A retry or back-off policy for the services is described for the system but appears nowhere in its code, so none is modelled.
- Unicode: `str.lower`, `\w` and `\d` are taken to be ASCII. `str.isspace` and `\s` use the full list of white-space code points.
- JSON numbers that are not integers are not represented in payloads. Pydantic's handling of them (and of float-to-int coercion) is not modelled; a boolean chunk id becomes 0 or 1.
- FixedChunker.ChunkText, SnapChunker.ChunkText: the loops carry a `fuel` bound on their iterations; `None` means the fuel ran out. The lemmas show which fuel suffices and when none does.
- FixedChunker.TwoChunks: also requires that the text is at most two steps long; this holds whenever `overlap <= size / 2`, as with the defaults.
- PromptHistory.FileNameRoundTrip, PromptHistory.GeneratePhrNumbering, PromptHistory.NextIdAfterWrite: require that the stage holds no line break, since `.` in the file-name regex does not match one.
- PromptHistory.RecordPath: requires a history root without a trailing `/` and a feature without `/` at either end; RecordInDirectory and AbsoluteFeatureLeavesRoot state what holds otherwise.
- SnapChunker.SnapLoopChunkSizes: requires `size > 0`; the source does not check the chunk size, and with a negative one its empty chunks would exceed it.
- SnapChunker.ChunkTextSizes: requires `size > 0`, for the same reason.
- Agent.RunRaises: exceptions from the search (the encoder and the Qdrant client in `retrieve_documents`), from the language model and from `generate_phr` (the template file, `makedirs`) are not modelled; the services are total functions, so only hit conversion can raise.
- UrlSanitizer.SitemapUrlsSanitized: states the origin and sanitiser fixpoint of each kept URL; the exact list is pinned down by SitemapUrlsAppend with SitemapUrlsSingle.
- The third accepted test URL, `https://subdomain.example.com/path`, is not proved as a concrete example.

## Findings

| source | as written | input that shows it | evidently intended | confidence | as-written member | corrected member |
|---|---|---|---|---|---|---|
| backend/analyze_chunks.py:258-264 | after a cut at relative index `overlap - 1` the next start equals the current one, so the loop never ends | `chunk_text("x. yyyyyyy", 5, 2)`; with the defaults 1000/100, any window whose last sentence ending is at relative index 99 | each window starts after the previous one | not executed | SnapChunker.StuckExample | SnapChunker.GuardedLoopTiles |
| backend/analyze_chunks.py:258-264 | a cut before relative index `overlap - 1` in the first window makes `start` negative, so Python's negative slicing yields an empty chunk | `chunk_text("a. bbbbbbbbbb", 6, 3)` returns `["a.", "", " bbbbb", "bbbbbb", "bbbbb"]` | starts never go below 0 and no chunk is empty | not executed | SnapChunker.NegativeStartExample | SnapChunker.GuardedChunkText |
