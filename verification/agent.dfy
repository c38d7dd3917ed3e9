/** The question-answering command of backend/agent.py: `run_agent` and the
    command line `main` builds for it. A run is modelled as the trace of its
    observable steps — the search, the question put to the language model,
    the lines printed and the prompt history record written. The services
    are parameters: the search returns `hits`, the language model is
    `generate`, the `:.4f` score formatting is `fmt`, the `json.dumps`
    summary of the sources is `summarize`, and the record is built by
    `PromptHistory.GeneratePhr` from the history root, the listing of its
    directory, the template and the clock reading. */
module Agent {
  import opened Wrappers
  import opened Text
  import opened Retrieval
  import PromptHistory

  /** One observable step of a run. `Print(line)` prints `line` and a newline. */
  datatype Event =
    | Search(query: string)
    | Ask(prompt: string)
    | Print(line: string)
    | Write(file: PromptHistory.PhrFile)

  /** How a run ends: normally, or with the exception `process_hits` raised. */
  datatype Outcome = Done | Raised(error: HitError)

  datatype Run = Run(events: seq<Event>, outcome: Outcome)

  const EmptyQueryMessage := "Error: Query cannot be empty."
  const NoAnswerMessage := "Could not find an answer to your question."
  const PromptHeader := "Based on the following context, please answer the question.\n\nContext:\n"
  const QuestionHeader := "\n\nQuestion:\n"

  /** The settings of the record a run writes. */
  const AgentTitle := "RAG Agent Query"
  const AgentStage := "general"
  const AgentModel := "gemini-pro"
  const AgentImpact := "RAG agent response to user query."

  function Texts<S>(docs: seq<DocumentChunk<S>>): (ts: seq<string>)
    ensures |ts| == |docs|
    ensures forall i :: 0 <= i < |docs| ==> ts[i] == docs[i].text
  {
    seq(|docs|, i requires 0 <= i < |docs| => docs[i].text)
  }

  function Urls<S>(docs: seq<DocumentChunk<S>>): (us: seq<string>)
    ensures |us| == |docs|
    ensures forall i :: 0 <= i < |docs| ==> us[i] == docs[i].url
  {
    seq(|docs|, i requires 0 <= i < |docs| => docs[i].url)
  }

  /** The prompt: the retrieved texts joined by newlines as context, then
      the question. */
  function Prompt<S>(query: string, docs: seq<DocumentChunk<S>>): string {
    PromptHeader + Join("\n", Texts(docs)) + QuestionHeader + query
  }

  /** The line printed for one source. */
  function SourceLine<S>(doc: DocumentChunk<S>, fmt: S -> string): string {
    "- " + doc.url + " (Score: " + fmt(doc.score) + ")"
  }

  /** The lines printed under "Sources:", one per document in order. */
  function SourceLines<S>(docs: seq<DocumentChunk<S>>, fmt: S -> string): (es: seq<Event>)
    ensures |es| == |docs|
    ensures forall i :: 0 <= i < |docs| ==> es[i] == Print(SourceLine(docs[i], fmt))
  {
    seq(|docs|, i requires 0 <= i < |docs| => Print(SourceLine(docs[i], fmt)))
  }

  /** The arguments `run_agent` passes to `generate_phr`; every other
      argument keeps its default. */
  function AgentRequest<S>(query: string, answer: string, command: string, docs: seq<DocumentChunk<S>>, summary: string): PromptHistory.PhrRequest {
    PromptHistory.DefaultRequest(query, answer, AgentTitle, AgentStage)
      .(model := AgentModel, command := command, files := Urls(docs),
        outcomeImpact := AgentImpact, filesSummary := summary)
  }

  /** The services a run calls: the search (its hits for the query), the
      language model, the `:.4f` score formatting, the `json.dumps` summary
      of the sources and `generate_phr` (the record it writes for a
      request, `PromptHistory.GeneratePhr` in a given directory state). */
  datatype Services<!S> = Services(
    search: string -> seq<Hit<S>>,
    generate: string -> string,
    fmt: S -> string,
    summarize: seq<DocumentChunk<S>> -> string,
    record: PromptHistory.PhrRequest -> PromptHistory.PhrFile)

  /** `run_agent(query, command)`. */
  function RunAgent<S>(query: string, command: string, env: Services<S>): Run {
    if query == [] then Run([Print(EmptyQueryMessage)], Done)
    else
      match ProcessHits(env.search(query))
      case Failure(e) => Run([Search(query)], Raised(e))
      case Success(docs) =>
        if docs == [] then Run([Search(query), Print(NoAnswerMessage)], Done)
        else
          var answer := env.generate(Prompt(query, docs));
          var file := env.record(AgentRequest(query, answer, command, docs, env.summarize(docs)));
          Run(Answered(query, docs, answer, env.fmt, file), Done)
  }

  /** The steps of a run that found documents, given the model's answer and
      the record written. */
  function Answered<S>(query: string, docs: seq<DocumentChunk<S>>, answer: string, fmt: S -> string,
                       file: PromptHistory.PhrFile): seq<Event> {
    [Search(query), Ask(Prompt(query, docs)), Print("Answer:"), Print(answer), Print("\nSources:")]
    + SourceLines(docs, fmt)
    + [Write(file), Print("\nPHR generated at: " + file.path)]
  }

  /** The layout of an answered run: the question, the answer under
      "Answer:", one line per source in order, then the record and its path. */
  lemma AnsweredLayout<S>(query: string, docs: seq<DocumentChunk<S>>, answer: string, fmt: S -> string,
                          file: PromptHistory.PhrFile)
    ensures var es := Answered(query, docs, answer, fmt, file);
            && |es| == |docs| + 7
            && es[0] == Search(query)
            && es[1] == Ask(Prompt(query, docs))
            && es[2] == Print("Answer:") && es[3] == Print(answer)
            && es[4] == Print("\nSources:")
            && (forall i :: 0 <= i < |docs| ==> es[5 + i] == Print(SourceLine(docs[i], fmt)))
            && es[|docs| + 5] == Write(file)
            && es[|docs| + 6] == Print("\nPHR generated at: " + file.path)
            && (forall i :: 1 <= i < |es| ==> !es[i].Search?)
            && (forall i :: 0 <= i < |es| && es[i].Ask? ==> i == 1)
  {
    var es := Answered(query, docs, answer, fmt, file);
    var lines := SourceLines(docs, fmt);
    forall i | 0 <= i < |docs|
      ensures es[5 + i] == Print(SourceLine(docs[i], fmt))
    {
      assert es[5 + i] == lines[i];
    }
  }

  /** An empty query is refused before anything is searched. */
  lemma EmptyQuery<S>(command: string, env: Services<S>)
    ensures RunAgent("", command, env) == Run([Print(EmptyQueryMessage)], Done)
  {
  }

  /** A hit that fails to convert ends the run right after the search, with
      the error of the first such hit; otherwise the run ends normally. */
  lemma RunRaises<S>(query: string, command: string, env: Services<S>)
    requires query != []
    ensures var run := RunAgent(query, command, env);
            var hits := env.search(query);
            && (run.outcome.Raised? <==> exists k :: 0 <= k < |hits| && ProcessHit(hits[k]).Failure?)
            && (run.outcome.Raised? ==>
                  run.events == [Search(query)]
                  && exists k :: 0 <= k < |hits| && ProcessHit(hits[k]) == Failure(run.outcome.error)
                       && forall i :: 0 <= i < k ==> ProcessHit(hits[i]).Success?)
  {
    ProcessHitsSpec(env.search(query));
  }

  /** A non-empty query is searched first and only once, and the language
      model is asked exactly when the search found some hit and every hit
      converted. */
  lemma RunShape<S>(query: string, command: string, env: Services<S>)
    requires query != []
    ensures var run := RunAgent(query, command, env);
            var hits := env.search(query);
            && |run.events| >= 1
            && run.events[0] == Search(query)
            && (forall i :: 1 <= i < |run.events| ==> !run.events[i].Search?)
            && ((exists i :: 0 <= i < |run.events| && run.events[i].Ask?) <==> (run.outcome.Done? && hits != []))
  {
    var r := ProcessHits(env.search(query));
    if r.Success? && r.value != [] {
      var answer := env.generate(Prompt(query, r.value));
      var file := env.record(AgentRequest(query, answer, command, r.value, env.summarize(r.value)));
      AnsweredLayout(query, r.value, answer, env.fmt, file);
    }
  }

  /** Documents found: the run is the answered layout for the converted
      hits, the model's answer to their prompt and the record written for
      the query and that answer. */
  lemma AnswerTrace<S>(query: string, command: string, env: Services<S>)
    requires query != []
    requires ProcessHits(env.search(query)).Success? && env.search(query) != []
    ensures var docs := ProcessHits(env.search(query)).value;
            var answer := env.generate(Prompt(query, docs));
            var file := env.record(AgentRequest(query, answer, command, docs, env.summarize(docs)));
            && |docs| == |env.search(query)|
            && RunAgent(query, command, env) == Run(Answered(query, docs, answer, env.fmt, file), Done)
  {
  }

  /** No hit: the search is followed by the apology and nothing else. */
  lemma NoDocuments<S>(query: string, command: string, env: Services<S>)
    requires query != [] && env.search(query) == []
    ensures RunAgent(query, command, env) == Run([Search(query), Print(NoAnswerMessage)], Done)
  {
  }

  /** The prompt carries the query and the retrieved texts unchanged: it
      ends with the question header and the query, and when no text holds a
      newline, splitting its context part at newlines gives the texts back. */
  lemma {:induction false} PromptRecoversContext<S>(query: string, docs: seq<DocumentChunk<S>>)
    requires docs != []
    requires forall i :: 0 <= i < |docs| ==> '\n' !in docs[i].text
    ensures var p := Prompt(query, docs);
            var lo, hi := |PromptHeader|, |p| - |QuestionHeader| - |query|;
            && lo <= hi
            && p[..lo] == PromptHeader
            && p[hi..] == QuestionHeader + query
            && Split(p[lo..hi], "\n") == Texts(docs)
  {
    var ts := Texts(docs);
    var context := Join("\n", ts);
    var p := Prompt(query, docs);
    assert p == PromptHeader + context + (QuestionHeader + query);
    var lo, hi := |PromptHeader|, |p| - |QuestionHeader| - |query|;
    assert p[lo..hi] == context;
    assert p[hi..] == QuestionHeader + query;
    SplitOfJoin(ts, "\n");
  }

  /** `main`'s command line for a query. */
  function CommandLine(query: string): string {
    "python backend/agent.py --query '" + query + "'"
  }

  /** The query is read back from the command line between its quotes. */
  lemma CommandLineRecoversQuery(query: string)
    ensures var c := CommandLine(query);
            var n := |"python backend/agent.py --query '"|;
            && |c| == n + |query| + 1
            && c[n..|c| - 1] == query
            && c[|c| - 1] == '\''
  {
  }

  /** The record of a run goes to the `general` directory under the history
      root, is numbered one above the records already there, has the slug of
      the fixed title and stage `general`, and records the command line, the
      query as prompt, the answer as response and the source urls as files. */
  lemma AgentRecord<S>(query: string, answer: string, docs: seq<DocumentChunk<S>>, summary: string,
                       historyRoot: string, listing: seq<string>, template: string, dateIso: string)
    ensures var req := AgentRequest(query, answer, CommandLine(query), docs, summary);
            var f := PromptHistory.GeneratePhr(req, historyRoot, listing, template, dateIso);
            var id := PromptHistory.NextId(listing);
            && f.directory == PromptHistory.PathJoin(historyRoot, "general")
            && f.fileName == PromptHistory.FileName(id, PromptHistory.CreateSlug(AgentTitle), AgentStage)
            && PromptHistory.MatchId(f.fileName) == Some(id)
            && PromptHistory.NextId(listing + [f.fileName]) == id + 1
            && req.promptText == query && req.responseText == answer
            && req.command == CommandLine(query)
            && |req.files| == |docs| && (forall i :: 0 <= i < |docs| ==> req.files[i] == docs[i].url)
  {
    var req := AgentRequest(query, answer, CommandLine(query), docs, summary);
    assert PromptHistory.Route(AgentStage, None) == "general";
    PromptHistory.GeneratePhrNumbering(req, historyRoot, listing, template, dateIso);
  }
}
