/** Turning vector-store search hits into document chunks: `process_hits`,
    which backend/retrieving.py and backend/agent.py define identically, and
    the JSON records `retrieve` prints for them. The search itself and the
    query encoder are not modelled; a hit is its payload and its score, and
    the score is kept opaque (type parameter `S`). */
module Retrieval {
  import opened Wrappers

  /** A payload value as the vector store returns it. Numbers that are not
      integers are not represented. */
  datatype Json =
    | JNull
    | JBool(b: bool)
    | JInt(n: int)
    | JStr(s: string)
    | JArr(items: seq<Json>)
    | JObj(fields: map<string, Json>)

  /** `Union[int, str]` after validation. */
  datatype ChunkId = IntId(n: int) | StrId(s: string)

  /** A search hit: `hit.payload` (possibly `None`) and `hit.score`. */
  datatype Hit<S> = Hit(payload: Option<map<string, Json>>, score: S)

  /** `DocumentChunk` / `RetrievalResult`. */
  datatype DocumentChunk<S> = DocumentChunk(text: string, url: string, chunkId: ChunkId, score: S)

  /** The two ways a hit can make `process_hits` raise: `.get` on a
      `metadata` value that is not a dictionary, and a field the model
      refuses. */
  datatype HitError = AttributeError | ValidationError

  /** `d.get(key, default)`. */
  function Get(d: map<string, Json>, key: string, default: Json): Json {
    if key in d then d[key] else default
  }

  /** Validation of a `str` field: only strings are accepted. */
  function AsStr(v: Json): Option<string> {
    if v.JStr? then Some(v.s) else None
  }

  /** Validation of the `Union[int, str]` field: integers and strings are
      kept as they are, a boolean becomes 0 or 1, anything else is refused. */
  function AsChunkId(v: Json): Option<ChunkId> {
    match v
    case JInt(n) => Some(IntId(n))
    case JStr(s) => Some(StrId(s))
    case JBool(b) => Some(IntId(if b then 1 else 0))
    case _ => None
  }

  /** The body of the loop in `process_hits`, for one hit. */
  function ProcessHit<S>(hit: Hit<S>): Result<DocumentChunk<S>, HitError> {
    var payload := if hit.payload.None? || hit.payload.value == map[] then map[] else hit.payload.value;
    var metadata := Get(payload, "metadata", JObj(map[]));
    if !metadata.JObj? then Failure(AttributeError)
    else
      var text := AsStr(Get(payload, "text", JStr("")));
      var url := AsStr(Get(metadata.fields, "url", JStr("")));
      var chunkId := AsChunkId(Get(metadata.fields, "chunk_id", JStr("")));
      if text.None? || url.None? || chunkId.None? then Failure(ValidationError)
      else Success(DocumentChunk(text.value, url.value, chunkId.value, hit.score))
  }

  /** Applying a fallible step to each element in turn: the results in
      order, or the error of the first element that fails. */
  function MapResult<A, B, E>(xs: seq<A>, f: A -> Result<B, E>): (r: Result<seq<B>, E>)
    ensures r.Success? ==> |r.value| == |xs|
    decreases |xs|
  {
    if xs == [] then Success([])
    else
      match f(xs[0])
      case Failure(e) => Failure(e)
      case Success(y) =>
        match MapResult(xs[1..], f)
        case Failure(e) => Failure(e)
        case Success(ys) => Success([y] + ys)
  }

  /** On success, element `i` of the result is what the step gives for
      element `i`. */
  lemma {:induction false} MapResultAt<A, B, E>(xs: seq<A>, f: A -> Result<B, E>)
    requires MapResult(xs, f).Success?
    ensures forall i :: 0 <= i < |xs| ==> f(xs[i]) == Success(MapResult(xs, f).value[i])
    decreases |xs|
  {
    if xs != [] {
      MapResultAt(xs[1..], f);
      forall i | 0 < i < |xs|
        ensures f(xs[i]) == Success(MapResult(xs, f).value[i])
      {
        assert xs[i] == xs[1..][i - 1];
      }
    }
  }

  /** `MapResult` succeeds exactly when every element succeeds; otherwise it
      fails with the error of the first element that fails. */
  lemma {:induction false} MapResultFails<A, B, E>(xs: seq<A>, f: A -> Result<B, E>)
    ensures MapResult(xs, f).Success? <==> forall i :: 0 <= i < |xs| ==> f(xs[i]).Success?
    ensures MapResult(xs, f).Failure? ==>
              exists k :: 0 <= k < |xs| && f(xs[k]) == Failure(MapResult(xs, f).error)
                && forall i :: 0 <= i < k ==> f(xs[i]).Success?
    decreases |xs|
  {
    if xs != [] {
      MapResultFails(xs[1..], f);
      if f(xs[0]).Success? && MapResult(xs[1..], f).Failure? {
        var k :| 0 <= k < |xs[1..]| && f(xs[1..][k]) == Failure(MapResult(xs[1..], f).error)
                 && forall i :: 0 <= i < k ==> f(xs[1..][i]).Success?;
        assert f(xs[k + 1]) == Failure(MapResult(xs, f).error);
        forall i | 0 <= i < k + 1
          ensures f(xs[i]).Success?
        {
          if i > 0 {
            assert xs[i] == xs[1..][i - 1];
          }
        }
      }
      if !f(xs[0]).Success? {
        assert f(xs[0]) == Failure(MapResult(xs, f).error);
      }
      if MapResult(xs, f).Success? {
        forall i | 0 <= i < |xs|
          ensures f(xs[i]).Success?
        {
        }
      }
    }
  }

  /** Mapping a concatenation is mapping each part in turn. */
  lemma {:induction false} MapResultAppend<A, B, E>(a: seq<A>, b: seq<A>, f: A -> Result<B, E>)
    requires MapResult(a, f).Success? && MapResult(b, f).Success?
    ensures MapResult(a + b, f) == Success(MapResult(a, f).value + MapResult(b, f).value)
    decreases |a|
  {
    if a == [] {
      assert a + b == b;
      assert MapResult(a, f).value + MapResult(b, f).value == MapResult(b, f).value;
    } else {
      var y := f(a[0]).value;
      var ta, tb := MapResult(a[1..], f).value, MapResult(b, f).value;
      assert MapResult(a, f).value == [y] + ta;
      MapResultAppend(a[1..], b, f);
      assert (a + b)[0] == a[0] && (a + b)[1..] == a[1..] + b;
      assert MapResult(a + b, f) == Success([y] + (ta + tb));
      assert [y] + (ta + tb) == ([y] + ta) + tb;
    }
  }

  /** `process_hits`: one chunk per hit, in hit order; the first hit that
      raises ends the loop with its error. */
  function ProcessHits<S>(hits: seq<Hit<S>>): Result<seq<DocumentChunk<S>>, HitError> {
    MapResult(hits, ProcessHit)
  }

  /** The properties of `process_hits`: on success one chunk per hit, each the
      processed hit at the same index; success exactly when no hit raises;
      on failure, the error of the first hit that raises. */
  lemma ProcessHitsSpec<S>(hits: seq<Hit<S>>)
    ensures var r := ProcessHits(hits);
            && (r.Success? <==> forall i :: 0 <= i < |hits| ==> ProcessHit(hits[i]).Success?)
            && (r.Success? ==> |r.value| == |hits| && forall i :: 0 <= i < |hits| ==> ProcessHit(hits[i]) == Success(r.value[i]))
            && (r.Failure? ==> exists k :: 0 <= k < |hits| && ProcessHit(hits[k]) == Failure(r.error)
                                 && forall i :: 0 <= i < k ==> ProcessHit(hits[i]).Success?)
  {
    MapResultFails(hits, ProcessHit);
    if ProcessHits(hits).Success? {
      MapResultAt(hits, ProcessHit);
    }
  }

  /** Processing a concatenation of hit lists is processing each in turn. */
  lemma ProcessHitsAppend<S>(a: seq<Hit<S>>, b: seq<Hit<S>>)
    requires ProcessHits(a).Success? && ProcessHits(b).Success?
    ensures ProcessHits(a + b) == Success(ProcessHits(a).value + ProcessHits(b).value)
  {
    MapResultAppend(a, b, ProcessHit);
  }

  /** A hit without payload, or with an empty one, gives empty text, url and
      chunk id and keeps its score. */
  lemma EmptyPayload<S>(hit: Hit<S>)
    requires hit.payload.None? || hit.payload.value == map[]
    ensures ProcessHit(hit) == Success(DocumentChunk("", "", StrId(""), hit.score))
  {
  }

  /** A payload without metadata defaults url and chunk id to the empty string. */
  lemma MissingMetadata<S>(text: string, score: S)
    ensures ProcessHit(Hit(Some(map["text" := JStr(text)]), score)) == Success(DocumentChunk(text, "", StrId(""), score))
  {
  }

  /** A present but `null` (or otherwise non-dictionary) metadata raises. */
  lemma NullMetadata<S>(payload: map<string, Json>, score: S)
    requires "metadata" in payload && !payload["metadata"].JObj?
    ensures ProcessHit(Hit(Some(payload), score)) == Failure(AttributeError)
  {
  }

  /** A well-formed hit: text from the payload, url and chunk id from its
      metadata, score copied. */
  lemma WellFormedHit<S>(text: string, url: string, id: int, score: S)
    ensures var payload := map["text" := JStr(text), "metadata" := JObj(map["url" := JStr(url), "chunk_id" := JInt(id)])];
            ProcessHit(Hit(Some(payload), score)) == Success(DocumentChunk(text, url, IntId(id), score))
  {
    var payload := map["text" := JStr(text), "metadata" := JObj(map["url" := JStr(url), "chunk_id" := JInt(id)])];
    assert payload != map[] by {
      assert "text" in payload;
    }
  }

  /** A field of the record `model_dump(by_alias=True)` produces. */
  datatype DumpValue<S> = DStr(s: string) | DInt(n: int) | DScore(x: S)

  /** The record of one chunk, in field order; the chunk id appears under its
      alias `chunkId`. */
  function Dump<S>(c: DocumentChunk<S>): seq<(string, DumpValue<S>)> {
    [("text", DStr(c.text)),
     ("url", DStr(c.url)),
     ("chunkId", match c.chunkId case IntId(n) => DInt(n) case StrId(s) => DStr(s)),
     ("score", DScore(c.score))]
  }

  /** The printed list: one record per result, in order. */
  function DumpAll<S>(cs: seq<DocumentChunk<S>>): (out: seq<seq<(string, DumpValue<S>)>>)
    ensures |out| == |cs|
    ensures forall i :: 0 <= i < |cs| ==> out[i] == Dump(cs[i])
  {
    seq(|cs|, i requires 0 <= i < |cs| => Dump(cs[i]))
  }

  /** Reading a record back through the aliases. */
  function Lookup<S>(rec: seq<(string, DumpValue<S>)>, key: string): Option<DumpValue<S>>
    decreases |rec|
  {
    if rec == [] then None else if rec[0].0 == key then Some(rec[0].1) else Lookup(rec[1..], key)
  }

  function Load<S>(rec: seq<(string, DumpValue<S>)>): Option<DocumentChunk<S>> {
    var text := Lookup(rec, "text");
    var url := Lookup(rec, "url");
    var chunkId := Lookup(rec, "chunkId");
    var score := Lookup(rec, "score");
    if text.Some? && text.value.DStr? && url.Some? && url.value.DStr? && score.Some? && score.value.DScore?
       && chunkId.Some? && !chunkId.value.DScore?
    then
      var id := if chunkId.value.DInt? then IntId(chunkId.value.n) else StrId(chunkId.value.s);
      Some(DocumentChunk(text.value.s, url.value.s, id, score.value.x))
    else None
  }

  /** The printed record holds the whole chunk: loading it by the aliased
      keys gives the chunk back, and no key `chunk_id` appears. */
  lemma DumpLoad<S>(c: DocumentChunk<S>)
    ensures Load(Dump(c)) == Some(c)
    ensures Lookup(Dump(c), "chunk_id") == None
  {
    var d := Dump(c);
    var d1, d2, d3 := d[1..], d[2..], d[3..];
    assert d1[1..] == d2 && d2[1..] == d3 && d3[1..] == [];
    assert Lookup(d, "text") == Some(DStr(c.text));
    assert Lookup(d, "url") == Lookup(d1, "url") == Some(DStr(c.url));
    assert Lookup(d, "chunkId") == Lookup(d1, "chunkId") == Lookup(d2, "chunkId") == Some(d[2].1);
    assert Lookup(d, "score") == Lookup(d1, "score") == Lookup(d2, "score") == Lookup(d3, "score") == Some(DScore(c.score));
    assert Lookup(d, "chunk_id") == Lookup(d1, "chunk_id") == Lookup(d2, "chunk_id") == Lookup(d3, "chunk_id");
    assert Lookup(d3, "chunk_id") == Lookup(d3[1..], "chunk_id") == None;
  }

  /** The printed list loses nothing: each record loads back to the result
      at the same position. */
  lemma DumpAllLoad<S>(cs: seq<DocumentChunk<S>>)
    ensures |DumpAll(cs)| == |cs|
    ensures forall i :: 0 <= i < |cs| ==> Load(DumpAll(cs)[i]) == Some(cs[i])
  {
    forall i | 0 <= i < |cs|
      ensures Load(DumpAll(cs)[i]) == Some(cs[i])
    {
      DumpLoad(cs[i]);
    }
  }
}
