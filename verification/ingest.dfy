/** The embedding pipeline of backend/main.py: the sitemap address derived
    from the site's base URL, and the points `main` upserts for a page after
    chunking it and embedding the chunks. Fetching, HTML parsing, the
    embedding service and the vector store are not modelled: the extracted
    page and the embedding function are parameters, and a saved point is a
    value rather than a remote write (its random UUID is left out). */
module Ingest {
  import opened Wrappers
  import opened Text
  import FixedChunker

  const SitemapSuffix := "/sitemap.xml"

  /** The chunking parameters `main` relies on: `chunk_text`'s defaults. */
  const DefaultSize := 1000
  const DefaultOverlap := 100

  predicate IsSlash(c: char) {
    c == '/'
  }

  /** `f"{base_url.rstrip('/')}/sitemap.xml"`. */
  function SitemapUrl(base: string): string {
    TrimRight(base, IsSlash) + SitemapSuffix
  }

  /** The sitemap address is a prefix of the base URL that keeps everything
      but the trailing slashes, followed by `/sitemap.xml`. */
  lemma SitemapUrlShape(base: string)
    ensures var u := SitemapUrl(base);
            var n := |u| - |SitemapSuffix|;
            && 0 <= n <= |base|
            && u[n..] == SitemapSuffix
            && u[..n] == base[..n]
            && (forall i :: n <= i < |base| ==> base[i] == '/')
            && (n == 0 || base[n - 1] != '/')
  {
    var p := TrimRight(base, IsSlash);
    var u := SitemapUrl(base);
    assert u[|p|..] == SitemapSuffix;
    assert u[..|p|] == p;
  }

  /** Trailing slashes on the base URL make no difference. */
  lemma SitemapUrlTrailingSlash(base: string)
    ensures SitemapUrl(base + "/") == SitemapUrl(base)
  {
    assert (base + "/")[..|base|] == base;
  }

  /** The default target of the pipeline. */
  lemma SitemapUrlOfDefaultTarget()
    ensures SitemapUrl("https://hackathon-in-classnew.vercel.app/")
         == "https://hackathon-in-classnew.vercel.app/sitemap.xml"
  {
    var base := "https://hackathon-in-classnew.vercel.app/";
    SitemapUrlTrailingSlash(base[..|base| - 1]);
    assert base[..|base| - 1] + "/" == base;
    assert TrimRight(base[..|base| - 1], IsSlash) == base[..|base| - 1];
  }

  /** One point written to the collection: the chunk and its page's metadata
      as payload, the embedding as vector. */
  datatype Point<V> = Point(text: string, url: string, title: string, vector: seq<V>)

  /** `save_chunk_to_qdrant`: the points it upserts (none for an empty vector). */
  function SaveChunk<V>(chunk: string, url: string, title: string, vector: seq<V>): (ps: seq<Point<V>>)
    ensures |ps| <= 1
    ensures ps == [] <==> vector == []
    ensures forall p :: p in ps ==> p == Point(chunk, url, title, vector)
  {
    if vector != [] then [Point(chunk, url, title, vector)] else []
  }

  /** The `for i, chunk in enumerate(chunks)` loop of `main`, from index `i` on:
      chunk `i` is saved with vector `i` while there is one. */
  function SaveFrom<V>(chunks: seq<string>, vectors: seq<seq<V>>, url: string, title: string, i: nat): seq<Point<V>>
    decreases |chunks| - i
  {
    if i >= |chunks| then []
    else
      (if i < |vectors| then SaveChunk(chunks[i], url, title, vectors[i]) else [])
      + SaveFrom(chunks, vectors, url, title, i + 1)
  }

  function Min(a: int, b: int): int {
    if a <= b then a else b
  }

  /** The reference pairing: chunk `k` with vector `k`, as far as both go. */
  function Zip<V>(chunks: seq<string>, vectors: seq<seq<V>>): (z: seq<(string, seq<V>)>)
    ensures |z| == Min(|chunks|, |vectors|)
    ensures forall k :: 0 <= k < |z| ==> z[k] == (chunks[k], vectors[k])
  {
    seq(Min(|chunks|, |vectors|), k requires 0 <= k < Min(|chunks|, |vectors|) => (chunks[k], vectors[k]))
  }

  /** The reference filter: a point per pair whose vector is non-empty, in order. */
  function NonEmptyPoints<V>(pairs: seq<(string, seq<V>)>, url: string, title: string): (ps: seq<Point<V>>)
    ensures |ps| <= |pairs|
    ensures forall p :: p in ps ==> p.url == url && p.title == title && p.vector != [] && (p.text, p.vector) in pairs
    decreases |pairs|
  {
    if pairs == [] then []
    else
      var rest := NonEmptyPoints(pairs[1..], url, title);
      if pairs[0].1 != [] then [Point(pairs[0].0, url, title, pairs[0].1)] + rest else rest
  }

  /** The loop saves exactly the non-empty pairs of the reference pairing,
      in chunk order. */
  lemma {:induction false} SaveFromIsFilteredZip<V>(chunks: seq<string>, vectors: seq<seq<V>>, url: string, title: string, i: nat)
    requires i <= |chunks|
    ensures var z := Zip(chunks, vectors);
            SaveFrom(chunks, vectors, url, title, i) == NonEmptyPoints(z[Min(i, |z|)..], url, title)
    decreases |chunks| - i
  {
    var z := Zip(chunks, vectors);
    if i < |chunks| {
      SaveFromIsFilteredZip(chunks, vectors, url, title, i + 1);
      if i < |vectors| {
        assert z[i..][1..] == z[i + 1..];
      }
    }
  }

  /** All of `main`'s saving for one page. */
  function SaveAll<V>(chunks: seq<string>, vectors: seq<seq<V>>, url: string, title: string): seq<Point<V>> {
    SaveFrom(chunks, vectors, url, title, 0)
  }

  /** Saving writes at most `min(len(chunks), len(vectors))` points, each with
      a non-empty vector, the page's url and title, and a chunk paired with
      the vector of the same index. */
  lemma SaveAllBounds<V>(chunks: seq<string>, vectors: seq<seq<V>>, url: string, title: string)
    ensures var ps := SaveAll(chunks, vectors, url, title);
            && |ps| <= Min(|chunks|, |vectors|)
            && (forall p :: p in ps ==> p.url == url && p.title == title && p.vector != [])
            && (forall p :: p in ps ==>
                  exists k :: 0 <= k < Min(|chunks|, |vectors|) && chunks[k] == p.text && vectors[k] == p.vector)
  {
    var z := Zip(chunks, vectors);
    SaveFromIsFilteredZip(chunks, vectors, url, title, 0);
    assert z[0..] == z;
    var ps := SaveAll(chunks, vectors, url, title);
    forall p | p in ps
      ensures exists k :: 0 <= k < Min(|chunks|, |vectors|) && chunks[k] == p.text && vectors[k] == p.vector
    {
      var k :| 0 <= k < |z| && z[k] == (p.text, p.vector);
      assert chunks[k] == p.text && vectors[k] == p.vector;
    }
  }

  /** When every vector is non-empty, point `k` is chunk `k` with vector `k`
      for every `k` below `min(len(chunks), len(vectors))`. */
  lemma {:induction false} NonEmptyPointsAll<V>(pairs: seq<(string, seq<V>)>, url: string, title: string)
    requires forall k :: 0 <= k < |pairs| ==> pairs[k].1 != []
    ensures NonEmptyPoints(pairs, url, title) == seq(|pairs|, k requires 0 <= k < |pairs| => Point(pairs[k].0, url, title, pairs[k].1))
    decreases |pairs|
  {
    if pairs != [] {
      NonEmptyPointsAll(pairs[1..], url, title);
    }
  }

  lemma SaveAllPairs<V>(chunks: seq<string>, vectors: seq<seq<V>>, url: string, title: string)
    requires forall k :: 0 <= k < |vectors| ==> vectors[k] != []
    ensures var ps := SaveAll(chunks, vectors, url, title);
            && |ps| == Min(|chunks|, |vectors|)
            && forall k :: 0 <= k < |ps| ==> ps[k] == Point(chunks[k], url, title, vectors[k])
  {
    var z := Zip(chunks, vectors);
    SaveFromIsFilteredZip(chunks, vectors, url, title, 0);
    assert z[0..] == z;
    NonEmptyPointsAll(z, url, title);
  }

  /** The steps of `main` for one page: nothing for a failed or empty
      extraction; otherwise the text is chunked with the defaults, the chunks
      are embedded by `embed` (the embedding service) and saved. The fixed
      chunker is given fuel `len(text)`, which `IngestChunks` shows is enough. */
  function IngestPage<V>(url: string, text: Option<string>, title: string, embed: seq<string> -> seq<seq<V>>): seq<Point<V>> {
    if text.None? || text.value == [] then []
    else
      match FixedChunker.ChunkText(text.value, DefaultSize, DefaultOverlap, |text.value|)
      case None => []
      case Some(chunks) => SaveAll(chunks, embed(chunks), url, title)
  }

  /** A text of `n` characters needs at most `n` windows. */
  lemma {:induction false} ChunkCountAtMostLength(n: nat, step: nat)
    requires step > 0
    ensures FixedChunker.ChunkCount(n, step) <= n
    decreases n
  {
    if n > step {
      ChunkCountAtMostLength(n - step, step);
    }
  }

  /** With the defaults the chunker ends within the fuel `IngestPage` gives it,
      and every saved point carries one of the page's chunks: a substring of
      at most 1000 characters. */
  lemma IngestChunks<V>(url: string, text: string, title: string, embed: seq<string> -> seq<seq<V>>)
    requires text != []
    ensures var cs := FixedChunker.ClosedForm(text, DefaultSize, DefaultOverlap);
            && FixedChunker.ChunkText(text, DefaultSize, DefaultOverlap, |text|) == Some(cs)
            && forall p :: p in IngestPage(url, Some(text), title, embed) ==>
                 p.url == url && p.title == title && p.vector != [] && p.text in cs && |p.text| <= DefaultSize
  {
    var cs := FixedChunker.ClosedForm(text, DefaultSize, DefaultOverlap);
    ChunkCountAtMostLength(|text|, DefaultSize - DefaultOverlap);
    FixedChunker.FixedChunksClosedForm(text, DefaultSize, DefaultOverlap, |text|);
    SaveAllBounds(cs, embed(cs), url, title);
    forall p | p in IngestPage(url, Some(text), title, embed)
      ensures p.text in cs && |p.text| <= DefaultSize
    {
      var k :| 0 <= k < Min(|cs|, |embed(cs)|) && cs[k] == p.text && embed(cs)[k] == p.vector;
      FixedChunker.ClosedFormChunk(text, DefaultSize, DefaultOverlap, k);
    }
  }

  /** A page whose extraction failed or came back empty saves nothing. */
  lemma IngestNothing<V>(url: string, text: Option<string>, title: string, embed: seq<string> -> seq<seq<V>>)
    requires text.None? || text.value == []
    ensures IngestPage(url, text, title, embed) == []
  {
  }
}
