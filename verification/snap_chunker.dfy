/** The sentence-snapping chunker `chunk_text` of backend/analyze_chunks.py.
    Each window of `size` characters that does not reach the end of the text
    is cut right after the last sentence ending inside it (". ", "? ", "! "
    or a newline) when that ending lies strictly between the window's first
    character and `size - overlap`; the next window starts `overlap`
    characters before the cut.

    The loop is modelled exactly, Python's negative slice indices included,
    with a `fuel` bound on its iterations: it does not always end. It does end
    when `0 <= overlap <= 1 < size`, or when the text holds no sentence ending
    and `0 <= overlap < size` (`GoodParams`); otherwise a cut at relative
    index `overlap - 1` restarts the next window where the current one began,
    forever (`StuckWindow`), and a cut before `overlap - 1` in the first
    window sends `start` negative (`NegativeStartExample`). `GuardedLoop` is
    the corrected loop, which always advances. */
module SnapChunker {
  import opened Wrappers
  import opened Text

  /** A window of the text: `chunk = text[start:end]`. */
  datatype Window = Window(start: int, end: int)

  /** The characters that end a sentence when a space follows them. */
  predicate IsMark(c: char) {
    c == '.' || c == '?' || c == '!'
  }

  /** A sentence ending the chunker looks for starts at index `i` of `s`: a
      newline, or a mark followed by a space (see `BoundaryIsPattern`). */
  predicate IsBoundaryAt(s: string, i: int) {
    0 <= i < |s| && (s[i] == '\n' || (i + 1 < |s| && IsMark(s[i]) && s[i + 1] == ' '))
  }

  /** The text holds no sentence ending at all. */
  predicate NoBoundary(s: string) {
    forall i :: 0 <= i < |s| ==> !IsBoundaryAt(s, i)
  }

  /** `IsBoundaryAt` is an occurrence of one of the four patterns the source
      searches for. */
  lemma BoundaryIsPattern(s: string, i: int)
    ensures IsBoundaryAt(s, i) <==>
            OccursAt(s, ". ", i) || OccursAt(s, "? ", i) || OccursAt(s, "! ", i) || OccursAt(s, "\n", i)
  {
    if 0 <= i && i + 1 <= |s| {
      assert s[i..i + 1] == [s[i]];
    }
    if 0 <= i && i + 2 <= |s| {
      assert s[i..i + 2] == [s[i], s[i + 1]];
    }
  }

  function Max(a: int, b: int): int {
    if a < b then b else a
  }

  /** The source's `max(chunk.rfind('. '), chunk.rfind('? '),
      chunk.rfind('! '), chunk.rfind('\n'))`. */
  function MaxRFind(w: string): int {
    Max(Max(RFind(w, ". "), RFind(w, "? ")), Max(RFind(w, "! "), RFind(w, "\n")))
  }

  /** The last sentence ending at or below index `k`, scanning down; -1 if
      there is none. */
  function ScanBoundary(w: string, k: int): (r: int)
    requires -1 <= k < |w|
    ensures -1 <= r <= k
    decreases k + 1
  {
    if k < 0 then -1 else if IsBoundaryAt(w, k) then k else ScanBoundary(w, k - 1)
  }

  /** The index of the last sentence ending of the window, or -1. */
  function LastBoundary(w: string): (r: int)
    ensures -1 <= r < |w|
  {
    ScanBoundary(w, |w| - 1)
  }

  lemma {:induction false} ScanBoundarySpec(w: string, k: int)
    requires -1 <= k < |w|
    ensures var r := ScanBoundary(w, k);
            && (r == -1 || IsBoundaryAt(w, r))
            && forall i :: r < i <= k ==> !IsBoundaryAt(w, i)
    decreases k + 1
  {
    if k >= 0 && !IsBoundaryAt(w, k) {
      ScanBoundarySpec(w, k - 1);
    }
  }

  /** The index `LastBoundary` finds is a sentence ending, and none follows. */
  lemma LastBoundarySpec(w: string)
    ensures var r := LastBoundary(w);
            && (r == -1 || IsBoundaryAt(w, r))
            && forall i :: r < i ==> !IsBoundaryAt(w, i)
  {
    ScanBoundarySpec(w, |w| - 1);
  }

  /** The scan finds what the source's maximum of four `rfind`s finds. */
  lemma LastBoundaryIsMaxRFind(w: string)
    ensures LastBoundary(w) == MaxRFind(w)
  {
    LastBoundarySpec(w);
    forall i
      ensures IsBoundaryAt(w, i) <==>
              OccursAt(w, ". ", i) || OccursAt(w, "? ", i) || OccursAt(w, "! ", i) || OccursAt(w, "\n", i)
    {
      BoundaryIsPattern(w, i);
    }
    var m := MaxRFind(w);
    assert m == -1 || IsBoundaryAt(w, m);
    assert forall i :: m < i ==> !IsBoundaryAt(w, i);
  }

  /** The last sentence ending of a window is `r` (or there is none, `r == -1`)
      when `r` is one and no mark character or newline follows it. */
  lemma LastBoundaryIs(w: string, r: int)
    requires r == -1 || IsBoundaryAt(w, r)
    requires forall i :: r < i < |w| ==> !IsMark(w[i]) && w[i] != '\n'
    ensures LastBoundary(w) == r
  {
    LastBoundarySpec(w);
  }

  /** The chunk ending at `e` ends a sentence: its last character is a
      newline, or a '.', '?' or '!' that the text follows with a space. */
  predicate EndsSentence(text: string, e: int) {
    0 < e <= |text| &&
    (text[e - 1] == '\n' || (e < |text| && IsMark(text[e - 1]) && text[e] == ' '))
  }

  /** How much of a window that does not reach the end of the text is kept,
      scanning down from index `k`: up to and including the first sentence
      ending met, if it lies strictly between the first character and
      `|w| - overlap`; else the whole `size`. */
  function CutScan(w: string, k: int, size: int, overlap: int): (n: int)
    requires k < |w|
    ensures 0 < size && |w| <= size ==> 0 < n <= size
    decreases k
  {
    if k <= 0 then size
    else if IsBoundaryAt(w, k) then (if k < |w| - overlap then k + 1 else size)
    else CutScan(w, k - 1, size, overlap)
  }

  /** The scan keeps what the source keeps: up to the last sentence ending `r`
      when `0 < r < |w| - overlap`, otherwise the whole window. */
  lemma {:induction false} CutScanIsLastBoundary(w: string, k: int, size: int, overlap: int)
    requires -1 <= k < |w|
    ensures var r := ScanBoundary(w, k);
            CutScan(w, k, size, overlap) == if 0 < r < |w| - overlap then r + 1 else size
    decreases k + 1
  {
    if k > 0 && !IsBoundaryAt(w, k) {
      CutScanIsLastBoundary(w, k - 1, size, overlap);
    }
  }

  /** A sentence ending at absolute index `i` of the piece `text[lo..hi]`. */
  predicate BoundaryWithin(text: string, lo: int, hi: int, i: int)
    requires 0 <= lo <= hi <= |text|
  {
    lo <= i < hi && (text[i] == '\n' || (i + 1 < hi && IsMark(text[i]) && text[i + 1] == ' '))
  }

  /** `CutScan` over the piece `text[lo..hi]`, indexing the text itself: `i`
      is the absolute index scanned, `i - lo` the index in the piece. */
  function CutScanIn(text: string, lo: int, hi: int, i: int, size: int, overlap: int): (n: int)
    requires 0 <= lo <= hi <= |text| && i < hi
    ensures 0 < size && hi - lo <= size ==> 0 < n <= size
    decreases i - lo
  {
    if i <= lo then size
    else if BoundaryWithin(text, lo, hi, i) then (if i - lo < hi - lo - overlap then i - lo + 1 else size)
    else CutScanIn(text, lo, hi, i - 1, size, overlap)
  }

  lemma {:induction false} CutScanInIsCutScan(text: string, lo: int, hi: int, k: int, size: int, overlap: int)
    requires 0 <= lo <= hi <= |text|
    requires -1 <= k < hi - lo
    ensures CutScanIn(text, lo, hi, lo + k, size, overlap) == CutScan(text[lo..hi], k, size, overlap)
    decreases k + 1
  {
    if k > 0 {
      assert BoundaryWithin(text, lo, hi, lo + k) <==> IsBoundaryAt(text[lo..hi], k);
      CutScanInIsCutScan(text, lo, hi, k - 1, size, overlap);
    }
  }

  /** One iteration of the loop body: the window taken from `start`. Python's
      `text[start:end]` is the piece between the normalised bounds `lo` and
      `hi`; the cut is searched for in that piece. */
  function SnapStep(text: string, start: int, size: int, overlap: int): (w: Window)
    ensures w.start == start
    ensures start + size >= |text| ==> w.end == |text|
    ensures 0 < size && start + size < |text| ==> start < w.end <= start + size
  {
    var end := start + size;
    if end >= |text| then Window(start, |text|)
    else
      var lo := PyIndex(start, |text|);
      var hi := PyIndex(end, |text|);
      if lo < hi then Window(start, start + CutScanIn(text, lo, hi, hi - 1, size, overlap))
      else Window(start, end)
  }

  /** The step in terms of the last sentence ending of the window. */
  lemma SnapStepByLastBoundary(text: string, start: int, size: int, overlap: int)
    requires start + size < |text|
    ensures var chunk := PySlice(text, start, start + size);
            var r := LastBoundary(chunk);
            SnapStep(text, start, size, overlap).end
              == if 0 < r < |chunk| - overlap then start + r + 1 else start + size
  {
    var chunk := PySlice(text, start, start + size);
    var lo := PyIndex(start, |text|);
    var hi := PyIndex(start + size, |text|);
    if lo < hi {
      assert chunk == text[lo..hi];
      CutScanInIsCutScan(text, lo, hi, hi - lo - 1, size, overlap);
      CutScanIsLastBoundary(chunk, |chunk| - 1, size, overlap);
    } else {
      assert chunk == [];
    }
  }

  /** The loop body exactly as the source writes it. */
  function SourceStep(text: string, start: int, size: int, overlap: int): Window {
    var end := start + size;
    if end >= |text| then Window(start, |text|)
    else
      var chunk := PySlice(text, start, end);
      var r := MaxRFind(chunk);
      if r > 0 && r < |chunk| - overlap then Window(start, start + r + 1)
      else Window(start, end)
  }

  /** `SnapStep` is the source's loop body. */
  lemma SnapStepMatchesSource(text: string, start: int, size: int, overlap: int)
    ensures SnapStep(text, start, size, overlap) == SourceStep(text, start, size, overlap)
  {
    if start + size < |text| {
      var chunk := PySlice(text, start, start + size);
      var r := LastBoundary(chunk);
      var e := if 0 < r < |chunk| - overlap then start + r + 1 else start + size;
      LastBoundaryIsMaxRFind(chunk);
      SnapStepByLastBoundary(text, start, size, overlap);
      assert SourceStep(text, start, size, overlap) == Window(start, e);
      assert SnapStep(text, start, size, overlap) == Window(start, e);
    }
  }

  /** A window that does not reach the end of the text and is cut short ends
      at a sentence ending, the last one of the full window, and holds at most
      `size - overlap` characters. */
  lemma SnapCut(text: string, start: int, size: int, overlap: int)
    requires 0 <= start && 0 < size && start + size < |text|
    requires SnapStep(text, start, size, overlap).end < start + size
    ensures var e := SnapStep(text, start, size, overlap).end;
            && 0 < e - start - 1 == LastBoundary(text[start..start + size])
            && e - start <= size - overlap
            && EndsSentence(text, e)
  {
    var end := start + size;
    var chunk := text[start..end];
    var r := LastBoundary(chunk);
    SnapStepByLastBoundary(text, start, size, overlap);
    LastBoundarySpec(chunk);
    assert chunk[r] == text[start + r];
    assert r + 1 < |chunk| ==> chunk[r + 1] == text[start + r + 1];
  }

  /** Where the loop goes after window `w`: `end - overlap`, or the end of the
      text after the last window. */
  function NextStart(text: string, w: Window, overlap: int): int {
    if w.end < |text| then w.end - overlap else |text|
  }

  /** The `while start < text_length` loop entered with `start`; `None` when
      `fuel` iterations do not finish it. */
  function SnapLoop(text: string, start: int, size: int, overlap: int, fuel: nat): Option<seq<Window>>
    decreases fuel
  {
    if start >= |text| then Some([])
    else if fuel == 0 then None
    else
      var w := SnapStep(text, start, size, overlap);
      match SnapLoop(text, NextStart(text, w, overlap), size, overlap, fuel - 1)
      case None => None
      case Some(rest) => Some([w] + rest)
  }

  /** The chunk a window stands for, with Python's slice semantics. */
  function ChunkOf(text: string, w: Window): string {
    PySlice(text, w.start, w.end)
  }

  function Chunks(text: string, ws: seq<Window>): (cs: seq<string>)
    ensures |cs| == |ws|
    ensures forall i :: 0 <= i < |ws| ==> cs[i] == ChunkOf(text, ws[i])
  {
    seq(|ws|, i requires 0 <= i < |ws| => ChunkOf(text, ws[i]))
  }

  /** `chunk_text(text, chunk_size=size, overlap=overlap)`, within `fuel`
      iterations. */
  function ChunkText(text: string, size: int, overlap: int, fuel: nat): Option<seq<string>> {
    if |text| == 0 then Some([])
    else
      match SnapLoop(text, 0, size, overlap, fuel)
      case None => None
      case Some(ws) => Some(Chunks(text, ws))
  }

  /** Every chunk a finished loop returns holds at most `size` characters,
      whatever the overlap: a window never reaches past `start + size`. */
  lemma {:induction false} SnapLoopChunkSizes(text: string, start: int, size: int, overlap: int, fuel: nat, ws: seq<Window>)
    requires 0 < size
    requires SnapLoop(text, start, size, overlap, fuel) == Some(ws)
    ensures forall i :: 0 <= i < |ws| ==> |ChunkOf(text, ws[i])| <= size
    decreases fuel
  {
    if start < |text| {
      var w := SnapStep(text, start, size, overlap);
      var rest := SnapLoop(text, NextStart(text, w, overlap), size, overlap, fuel - 1).value;
      SnapLoopChunkSizes(text, NextStart(text, w, overlap), size, overlap, fuel - 1, rest);
      assert ws == [w] + rest;
      assert |ChunkOf(text, w)| <= size;
    }
  }

  /** Whenever `chunk_text` returns, every chunk holds at most `size`
      characters, including the runs that start a window at a negative
      index. */
  lemma ChunkTextSizes(text: string, size: int, overlap: int, fuel: nat, cs: seq<string>)
    requires 0 < size
    requires ChunkText(text, size, overlap, fuel) == Some(cs)
    ensures forall c :: c in cs ==> |c| <= size
  {
    if |text| > 0 {
      var ws := SnapLoop(text, 0, size, overlap, fuel).value;
      SnapLoopChunkSizes(text, 0, size, overlap, fuel, ws);
      assert cs == Chunks(text, ws);
    }
  }

  /** The parameters under which the loop is guaranteed to end. */
  predicate GoodParams(text: string, size: int, overlap: int) {
    0 <= overlap < size && (overlap <= 1 || NoBoundary(text))
  }

  /** Under `GoodParams` one iteration makes progress and stays in the text. */
  lemma SnapProgress(text: string, start: int, size: int, overlap: int)
    requires GoodParams(text, size, overlap)
    requires 0 <= start < |text|
    ensures var w := SnapStep(text, start, size, overlap);
            && start < w.end <= |text|
            && w.end - start <= size
            && start < NextStart(text, w, overlap) <= |text|
  {
    var w := SnapStep(text, start, size, overlap);
    var end := start + size;
    if end < |text| && w.end < end {
      SnapCut(text, start, size, overlap);
      assert IsBoundaryAt(text, w.end - 1);
    }
  }

  /** Under `GoodParams` the loop ends within `|text| - start` iterations. */
  lemma {:induction false} SnapLoopTerminates(text: string, start: int, size: int, overlap: int, fuel: nat)
    requires GoodParams(text, size, overlap)
    requires 0 <= start
    requires fuel >= |text| - start
    ensures SnapLoop(text, start, size, overlap, fuel).Some?
    decreases fuel
  {
    if start < |text| {
      SnapProgress(text, start, size, overlap);
      var w := SnapStep(text, start, size, overlap);
      SnapLoopTerminates(text, NextStart(text, w, overlap), size, overlap, fuel - 1);
    }
  }

  /** The windows `ws` tile the text from `from` on: each is a non-empty piece
      of at most `size` characters, the first starts at `from`, the last ends
      at the end of the text, and each next one starts `overlap` characters
      before the previous one ends. */
  predicate Tiles(text: string, ws: seq<Window>, from: int, size: int, overlap: int) {
    && |ws| > 0
    && ws[0].start == from
    && ws[|ws| - 1].end == |text|
    && (forall i :: 0 <= i < |ws| ==> 0 <= ws[i].start < ws[i].end <= |text| && ws[i].end - ws[i].start <= size)
    && (forall i :: 0 <= i < |ws| - 1 ==> ws[i].end < |text| && ws[i + 1].start == ws[i].end - overlap)
  }

  /** Every window the loop returns is the step taken from its start. */
  predicate AreSteps(text: string, ws: seq<Window>, size: int, overlap: int) {
    forall i :: 0 <= i < |ws| ==> ws[i] == SnapStep(text, ws[i].start, size, overlap)
  }

  lemma {:induction false} SnapLoopSteps(text: string, start: int, size: int, overlap: int, fuel: nat, ws: seq<Window>)
    requires SnapLoop(text, start, size, overlap, fuel) == Some(ws)
    ensures AreSteps(text, ws, size, overlap)
    decreases fuel
  {
    if start < |text| {
      var w := SnapStep(text, start, size, overlap);
      var rest := SnapLoop(text, NextStart(text, w, overlap), size, overlap, fuel - 1).value;
      SnapLoopSteps(text, NextStart(text, w, overlap), size, overlap, fuel - 1, rest);
      assert ws == [w] + rest;
      assert forall i :: 1 <= i < |ws| ==> ws[i] == rest[i - 1];
    }
  }

  lemma TilesCons(text: string, w: Window, rest: seq<Window>, size: int, overlap: int)
    requires 0 <= w.start < w.end <= |text| && w.end - w.start <= size
    requires rest == [] ==> w.end == |text|
    requires rest != [] ==> w.end < |text| && Tiles(text, rest, w.end - overlap, size, overlap)
    ensures Tiles(text, [w] + rest, w.start, size, overlap)
  {
    var ws := [w] + rest;
    assert forall i :: 1 <= i < |ws| ==> ws[i] == rest[i - 1];
  }

  lemma {:induction false} SnapLoopTiles(text: string, start: int, size: int, overlap: int, fuel: nat, ws: seq<Window>)
    requires GoodParams(text, size, overlap)
    requires 0 <= start < |text|
    requires SnapLoop(text, start, size, overlap, fuel) == Some(ws)
    ensures Tiles(text, ws, start, size, overlap)
    decreases fuel
  {
    SnapProgress(text, start, size, overlap);
    var w := SnapStep(text, start, size, overlap);
    var next := NextStart(text, w, overlap);
    var rest := SnapLoop(text, next, size, overlap, fuel - 1).value;
    assert ws == [w] + rest;
    if next < |text| {
      SnapLoopTiles(text, next, size, overlap, fuel - 1, rest);
    }
    TilesCons(text, w, rest, size, overlap);
  }

  /** Position `j` lies in one of the windows. */
  predicate Covered(ws: seq<Window>, j: int) {
    exists i :: 0 <= i < |ws| && ws[i].start <= j < ws[i].end
  }

  /** The loop's result does not depend on the fuel, once the fuel suffices. */
  lemma {:induction false} SnapLoopDeterministic(text: string, start: int, size: int, overlap: int, f1: nat, f2: nat)
    requires SnapLoop(text, start, size, overlap, f1).Some?
    requires SnapLoop(text, start, size, overlap, f2).Some?
    ensures SnapLoop(text, start, size, overlap, f1) == SnapLoop(text, start, size, overlap, f2)
    decreases f1
  {
    if start < |text| {
      var w := SnapStep(text, start, size, overlap);
      SnapLoopDeterministic(text, NextStart(text, w, overlap), size, overlap, f1 - 1, f2 - 1);
    }
  }

  /** Every position from `from` on lies in some window of a tiling. */
  lemma {:induction false} TilesCover(text: string, ws: seq<Window>, from: int, size: int, overlap: int, j: int)
    requires 0 <= overlap
    requires Tiles(text, ws, from, size, overlap)
    requires from <= j < |text|
    ensures Covered(ws, j)
    decreases |ws|
  {
    if j >= ws[0].end {
      var rest := ws[1..];
      assert forall i :: 0 <= i < |rest| ==> rest[i] == ws[i + 1];
      TilesCover(text, rest, ws[1].start, size, overlap, j);
      var i :| 0 <= i < |rest| && rest[i].start <= j < rest[i].end;
      assert ws[i + 1] == rest[i];
    }
  }

  /** What `chunk_text` promises under `GoodParams`: it ends within `|text|`
      iterations; the first chunk starts the text and the last one ends it;
      each chunk is the slice of its window and holds at most `size`
      characters; each next window starts `overlap` characters before the
      previous one ended; every character is in some chunk; and a window cut
      short ends a sentence and holds at most `size - overlap` characters. */
  lemma SnapChunksProperties(text: string, size: int, overlap: int, fuel: nat, ws: seq<Window>)
    requires GoodParams(text, size, overlap)
    requires |text| > 0
    requires SnapLoop(text, 0, size, overlap, fuel) == Some(ws)
    ensures SnapLoop(text, 0, size, overlap, |text|) == Some(ws)
    ensures Tiles(text, ws, 0, size, overlap)
    ensures ChunkText(text, size, overlap, fuel) == Some(Chunks(text, ws))
    ensures forall i :: 0 <= i < |ws| ==> ChunkOf(text, ws[i]) == text[ws[i].start..ws[i].end]
    ensures forall i :: 0 <= i < |ws| - 1 && ws[i].end - ws[i].start < size ==>
              ws[i].end - ws[i].start <= size - overlap && EndsSentence(text, ws[i].end)
    ensures forall j :: 0 <= j < |text| ==> Covered(ws, j)
  {
    SnapLoopTerminates(text, 0, size, overlap, |text|);
    SnapLoopDeterministic(text, 0, size, overlap, fuel, |text|);
    SnapLoopTiles(text, 0, size, overlap, fuel, ws);
    SnapLoopSteps(text, 0, size, overlap, fuel, ws);
    forall i | 0 <= i < |ws| - 1 && ws[i].end - ws[i].start < size
      ensures ws[i].end - ws[i].start <= size - overlap && EndsSentence(text, ws[i].end)
    {
      SnapCut(text, ws[i].start, size, overlap);
    }
    forall j | 0 <= j < |text|
      ensures Covered(ws, j)
    {
      TilesCover(text, ws, 0, size, overlap, j);
    }
  }

  /** The empty text gives no chunk; a non-empty text that fits in one window
      is its own only chunk. */
  lemma ShortText(text: string, size: int, overlap: int, fuel: nat)
    requires |text| <= size
    requires |text| > 0 ==> fuel >= 1
    ensures |text| == 0 ==> ChunkText(text, size, overlap, fuel) == Some([])
    ensures |text| > 0 ==> ChunkText(text, size, overlap, fuel) == Some([text])
  {
    if |text| > 0 {
      var w := SnapStep(text, 0, size, overlap);
      assert w == Window(0, |text|);
      assert NextStart(text, w, overlap) == |text|;
      assert SnapLoop(text, |text|, size, overlap, fuel - 1) == Some([]);
      assert [w] + [] == [w];
      assert SnapLoop(text, 0, size, overlap, fuel) == Some([w]);
      assert ChunkOf(text, w) == text[0..|text|] == text;
      assert Chunks(text, [w]) == [text];
    }
  }

  /** The loop's fixpoint: when the last sentence ending of the window at `s`
      sits at relative index `overlap - 1`, the cut lands at `s + overlap` and
      the next window starts at `s` again, so no fuel is ever enough. A cut at
      absolute index `b` restarts the loop at `b + 1 - overlap`, which puts
      `b` at exactly that index; with the defaults 1000/100, a sentence ending
      followed by about 900 characters without another one does it. */
  lemma {:induction false} StuckWindow(text: string, s: int, size: int, overlap: int, fuel: nat)
    requires 0 <= s && 0 < size && s + size < |text|
    requires 0 < overlap - 1 == LastBoundary(text[s..s + size]) < size - overlap
    ensures SnapStep(text, s, size, overlap) == Window(s, s + overlap)
    ensures NextStart(text, SnapStep(text, s, size, overlap), overlap) == s
    ensures SnapLoop(text, s, size, overlap, fuel) == None
    decreases fuel
  {
    SnapStepByLastBoundary(text, s, size, overlap);
    if fuel > 0 {
      StuckWindow(text, s, size, overlap, fuel - 1);
    }
  }

  /** The smallest instance of the fixpoint: with `size = 5` and
      `overlap = 2`, the text "x. yyyyyyy" makes the loop cut after "x." and
      restart at 0 forever. */
  lemma StuckExample(text: string, fuel: nat)
    requires text == "x. yyyyyyy"
    ensures ChunkText(text, 5, 2, fuel) == None
  {
    var w := text[0..5];
    assert w == "x. yy";
    assert IsBoundaryAt(w, 1);
    LastBoundaryIs(w, 1);
    StuckWindow(text, 0, 5, 2, fuel);
  }

  /** The first two steps on "a. bbbbbbbbbb" with `size = 6`, `overlap = 3`:
      a cut after "a." and a next start of -1, whose chunk `text[-1:5]` is
      empty. */
  lemma NegativeStartSteps(text: string)
    requires text == "a. bbbbbbbbbb"
    ensures SnapStep(text, 0, 6, 3) == Window(0, 2)
    ensures NextStart(text, Window(0, 2), 3) == -1
    ensures SnapStep(text, -1, 6, 3) == Window(-1, 5)
    ensures ChunkOf(text, Window(-1, 5)) == []
  {
    var w0 := text[0..6];
    assert w0 == "a. bbb";
    assert IsBoundaryAt(w0, 1);
    LastBoundaryIs(w0, 1);
    SnapStepByLastBoundary(text, 0, 6, 3);
    assert PySlice(text, -1, 5) == [];
    LastBoundaryIs([], -1);
    SnapStepByLastBoundary(text, -1, 6, 3);
  }

  /** The remaining steps on the same text, from starts 2, 5 and 8. */
  lemma NegativeStartRecovery(text: string)
    requires text == "a. bbbbbbbbbb"
    ensures SnapStep(text, 2, 6, 3) == Window(2, 8)
    ensures SnapStep(text, 5, 6, 3) == Window(5, 11)
    ensures SnapStep(text, 8, 6, 3) == Window(8, 13)
  {
    assert text[2..8] == " bbbbb";
    LastBoundaryIs(text[2..8], -1);
    SnapStepByLastBoundary(text, 2, 6, 3);
    assert text[5..11] == "bbbbbb";
    LastBoundaryIs(text[5..11], -1);
    SnapStepByLastBoundary(text, 5, 6, 3);
  }

  /** A cut in the first window before relative index `overlap - 1` sends
      `start` negative: with `size = 6` and `overlap = 3`, "a. bbbbbbbbbb"
      yields an empty second chunk, and the loop then recovers. */
  lemma NegativeStartExample(text: string, fuel: nat)
    requires text == "a. bbbbbbbbbb"
    requires fuel >= 5
    ensures ChunkText(text, 6, 3, fuel) == Some(["a.", "", " bbbbb", "bbbbbb", "bbbbb"])
  {
    NegativeStartSteps(text);
    NegativeStartRecovery(text);
    var ws := [Window(0, 2), Window(-1, 5), Window(2, 8), Window(5, 11), Window(8, 13)];
    assert ws[4..] == [ws[4]] + [];
    assert ws[3..] == [ws[3]] + ws[4..];
    assert ws[2..] == [ws[2]] + ws[3..];
    assert ws[1..] == [ws[1]] + ws[2..];
    assert ws == [ws[0]] + ws[1..];
    assert SnapLoop(text, 8, 6, 3, fuel - 4) == Some(ws[4..]);
    assert SnapLoop(text, 5, 6, 3, fuel - 3) == Some(ws[3..]);
    assert SnapLoop(text, 2, 6, 3, fuel - 2) == Some(ws[2..]);
    assert SnapLoop(text, -1, 6, 3, fuel - 1) == Some(ws[1..]);
    assert SnapLoop(text, 0, 6, 3, fuel) == Some(ws);
    var cs := Chunks(text, ws);
    assert cs[0] == text[0..2];
    assert text[0..2] == "a.";
    assert cs[2] == text[2..8];
    assert text[2..8] == " bbbbb";
    assert cs[3] == text[5..11];
    assert text[5..11] == "bbbbbb";
    assert cs[4] == text[8..13];
    assert text[8..13] == "bbbbb";
    assert cs[1] == [];
    assert cs == ["a.", "", " bbbbb", "bbbbbb", "bbbbb"];
  }

  /** The windows `ws` cover the text from `from` on without gaps: each is a
      non-empty piece of at most `size` characters, the first starts at
      `from`, the last ends the text, and each next one starts after the
      previous one's start and no later than its end. */
  predicate Tiling(text: string, ws: seq<Window>, from: int, size: int) {
    && |ws| > 0
    && ws[0].start == from
    && ws[|ws| - 1].end == |text|
    && (forall i :: 0 <= i < |ws| ==> 0 <= ws[i].start < ws[i].end <= |text| && ws[i].end - ws[i].start <= size)
    && (forall i :: 0 <= i < |ws| - 1 ==> ws[i].start < ws[i + 1].start <= ws[i].end < |text|)
  }

  lemma TilingCons(text: string, w: Window, rest: seq<Window>, size: int)
    requires 0 <= w.start < w.end <= |text| && w.end - w.start <= size
    requires rest == [] ==> w.end == |text|
    requires rest != [] ==> w.end < |text| && w.start < rest[0].start <= w.end
    requires rest != [] ==> Tiling(text, rest, rest[0].start, size)
    ensures Tiling(text, [w] + rest, w.start, size)
  {
    var ws := [w] + rest;
    assert forall i :: 1 <= i < |ws| ==> ws[i] == rest[i - 1];
  }

  /** The corrected loop: the next start is at least one past the current
      one, so the loop always ends, never goes negative, and leaves no gap. */
  function GuardedLoop(text: string, start: nat, size: int, overlap: int): (ws: seq<Window>)
    requires 0 <= overlap < size
    ensures start >= |text| <==> ws == []
    decreases |text| - start
  {
    if start >= |text| then []
    else
      var w := SnapStep(text, start, size, overlap);
      var next := if w.end < |text| then Max(w.end - overlap, start + 1) else |text|;
      [w] + GuardedLoop(text, next, size, overlap)
  }

  /** The corrected loop always tiles the rest of the text. */
  lemma {:induction false} GuardedLoopTiles(text: string, start: nat, size: int, overlap: int)
    requires 0 <= overlap < size
    ensures start < |text| ==> Tiling(text, GuardedLoop(text, start, size, overlap), start, size)
    decreases |text| - start
  {
    if start >= |text| {
      return;
    }
    var w := SnapStep(text, start, size, overlap);
    var next := if w.end < |text| then Max(w.end - overlap, start + 1) else |text|;
    var rest := GuardedLoop(text, next, size, overlap);
    if next < |text| {
      GuardedLoopTiles(text, next, size, overlap);
    }
    TilingCons(text, w, rest, size);
  }

  /** The corrected chunker, which ends for every `0 <= overlap < size`:
      its chunks are non-empty slices of the text of at most `size`
      characters. */
  function GuardedChunkText(text: string, size: int, overlap: int): (cs: seq<string>)
    requires 0 <= overlap < size
    ensures |text| == 0 <==> cs == []
    ensures forall i :: 0 <= i < |cs| ==> 0 < |cs[i]| <= size
  {
    var ws := GuardedLoop(text, 0, size, overlap);
    GuardedLoopTiles(text, 0, size, overlap);
    var cs := Chunks(text, ws);
    assert forall i :: 0 <= i < |ws| ==> cs[i] == text[ws[i].start..ws[i].end];
    cs
  }

  /** One unfolding of the corrected loop, where it agrees with the source's
      next start. */
  lemma GuardedStep(text: string, start: nat, size: int, overlap: int)
    requires GoodParams(text, size, overlap)
    requires start < |text|
    ensures var w := SnapStep(text, start, size, overlap);
            var next := NextStart(text, w, overlap);
            && start < next <= |text|
            && GuardedLoop(text, start, size, overlap) == [w] + GuardedLoop(text, next, size, overlap)
  {
    SnapProgress(text, start, size, overlap);
  }

  /** One unfolding of the source loop. */
  lemma SnapLoopCons(text: string, start: int, size: int, overlap: int, fuel: nat, rest: seq<Window>)
    requires start < |text| && fuel > 0
    requires SnapLoop(text, NextStart(text, SnapStep(text, start, size, overlap), overlap), size, overlap, fuel - 1) == Some(rest)
    ensures SnapLoop(text, start, size, overlap, fuel) == Some([SnapStep(text, start, size, overlap)] + rest)
  {
  }

  /** Under `GoodParams` (overlap at most 1, or no sentence ending in the
      text) the loop as written ends and returns the corrected loop's
      windows. */
  lemma {:induction false} GuardedAgrees(text: string, start: nat, size: int, overlap: int, fuel: nat)
    requires GoodParams(text, size, overlap)
    requires fuel >= |text| - start
    ensures SnapLoop(text, start, size, overlap, fuel) == Some(GuardedLoop(text, start, size, overlap))
    decreases |text| - start
  {
    if start < |text| {
      GuardedStep(text, start, size, overlap);
      var w := SnapStep(text, start, size, overlap);
      var next := NextStart(text, w, overlap);
      GuardedAgrees(text, next, size, overlap, fuel - 1);
      SnapLoopCons(text, start, size, overlap, fuel, GuardedLoop(text, next, size, overlap));
    }
  }
}
