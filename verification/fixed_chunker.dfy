/** The fixed-window chunker `chunk_text` of backend/main.py: windows of
    `size` characters whose starts advance by `size - overlap`. The loop has
    no progress guard, so it is modelled with a `fuel` bound on its
    iterations; `None` means the fuel ran out before the loop ended. */
module FixedChunker {
  import opened Wrappers
  import opened Text

  /** The `while start < len(text)` loop, entered with the given `start`. */
  function FixedLoop(text: string, start: int, size: int, overlap: int, fuel: nat): Option<seq<string>>
    decreases fuel
  {
    if start >= |text| then Some([])
    else if fuel == 0 then None
    else
      match FixedLoop(text, start + size - overlap, size, overlap, fuel - 1)
      case None => None
      case Some(rest) => Some([PySlice(text, start, start + size)] + rest)
  }

  /** `chunk_text(text, chunk_size=size, overlap=overlap)`. */
  function ChunkText(text: string, size: int, overlap: int, fuel: nat): Option<seq<string>> {
    if |text| == 0 then Some([]) else FixedLoop(text, 0, size, overlap, fuel)
  }

  /** Where the `k`-th window starts: `k * step`, written as repeated
      addition, the way the loop computes it. */
  function WindowStart(k: nat, step: nat): nat {
    if k == 0 then 0 else WindowStart(k - 1, step) + step
  }

  /** The number of windows the loop takes for a text of `n` characters. */
  function ChunkCount(n: nat, step: nat): nat
    requires step > 0
    decreases n
  {
    if n == 0 then 0 else if n <= step then 1 else 1 + ChunkCount(n - step, step)
  }

  /** The closed form of the chunk list: chunk `k` is Python's
      `text[k*step : k*step + size]`. */
  function ClosedForm(text: string, size: int, overlap: int): seq<string>
    requires 0 <= overlap < size
  {
    var step := size - overlap;
    seq(ChunkCount(|text|, step), k requires 0 <= k => PySlice(text, WindowStart(k, step), WindowStart(k, step) + size))
  }

  lemma {:induction false} WindowStartIsProduct(k: nat, step: nat)
    ensures WindowStart(k, step) == k * step
  {
    if k > 0 {
      WindowStartIsProduct(k - 1, step);
      assert (k - 1) * step + step == k * step;
    }
  }

  /** The chunk count is `ceil(n / step)`: the least `c` with `c * step >= n`. */
  lemma ChunkCountIsCeiling(n: nat, step: nat)
    requires step > 0
    ensures var c := ChunkCount(n, step);
            n <= c * step && (n > 0 ==> (c - 1) * step < n)
  {
    var c := ChunkCount(n, step);
    CountIndex(n, step, c);
    WindowStartIsProduct(c, step);
    if n > 0 {
      CountIndex(n, step, 0);
      CountIndex(n, step, c - 1);
      WindowStartIsProduct(c - 1, step);
    }
  }

  /** The `j`-th window starts inside the text exactly when `j` is below the
      chunk count. */
  lemma {:induction false} CountIndex(n: nat, step: nat, j: nat)
    requires step > 0
    ensures WindowStart(j, step) < n <==> j < ChunkCount(n, step)
    decreases n
  {
    if j > 0 {
      ShiftedStart(j, step);
      if n > step {
        CountIndex(n - step, step, j - 1);
      } else {
        assert WindowStart(j - 1, step) >= 0;
      }
    }
  }

  /** Peeling the first window: `k*step == step + (k-1)*step`. */
  lemma {:induction false} ShiftedStart(k: nat, step: nat)
    requires k > 0
    ensures WindowStart(k, step) == step + WindowStart(k - 1, step)
  {
  }

  /** One iteration of the loop: the window at `start`, then the rest. */
  lemma FixedLoopCons(text: string, start: int, size: int, overlap: int, fuel: nat, rest: seq<string>)
    requires start < |text| && fuel > 0
    requires FixedLoop(text, start + size - overlap, size, overlap, fuel - 1) == Some(rest)
    ensures FixedLoop(text, start, size, overlap, fuel) == Some([PySlice(text, start, start + size)] + rest)
  {
  }

  /** The loop, entered at the `j`-th window start with enough fuel, yields
      windows `j` onwards of any list whose `k`-th element is the `k`-th
      window, when the windows of the list start inside the text and the
      one after them does not. */
  lemma {:induction false} FixedLoopFrom(text: string, size: int, overlap: int, cs: seq<string>, j: nat, fuel: nat)
    requires 0 <= overlap < size
    requires forall k :: j <= k < |cs| ==> WindowAt(text, size, overlap, k, cs[k])
    requires WindowStart(|cs|, size - overlap) >= |text|
    requires j <= |cs| && fuel >= |cs| - j
    ensures FixedLoop(text, WindowStart(j, size - overlap), size, overlap, fuel) == Some(cs[j..])
    decreases |cs| - j
  {
    if j < |cs| {
      FixedLoopFrom(text, size, overlap, cs, j + 1, fuel - 1);
      FixedLoopStep(text, size, overlap, cs, j, fuel);
    } else {
      assert cs[j..] == [];
    }
  }

  /** `w` is window `k`, and that window starts inside the text. */
  predicate WindowAt(text: string, size: int, overlap: int, k: nat, w: string)
    requires 0 <= overlap < size
  {
    var st := WindowStart(k, size - overlap);
    st < |text| && w == PySlice(text, st, st + size)
  }

  /** Window `j` is inside the text: one iteration adds it in front. */
  lemma FixedLoopStep(text: string, size: int, overlap: int, cs: seq<string>, j: nat, fuel: nat)
    requires 0 <= overlap < size && 0 < fuel && j < |cs|
    requires WindowAt(text, size, overlap, j, cs[j])
    requires FixedLoop(text, WindowStart(j + 1, size - overlap), size, overlap, fuel - 1) == Some(cs[j + 1..])
    ensures FixedLoop(text, WindowStart(j, size - overlap), size, overlap, fuel) == Some(cs[j..])
  {
    var st := WindowStart(j, size - overlap);
    FixedLoopCons(text, st, size, overlap, fuel, cs[j + 1..]);
    assert cs[j..] == [cs[j]] + cs[j + 1..];
  }

  /** With `0 <= overlap < size` the loop ends after `ceil(n / step)`
      iterations and returns the closed form. */
  lemma FixedChunksClosedForm(text: string, size: int, overlap: int, fuel: nat)
    requires 0 <= overlap < size
    requires fuel >= ChunkCount(|text|, size - overlap)
    ensures ChunkText(text, size, overlap, fuel) == Some(ClosedForm(text, size, overlap))
  {
    var cf := ClosedForm(text, size, overlap);
    forall k | 0 <= k < |cf|
      ensures WindowAt(text, size, overlap, k, cf[k])
    {
      CountIndex(|text|, size - overlap, k);
    }
    CountIndex(|text|, size - overlap, |cf|);
    FixedLoopFrom(text, size, overlap, cf, 0, fuel);
    assert cf[0..] == cf;
  }

  /** Chunk `k` of the closed form is the window `[k*step, min(k*step+size, n))`,
      a substring of the text of at most `size` characters. */
  lemma ClosedFormChunk(text: string, size: int, overlap: int, k: nat)
    requires 0 <= overlap < size
    requires k < |ClosedForm(text, size, overlap)|
    ensures WindowStart(k, size - overlap) < |text|
    ensures var lo := WindowStart(k, size - overlap);
            var hi := if lo + size < |text| then lo + size else |text|;
            ClosedForm(text, size, overlap)[k] == text[lo..hi]
    ensures |ClosedForm(text, size, overlap)[k]| <= size
  {
    CountIndex(|text|, size - overlap, k);
  }

  /** The chunk list of the empty text is empty; so is its closed form. */
  lemma EmptyText(size: int, overlap: int, fuel: nat)
    ensures ChunkText([], size, overlap, fuel) == Some([])
    ensures 0 <= overlap < size ==> ClosedForm([], size, overlap) == []
  {
  }

  /** Every character of the text lies in the chunk `i / step`. */
  lemma ClosedFormCovers(text: string, size: int, overlap: int, i: nat)
    requires 0 <= overlap < size
    requires i < |text|
    ensures var k := i / (size - overlap);
            var lo := WindowStart(k, size - overlap);
            && k < |ClosedForm(text, size, overlap)|
            && lo <= i < lo + |ClosedForm(text, size, overlap)[k]|
            && ClosedForm(text, size, overlap)[k][i - lo] == text[i]
  {
    var step := size - overlap;
    var k := i / step;
    WindowStartIsProduct(k, step);
    assert k * step <= i < k * step + step by {
      assert i == k * step + i % step;
    }
    CountIndex(|text|, step, k);
    ClosedFormChunk(text, size, overlap, k);
  }

  /** Consecutive chunks overlap: the part of chunk `k` from `step` on is the
      start of chunk `k + 1`; it holds `overlap` characters, or fewer when the
      text ends first. */
  lemma ClosedFormOverlap(text: string, size: int, overlap: int, k: nat)
    requires 0 <= overlap < size
    requires k + 1 < |ClosedForm(text, size, overlap)|
    ensures var cf := ClosedForm(text, size, overlap);
            var step := size - overlap;
            var next := WindowStart(k + 1, step);
            && step <= |cf[k]|
            && cf[k][step..] <= cf[k + 1]
            && |cf[k][step..]| == (if overlap < |text| - next then overlap else |text| - next)
  {
    var step := size - overlap;
    var cf := ClosedForm(text, size, overlap);
    ClosedFormChunk(text, size, overlap, k);
    ClosedFormChunk(text, size, overlap, k + 1);
    var lo := WindowStart(k, step);
    var lo1 := WindowStart(k + 1, step);
    assert lo1 == lo + step;
    var hi := if lo + size < |text| then lo + size else |text|;
    var hi1 := if lo1 + size < |text| then lo1 + size else |text|;
    assert lo1 < |text| && lo1 <= hi <= hi1;
    assert cf[k][step..] == text[lo1..hi];
  }

  /** A text longer than one step but no longer than one window (nor than two
      steps, which holds whenever `overlap <= size / 2`, as with the defaults
      1000/100) gives two chunks: the whole text, then its suffix after the
      first step. */
  lemma TwoChunks(text: string, size: int, overlap: int)
    requires 0 <= overlap < size
    requires size - overlap < |text| <= size
    requires |text| <= 2 * (size - overlap)
    ensures ClosedForm(text, size, overlap) == [text, text[size - overlap..]]
  {
    var step := size - overlap;
    assert ChunkCount(|text| - step, step) == 1;
    var cf := ClosedForm(text, size, overlap);
    assert |cf| == 2;
    ClosedFormChunk(text, size, overlap, 0);
    ClosedFormChunk(text, size, overlap, 1);
    assert WindowStart(1, step) == step;
    assert cf[0] == text[0..|text|] == text;
    assert cf[1] == text[step..];
  }

  /** A text no longer than one step is returned as its only chunk. */
  lemma OneChunk(text: string, size: int, overlap: int)
    requires 0 <= overlap < size
    requires 0 < |text| <= size - overlap
    ensures ClosedForm(text, size, overlap) == [text]
  {
    var cf := ClosedForm(text, size, overlap);
    assert |cf| == 1;
    ClosedFormChunk(text, size, overlap, 0);
    assert cf[0] == text[0..|text|] == text;
  }

  /** Without a progress guard, `overlap >= size` never moves `start` past
      the first character: the loop runs out of any fuel. */
  lemma {:induction false} FixedLoopDiverges(text: string, start: int, size: int, overlap: int, fuel: nat)
    requires overlap >= size
    requires start <= 0 < |text|
    ensures FixedLoop(text, start, size, overlap, fuel) == None
    decreases fuel
  {
    if fuel > 0 {
      FixedLoopDiverges(text, start + size - overlap, size, overlap, fuel - 1);
    }
  }

  lemma FixedChunkerDiverges(text: string, size: int, overlap: int, fuel: nat)
    requires overlap >= size
    requires |text| > 0
    ensures ChunkText(text, size, overlap, fuel) == None
  {
    FixedLoopDiverges(text, 0, size, overlap, fuel);
  }
}
