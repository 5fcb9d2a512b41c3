/**
  `sentenceBoundaryChunk` (lib/chunker.ts): a window of `chunkSize` characters slides over
  the text; when the window holds a sentence or paragraph boundary past 30% of its length,
  the chunk is cut just after the right-most one, and the next window starts `overlap`
  characters before the cut.
*/
module SentenceChunker {
  import opened Text

  /** One of the five patterns ". ", ".\n", "다. ", "다.\n" and "\n\n" starts at index `i`
      of `s` and ends at or before index `hi`. */
  predicate BoundaryAt(s: string, hi: int, i: int)
    requires hi <= |s|
  {
    && 0 <= i && i + 2 <= hi
    && (|| (s[i] == '.' && (s[i + 1] == ' ' || s[i + 1] == '\n'))
        || (s[i] == '다' && i + 3 <= hi && s[i + 1] == '.' && (s[i + 2] == ' ' || s[i + 2] == '\n'))
        || (s[i] == '\n' && s[i + 1] == '\n'))
  }

  /** `BoundaryAt` over a whole window is an occurrence of one of the five patterns. */
  lemma BoundaryAtOccurs(w: string, i: int)
    ensures BoundaryAt(w, |w|, i) <==>
      || OccursAt(w, ". ", i) || OccursAt(w, ".\n", i)
      || OccursAt(w, "다. ", i) || OccursAt(w, "다.\n", i)
      || OccursAt(w, "\n\n", i)
  {
    if 0 <= i && i + 2 <= |w| {
      assert w[i..i + 2] == [w[i], w[i + 1]];
      if i + 3 <= |w| {
        assert w[i..i + 3] == [w[i], w[i + 1], w[i + 2]];
      }
    }
  }

  /** A boundary of the window `text[lo..hi]` is a boundary of `text` that ends by `hi`. */
  lemma WindowBoundary(text: string, lo: nat, hi: nat, i: nat)
    requires lo <= hi <= |text|
    ensures BoundaryAt(text[lo..hi], hi - lo, i) <==> BoundaryAt(text, hi, lo + i)
  {
    if i + 2 <= hi - lo {
      var w := text[lo..hi];
      assert w[i] == text[lo + i] && w[i + 1] == text[lo + i + 1];
      if i + 3 <= hi - lo {
        assert w[i + 2] == text[lo + i + 2];
      }
    }
  }

  function Max(a: int, b: int): int {
    if a >= b then a else b
  }

  /** `Math.max` of the five `lastIndexOf` calls on the window. */
  function LastBoundary(w: string): (p: int)
    ensures p == -1 || (0 <= p && p + 2 <= |w|)
  {
    Max(Max(Max(Max(LastIndexOf(w, ". "), LastIndexOf(w, ".\n")),
        LastIndexOf(w, "다. ")), LastIndexOf(w, "다.\n")), LastIndexOf(w, "\n\n"))
  }

  /** `LastBoundary` finds the right-most boundary of the window, or -1 when there is none. */
  lemma LastBoundaryRightmost(w: string)
    ensures LastBoundary(w) == -1 || BoundaryAt(w, |w|, LastBoundary(w))
    ensures forall i :: LastBoundary(w) < i ==> !BoundaryAt(w, |w|, i)
  {
    LastIndexOfSpec(w, ". ");
    LastIndexOfSpec(w, ".\n");
    LastIndexOfSpec(w, "다. ");
    LastIndexOfSpec(w, "다.\n");
    LastIndexOfSpec(w, "\n\n");
    BoundaryAtOccurs(w, LastBoundary(w));
    forall i | LastBoundary(w) < i ensures !BoundaryAt(w, |w|, i) {
      BoundaryAtOccurs(w, i);
    }
  }

  /** The two patterns that end a Korean sentence never decide the cut: wherever "다. " or
      "다.\n" starts, ". " or ".\n" starts one character later. */
  lemma {:induction false} KoreanBoundariesDominated(w: string)
    ensures LastBoundary(w)
      == Max(Max(LastIndexOf(w, ". "), LastIndexOf(w, ".\n")), LastIndexOf(w, "\n\n"))
  {
    LastIndexOfSpec(w, ". ");
    LastIndexOfSpec(w, ".\n");
    LastIndexOfSpec(w, "다. ");
    LastIndexOfSpec(w, "다.\n");
    var a, b := LastIndexOf(w, "다. "), LastIndexOf(w, "다.\n");
    var dot := Max(LastIndexOf(w, ". "), LastIndexOf(w, ".\n"));
    if a >= 0 {
      assert w[a + 1..a + 3] == ". ";
      assert OccursAt(w, ". ", a + 1);
    }
    if b >= 0 {
      assert w[b + 1..b + 3] == ".\n";
      assert OccursAt(w, ".\n", b + 1);
    }
    assert a < dot || a == -1;
    assert b < dot || b == -1;
  }

  /** The parameters under which the window always moves forward. */
  predicate ValidParams(chunkSize: int, overlap: int) {
    chunkSize > 0 && 0 <= overlap && 10 * overlap <= 3 * chunkSize
  }

  /** Scans the window `[start, start + chunkSize)` leftwards from `k` for the right-most
      boundary that lies past 30% of the window; the cut falls just after the first
      character of that boundary, or at the end of the window when there is none. */
  function CutScan(text: string, chunkSize: nat, start: nat, k: nat): (end: nat)
    requires 0 < chunkSize && start <= k <= start + chunkSize <= |text|
    ensures end <= start + chunkSize && 10 * (end - start) > 3 * chunkSize
    decreases k
  {
    if k == start || 10 * (k - 1 - start) <= 3 * chunkSize then start + chunkSize
    else if BoundaryAt(text, start + chunkSize, k - 1) then k
    else CutScan(text, chunkSize, start, k - 1)
  }

  lemma {:induction false} CutScanSpec(text: string, chunkSize: nat, start: nat, k: nat)
    requires 0 < chunkSize && start <= k <= start + chunkSize <= |text|
    ensures var hi, end := start + chunkSize, CutScan(text, chunkSize, start, k);
      && (end < hi ==>
            && 10 * (end - start - 1) > 3 * chunkSize
            && BoundaryAt(text, hi, end - 1)
            && forall i :: end - 1 < i < k ==> !BoundaryAt(text, hi, i))
      && (end == hi ==> forall i :: i < k && 10 * (i - start) > 3 * chunkSize ==> !BoundaryAt(text, hi, i))
    decreases k
  {
    if k > start && 10 * (k - 1 - start) > 3 * chunkSize && !BoundaryAt(text, start + chunkSize, k - 1) {
      CutScanSpec(text, chunkSize, start, k - 1);
    }
  }

  /** Where the chunk that starts at `start` ends, when the rest does not fit in one chunk. */
  function CutEnd(text: string, chunkSize: nat, start: nat): (end: nat)
    requires 0 < chunkSize && start + chunkSize < |text|
    ensures start < end <= start + chunkSize
    ensures 10 * (end - start) > 3 * chunkSize
  {
    CutScan(text, chunkSize, start, start + chunkSize)
  }

  /** The cut falls just after the first character of the right-most boundary of the
      window when that boundary lies past 30% of the window; when no boundary lies that
      far, the chunk fills the window. */
  lemma CutEndRule(text: string, chunkSize: nat, start: nat)
    requires 0 < chunkSize && start + chunkSize < |text|
    ensures var hi, end := start + chunkSize, CutEnd(text, chunkSize, start);
      && (end < hi ==>
            && 10 * (end - start - 1) > 3 * chunkSize
            && BoundaryAt(text, hi, end - 1)
            && forall i :: end - 1 < i ==> !BoundaryAt(text, hi, i))
      && (end == hi ==> forall i :: 10 * (i - start) > 3 * chunkSize ==> !BoundaryAt(text, hi, i))
  {
    CutScanSpec(text, chunkSize, start, start + chunkSize);
  }

  /** `LastBoundary` of the window `text[lo..hi]`, read as a position of `text`: the
      right-most boundary that ends by `hi` and starts at or after `lo`. */
  lemma WindowRightmost(text: string, lo: nat, hi: nat)
    requires lo <= hi <= |text|
    ensures var p := LastBoundary(text[lo..hi]);
      && (p == -1 || (0 <= p && BoundaryAt(text, hi, lo + p)))
      && forall i :: lo + p < i ==> !BoundaryAt(text, hi, i)
  {
    var w := text[lo..hi];
    var p := LastBoundary(w);
    LastBoundaryRightmost(w);
    if p >= 0 {
      WindowBoundary(text, lo, hi, p);
    }
    forall i | lo + p < i ensures !BoundaryAt(text, hi, i) {
      WindowBoundary(text, lo, hi, i - lo);
    }
  }

  /** `CutEnd` is what the five `lastIndexOf` calls on the window decide. */
  lemma CutEndByLastBoundary(text: string, chunkSize: nat, start: nat)
    requires 0 < chunkSize && start + chunkSize < |text|
    ensures var p := LastBoundary(text[start..start + chunkSize]);
      CutEnd(text, chunkSize, start) == if 10 * p > 3 * chunkSize then start + p + 1 else start + chunkSize
  {
    var hi := start + chunkSize;
    var p := LastBoundary(text[start..hi]);
    var end := CutEnd(text, chunkSize, start);
    WindowRightmost(text, start, hi);
    CutEndRule(text, chunkSize, start);
    if end < hi {
      assert BoundaryAt(text, hi, end - 1);
      assert p == end - 1 - start;
    } else if p >= 0 {
      assert BoundaryAt(text, hi, start + p);
    }
  }

  /** The loop of `sentenceBoundaryChunk` from window start `start` on, once it has
      collected `acc`: the chunks it returns. */
  function ChunksAfter(text: string, chunkSize: nat, overlap: nat, start: nat, acc: seq<string>): seq<string>
    requires ValidParams(chunkSize, overlap) && start <= |text|
    decreases |text| - start, 1, 0
  {
    if start < |text| then ChunksPass(text, chunkSize, overlap, start, acc) else acc
  }

  /** One pass of that loop, from a window start inside the text. */
  function ChunksPass(text: string, chunkSize: nat, overlap: nat, start: nat, acc: seq<string>): seq<string>
    requires ValidParams(chunkSize, overlap) && start < |text|
    decreases |text| - start, 0, 1
  {
    if start + chunkSize >= |text| then acc + [TrimRange(text, start, |text|)]
    else ChunksCut(text, chunkSize, overlap, start, acc)
  }

  /** A pass whose window ends before the text does: the chunk is cut, kept when it is
      not empty, and the next window starts `overlap` characters before the cut. */
  function ChunksCut(text: string, chunkSize: nat, overlap: nat, start: nat, acc: seq<string>): seq<string>
    requires ValidParams(chunkSize, overlap) && start + chunkSize < |text|
    decreases |text| - start, 0, 0
  {
    var end := CutEnd(text, chunkSize, start);
    var chunk := TrimRange(text, start, end);
    ChunksAfter(text, chunkSize, overlap, end - overlap, if |chunk| > 0 then acc + [chunk] else acc)
  }

  /** One pass of the loop that does not reach the end of the text. */
  lemma ChunksAfterStep(text: string, chunkSize: nat, overlap: nat, start: nat, acc: seq<string>)
    requires ValidParams(chunkSize, overlap) && start + chunkSize < |text|
    ensures var end := CutEnd(text, chunkSize, start);
      var chunk := TrimRange(text, start, end);
      ChunksAfter(text, chunkSize, overlap, start, acc)
        == ChunksAfter(text, chunkSize, overlap, end - overlap, if |chunk| > 0 then acc + [chunk] else acc)
  {
    assert ChunksAfter(text, chunkSize, overlap, start, acc) == ChunksPass(text, chunkSize, overlap, start, acc);
  }

  /** The pass that reaches the end of the text. */
  lemma ChunksAfterLast(text: string, chunkSize: nat, overlap: nat, start: nat, acc: seq<string>)
    requires ValidParams(chunkSize, overlap) && start < |text| <= start + chunkSize
    ensures ChunksAfter(text, chunkSize, overlap, start, acc) == acc + [TrimRange(text, start, |text|)]
  {
  }

  /** The chunks of `sentenceBoundaryChunk(text, chunkSize, overlap)`. */
  function SentenceChunks(text: string, chunkSize: nat, overlap: nat): seq<string>
    requires ValidParams(chunkSize, overlap)
  {
    ChunksAfter(text, chunkSize, overlap, 0, [])
  }

  /** The cut of one window: just after the first character of the right-most of the five
      boundary patterns when it lies past 30% of the window, else the window's end. */
  method CutPoint(text: string, chunkSize: nat, start: nat) returns (end: nat)
    requires 0 < chunkSize && start + chunkSize < |text|
    ensures end == CutEnd(text, chunkSize, start)
  {
    end := start + chunkSize;
    var window := text[start..end];
    var lastPeriod := LastBoundary(window);
    if 10 * lastPeriod > 3 * chunkSize {
      end := start + lastPeriod + 1;
    }
    CutEndByLastBoundary(text, chunkSize, start);
  }

  /** sentenceBoundaryChunk: slides a window of `chunkSize` characters over the text,
      cuts each chunk at a sentence boundary and starts the next window `overlap`
      characters before the cut. */
  method SentenceBoundaryChunk(text: string, chunkSize: nat, overlap: nat) returns (chunks: seq<string>)
    requires ValidParams(chunkSize, overlap)
    ensures chunks == SentenceChunks(text, chunkSize, overlap)
  {
    chunks := [];
    var start := 0;
    while start < |text|
      invariant start <= |text|
      invariant ChunksAfter(text, chunkSize, overlap, start, chunks) == SentenceChunks(text, chunkSize, overlap)
      decreases |text| - start
    {
      if start + chunkSize >= |text| {
        ChunksAfterLast(text, chunkSize, overlap, start, chunks);
        chunks := chunks + [TrimRange(text, start, |text|)];
        break;
      }
      var end := CutPoint(text, chunkSize, start);
      var chunk := TrimRange(text, start, end);
      ChunksAfterStep(text, chunkSize, overlap, start, chunks);
      if |chunk| > 0 {
        chunks := chunks + [chunk];
      }
      start := end - overlap;
    }
  }

  /** Every chunk is trimmed and no longer than `chunkSize`. */
  predicate AllFit(chunks: seq<string>, chunkSize: nat) {
    forall k :: 0 <= k < |chunks| ==> |chunks[k]| <= chunkSize && IsTrimmed(chunks[k])
  }

  predicate AllNonEmpty(chunks: seq<string>) {
    forall k :: 0 <= k < |chunks| ==> chunks[k] != []
  }

  /** No chunk is empty, except perhaps the last one. */
  predicate NonEmptyBeforeLast(chunks: seq<string>) {
    forall k :: 0 <= k < |chunks| - 1 ==> chunks[k] != []
  }

  lemma AllFitAppend(chunks: seq<string>, c: string, chunkSize: nat)
    requires AllFit(chunks, chunkSize) && |c| <= chunkSize && IsTrimmed(c)
    ensures AllFit(chunks + [c], chunkSize)
  {
  }

  lemma AllNonEmptyAppend(chunks: seq<string>, c: string)
    requires AllNonEmpty(chunks)
    ensures NonEmptyBeforeLast(chunks + [c])
    ensures c != [] ==> AllNonEmpty(chunks + [c])
  {
  }

  /** Every chunk the loop adds is trimmed and fits in `chunkSize`. */
  lemma {:induction false} ChunksFit(text: string, chunkSize: nat, overlap: nat, start: nat, acc: seq<string>)
    requires ValidParams(chunkSize, overlap) && start <= |text|
    requires AllFit(acc, chunkSize)
    ensures AllFit(ChunksAfter(text, chunkSize, overlap, start, acc), chunkSize)
    decreases |text| - start
  {
    if start < |text| {
      if start + chunkSize >= |text| {
        ChunksAfterLast(text, chunkSize, overlap, start, acc);
        TrimRangeTrimmed(text, start, |text|);
        AllFitAppend(acc, TrimRange(text, start, |text|), chunkSize);
      } else {
        var end := CutEnd(text, chunkSize, start);
        var chunk := TrimRange(text, start, end);
        ChunksAfterStep(text, chunkSize, overlap, start, acc);
        TrimRangeTrimmed(text, start, end);
        if |chunk| > 0 {
          AllFitAppend(acc, chunk, chunkSize);
          ChunksFit(text, chunkSize, overlap, end - overlap, acc + [chunk]);
        } else {
          ChunksFit(text, chunkSize, overlap, end - overlap, acc);
        }
      }
    }
  }

  /** Only the final chunk, the trimmed rest of the text, can be empty; and it is not
      when the text does not end in white space. */
  lemma {:induction false} ChunksNonEmpty(text: string, chunkSize: nat, overlap: nat, start: nat, acc: seq<string>)
    requires ValidParams(chunkSize, overlap) && start <= |text|
    requires AllNonEmpty(acc)
    ensures NonEmptyBeforeLast(ChunksAfter(text, chunkSize, overlap, start, acc))
    ensures IsTrimmed(text) ==> AllNonEmpty(ChunksAfter(text, chunkSize, overlap, start, acc))
    decreases |text| - start
  {
    if start >= |text| {
      assert NonEmptyBeforeLast(acc);
    } else if start + chunkSize >= |text| {
      ChunksAfterLast(text, chunkSize, overlap, start, acc);
      AllNonEmptyAppend(acc, TrimRange(text, start, |text|));
      if IsTrimmed(text) {
        TrimRangeEmpty(text, start, |text|);
        assert !IsSpace(text[|text| - 1]);
      }
    } else {
      var end := CutEnd(text, chunkSize, start);
      var chunk := TrimRange(text, start, end);
      ChunksAfterStep(text, chunkSize, overlap, start, acc);
      if |chunk| > 0 {
        AllNonEmptyAppend(acc, chunk);
        ChunksNonEmpty(text, chunkSize, overlap, end - overlap, acc + [chunk]);
      } else {
        ChunksNonEmpty(text, chunkSize, overlap, end - overlap, acc);
      }
    }
  }

  /** Every chunk of `sentenceBoundaryChunk` is trimmed and at most `chunkSize` long;
      every chunk but the last is non-empty, and the last is too when the text is
      trimmed (as `chunkText` leaves it). */
  lemma SentenceChunksShape(text: string, chunkSize: nat, overlap: nat)
    requires ValidParams(chunkSize, overlap)
    ensures AllFit(SentenceChunks(text, chunkSize, overlap), chunkSize)
    ensures NonEmptyBeforeLast(SentenceChunks(text, chunkSize, overlap))
    ensures IsTrimmed(text) ==> AllNonEmpty(SentenceChunks(text, chunkSize, overlap))
  {
    ChunksFit(text, chunkSize, overlap, 0, []);
    ChunksNonEmpty(text, chunkSize, overlap, 0, []);
  }

  /** The loop keeps what it has collected and always emits the last window's chunk. */
  lemma {:induction false} ChunksAfterExist(text: string, chunkSize: nat, overlap: nat, start: nat, acc: seq<string>)
    requires ValidParams(chunkSize, overlap) && start <= |text|
    ensures acc != [] || start < |text| ==> ChunksAfter(text, chunkSize, overlap, start, acc) != []
    decreases |text| - start
  {
    if start < |text| {
      if start + chunkSize >= |text| {
        ChunksAfterLast(text, chunkSize, overlap, start, acc);
      } else {
        var end := CutEnd(text, chunkSize, start);
        var chunk := TrimRange(text, start, end);
        ChunksAfterStep(text, chunkSize, overlap, start, acc);
        ChunksAfterExist(text, chunkSize, overlap, end - overlap, if |chunk| > 0 then acc + [chunk] else acc);
      }
    }
  }

  /** A non-empty text yields at least one chunk. */
  lemma SentenceChunksExist(text: string, chunkSize: nat, overlap: nat)
    requires ValidParams(chunkSize, overlap)
    ensures text != [] ==> SentenceChunks(text, chunkSize, overlap) != []
  {
    ChunksAfterExist(text, chunkSize, overlap, 0, []);
  }

  /** Each of the five patterns holds a white-space character. */
  lemma NoSpaceNoBoundary(s: string, hi: int, i: int)
    requires hi <= |s| && NoSpace(s)
    ensures !BoundaryAt(s, hi, i)
  {
    if 0 <= i && i + 2 <= hi {
      assert !IsSpace(s[i]) && !IsSpace(s[i + 1]);
      if i + 3 <= hi {
        assert !IsSpace(s[i + 2]);
      }
    }
  }

  /** Without white space the window is never cut early. */
  lemma NoSpaceCutsAtWindowEnd(text: string, chunkSize: nat, start: nat)
    requires 0 < chunkSize && start + chunkSize < |text| && NoSpace(text)
    ensures CutEnd(text, chunkSize, start) == start + chunkSize
  {
    CutEndRule(text, chunkSize, start);
    NoSpaceNoBoundary(text, start + chunkSize, CutEnd(text, chunkSize, start) - 1);
  }

  /** The last `overlap` characters of `a` are the first `overlap` characters of `b`. */
  predicate Overlaps(a: string, b: string, overlap: nat) {
    overlap <= |a| && overlap <= |b| && a[|a| - overlap..] == b[..overlap]
  }

  /** Chunk `i` overlaps chunk `i + 1` by `overlap` characters. */
  predicate OverlapsNext(chunks: seq<string>, i: nat, overlap: nat)
    requires i + 1 < |chunks|
  {
    Overlaps(chunks[i], chunks[i + 1], overlap)
  }

  /** Each chunk overlaps the next one by `overlap` characters. */
  predicate Overlapping(chunks: seq<string>, overlap: nat) {
    forall i: nat :: i + 1 < |chunks| ==> OverlapsNext(chunks, i, overlap)
  }

  lemma OverlappingAppend(chunks: seq<string>, c: string, overlap: nat)
    requires Overlapping(chunks, overlap)
    requires chunks != [] ==> Overlaps(chunks[|chunks| - 1], c, overlap)
    ensures Overlapping(chunks + [c], overlap)
  {
    var r := chunks + [c];
    forall i: nat | i + 1 < |r| ensures OverlapsNext(r, i, overlap) {
      if i + 1 < |chunks| {
        assert OverlapsNext(chunks, i, overlap);
        assert r[i] == chunks[i] && r[i + 1] == chunks[i + 1];
      }
    }
  }

  /** The last chunk collected ends with the `overlap` characters at `start`. */
  predicate LastEndsWith(chunks: seq<string>, text: string, start: nat, overlap: nat) {
    chunks != [] ==>
      && start + overlap <= |text|
      && overlap <= |chunks[|chunks| - 1]|
      && chunks[|chunks| - 1][|chunks[|chunks| - 1]| - overlap..] == text[start..start + overlap]
  }

  /** Appending the slice `text[start..end]` to chunks whose last one ends with the
      `overlap` characters at `start`. */
  lemma AppendOverlapping(text: string, start: nat, end: nat, chunk: string, overlap: nat, acc: seq<string>)
    requires start <= end <= |text| && chunk == text[start..end]
    requires Overlapping(acc, overlap) && LastEndsWith(acc, text, start, overlap)
    requires acc != [] ==> start + overlap <= end
    ensures Overlapping(acc + [chunk], overlap)
    ensures start + overlap <= end ==> LastEndsWith(acc + [chunk], text, end - overlap, overlap)
  {
    if acc != [] {
      assert chunk[..overlap] == text[start..start + overlap];
    }
    OverlappingAppend(acc, chunk, overlap);
    if start + overlap <= end {
      assert chunk[|chunk| - overlap..] == text[end - overlap..end];
    }
  }

  /** Without white space there is no boundary to cut at: every window is cut at its
      end and kept whole. */
  lemma NoSpaceStep(text: string, chunkSize: nat, overlap: nat, start: nat, acc: seq<string>)
    requires ValidParams(chunkSize, overlap) && start + chunkSize < |text| && NoSpace(text)
    ensures ChunksAfter(text, chunkSize, overlap, start, acc)
      == ChunksAfter(text, chunkSize, overlap, start + chunkSize - overlap, acc + [text[start..start + chunkSize]])
  {
    NoSpaceCutsAtWindowEnd(text, chunkSize, start);
    NoSpaceTrimRange(text, start, start + chunkSize);
    ChunksAfterStep(text, chunkSize, overlap, start, acc);
  }

  /** Without white space the final chunk is the whole rest of the text. */
  lemma NoSpaceLast(text: string, chunkSize: nat, overlap: nat, start: nat, acc: seq<string>)
    requires ValidParams(chunkSize, overlap) && start < |text| <= start + chunkSize && NoSpace(text)
    ensures ChunksAfter(text, chunkSize, overlap, start, acc) == acc + [text[start..|text|]]
  {
    NoSpaceTrimRange(text, start, |text|);
    ChunksAfterLast(text, chunkSize, overlap, start, acc);
  }

  /** Each chunk repeats the last `overlap` characters of the one before. */
  lemma {:induction false} ChunksOverlap(text: string, chunkSize: nat, overlap: nat, start: nat, acc: seq<string>)
    requires ValidParams(chunkSize, overlap) && start <= |text| && NoSpace(text)
    requires Overlapping(acc, overlap) && LastEndsWith(acc, text, start, overlap)
    ensures Overlapping(ChunksAfter(text, chunkSize, overlap, start, acc), overlap)
    decreases |text| - start
  {
    if start < |text| {
      if start + chunkSize >= |text| {
        NoSpaceLast(text, chunkSize, overlap, start, acc);
        AppendOverlapping(text, start, |text|, text[start..|text|], overlap, acc);
      } else {
        NoSpaceStep(text, chunkSize, overlap, start, acc);
        AppendOverlapping(text, start, start + chunkSize, text[start..start + chunkSize], overlap, acc);
        ChunksOverlap(text, chunkSize, overlap, start + chunkSize - overlap, acc + [text[start..start + chunkSize]]);
      }
    }
  }

  /** For text without white space, consecutive chunks of `sentenceBoundaryChunk` share
      exactly `overlap` characters. */
  lemma OverlapWithoutBoundaries(text: string, chunkSize: nat, overlap: nat)
    requires ValidParams(chunkSize, overlap) && NoSpace(text)
    ensures Overlapping(SentenceChunks(text, chunkSize, overlap), overlap)
  {
    ChunksOverlap(text, chunkSize, overlap, 0, []);
  }
}
