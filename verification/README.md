# Retrieval helpers of a RAG chatbot, modelled and proved in Dafny

This project models the three retrieval helpers at the heart of a retrieval-augmented
chatbot and proves properties of them.

- **`lib/chunker.ts`**, the document chunker. `chunkText` works in these steps:
  - It collapses runs of three or more line feeds and trims the text.
  - It returns short text whole.
  - It splits longer text at Markdown headings that lie outside fenced code blocks.
  - It merges small sections, joined by a blank line.
  - It hands oversized pieces to `chunkWithCodeBlockProtection`. That function keeps each fenced block whole. It cuts the text between blocks with `sentenceBoundaryChunk`, a sliding window with overlap that prefers the right-most sentence or paragraph boundary past 30% of the window.
- **`lib/search/bm25.ts`**, the tokenizer and the Okapi BM25 scorer. The scorer counts document and term frequencies, scores each document and keeps positive scores, sorted best first.
- **`lib/search/reranker.ts`**, the post-processing of the LLM re-ranker:
  - It returns short lists unchanged.
  - It extracts the JSON array from the model's reply and builds a validated score map.
  - It sorts the documents stably, with -1 for unscored ones, and cuts the list to `topK`.
  - When anything fails, it falls back to the original order.

Each source operation that changes state step by step is a `method` with loops and invariants. Each method is proved equal to a specification function, and the properties are lemmas about those functions.

| file | module | models |
|---|---|---|
| `text.dfy` | `Text` | JavaScript white space, `trim`, `lastIndexOf` |
| `wrappers.dfy` | `Wrappers` | `Option` |
| `chunker_scan.dfy` | `ChunkerScan` | newline clean-up, `findCodeBlockRanges`, `isInsideCodeBlock`, `splitByHeadings` |
| `code_blocks.dfy` | `CodeBlocks` | how the code blocks of a slice, a trimmed slice and a heading section relate to those of the whole text |
| `sentence.dfy` | `SentenceChunker` | `sentenceBoundaryChunk` |
| `chunker.dfy` | `Chunker` | `chunkWithCodeBlockProtection`, `chunkText` |
| `tokenizer.dfy` | `Tokenizer` | `tokenize` |
| `ranking.dfy` | `Ranking` | the stable descending sort shared by BM25 and the re-ranker |
| `bm25.dfy` | `Bm25` | `computeBM25Scores` |
| `reranker.dfy` | `Reranker` | `rerankWithLLM` after the generator call |

**Parameters.** The chunker's parameters satisfy `ValidParams(chunkSize, overlap)`: `chunkSize > 0`, `overlap >= 0` and `10 * overlap <= 3 * chunkSize`. Under these conditions the window always moves forward, so the sliding-window loop terminates. The defaults 500/100 satisfy them.

- The test `lastPeriod > chunkSize * 0.3` is written as `10 * p > 3 * chunkSize`, which is exact.
- BM25 takes the natural logarithm as a parameter `ln` and requires only that `ln(x) > 0` for `x > 1`.
- The re-ranker takes the generator's outcome as a `Reply` and `JSON.parse` as a function `parse`.

## Model

| member | source | states |
|---|---|---|
| Text.TrimSpec | lib/chunker.ts:45 | `trim` removes exactly the leading and the trailing white space: the result is the slice between the first and the last non-space character |
| Text.TrimTrimmed | lib/chunker.ts:55 | a trimmed string starts and ends with non-space characters, and trimming it again changes nothing |
| Text.TrimEmpty | lib/chunker.ts:46 | `trim` yields the empty string exactly when the input is all white space |
| Text.TrimRangeSlice | lib/chunker.ts:96 | trimming indices `[lo, hi)` of the text equals `text.slice(lo, hi).trim()` |
| Text.LastIndexOfSpec | lib/chunker.ts:85 | `lastIndexOf` returns -1 or an occurrence, and no occurrence lies to its right |
| ChunkerScan.CollapseNewlines | lib/chunker.ts:194 | after the replacement no run of three line feeds remains; a leading run of three or more becomes two |
| ChunkerScan.CollapseNewlinesIdentity | lib/chunker.ts:194 | text without a run of three line feeds is left as it is |
| ChunkerScan.CollapseNewlinesKeeps | lib/chunker.ts:194 | the replacement removes line feeds and nothing else: with line feeds deleted, the text before and after is the same |
| ChunkerScan.CollapseNewlinesAllSpace | lib/chunker.ts:194 | the text is all white space after the replacement iff it was before |
| ChunkerScan.Clean | lib/chunker.ts:194 | the cleaned text is trimmed, has no run of three line feeds, and is empty iff the input is all white space |
| ChunkerScan.CleanIdempotent | lib/chunker.ts:194 | cleaning cleaned text changes nothing |
| ChunkerScan.FirstFenceFrom | lib/chunker.ts:9 | finds the first triple backtick at or after a position, or reports that there is none |
| ChunkerScan.CodeMatchAtSpec | lib/chunker.ts:9 | the lazy pattern matches at `i` iff a fence starts at `i` and another follows; the match ends at the nearest closing fence, with no fence in between |
| ChunkerScan.CodeRangesFromSpec | lib/chunker.ts:7-15 | every range is the lazy match at its own start, and the ranges are in text order without overlap |
| ChunkerScan.CodeRangesFromCover | lib/chunker.ts:11-13 | the global scan misses nothing: at every position outside all ranges the pattern does not match |
| ChunkerScan.FindCodeBlockRanges | lib/chunker.ts:7-15 | the `exec` loop returns exactly the ranges of the global scan |
| ChunkerScan.IsInsideCodeBlock | lib/chunker.ts:17-19 | true iff some range `[start, end)` contains the position |
| ChunkerScan.HeadingStartsWithHash | lib/chunker.ts:28 | a heading match starts with `#` |
| ChunkerScan.SplitPositionsBelow | lib/chunker.ts:28-35 | the split positions strictly ascend |
| ChunkerScan.SplitPositionsBelowMembers | lib/chunker.ts:28-35 | a position is a split position iff a heading starts there at a line start and it lies outside every code range |
| ChunkerScan.HeadingSection | lib/chunker.ts:55 | a section that starts at a heading stays non-empty, trimmed and `#`-led after `trim` |
| ChunkerScan.SectionsAreHeadings | lib/chunker.ts:51-59 | a section that starts at a split position is a non-empty trimmed heading section |
| ChunkerScan.SectionsBelowAt | lib/chunker.ts:51-59 | the slicing loop yields one section per split position, section `k` being the trimmed text from position `k` to the next position or the end |
| ChunkerScan.PreambleShape | lib/chunker.ts:41-48 | there is at most one preamble; there is none iff the text before the first heading is blank, otherwise it is that text trimmed |
| ChunkerScan.SectionsShape | lib/chunker.ts:37-61 | with split positions: the optional preamble (the trimmed text before the first heading, present iff that text is not blank), then section `k` for position `k`, the trimmed text up to the next position; every section is non-empty and trimmed, and each after the preamble is a heading section |
| ChunkerScan.FindHeadingPositions | lib/chunker.ts:28-35 | the heading loop collects exactly the split positions |
| ChunkerScan.CutAtPositions | lib/chunker.ts:41-61 | the preamble and slicing loop yields exactly the specified sections |
| ChunkerScan.SplitByHeadings | lib/chunker.ts:25-62 | `[text]` without split positions, otherwise the sections |
| CodeBlocks.MatchUnique | lib/chunker.ts:9 | a lazy code match is determined by its start: any range that has the match's shape is the match there |
| CodeBlocks.MatchWindowSome | lib/chunker.ts:9 | a match that lies inside a slice of the text is also the match of the slice, shifted |
| CodeBlocks.ResumeAt | lib/chunker.ts:11-13 | resuming the global scan at a position outside every range finds exactly the ranges from that position on |
| CodeBlocks.WindowRanges | lib/chunker.ts:7-15 | the code ranges of a slice whose end lies outside every range are the ranges of the text inside the slice, shifted |
| CodeBlocks.StrippedRanges | lib/chunker.ts:7-15 | cutting white space off both ends of a slice whose ends lie outside every range keeps exactly those ranges |
| CodeBlocks.SectionBlocks | lib/chunker.ts:55 | a trimmed slice cut outside every code range has as code blocks exactly the code blocks of the text inside the slice |
| CodeBlocks.SectionBlocksOfText | lib/chunker.ts:25-62 | every code block of a heading section is a code block of the whole text |
| CodeBlocks.SectionOfBlock | lib/chunker.ts:25-62 | every code block of the text is, whole, a code block of one of the sections |
| SentenceChunker.BoundaryAtOccurs | lib/chunker.ts:84-90 | a boundary sits at `i` iff one of `". "`, `".\n"`, `"다. "`, `"다.\n"`, `"\n\n"` occurs there |
| SentenceChunker.LastBoundary | lib/chunker.ts:84-90 | the maximum of the five `lastIndexOf` calls is -1 or an index with room for a two-character pattern |
| SentenceChunker.LastBoundaryRightmost | lib/chunker.ts:84-90 | that maximum is a boundary, and no boundary lies to its right |
| SentenceChunker.KoreanBoundariesDominated | lib/chunker.ts:84-90 | the two `다.` patterns never change the maximum, since each contains `". "` or `".\n"` |
| SentenceChunker.WindowBoundary | lib/chunker.ts:83 | a boundary in the window `text.slice(lo, hi)` is a boundary of the text that ends by `hi` |
| SentenceChunker.WindowRightmost | lib/chunker.ts:83-90 | the right-most boundary of the window, shifted by `lo`, is the right-most boundary of the text before `hi` |
| SentenceChunker.CutScan | lib/chunker.ts:84-94 | the scanned cut lies in the window and past 30% of it |
| SentenceChunker.CutScanSpec | lib/chunker.ts:84-94 | the scan stops just after the right-most boundary past 30%, or at the window end when there is none |
| SentenceChunker.CutEnd | lib/chunker.ts:76-94 | `start < end <= start + chunkSize` and `10 * (end - start) > 3 * chunkSize`, so the window advances |
| SentenceChunker.CutEndRule | lib/chunker.ts:84-94 | the cut is just after the right-most boundary past 30% of the window, or at the window end when there is none |
| SentenceChunker.CutEndByLastBoundary | lib/chunker.ts:83-94 | the cut is `start + p + 1` when `10 * p > 3 * chunkSize` for the maximum `p` of the five `lastIndexOf` calls, and `start + chunkSize` otherwise |
| SentenceChunker.CutPoint | lib/chunker.ts:83-94 | the method computes that cut |
| SentenceChunker.ChunksAfterStep | lib/chunker.ts:96-101 | one iteration appends the trimmed slice `[start, end)` if non-empty and continues at `end - overlap` |
| SentenceChunker.ChunksAfterLast | lib/chunker.ts:78-81 | when the window reaches the end, the final chunk is `text.slice(start).trim()` |
| SentenceChunker.SentenceBoundaryChunk | lib/chunker.ts:67-105 | the loop returns exactly the specified chunks |
| SentenceChunker.ChunksFit | lib/chunker.ts:76-99 | every chunk is at most `chunkSize` long |
| SentenceChunker.ChunksNonEmpty | lib/chunker.ts:96-99 | every chunk but the last is non-empty, and the last too when the text is trimmed |
| SentenceChunker.SentenceChunksShape | lib/chunker.ts:67-105 | chunks fit `chunkSize`; all but the last are non-empty; for trimmed text all are |
| SentenceChunker.ChunksAfterExist | lib/chunker.ts:75-81 | the loop produces a chunk whenever text remains or chunks were collected |
| SentenceChunker.SentenceChunksExist | lib/chunker.ts:67-105 | non-empty text gives at least one chunk |
| SentenceChunker.NoSpaceNoBoundary | lib/chunker.ts:84-90 | text without white space has no boundary |
| SentenceChunker.NoSpaceCutsAtWindowEnd | lib/chunker.ts:92-94 | without white space every cut is at the window end |
| SentenceChunker.OverlappingAppend | lib/chunker.ts:96-101 | appending a chunk that overlaps the last one keeps the whole list overlapping |
| SentenceChunker.AppendOverlapping | lib/chunker.ts:96-101 | the next slice starts with the `overlap` characters that end the previous chunk |
| SentenceChunker.NoSpaceStep | lib/chunker.ts:83-101 | without white space each step appends the untrimmed full window and moves by `chunkSize - overlap` |
| SentenceChunker.NoSpaceLast | lib/chunker.ts:78-81 | without white space the last chunk is the untrimmed rest of the text |
| SentenceChunker.ChunksOverlap | lib/chunker.ts:96-101 | without white space consecutive chunks share `overlap` characters |
| SentenceChunker.OverlapWithoutBoundaries | lib/chunker.ts:67-105 | for text with no white space, the last `overlap` characters of each chunk are the first `overlap` characters of the next |
| Chunker.DefaultsValid | lib/chunker.ts:1-2 | the defaults 500 and 100 make the window advance |
| Chunker.CodeRangesOrdered | lib/chunker.ts:125-136 | the code matches lie inside the text, in order and without overlap |
| Chunker.SegmentsAfterJoin | lib/chunker.ts:125-139 | the segments still to come, appended to those collected, spell the rest of the text |
| Chunker.SegmentsJoin | lib/chunker.ts:121-139 | the text and code segments, concatenated, are exactly the text |
| Chunker.CodeRangeFenced | lib/chunker.ts:134 | a code segment starts and ends with a triple backtick |
| Chunker.FencedTrimmed | lib/chunker.ts:162 | a fenced block is non-empty and `trim` leaves it unchanged |
| Chunker.SegmentsAfterShape | lib/chunker.ts:125-139 | collected segments are kept as a prefix, code segments stay fenced, and each remaining match yields a code segment |
| Chunker.SegmentsShape | lib/chunker.ts:125-139 | every code segment is fenced, and there is one whenever the pattern matches |
| Chunker.SegmentsCode | lib/chunker.ts:125-139 | every code segment is a code block of the text, and every code block of the text is a code segment |
| Chunker.SplitSegments | lib/chunker.ts:121-139 | the `exec` loop builds exactly the specified segments |
| Chunker.FlushBuffer | lib/chunker.ts:170-178 | the flush emits nothing for a blank buffer, the trimmed buffer when it fits, otherwise its sentence chunks |
| Chunker.ChunkWithCodeBlockProtection | lib/chunker.ts:111-181 | the method returns exactly the specified chunks: sentence chunks when there is no code block, otherwise the buffered segment walk |
| Chunker.FlushGood | lib/chunker.ts:170-178 | a flush emits only non-empty, trimmed chunks that fit, and emits something iff the buffer is not blank |
| Chunker.CodeBlockFenced | lib/chunker.ts:9 | a code block of the text is non-empty, fenced, and unchanged by `trim` |
| Chunker.ProtectAfterGood | lib/chunker.ts:144-178 | every chunk the segment walk emits is non-empty, trimmed, and either fits `chunkSize` or is a whole code block of the text |
| Chunker.ProtectAfterKeeps | lib/chunker.ts:144-178 | the walk keeps the chunks already emitted and emits every later code segment longer than `chunkSize` whole |
| Chunker.ProtectedChunksCode | lib/chunker.ts:111-181 | every code block of the text longer than `chunkSize` is one of the chunks, whole |
| Chunker.ProtectAfterExist | lib/chunker.ts:144-178 | a non-blank buffer or a code segment still to come yields at least one chunk |
| Chunker.ProtectedChunksGood | lib/chunker.ts:111-181 | for trimmed input, every chunk is non-empty and trimmed and fits `chunkSize` unless it is a whole code block of the text; non-blank text gives at least one chunk |
| Chunker.FlushSection | lib/chunker.ts:219-225 | the method flushes a section buffer as specified |
| Chunker.JoinSolid | lib/chunker.ts:215-216 | two non-empty trimmed sections joined by `"\n\n"` form a non-empty trimmed buffer |
| Chunker.SectionFlushGood | lib/chunker.ts:219-225 | flushing a non-empty trimmed buffer emits at least one chunk; each fits `chunkSize` or is a whole code block of the text, provided an oversized buffer's code blocks are code blocks of the text |
| Chunker.MergeAfterGood | lib/chunker.ts:212-239 | when every section's code blocks are code blocks of the text, the merge emits only non-empty trimmed chunks that fit `chunkSize` or are whole code blocks of the text, and at least one when any section or buffer is left |
| Chunker.MergeAfterKeeps | lib/chunker.ts:212-239 | the merge keeps the chunks already emitted and every chunk of an oversized buffer |
| Chunker.MergeAfterSection | lib/chunker.ts:212-239 | every chunk of a later section longer than `chunkSize` is emitted |
| Chunker.ChunkOfBlock | lib/chunker.ts:189-242 | a code range of the cleaned text longer than `chunkSize` is one of the chunks |
| Chunker.ChunkText | lib/chunker.ts:189-242 | the method returns exactly the specified chunks |
| Chunker.ChunksShape | lib/chunker.ts:194-241 | the result is never empty; blank input gives `[""]`; cleaned text within `chunkSize` gives `[cleaned]`; otherwise every chunk is non-empty, trimmed, and fits `chunkSize` unless it is a whole code block of the cleaned text |
| Chunker.ChunksFitOrCode | lib/chunker.ts:145-239 | every chunk is trimmed, and is at most `chunkSize` long unless it is a whole code block of the cleaned text |
| Chunker.ChunksCode | lib/chunker.ts:189-242 | every code block of the cleaned text longer than `chunkSize` is one of the chunks, whole and unsplit |
| Tokenizer.Lower | lib/search/bm25.ts:16 | lower-casing leaves no upper-case letter and keeps white space as white space |
| Tokenizer.Mask | lib/search/bm25.ts:17 | each character becomes a letter, digit or white space; letters, digits and white space are kept; lower case stays lower case |
| Tokenizer.Normalize | lib/search/bm25.ts:16-17 | the normalised text has the input's length; every character is a letter, digit or white space and none is upper case; a character becomes white space iff it was white space or is no letter or digit once lower-cased; letters and digits are kept lower-cased |
| Tokenizer.RunEnd | lib/search/bm25.ts:18 | a run of non-space characters ends at white space or at the end of the text |
| Tokenizer.WordsFromShape | lib/search/bm25.ts:18-19 | splitting normalised text yields only non-empty lower-case runs of letters and digits |
| Tokenizer.WordsFromBlank | lib/search/bm25.ts:18-19 | splitting blank text yields nothing |
| Tokenizer.TokensAreWords | lib/search/bm25.ts:13-20 | every token is non-empty, lower case, and letters and digits only |
| Tokenizer.TokenizeBlank | lib/search/bm25.ts:14-19 | the empty string and white space give no tokens |
| Tokenizer.SqueezeRun | lib/search/bm25.ts:18 | a run of non-space characters survives whole when white space is removed |
| Tokenizer.WordsFromConcat | lib/search/bm25.ts:18-19 | the words, put back to back, are the text without its white space |
| Tokenizer.TokensCoverText | lib/search/bm25.ts:15-19 | nothing but white space is lost: the tokens concatenated equal the normalised text with white space removed |
| Ranking.Insert | lib/search/bm25.ts:95 | insertion adds exactly one entry and keeps all others |
| Ranking.SortByScoreDesc | lib/search/bm25.ts:95 | the sort is a permutation of its input |
| Ranking.InsertRankOrdered | lib/search/bm25.ts:95 | inserting an entry whose position precedes all others keeps the list in descending score with ties by position |
| Ranking.SortRankOrdered | lib/search/bm25.ts:95 | sorting a list built in position order gives descending scores with equal scores in ascending position, as a stable sort does |
| Ranking.RankOrderedUnique | lib/search/bm25.ts:95 | only one arrangement of a collection is in that order, so any stable sort produces this one |
| Ranking.InsertIndices | lib/search/bm25.ts:95 | insertion adds exactly the inserted position |
| Ranking.SortIndices | lib/search/bm25.ts:95 | sorting keeps exactly the positions it was given |
| Ranking.SortDistinct | lib/search/bm25.ts:95 | sorting distinct positions keeps them distinct |
| Bm25.DefaultTuningValid | lib/search/bm25.ts:6-7 | the defaults `k1 = 1.5` and `b = 0.75` are a valid tuning |
| Bm25.DocFreq | lib/search/bm25.ts:53-59 | a document frequency never exceeds the number of documents |
| Bm25.DocFreqBounds | lib/search/bm25.ts:53-59 | a term in some document has `1 <= df <= N` |
| Bm25.TermFreq | lib/search/bm25.ts:68-71 | a term frequency never exceeds the document's length |
| Bm25.TermFreqPositive | lib/search/bm25.ts:68-71 | a term frequency is positive iff the term occurs in the document |
| Bm25.TotalLengthBound | lib/search/bm25.ts:49-50 | each document's length is at most the total length |
| Bm25.AverageLengthPositive | lib/search/bm25.ts:49-50 | the average length is positive when some document has a token |
| Bm25.IdfArgument | lib/search/bm25.ts:82 | for `df <= N` the argument of the logarithm exceeds 1, so idf is positive |
| Bm25.TfNorm | lib/search/bm25.ts:85 | with `tf > 0` the normalised term frequency is positive |
| Bm25.TermScoreSign | lib/search/bm25.ts:74-87 | a term contributes a non-negative score, positive iff the term occurs in the document |
| Bm25.DocScoreSign | lib/search/bm25.ts:73-88 | a document's score is non-negative, and positive iff it contains some query term |
| Bm25.TokenizeAllShape | lib/search/bm25.ts:45 | every document's token list holds only tokens, and a blank document gets none |
| Bm25.CountDocFreq | lib/search/bm25.ts:53-59 | the counting loops store each term's document frequency, counting each document once |
| Bm25.CountTermFreq | lib/search/bm25.ts:68-71 | the loop stores each token's number of occurrences |
| Bm25.ScoreDocument | lib/search/bm25.ts:64-88 | the query-term loop with its two `continue`s computes the document's score |
| Bm25.ScoreAll | lib/search/bm25.ts:62-93 | the scoring loop collects the positively scored documents in order |
| Bm25.ComputeBM25Scores | lib/search/bm25.ts:31-97 | the method returns exactly the specified result |
| Bm25.HitsShape | lib/search/bm25.ts:90-92 | the collected results are at most N, in position order, each carrying its document's positive score |
| Bm25.HitsReturned | lib/search/bm25.ts:90-92 | a document is collected iff its score is positive |
| Bm25.BM25Empty | lib/search/bm25.ts:39-42 | an empty or blank query, a query without tokens, or no documents give `[]` |
| Bm25.BM25Shape | lib/search/bm25.ts:63-95 | at most N results; each score positive, each index in `[0, N)`, indices distinct; descending score with ties by ascending index |
| Bm25.BM25Membership | lib/search/bm25.ts:74-92 | a document is returned iff it shares a token with the query |
| Bm25.TuningIrrelevant | lib/search/bm25.ts:36-92 | the set of returned indices is the same for every valid `k1` and `b` |
| Reranker.FirstIndexFrom | lib/search/reranker.ts:57 | the first `[` at or after a position, or the end of the text |
| Reranker.LastBracket | lib/search/reranker.ts:57 | the last `]` found is a `]`, and none lies to its right |
| Reranker.ExtractArrayNone | lib/search/reranker.ts:57-60 | the array pattern fails iff no `]` follows a `[` |
| Reranker.ExtractArraySome | lib/search/reranker.ts:57 | a match is the slice from the first `[` of the reply to its last `]` |
| Reranker.ScoreMapNone | lib/search/reranker.ts:68-77 | the loop throws iff an element of the array is `null` |
| Reranker.ScoreMapContents | lib/search/reranker.ts:67-77 | the map holds exactly the numeric indices in `[0, N)` of elements with a numeric score; each maps to the score of the last such element |
| Reranker.BuildScoreMap | lib/search/reranker.ts:67-77 | the loop builds exactly that map, or throws |
| Reranker.RankedEntries | lib/search/reranker.ts:80-82 | every document is ranked with its map score, or -1 when it has none |
| Reranker.RankedPermutation | lib/search/reranker.ts:80-82 | every document position appears exactly once after sorting |
| Reranker.RankedOrdered | lib/search/reranker.ts:82 | the sort is stable and descending |
| Reranker.PickInsert | lib/search/reranker.ts:83 | inserting a position adds exactly its document |
| Reranker.PickSort | lib/search/reranker.ts:80-83 | sorting positions keeps the same documents |
| Reranker.Reorder | lib/search/reranker.ts:80-83 | the reranked list is as long as the input |
| Reranker.ReorderPermutation | lib/search/reranker.ts:80-83 | the reranked list is a permutation of the input records |
| Reranker.ReorderRanked | lib/search/reranker.ts:80-83 | document `k` is the one at ranked position `k`; scores do not increase, and equal scores keep input order |
| Reranker.SliceEnd | lib/search/reranker.ts:85 | `slice(0, topK)` ends within the list |
| Reranker.RerankWithLLM | lib/search/reranker.ts:19-89 | the method returns exactly the specified result |
| Reranker.RerankLength | lib/search/reranker.ts:24-88 | the output has `min(topK, N)` documents, and all N without `topK`, in every branch |
| Reranker.RerankShort | lib/search/reranker.ts:28-30 | with at most two documents the reply plays no part, the output is a prefix of the input, and `[]` gives `[]` |
| Reranker.RerankFallback | lib/search/reranker.ts:57-89 | a failed generator call, a reply without an array, a parse error or a `null` element give the original order cut to `topK` |
| Reranker.RerankTopK | lib/search/reranker.ts:80-85 | with a score map the output is a prefix of the reranked list, and every kept document scores at least as high as every cut one |
| Reranker.TakeSubmultiset | lib/search/reranker.ts:85 | a slice keeps only records of the list |
| Reranker.RerankRecords | lib/search/reranker.ts:80-88 | in every branch the output records are input records, unchanged, none more often than given |

## Left out

- SentenceChunker.SentenceBoundaryChunk: requires `ValidParams`, that is `chunkSize > 0`, `overlap >= 0` and `10 * overlap <= 3 * chunkSize`. This is enough for the window to advance, but it is not necessary. With `chunkSize = 10` and `overlap = 4` every cut still moves the window forward. With `overlap >= chunkSize` and a full window without a boundary past 30%, `start` never advances and the loop does not end. Parameters outside `ValidParams` are not modelled. That includes a negative `overlap`, which would skip characters between chunks, and `chunkSize <= 0`. Chunker.ChunkText and Chunker.ChunkWithCodeBlockProtection carry the same requirement.
- Bm25.ComputeBM25Scores: requires `k1 >= 0` and `0 <= b <= 1`. Other values can make the denominator zero or negative, giving `Infinity`, `NaN` or negative scores; these are not modelled.
- Bm25.ComputeBM25Scores: numbers are exact reals. Floating-point rounding, `Infinity` and `NaN` are not modelled, and the logarithm is a parameter that only has to be positive above 1.
- Bm25.CountDocFreq: walks each document's tokens in first-occurrence order, which is how `new Set(tokens)` iterates.
- Tokenizer.Lower: `toLowerCase` is modelled for A–Z and Latin-1 upper-case letters only. Other scripts' case mappings, and mappings that change length, are not modelled.
- Tokenizer.IsLetterOrDigit: `\p{L}` and `\p{N}` are exact on ASCII and Latin-1. Every character above U+00FF that is not white space counts as a letter, so other Unicode punctuation is not masked.
- Text: strings are sequences of Unicode characters, not of UTF-16 code units. For text with characters outside the Basic Multilingual Plane, the source's `length`, `slice` and `lastIndexOf` count code units, so its lengths, chunk-size comparisons and cut positions differ from the model's.
- Ranking.SortByScoreDesc: the engine's sort is modelled as an insertion sort. `Ranking.RankOrderedUnique` shows that every stable sort gives the same result.
- ChunkerScan.HeadingAt: in multiline mode `^` matches after any line terminator (`\n`, `\r`, U+2028, U+2029), not only after `\n`, and the model follows that.
- Reranker.RerankWithLLM: these parts are inputs, not modelled:
  - the prompt text and the model name;
  - the `generateText` call and its five-second time-out;
  - the query, which appears only in the prompt;
  - `JSON.parse`.
- Reranker.Item: parsed elements are `null` or values whose `index` and `score` are numbers or not. JSON numbers too large for a double, which would parse to `Infinity`, are not modelled.
- Reranker.Rerank: `topK` is an integer or absent. A fractional or `NaN` `topK`, which `slice` would truncate or treat as 0, is not modelled.
- Reranker.ScoreMapOf: the early `return` when no array is found (lib/search/reranker.ts:58-60) and the `catch` fallback give the same output, so the model does not distinguish them.
