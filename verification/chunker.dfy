/**
  The top of the chunker: `chunkWithCodeBlockProtection`, which keeps fenced code blocks
  whole, and `chunkText`, which cleans the text, splits it at Markdown headings and
  merges small sections back together.
*/
module Chunker {
  import opened Text
  import opened ChunkerScan
  import opened SentenceChunker
  import opened CodeBlocks

  const DefaultChunkSize: nat := 500
  const DefaultChunkOverlap: nat := 100

  /** The default parameters make the sentence window advance. */
  lemma DefaultsValid()
    ensures ValidParams(DefaultChunkSize, DefaultChunkOverlap)
  {
  }

  // ---------------------------------------------------------------------------------
  // Segments
  // ---------------------------------------------------------------------------------

  /** A piece of the text: a fenced code block or the text between two of them. */
  datatype Segment = Segment(content: string, isCode: bool)

  /** Ranges of `text`, in text order and without overlap. */
  predicate Ordered(text: string, ranges: seq<(nat, nat)>) {
    && (forall k :: 0 <= k < |ranges| ==> ranges[k].0 <= ranges[k].1 <= |text|)
    && (forall k :: 0 <= k < |ranges| - 1 ==> ranges[k].1 <= ranges[k + 1].0)
  }

  /** The code ranges of a text are ordered. */
  lemma CodeRangesOrdered(text: string)
    ensures Ordered(text, CodeRanges(text))
    ensures forall k :: 0 <= k < |CodeRanges(text)| ==> IsCodeRange(text, CodeRanges(text)[k])
  {
    CodeRangesFromSpec(text, 0);
  }

  /** The segment loop from match `i` on, the previous match having ended at `last`
      and the segments so far being `acc`: a text segment before each match that does
      not start right where the previous one ended, the match as a code segment, and
      the rest of the text as a last text segment when anything is left. */
  function SegmentsAfter(text: string, ranges: seq<(nat, nat)>, i: nat, last: nat, acc: seq<Segment>): seq<Segment>
    requires Ordered(text, ranges) && i <= |ranges| && last <= |text|
    requires i < |ranges| ==> last <= ranges[i].0
    decreases |ranges| - i
  {
    if i == |ranges| then
      if last < |text| then acc + [Segment(text[last..], false)] else acc
    else
      var r := ranges[i];
      var before := if r.0 > last then acc + [Segment(text[last..r.0], false)] else acc;
      SegmentsAfter(text, ranges, i + 1, r.1, before + [Segment(text[r.0..r.1], true)])
  }

  /** The segments of a text, from its code ranges. */
  function Segments(text: string): seq<Segment> {
    CodeRangesOrdered(text);
    SegmentsAfter(text, CodeRanges(text), 0, 0, [])
  }

  /** The contents of the segments, in order, put back together. */
  function Join(segs: seq<Segment>): string {
    if segs == [] then [] else Join(segs[..|segs| - 1]) + segs[|segs| - 1].content
  }

  lemma JoinAppend(segs: seq<Segment>, x: Segment)
    ensures Join(segs + [x]) == Join(segs) + x.content
  {
    assert (segs + [x])[..|segs|] == segs;
  }

  lemma {:induction false} SegmentsAfterJoin(text: string, ranges: seq<(nat, nat)>, i: nat, last: nat, acc: seq<Segment>)
    requires Ordered(text, ranges) && i <= |ranges| && last <= |text|
    requires i < |ranges| ==> last <= ranges[i].0
    ensures Join(SegmentsAfter(text, ranges, i, last, acc)) == Join(acc) + text[last..]
    decreases |ranges| - i
  {
    if i == |ranges| {
      if last < |text| {
        JoinAppend(acc, Segment(text[last..], false));
      } else {
        assert text[last..] == [];
      }
    } else {
      var r := ranges[i];
      var next := (if r.0 > last then acc + [Segment(text[last..r.0], false)] else acc) + [Segment(text[r.0..r.1], true)];
      JoinMatch(text, acc, last, r.0, r.1);
      SegmentsAfterJoin(text, ranges, i + 1, r.1, next);
      SliceSplit(text, last, r.1, Join(acc));
    }
  }

  /** The segments one match adds hold the text from the previous match's end to its own. */
  lemma JoinMatch(text: string, acc: seq<Segment>, last: nat, a: nat, b: nat)
    requires last <= a <= b <= |text|
    ensures Join((if a > last then acc + [Segment(text[last..a], false)] else acc) + [Segment(text[a..b], true)])
      == Join(acc) + text[last..b]
  {
    var before := if a > last then acc + [Segment(text[last..a], false)] else acc;
    if a > last {
      JoinAppend(acc, Segment(text[last..a], false));
    }
    JoinAppend(before, Segment(text[a..b], true));
    assert text[last..b] == text[last..a] + text[a..b];
  }

  lemma SliceSplit(s: string, a: nat, b: nat, prefix: string)
    requires a <= b <= |s|
    ensures prefix + s[a..b] + s[b..] == prefix + s[a..]
  {
    assert s[a..] == s[a..b] + s[b..];
  }

  /** The segments put back together are the text: nothing is lost or repeated. */
  lemma SegmentsJoin(text: string)
    ensures Join(Segments(text)) == text
  {
    var ranges := CodeRanges(text);
    CodeRangesOrdered(text);
    SegmentsAfterJoin(text, ranges, 0, 0, []);
    assert Join(Segments(text)) == Join([]) + text[0..];
    assert Join([]) == [];
    assert text[0..] == text;
  }

  /** A fenced block: at least six characters, opening and closing with "```". */
  predicate IsFenced(c: string) {
    |c| >= 6 && c[..3] == "```" && c[|c| - 3..] == "```"
  }

  /** Every code segment is a fenced block. */
  predicate CodeFenced(segs: seq<Segment>) {
    forall k :: 0 <= k < |segs| ==> segs[k].isCode ==> IsFenced(segs[k].content)
  }

  lemma CodeRangeFenced(text: string, r: (nat, nat))
    requires IsCodeRange(text, r)
    ensures IsFenced(text[r.0..r.1])
  {
    var c := text[r.0..r.1];
    assert c[..3] == text[r.0..r.0 + 3];
    assert c[|c| - 3..] == text[r.1 - 3..r.1];
  }

  /** A fenced block is its own trim. */
  lemma FencedTrimmed(c: string)
    requires IsFenced(c)
    ensures c != [] && IsTrimmed(c) && Trim(c) == c
  {
    assert c[0] == c[..3][0] == '`';
    assert c[|c| - 1] == c[|c| - 3..][2] == '`';
    TrimTrimmed(c);
  }

  lemma {:induction false} SegmentsAfterShape(text: string, ranges: seq<(nat, nat)>, i: nat, last: nat, acc: seq<Segment>)
    requires Ordered(text, ranges) && i <= |ranges| && last <= |text|
    requires i < |ranges| ==> last <= ranges[i].0
    requires forall k :: 0 <= k < |ranges| ==> IsCodeRange(text, ranges[k])
    ensures var r := SegmentsAfter(text, ranges, i, last, acc);
      && |acc| <= |r| && r[..|acc|] == acc
      && (CodeFenced(acc) ==> CodeFenced(r))
      && (i < |ranges| ==> exists k :: |acc| <= k < |r| && r[k].isCode)
    decreases |ranges| - i
  {
    if i < |ranges| {
      var r := ranges[i];
      var before := if r.0 > last then acc + [Segment(text[last..r.0], false)] else acc;
      var code := Segment(text[r.0..r.1], true);
      var next := before + [code];
      SegmentsAfterShape(text, ranges, i + 1, r.1, next);
      var res := SegmentsAfter(text, ranges, i, last, acc);
      assert res[..|next|] == next;
      assert res[..|acc|] == next[..|acc|];
      assert res[|next| - 1] == code;
      CodeRangeFenced(text, r);
      if CodeFenced(acc) {
        assert CodeFenced(next);
      }
    }
  }

  /** Every code segment is a fenced block, and a text with a code range has at least
      one code segment. */
  lemma SegmentsShape(text: string)
    ensures CodeFenced(Segments(text))
    ensures CodeRanges(text) != [] ==> exists k :: 0 <= k < |Segments(text)| && Segments(text)[k].isCode
  {
    CodeRangesOrdered(text);
    SegmentsAfterShape(text, CodeRanges(text), 0, 0, []);
  }

  /** Every code segment is the text of one of the code ranges. */
  predicate CodeIn(segs: seq<Segment>, text: string) {
    forall k :: 0 <= k < |segs| ==> segs[k].isCode ==> IsCodeBlock(text, segs[k].content)
  }

  lemma {:induction false} SegmentsAfterCode(text: string, ranges: seq<(nat, nat)>, i: nat, last: nat, acc: seq<Segment>)
    requires Ordered(text, ranges) && i <= |ranges| && last <= |text|
    requires i < |ranges| ==> last <= ranges[i].0
    requires forall k :: 0 <= k < |ranges| ==> ranges[k] in CodeRanges(text)
    requires CodeIn(acc, text)
    ensures CodeIn(SegmentsAfter(text, ranges, i, last, acc), text)
    decreases |ranges| - i
  {
    if i < |ranges| {
      var r := ranges[i];
      var before := if r.0 > last then acc + [Segment(text[last..r.0], false)] else acc;
      var next := before + [Segment(text[r.0..r.1], true)];
      assert IsCodeBlock(text, text[r.0..r.1]);
      assert CodeIn(next, text);
      SegmentsAfterCode(text, ranges, i + 1, r.1, next);
    } else if last < |text| {
      assert CodeIn(acc + [Segment(text[last..], false)], text);
    }
  }

  lemma {:induction false} SegmentsAfterHas(text: string, ranges: seq<(nat, nat)>, i: nat, last: nat, acc: seq<Segment>)
    requires Ordered(text, ranges) && i <= |ranges| && last <= |text|
    requires i < |ranges| ==> last <= ranges[i].0
    ensures forall x :: x in acc ==> x in SegmentsAfter(text, ranges, i, last, acc)
    ensures forall k :: i <= k < |ranges| ==>
      Segment(text[ranges[k].0..ranges[k].1], true) in SegmentsAfter(text, ranges, i, last, acc)
    decreases |ranges| - i
  {
    if i < |ranges| {
      var r := ranges[i];
      var before := if r.0 > last then acc + [Segment(text[last..r.0], false)] else acc;
      var next := before + [Segment(text[r.0..r.1], true)];
      SegmentsAfterHas(text, ranges, i + 1, r.1, next);
      assert Segment(text[r.0..r.1], true) in next;
      assert forall x :: x in acc ==> x in next;
    }
  }

  /** The code segments are exactly the code blocks of the text: each code segment is
      one, and each one is the content of a code segment. */
  lemma SegmentsCode(text: string)
    ensures CodeIn(Segments(text), text)
    ensures forall c :: IsCodeBlock(text, c) ==> Segment(c, true) in Segments(text)
  {
    var ranges := CodeRanges(text);
    CodeRangesOrdered(text);
    SegmentsAfterCode(text, ranges, 0, 0, []);
    SegmentsAfterHas(text, ranges, 0, 0, []);
    forall c | IsCodeBlock(text, c) ensures Segment(c, true) in Segments(text) {
      var r :| r in ranges && r.0 <= r.1 <= |text| && c == text[r.0..r.1];
      var k :| 0 <= k < |ranges| && ranges[k] == r;
    }
  }

  /** The segment loop of `chunkWithCodeBlockProtection`, over the matches of the code
      pattern in order. */
  method SplitSegments(text: string, ranges: seq<(nat, nat)>) returns (segments: seq<Segment>)
    requires Ordered(text, ranges)
    ensures segments == SegmentsAfter(text, ranges, 0, 0, [])
  {
    segments := [];
    var lastIndex: nat := 0;
    for i := 0 to |ranges|
      invariant lastIndex <= |text|
      invariant i < |ranges| ==> lastIndex <= ranges[i].0
      invariant SegmentsAfter(text, ranges, i, lastIndex, segments) == SegmentsAfter(text, ranges, 0, 0, [])
    {
      var r := ranges[i];
      if r.0 > lastIndex {
        segments := segments + [Segment(text[lastIndex..r.0], false)];
      }
      segments := segments + [Segment(text[r.0..r.1], true)];
      lastIndex := r.1;
    }
    if lastIndex < |text| {
      segments := segments + [Segment(text[lastIndex..], false)];
    }
  }

  // ---------------------------------------------------------------------------------
  // chunkWithCodeBlockProtection
  // ---------------------------------------------------------------------------------

  /** What emptying the buffer adds: nothing when it is blank, its trim when it fits,
      else the sentence chunks of its trim. */
  function Flush(buffer: string, chunkSize: nat, overlap: nat): seq<string>
    requires ValidParams(chunkSize, overlap)
  {
    if |Trim(buffer)| > 0 then
      if |buffer| <= chunkSize then [Trim(buffer)] else SentenceChunks(Trim(buffer), chunkSize, overlap)
    else []
  }

  /** The buffer loop from segment `i` on, with buffer `buffer` and chunks `acc`. */
  function ProtectAfter(segs: seq<Segment>, chunkSize: nat, overlap: nat, i: nat, buffer: string, acc: seq<string>): seq<string>
    requires ValidParams(chunkSize, overlap) && i <= |segs|
    decreases |segs| - i, 1
  {
    if i < |segs| then ProtectSegment(segs, chunkSize, overlap, i, buffer, acc)
    else acc + Flush(buffer, chunkSize, overlap)
  }

  /** One segment of the buffer loop: text joins the buffer; a code block joins it too
      when the two fit together, else the buffer is flushed and the block becomes a
      chunk of its own, whatever its length. */
  function ProtectSegment(segs: seq<Segment>, chunkSize: nat, overlap: nat, i: nat, buffer: string, acc: seq<string>): seq<string>
    requires ValidParams(chunkSize, overlap) && i < |segs|
    decreases |segs| - i, 0
  {
    var seg := segs[i];
    if !seg.isCode then ProtectAfter(segs, chunkSize, overlap, i + 1, buffer + seg.content, acc)
    else if |buffer + seg.content| <= chunkSize then ProtectAfter(segs, chunkSize, overlap, i + 1, buffer + seg.content, acc)
    else ProtectAfter(segs, chunkSize, overlap, i + 1, "", acc + Flush(buffer, chunkSize, overlap) + [Trim(seg.content)])
  }

  /** The chunks of `chunkWithCodeBlockProtection(text, chunkSize, overlap)`. */
  function ProtectedChunks(text: string, chunkSize: nat, overlap: nat): seq<string>
    requires ValidParams(chunkSize, overlap)
  {
    if CodeRanges(text) == [] then SentenceChunks(text, chunkSize, overlap)
    else ProtectAfter(Segments(text), chunkSize, overlap, 0, "", [])
  }

  /** The two flushes of the buffer loop. */
  method FlushBuffer(buffer: string, chunkSize: nat, overlap: nat) returns (chunks: seq<string>)
    requires ValidParams(chunkSize, overlap)
    ensures chunks == Flush(buffer, chunkSize, overlap)
  {
    chunks := [];
    var trimmed := Trim(buffer);
    if |trimmed| > 0 {
      if |buffer| <= chunkSize {
        chunks := [trimmed];
      } else {
        chunks := SentenceBoundaryChunk(trimmed, chunkSize, overlap);
      }
    }
  }

  /** chunkWithCodeBlockProtection */
  method ChunkWithCodeBlockProtection(text: string, chunkSize: nat, overlap: nat) returns (chunks: seq<string>)
    requires ValidParams(chunkSize, overlap)
    ensures chunks == ProtectedChunks(text, chunkSize, overlap)
  {
    var ranges := FindCodeBlockRanges(text);
    if |ranges| == 0 {
      chunks := SentenceBoundaryChunk(text, chunkSize, overlap);
      return;
    }
    CodeRangesOrdered(text);
    var segments := SplitSegments(text, ranges);
    chunks := [];
    var buffer := "";
    for i := 0 to |segments|
      invariant ProtectAfter(segments, chunkSize, overlap, i, buffer, chunks) == ProtectedChunks(text, chunkSize, overlap)
    {
      var seg := segments[i];
      if seg.isCode {
        var combined := if |buffer| > 0 then buffer + seg.content else seg.content;
        assert combined == buffer + seg.content;
        if |combined| <= chunkSize {
          buffer := combined;
        } else {
          var flushed := FlushBuffer(buffer, chunkSize, overlap);
          chunks := chunks + flushed + [Trim(seg.content)];
          buffer := "";
        }
      } else {
        buffer := buffer + seg.content;
      }
    }
    var flushed := FlushBuffer(buffer, chunkSize, overlap);
    chunks := chunks + flushed;
  }

  // ---------------------------------------------------------------------------------
  // Properties of the protected chunks
  // ---------------------------------------------------------------------------------

  /** A chunk as `chunkText` emits it in the long case: non-empty, trimmed, and within
      `chunkSize` unless it is one of the code blocks of `text`, kept whole. */
  predicate GoodChunk(c: string, chunkSize: nat, text: string) {
    c != [] && IsTrimmed(c) && (|c| <= chunkSize || IsCodeBlock(text, c))
  }

  predicate AllGood(chunks: seq<string>, chunkSize: nat, text: string) {
    forall k :: 0 <= k < |chunks| ==> GoodChunk(chunks[k], chunkSize, text)
  }

  lemma AllGoodConcat(a: seq<string>, b: seq<string>, chunkSize: nat, text: string)
    requires AllGood(a, chunkSize, text) && AllGood(b, chunkSize, text)
    ensures AllGood(a + b, chunkSize, text)
  {
  }

  /** A code block is a fenced block, so it is its own trim. */
  lemma CodeBlockFenced(text: string, c: string)
    requires IsCodeBlock(text, c)
    ensures IsFenced(c) && c != [] && IsTrimmed(c) && Trim(c) == c
  {
    var r :| r in CodeRanges(text) && r.0 <= r.1 <= |text| && c == text[r.0..r.1];
    CodeRangesFromSpec(text, 0);
    CodeRangeFenced(text, r);
    FencedTrimmed(c);
  }

  /** A flush emits chunks that are non-empty, trimmed and within `chunkSize`, and at
      least one when the buffer is not blank. */
  lemma FlushGood(buffer: string, chunkSize: nat, overlap: nat)
    requires ValidParams(chunkSize, overlap)
    ensures forall c :: c in Flush(buffer, chunkSize, overlap) ==> c != [] && IsTrimmed(c) && |c| <= chunkSize
    ensures Flush(buffer, chunkSize, overlap) != [] <==> !AllSpace(buffer)
  {
    var t := Trim(buffer);
    TrimEmpty(buffer);
    TrimTrimmed(buffer);
    if |t| > 0 && |buffer| > chunkSize {
      SentenceChunksShape(t, chunkSize, overlap);
      SentenceChunksExist(t, chunkSize, overlap);
    }
  }

  lemma FlushAllGood(buffer: string, chunkSize: nat, overlap: nat, text: string)
    requires ValidParams(chunkSize, overlap)
    ensures AllGood(Flush(buffer, chunkSize, overlap), chunkSize, text)
  {
    FlushGood(buffer, chunkSize, overlap);
  }

  /** The chunk the buffer loop makes of an oversized code segment, appended to good
      chunks, leaves them good. */
  lemma CodeChunkGood(acc: seq<string>, c: string, chunkSize: nat, text: string)
    requires AllGood(acc, chunkSize, text) && IsCodeBlock(text, c)
    ensures AllGood(acc + [Trim(c)], chunkSize, text)
  {
    CodeBlockFenced(text, c);
  }

  lemma {:induction false} ProtectAfterGood(segs: seq<Segment>, chunkSize: nat, overlap: nat, i: nat, buffer: string, acc: seq<string>, text: string)
    requires ValidParams(chunkSize, overlap) && i <= |segs|
    requires CodeIn(segs, text) && AllGood(acc, chunkSize, text)
    ensures AllGood(ProtectAfter(segs, chunkSize, overlap, i, buffer, acc), chunkSize, text)
    decreases |segs| - i
  {
    var flushed := Flush(buffer, chunkSize, overlap);
    if i < |segs| {
      var seg := segs[i];
      assert ProtectAfter(segs, chunkSize, overlap, i, buffer, acc) == ProtectSegment(segs, chunkSize, overlap, i, buffer, acc);
      if !seg.isCode || |buffer + seg.content| <= chunkSize {
        ProtectAfterGood(segs, chunkSize, overlap, i + 1, buffer + seg.content, acc, text);
      } else {
        FlushAllGood(buffer, chunkSize, overlap, text);
        AllGoodConcat(acc, flushed, chunkSize, text);
        CodeChunkGood(acc + flushed, seg.content, chunkSize, text);
        ProtectAfterGood(segs, chunkSize, overlap, i + 1, "", acc + flushed + [Trim(seg.content)], text);
      }
    } else {
      FlushAllGood(buffer, chunkSize, overlap, text);
      AllGoodConcat(acc, flushed, chunkSize, text);
    }
  }

  lemma {:induction false} ProtectAfterExist(segs: seq<Segment>, chunkSize: nat, overlap: nat, i: nat, buffer: string, acc: seq<string>)
    requires ValidParams(chunkSize, overlap) && i <= |segs| && CodeFenced(segs)
    requires acc != [] || !AllSpace(buffer) || exists k :: i <= k < |segs| && segs[k].isCode
    ensures ProtectAfter(segs, chunkSize, overlap, i, buffer, acc) != []
    decreases |segs| - i
  {
    if i < |segs| {
      var seg := segs[i];
      assert ProtectAfter(segs, chunkSize, overlap, i, buffer, acc) == ProtectSegment(segs, chunkSize, overlap, i, buffer, acc);
      AllSpaceAppend(buffer, seg.content);
      if seg.isCode {
        FencedTrimmed(seg.content);
        assert !IsSpace(seg.content[0]);
      }
      if !seg.isCode || |buffer + seg.content| <= chunkSize {
        ProtectAfterExist(segs, chunkSize, overlap, i + 1, buffer + seg.content, acc);
      } else {
        ProtectAfterExist(segs, chunkSize, overlap, i + 1, "", acc + Flush(buffer, chunkSize, overlap) + [Trim(seg.content)]);
      }
    } else {
      FlushGood(buffer, chunkSize, overlap);
    }
  }

  /** Every chunk of `chunkWithCodeBlockProtection` on a trimmed text is non-empty,
      trimmed, and within `chunkSize` unless it is one of the text's code blocks, kept
      whole; and a text that is not blank yields at least one chunk. */
  lemma ProtectedChunksGood(text: string, chunkSize: nat, overlap: nat)
    requires ValidParams(chunkSize, overlap) && IsTrimmed(text)
    ensures AllGood(ProtectedChunks(text, chunkSize, overlap), chunkSize, text)
    ensures !AllSpace(text) ==> ProtectedChunks(text, chunkSize, overlap) != []
  {
    if CodeRanges(text) == [] {
      SentenceChunksShape(text, chunkSize, overlap);
      SentenceChunksExist(text, chunkSize, overlap);
    } else {
      SegmentsShape(text);
      SegmentsCode(text);
      ProtectAfterGood(Segments(text), chunkSize, overlap, 0, "", [], text);
      ProtectAfterExist(Segments(text), chunkSize, overlap, 0, "", []);
    }
  }

  /** The buffer loop only appends, and every code segment longer than `chunkSize` from
      segment `i` on becomes a chunk of its own. */
  lemma {:induction false} ProtectAfterKeeps(segs: seq<Segment>, chunkSize: nat, overlap: nat, i: nat, buffer: string, acc: seq<string>)
    requires ValidParams(chunkSize, overlap) && i <= |segs| && CodeFenced(segs)
    ensures forall x :: x in acc ==> x in ProtectAfter(segs, chunkSize, overlap, i, buffer, acc)
    ensures forall k :: i <= k < |segs| && segs[k].isCode && |segs[k].content| > chunkSize ==>
      segs[k].content in ProtectAfter(segs, chunkSize, overlap, i, buffer, acc)
    decreases |segs| - i
  {
    if i < |segs| {
      var seg := segs[i];
      assert ProtectAfter(segs, chunkSize, overlap, i, buffer, acc) == ProtectSegment(segs, chunkSize, overlap, i, buffer, acc);
      if !seg.isCode || |buffer + seg.content| <= chunkSize {
        ProtectAfterKeeps(segs, chunkSize, overlap, i + 1, buffer + seg.content, acc);
      } else {
        var next := acc + Flush(buffer, chunkSize, overlap) + [Trim(seg.content)];
        ProtectAfterKeeps(segs, chunkSize, overlap, i + 1, "", next);
        FencedTrimmed(seg.content);
        assert seg.content in next;
      }
    }
  }

  /** `chunkWithCodeBlockProtection` emits every code block of the text that is longer
      than `chunkSize` as a chunk of its own, whole. */
  lemma ProtectedChunksCode(text: string, chunkSize: nat, overlap: nat)
    requires ValidParams(chunkSize, overlap)
    ensures forall c :: IsCodeBlock(text, c) && |c| > chunkSize ==> c in ProtectedChunks(text, chunkSize, overlap)
  {
    if CodeRanges(text) != [] {
      SegmentsShape(text);
      SegmentsCode(text);
      ProtectAfterKeeps(Segments(text), chunkSize, overlap, 0, "", []);
      var segs := Segments(text);
      forall c | IsCodeBlock(text, c) && |c| > chunkSize ensures c in ProtectedChunks(text, chunkSize, overlap) {
        var k :| 0 <= k < |segs| && segs[k] == Segment(c, true);
      }
    }
  }

  // ---------------------------------------------------------------------------------
  // chunkText
  // ---------------------------------------------------------------------------------

  /** What flushing the merge buffer adds: the buffer when it fits, else its
      code-protected chunks. */
  function SectionFlush(buffer: string, chunkSize: nat, overlap: nat): seq<string>
    requires ValidParams(chunkSize, overlap)
  {
    if |buffer| <= chunkSize then [buffer] else ProtectedChunks(buffer, chunkSize, overlap)
  }

  /** The merge loop from section `i` on, with buffer `buffer` and chunks `acc`. */
  function MergeAfter(sections: seq<string>, chunkSize: nat, overlap: nat, i: nat, buffer: string, acc: seq<string>): seq<string>
    requires ValidParams(chunkSize, overlap) && i <= |sections|
    decreases |sections| - i, 1
  {
    if i < |sections| then MergeSection(sections, chunkSize, overlap, i, buffer, acc)
    else if |buffer| > 0 then acc + SectionFlush(buffer, chunkSize, overlap)
    else acc
  }

  /** One section of the merge loop: it starts the buffer when the buffer is empty, is
      appended after a blank line when the result still fits, and otherwise the buffer
      is flushed and the section starts the next one. */
  function MergeSection(sections: seq<string>, chunkSize: nat, overlap: nat, i: nat, buffer: string, acc: seq<string>): seq<string>
    requires ValidParams(chunkSize, overlap) && i < |sections|
    decreases |sections| - i, 0
  {
    var section := sections[i];
    if |buffer| == 0 then MergeAfter(sections, chunkSize, overlap, i + 1, section, acc)
    else if |buffer + "\n\n" + section| <= chunkSize then
      MergeAfter(sections, chunkSize, overlap, i + 1, buffer + "\n\n" + section, acc)
    else MergeAfter(sections, chunkSize, overlap, i + 1, section, acc + SectionFlush(buffer, chunkSize, overlap))
  }

  /** The chunks of `chunkText(text, chunkSize, overlap)`. */
  function Chunks(text: string, chunkSize: nat, overlap: nat): seq<string>
    requires ValidParams(chunkSize, overlap)
  {
    CleanedChunks(Clean(text), chunkSize, overlap)
  }

  /** What `chunkText` does once the text is cleaned: the cleaned text alone when it
      fits; else its code-protected chunks when it has at most one section; else the
      merged sections, or the cleaned text alone when merging yields nothing. */
  function CleanedChunks(cleaned: string, chunkSize: nat, overlap: nat): seq<string>
    requires ValidParams(chunkSize, overlap)
  {
    if |cleaned| <= chunkSize then [cleaned]
    else
      var sections := SplitSections(cleaned);
      if |sections| <= 1 then ProtectedChunks(cleaned, chunkSize, overlap)
      else
        var merged := MergeAfter(sections, chunkSize, overlap, 0, "", []);
        if |merged| > 0 then merged else [cleaned]
  }

  /** The two flushes of the merge loop. */
  method FlushSection(buffer: string, chunkSize: nat, overlap: nat) returns (chunks: seq<string>)
    requires ValidParams(chunkSize, overlap)
    ensures chunks == SectionFlush(buffer, chunkSize, overlap)
  {
    if |buffer| <= chunkSize {
      chunks := [buffer];
    } else {
      chunks := ChunkWithCodeBlockProtection(buffer, chunkSize, overlap);
    }
  }

  /** chunkText */
  method ChunkText(text: string, chunkSize: nat, overlap: nat) returns (chunks: seq<string>)
    requires ValidParams(chunkSize, overlap)
    ensures chunks == Chunks(text, chunkSize, overlap)
  {
    var cleaned := Clean(text);
    if |cleaned| <= chunkSize {
      return [cleaned];
    }
    var sections := SplitByHeadings(cleaned);
    if |sections| <= 1 {
      chunks := ChunkWithCodeBlockProtection(cleaned, chunkSize, overlap);
      return;
    }
    chunks := [];
    var buffer := "";
    for i := 0 to |sections|
      invariant MergeAfter(sections, chunkSize, overlap, i, buffer, chunks) == MergeAfter(sections, chunkSize, overlap, 0, "", [])
    {
      var section := sections[i];
      if |buffer| == 0 {
        buffer := section;
      } else if |buffer + "\n\n" + section| <= chunkSize {
        buffer := buffer + "\n\n" + section;
      } else {
        var flushed := FlushSection(buffer, chunkSize, overlap);
        chunks := chunks + flushed;
        buffer := section;
      }
    }
    if |buffer| > 0 {
      var flushed := FlushSection(buffer, chunkSize, overlap);
      chunks := chunks + flushed;
    }
    if |chunks| == 0 {
      chunks := [cleaned];
    }
  }

  // ---------------------------------------------------------------------------------
  // Properties of chunkText
  // ---------------------------------------------------------------------------------

  /** Non-empty and trimmed, as every section of `splitByHeadings` is. */
  predicate Solid(s: string) {
    s != [] && IsTrimmed(s)
  }

  /** Two solid sections joined by a blank line make a solid buffer. */
  lemma JoinSolid(a: string, b: string)
    requires Solid(a) && Solid(b)
    ensures Solid(a + "\n\n" + b)
  {
    var j := a + "\n\n" + b;
    assert j[0] == a[0];
    assert j[|j| - 1] == b[|b| - 1];
  }

  /** Every code block of `a` is a code block of `b`. */
  ghost predicate BlocksIn(a: string, b: string) {
    forall c :: IsCodeBlock(a, c) ==> IsCodeBlock(b, c)
  }

  /** Flushing a solid buffer adds at least one chunk, and only good ones with respect to
      any text that holds the buffer's code blocks when the buffer is too long. */
  lemma SectionFlushGood(buffer: string, chunkSize: nat, overlap: nat, text: string)
    requires ValidParams(chunkSize, overlap) && Solid(buffer)
    requires |buffer| > chunkSize ==> BlocksIn(buffer, text)
    ensures AllGood(SectionFlush(buffer, chunkSize, overlap), chunkSize, text)
    ensures SectionFlush(buffer, chunkSize, overlap) != []
  {
    if |buffer| > chunkSize {
      assert !IsSpace(buffer[0]);
      ProtectedChunksGood(buffer, chunkSize, overlap);
    }
  }

  lemma {:induction false} MergeAfterGood(sections: seq<string>, chunkSize: nat, overlap: nat, i: nat, buffer: string, acc: seq<string>, text: string)
    requires ValidParams(chunkSize, overlap) && i <= |sections|
    requires forall k :: 0 <= k < |sections| ==> Solid(sections[k]) && BlocksIn(sections[k], text)
    requires buffer == [] || Solid(buffer)
    requires |buffer| <= chunkSize || BlocksIn(buffer, text)
    requires AllGood(acc, chunkSize, text)
    ensures AllGood(MergeAfter(sections, chunkSize, overlap, i, buffer, acc), chunkSize, text)
    ensures acc != [] || buffer != [] || i < |sections| ==> MergeAfter(sections, chunkSize, overlap, i, buffer, acc) != []
    decreases |sections| - i
  {
    if i < |sections| {
      var section := sections[i];
      assert MergeAfter(sections, chunkSize, overlap, i, buffer, acc) == MergeSection(sections, chunkSize, overlap, i, buffer, acc);
      if |buffer| == 0 {
        MergeAfterGood(sections, chunkSize, overlap, i + 1, section, acc, text);
      } else if |buffer + "\n\n" + section| <= chunkSize {
        JoinSolid(buffer, section);
        MergeAfterGood(sections, chunkSize, overlap, i + 1, buffer + "\n\n" + section, acc, text);
      } else {
        SectionFlushGood(buffer, chunkSize, overlap, text);
        AllGoodConcat(acc, SectionFlush(buffer, chunkSize, overlap), chunkSize, text);
        MergeAfterGood(sections, chunkSize, overlap, i + 1, section, acc + SectionFlush(buffer, chunkSize, overlap), text);
      }
    } else if |buffer| > 0 {
      SectionFlushGood(buffer, chunkSize, overlap, text);
      AllGoodConcat(acc, SectionFlush(buffer, chunkSize, overlap), chunkSize, text);
    }
  }

  /** The sections of `splitByHeadings` are solid and hold only code blocks of the text. */
  lemma SplitSectionsGood(s: string)
    requires IsTrimmed(s) && s != []
    ensures forall k :: 0 <= k < |SplitSections(s)| ==> Solid(SplitSections(s)[k]) && BlocksIn(SplitSections(s)[k], s)
  {
    if SplitPositions(s) != [] {
      SectionsShape(s);
    }
    forall k, c | 0 <= k < |SplitSections(s)| && IsCodeBlock(SplitSections(s)[k], c) ensures IsCodeBlock(s, c) {
      SectionBlocksOfText(s, k, c);
    }
  }

  /** `chunkText` never returns an empty list. Blank input gives the single chunk "";
      input whose cleaned form fits gives that cleaned form alone. Otherwise every chunk
      is non-empty and trimmed, and longer than `chunkSize` only when it is one of the
      code blocks of the cleaned text, kept whole. */
  lemma ChunksShape(text: string, chunkSize: nat, overlap: nat)
    requires ValidParams(chunkSize, overlap)
    ensures Chunks(text, chunkSize, overlap) != []
    ensures AllSpace(text) ==> Chunks(text, chunkSize, overlap) == [""]
    ensures |Clean(text)| <= chunkSize ==> Chunks(text, chunkSize, overlap) == [Clean(text)]
    ensures |Clean(text)| > chunkSize ==> AllGood(Chunks(text, chunkSize, overlap), chunkSize, Clean(text))
  {
    var cleaned := Clean(text);
    if |cleaned| > chunkSize {
      assert !IsSpace(cleaned[0]);
      var sections := SplitSections(cleaned);
      if |sections| <= 1 {
        ProtectedChunksGood(cleaned, chunkSize, overlap);
      } else {
        SplitSectionsGood(cleaned);
        MergeAfterGood(sections, chunkSize, overlap, 0, "", [], cleaned);
      }
    }
  }

  /** Every chunk `chunkText` returns is trimmed and fits in `chunkSize`, unless it is a
      code block of the cleaned text emitted whole. */
  lemma ChunksFitOrCode(text: string, chunkSize: nat, overlap: nat)
    requires ValidParams(chunkSize, overlap)
    ensures forall c :: c in Chunks(text, chunkSize, overlap) ==>
      IsTrimmed(c) && (|c| <= chunkSize || IsCodeBlock(Clean(text), c))
  {
    ChunksShape(text, chunkSize, overlap);
  }

  /** The merge loop only appends, and it emits the code-protected chunks of a buffer
      longer than `chunkSize`. */
  lemma {:induction false} MergeAfterKeeps(sections: seq<string>, chunkSize: nat, overlap: nat, i: nat, buffer: string, acc: seq<string>)
    requires ValidParams(chunkSize, overlap) && i <= |sections|
    ensures forall x :: x in acc ==> x in MergeAfter(sections, chunkSize, overlap, i, buffer, acc)
    ensures |buffer| > chunkSize ==> forall x :: x in ProtectedChunks(buffer, chunkSize, overlap) ==>
      x in MergeAfter(sections, chunkSize, overlap, i, buffer, acc)
    decreases |sections| - i
  {
    if i < |sections| {
      var section := sections[i];
      assert MergeAfter(sections, chunkSize, overlap, i, buffer, acc) == MergeSection(sections, chunkSize, overlap, i, buffer, acc);
      if |buffer| == 0 {
        MergeAfterKeeps(sections, chunkSize, overlap, i + 1, section, acc);
      } else if |buffer + "\n\n" + section| <= chunkSize {
        MergeAfterKeeps(sections, chunkSize, overlap, i + 1, buffer + "\n\n" + section, acc);
      } else {
        MergeAfterKeeps(sections, chunkSize, overlap, i + 1, section, acc + SectionFlush(buffer, chunkSize, overlap));
      }
    }
  }

  /** The code-protected chunks of every section longer than `chunkSize`, from section
      `i` on, are among the chunks of the merge loop. */
  lemma {:induction false} MergeAfterSection(sections: seq<string>, chunkSize: nat, overlap: nat, i: nat, buffer: string, acc: seq<string>, k: nat)
    requires ValidParams(chunkSize, overlap) && i <= k < |sections| && |sections[k]| > chunkSize
    ensures forall x :: x in ProtectedChunks(sections[k], chunkSize, overlap) ==>
      x in MergeAfter(sections, chunkSize, overlap, i, buffer, acc)
    decreases |sections| - i
  {
    var section := sections[i];
    assert MergeAfter(sections, chunkSize, overlap, i, buffer, acc) == MergeSection(sections, chunkSize, overlap, i, buffer, acc);
    var next := if |buffer| == 0 then acc else acc + SectionFlush(buffer, chunkSize, overlap);
    if i == k {
      assert MergeSection(sections, chunkSize, overlap, i, buffer, acc) == MergeAfter(sections, chunkSize, overlap, i + 1, section, next);
      MergeAfterKeeps(sections, chunkSize, overlap, i + 1, section, next);
    } else if |buffer| == 0 {
      MergeAfterSection(sections, chunkSize, overlap, i + 1, section, acc, k);
    } else if |buffer + "\n\n" + section| <= chunkSize {
      MergeAfterSection(sections, chunkSize, overlap, i + 1, buffer + "\n\n" + section, acc, k);
    } else {
      MergeAfterSection(sections, chunkSize, overlap, i + 1, section, next, k);
    }
  }

  /** A code block is no longer than the text it is a block of. */
  lemma CodeBlockLength(text: string, c: string)
    requires IsCodeBlock(text, c)
    ensures |c| <= |text|
  {
  }

  /** The code block of one code range of a cleaned text, when longer than `chunkSize`,
      is one of the chunks. */
  lemma ChunkOfBlock(s: string, chunkSize: nat, overlap: nat, r: (nat, nat))
    requires ValidParams(chunkSize, overlap)
    requires r in CodeRanges(s) && r.0 <= r.1 <= |s| && r.1 - r.0 > chunkSize
    ensures s[r.0..r.1] in CleanedChunks(s, chunkSize, overlap)
  {
    if |SplitSections(s)| <= 1 {
      assert IsCodeBlock(s, s[r.0..r.1]);
      ProtectedChunksCode(s, chunkSize, overlap);
    } else {
      BlockInMerge(s, chunkSize, overlap, r);
    }
  }

  /** With several sections, the merge emits the block of a long code range whole. */
  lemma BlockInMerge(s: string, chunkSize: nat, overlap: nat, r: (nat, nat))
    requires ValidParams(chunkSize, overlap) && |SplitSections(s)| > 1
    requires r in CodeRanges(s) && r.0 <= r.1 <= |s| && r.1 - r.0 > chunkSize
    ensures s[r.0..r.1] in MergeAfter(SplitSections(s), chunkSize, overlap, 0, "", [])
  {
    var j := SectionOfBlock(s, r);
    SectionBlockInMerge(SplitSections(s), chunkSize, overlap, j, s[r.0..r.1]);
  }

  /** A code block of one section, longer than `chunkSize`, is emitted whole by the merge. */
  lemma SectionBlockInMerge(sections: seq<string>, chunkSize: nat, overlap: nat, j: nat, c: string)
    requires ValidParams(chunkSize, overlap) && j < |sections|
    requires IsCodeBlock(sections[j], c) && |c| > chunkSize
    ensures c in MergeAfter(sections, chunkSize, overlap, 0, "", [])
  {
    CodeBlockLength(sections[j], c);
    ProtectedChunksCode(sections[j], chunkSize, overlap);
    MergeAfterSection(sections, chunkSize, overlap, 0, "", [], j);
  }

  /** `chunkText` keeps every code block of the cleaned text that is longer than
      `chunkSize` whole: it is one of the chunks. */
  lemma ChunksCode(text: string, chunkSize: nat, overlap: nat)
    requires ValidParams(chunkSize, overlap)
    ensures forall c :: IsCodeBlock(Clean(text), c) && |c| > chunkSize ==> c in Chunks(text, chunkSize, overlap)
  {
    var s := Clean(text);
    forall c | IsCodeBlock(s, c) && |c| > chunkSize ensures c in CleanedChunks(s, chunkSize, overlap) {
      var r :| r in CodeRanges(s) && r.0 <= r.1 <= |s| && c == s[r.0..r.1];
      ChunkOfBlock(s, chunkSize, overlap, r);
    }
  }
}
