/**
  The scanning half of the document chunker (lib/chunker.ts): the newline clean-up that
  `chunkText` applies first, the code-fence ranges found by /```[\s\S]*?```/g, and the
  split of a document at Markdown headings (/^#{1,6}\s/gm) that lie outside those ranges.
*/
module ChunkerScan {
  import opened Text
  import opened Wrappers

  // ---------------------------------------------------------------------------------
  // Cleaning: text.replace(/\n{3,}/g, "\n\n").trim()
  // ---------------------------------------------------------------------------------

  /** Length of the run of line feeds at the front of `s`. */
  function NewlineRun(s: string): (n: nat)
    ensures n <= |s|
    ensures forall k :: 0 <= k < n ==> s[k] == '\n'
    ensures n < |s| ==> s[n] != '\n'
  {
    if s == [] || s[0] != '\n' then 0 else 1 + NewlineRun(s[1..])
  }

  /** `s.replace(/\n{3,}/g, "\n\n")`: the regular expression scans left to right and
      replaces each maximal run of three or more line feeds by exactly two. */
  function CollapseNewlines(s: string): (r: string)
    ensures NoTripleNewline(r)
    ensures NewlineRun(r) == if NewlineRun(s) >= 3 then 2 else NewlineRun(s)
    ensures |r| <= |s|
    decreases |s|
  {
    if s == [] then []
    else
      var n := NewlineRun(s);
      if n >= 3 then
        var rest := CollapseNewlines(s[n..]);
        assert ("\n\n" + rest)[1..] == "\n" + rest;
        assert ("\n" + rest)[1..] == rest;
        NoTripleCons('\n', rest);
        NoTripleCons('\n', "\n" + rest);
        assert "\n\n" + rest == ['\n'] + ("\n" + rest);
        "\n\n" + rest
      else
        var rest := CollapseNewlines(s[1..]);
        assert ([s[0]] + rest)[1..] == rest;
        NoTripleCons(s[0], rest);
        [s[0]] + rest
  }

  /** A character put in front of text without a run of three line feeds creates none,
      unless it is a line feed before two more. */
  lemma NoTripleCons(c: char, t: string)
    requires NoTripleNewline(t)
    requires c == '\n' ==> NewlineRun(t) < 2
    ensures NoTripleNewline([c] + t)
  {
    var u := [c] + t;
    forall k | 0 <= k < |u| - 2
      ensures !(u[k] == '\n' && u[k + 1] == '\n' && u[k + 2] == '\n')
    {
      if k > 0 {
        assert u[k] == t[k - 1] && u[k + 1] == t[k] && u[k + 2] == t[k + 1];
      }
    }
  }

  /** Text that already has no run of three line feeds is left alone. */
  lemma {:induction false} CollapseNewlinesIdentity(s: string)
    requires NoTripleNewline(s)
    ensures CollapseNewlines(s) == s
    decreases |s|
  {
    if s != [] {
      assert NewlineRun(s) < 3 by {
        if |s| >= 3 {
          assert !(s[0] == '\n' && s[1] == '\n' && s[2] == '\n');
        }
      }
      NoTripleNewlineSlice(s, 1, |s|);
      CollapseNewlinesIdentity(s[1..]);
    }
  }

  /** The characters of `s` other than line feeds, in order. */
  function WithoutNewlines(s: string): (r: string)
    ensures |r| <= |s|
    ensures forall k :: 0 <= k < |r| ==> r[k] != '\n'
  {
    if s == [] then []
    else if s[0] == '\n' then WithoutNewlines(s[1..])
    else [s[0]] + WithoutNewlines(s[1..])
  }

  /** Line feeds at the front of `s` do not show once line feeds are removed. */
  lemma {:induction false} WithoutLeadingNewlines(s: string, n: nat)
    requires n <= |s|
    requires forall k :: 0 <= k < n ==> s[k] == '\n'
    ensures WithoutNewlines(s) == WithoutNewlines(s[n..])
    decreases n
  {
    if n > 0 {
      WithoutLeadingNewlines(s[1..], n - 1);
      assert s[1..][n - 1..] == s[n..];
    }
  }

  /** Collapsing removes line feeds and nothing else: every other character is kept, in
      order. */
  lemma {:induction false} CollapseNewlinesKeeps(s: string)
    ensures WithoutNewlines(CollapseNewlines(s)) == WithoutNewlines(s)
    decreases |s|
  {
    if s != [] {
      var n := NewlineRun(s);
      if n >= 3 {
        var rest := CollapseNewlines(s[n..]);
        CollapseNewlinesKeeps(s[n..]);
        WithoutLeadingNewlines(s, n);
        WithoutLeadingNewlines("\n\n" + rest, 2);
        assert ("\n\n" + rest)[2..] == rest;
      } else {
        CollapseNewlinesKeeps(s[1..]);
        assert ([s[0]] + CollapseNewlines(s[1..]))[1..] == CollapseNewlines(s[1..]);
      }
    }
  }

  /** Collapsing only ever removes line feeds, so it keeps every other character. */
  lemma {:induction false} CollapseNewlinesAllSpace(s: string)
    ensures AllSpace(CollapseNewlines(s)) <==> AllSpace(s)
    decreases |s|
  {
    if s != [] {
      var n := NewlineRun(s);
      if n >= 3 {
        CollapseNewlinesAllSpace(s[n..]);
        assert s == s[..n] + s[n..];
        AllSpaceAppend(s[..n], s[n..]);
        AllSpaceAppend("\n\n", CollapseNewlines(s[n..]));
      } else {
        CollapseNewlinesAllSpace(s[1..]);
        assert s == [s[0]] + s[1..];
        AllSpaceAppend([s[0]], s[1..]);
        AllSpaceAppend([s[0]], CollapseNewlines(s[1..]));
      }
    }
  }

  /** The text `chunkText` works on: runs of 3+ line feeds collapsed, ends trimmed. */
  function Clean(text: string): (r: string)
    ensures IsTrimmed(r)
    ensures NoTripleNewline(r)
    ensures r == [] <==> AllSpace(text)
  {
    var collapsed := CollapseNewlines(text);
    CollapseNewlinesAllSpace(text);
    TrimTrimmed(collapsed);
    TrimEmpty(collapsed);
    NoTripleNewlineSlice(collapsed, TrimStart(collapsed), TrimEnd(collapsed));
    Trim(collapsed)
  }

  /** Cleaning is idempotent. */
  lemma CleanIdempotent(text: string)
    ensures Clean(Clean(text)) == Clean(text)
  {
    CollapseNewlinesIdentity(Clean(text));
  }

  // ---------------------------------------------------------------------------------
  // Code ranges: /```[\s\S]*?```/g
  // ---------------------------------------------------------------------------------

  /** A triple backtick starts at index `i`. */
  predicate FenceAt(s: string, i: int) {
    OccursAt(s, "```", i)
  }

  /** The first fence at or after `from`. */
  function FirstFenceFrom(s: string, from: nat): (r: Option<nat>)
    ensures r.Some? ==> from <= r.value && FenceAt(s, r.value)
    ensures forall j :: from <= j && (r.None? || j < r.value) ==> !FenceAt(s, j)
    decreases |s| - from
  {
    if from + 3 > |s| then None
    else if FenceAt(s, from) then Some(from)
    else FirstFenceFrom(s, from + 1)
  }

  /** `[s, e)` is a fenced block: it opens and closes with a fence and, the pattern
      being lazy, contains no other fence start between the two. */
  predicate IsCodeRange(text: string, r: (nat, nat)) {
    && r.0 + 6 <= r.1 <= |text|
    && FenceAt(text, r.0) && FenceAt(text, r.1 - 3)
    && forall j :: r.0 + 3 <= j < r.1 - 3 ==> !FenceAt(text, j)
  }

  /** The end of the match of the lazy pattern /```[\s\S]*?```/ attempted at `i`, if any. */
  function CodeMatchAt(s: string, i: nat): (r: Option<nat>)
    ensures r.Some? ==> i + 6 <= r.value <= |s|
  {
    if !FenceAt(s, i) then None
    else match FirstFenceFrom(s, i + 3)
      case Some(j) => Some(j + 3)
      case None => None
  }

  /** The lazy pattern matches at `i` exactly when a fence starts at `i` and another
      follows it; the match is then a code range, ending at the nearest closing fence. */
  lemma CodeMatchAtSpec(s: string, i: nat)
    ensures CodeMatchAt(s, i).Some? ==> IsCodeRange(s, (i, CodeMatchAt(s, i).value))
    ensures CodeMatchAt(s, i).None? <==> !FenceAt(s, i) || forall j :: i + 3 <= j ==> !FenceAt(s, j)
  {
  }

  /** `ranges.some(([start, end]) => pos >= start && pos < end)`. */
  function IsInsideCodeBlock(pos: nat, ranges: seq<(nat, nat)>): (b: bool)
    ensures b <==> exists k :: 0 <= k < |ranges| && ranges[k].0 <= pos < ranges[k].1
  {
    if ranges == [] then false
    else (ranges[0].0 <= pos < ranges[0].1) || IsInsideCodeBlock(pos, ranges[1..])
  }

  /** The successive matches of /```[\s\S]*?```/g when the scan resumes at `pos`: fenced
      blocks, in text order, that do not overlap. */
  function CodeRangesFrom(s: string, pos: nat): (r: seq<(nat, nat)>)
    ensures forall k :: 0 <= k < |r| ==> pos <= r[k].0 && r[k].0 + 6 <= r[k].1 <= |s|
    decreases |s| - pos
  {
    if pos >= |s| then []
    else match CodeMatchAt(s, pos)
      case Some(e) => [(pos, e)] + CodeRangesFrom(s, e)
      case None => CodeRangesFrom(s, pos + 1)
  }

  /** Every range the scan returns is a code range, and is the match of the pattern at
      its own start; the ranges come in text order without overlap. */
  lemma {:induction false} CodeRangesFromSpec(s: string, pos: nat)
    ensures forall k :: 0 <= k < |CodeRangesFrom(s, pos)| ==> IsCodeRange(s, CodeRangesFrom(s, pos)[k])
    ensures forall k :: 0 <= k < |CodeRangesFrom(s, pos)| ==>
      CodeMatchAt(s, CodeRangesFrom(s, pos)[k].0) == Some(CodeRangesFrom(s, pos)[k].1)
    ensures forall k :: 0 <= k < |CodeRangesFrom(s, pos)| - 1 ==> CodeRangesFrom(s, pos)[k].1 <= CodeRangesFrom(s, pos)[k + 1].0
    decreases |s| - pos
  {
    if pos < |s| {
      match CodeMatchAt(s, pos)
      case Some(e) =>
        CodeMatchAtSpec(s, pos);
        CodeRangesFromSpec(s, e);
        var r, tail := CodeRangesFrom(s, pos), CodeRangesFrom(s, e);
        assert r == [(pos, e)] + tail;
        forall k | 0 <= k < |r| ensures IsCodeRange(s, r[k]) && CodeMatchAt(s, r[k].0) == Some(r[k].1) {
          if k > 0 {
            assert r[k] == tail[k - 1];
          }
        }
        forall k | 0 <= k < |r| - 1 ensures r[k].1 <= r[k + 1].0 {
          if k > 0 {
            assert r[k] == tail[k - 1] && r[k + 1] == tail[k];
          }
        }
      case None =>
        CodeRangesFromSpec(s, pos + 1);
    }
  }

  lemma InsideCons(p: nat, x: (nat, nat), rest: seq<(nat, nat)>)
    ensures IsInsideCodeBlock(p, [x] + rest) <==> x.0 <= p < x.1 || IsInsideCodeBlock(p, rest)
  {
    assert ([x] + rest)[1..] == rest;
  }

  /** The scan misses no match: wherever it resumes, every position outside the ranges it
      returns is one at which the pattern does not match. */
  lemma {:induction false} CodeRangesFromCover(s: string, pos: nat)
    ensures forall p :: pos <= p < |s| && !IsInsideCodeBlock(p, CodeRangesFrom(s, pos)) ==> CodeMatchAt(s, p).None?
    decreases |s| - pos
  {
    if pos < |s| {
      match CodeMatchAt(s, pos)
      case Some(e) =>
        CodeRangesFromCover(s, e);
        forall p | pos <= p < |s| && !IsInsideCodeBlock(p, CodeRangesFrom(s, pos)) ensures CodeMatchAt(s, p).None? {
          InsideCons(p, (pos, e), CodeRangesFrom(s, e));
        }
      case None =>
        CodeRangesFromCover(s, pos + 1);
    }
  }

  /** The code ranges of a whole text. */
  function CodeRanges(text: string): seq<(nat, nat)> {
    CodeRangesFrom(text, 0)
  }

  /** findCodeBlockRanges: runs the global regular expression to exhaustion. */
  method FindCodeBlockRanges(text: string) returns (ranges: seq<(nat, nat)>)
    ensures ranges == CodeRanges(text)
  {
    ranges := [];
    var pos := 0;
    while pos < |text|
      invariant ranges + CodeRangesFrom(text, pos) == CodeRanges(text)
      decreases |text| - pos
    {
      match CodeMatchAt(text, pos) {
        case Some(e) =>
          ranges := ranges + [(pos, e)];
          pos := e;
        case None =>
          pos := pos + 1;
      }
    }
  }

  // ---------------------------------------------------------------------------------
  // Headings: /^#{1,6}\s/gm outside code ranges
  // ---------------------------------------------------------------------------------

  /** `n` '#' characters start at `i`, followed by a white-space character. */
  predicate HashesThenSpace(s: string, i: nat, n: nat) {
    i + n < |s| && IsSpace(s[i + n]) && forall m | i <= m < i + n :: s[m] == '#'
  }

  /** /^#{1,6}\s/m matches at `i`: a line start, one to six '#', then white space. */
  predicate HeadingAt(s: string, i: nat) {
    && i < |s|
    && (i == 0 || IsLineTerminator(s[i - 1]))
    && exists n | 1 <= n <= 6 :: HashesThenSpace(s, i, n)
  }

  lemma HeadingStartsWithHash(s: string, i: nat)
    requires HeadingAt(s, i)
    ensures s[i] == '#'
  {
    var n :| 1 <= n <= 6 && HashesThenSpace(s, i, n);
  }

  /** The heading positions below `i` that lie outside every code range, ascending. */
  function SplitPositionsBelow(s: string, ranges: seq<(nat, nat)>, i: nat): (ps: seq<nat>)
    requires i <= |s|
    ensures forall k :: 0 <= k < |ps| ==> ps[k] < i
    ensures forall j, k :: 0 <= j < k < |ps| ==> ps[j] < ps[k]
  {
    if i == 0 then []
    else
      SplitPositionsBelow(s, ranges, i - 1)
      + (if HeadingAt(s, i - 1) && !IsInsideCodeBlock(i - 1, ranges) then [i - 1] else [])
  }

  /** A position is a split position exactly when a heading starts there outside code. */
  lemma {:induction false} SplitPositionsBelowMembers(s: string, ranges: seq<(nat, nat)>, i: nat, p: nat)
    requires i <= |s|
    ensures p in SplitPositionsBelow(s, ranges, i) <==> p < i && HeadingAt(s, p) && !IsInsideCodeBlock(p, ranges)
  {
    if i > 0 {
      SplitPositionsBelowMembers(s, ranges, i - 1, p);
    }
  }

  /** Where `splitByHeadings` cuts `text`. */
  function SplitPositions(text: string): seq<nat> {
    SplitPositionsBelow(text, CodeRanges(text), |text|)
  }

  predicate Ascending(s: string, ps: seq<nat>) {
    (forall k :: 0 <= k < |ps| ==> ps[k] < |s|) && forall j, k :: 0 <= j < k < |ps| ==> ps[j] < ps[k]
  }

  /** Where the section starting at `ps[i]` ends: the next split position or the end. */
  function SectionEnd(s: string, ps: seq<nat>, i: nat): (e: nat)
    requires Ascending(s, ps) && i < |ps|
    ensures ps[i] < e <= |s|
  {
    if i + 1 < |ps| then ps[i + 1] else |s|
  }

  /** The trimmed text before the first heading, when there is any. */
  function Preamble(s: string, ps: seq<nat>): seq<string>
    requires Ascending(s, ps) && |ps| > 0
  {
    if ps[0] > 0 && |Trim(s[..ps[0]])| > 0 then [Trim(s[..ps[0]])] else []
  }

  /** The trimmed section that starts at split position `ps[i]`. */
  function SectionAt(s: string, ps: seq<nat>, i: nat): string
    requires Ascending(s, ps) && i < |ps|
  {
    Trim(s[ps[i]..SectionEnd(s, ps, i)])
  }

  /** The non-empty sections that start at the first `i` split positions. */
  function SectionsBelow(s: string, ps: seq<nat>, i: nat): seq<string>
    requires Ascending(s, ps) && i <= |ps|
  {
    if i == 0 then []
    else SectionsBelow(s, ps, i - 1) + (if |SectionAt(s, ps, i - 1)| > 0 then [SectionAt(s, ps, i - 1)] else [])
  }

  function Sections(s: string, ps: seq<nat>): seq<string>
    requires Ascending(s, ps) && |ps| > 0
  {
    Preamble(s, ps) + SectionsBelow(s, ps, |ps|)
  }

  /** Non-empty, trimmed and opening with the '#' of its heading. */
  predicate IsHeadingSection(t: string) {
    t != [] && IsTrimmed(t) && t[0] == '#'
  }

  /** A slice that starts with '#' stays a heading section once trimmed. */
  lemma HeadingSection(s: string, a: nat, e: nat)
    requires a < e <= |s| && s[a] == '#'
    ensures IsHeadingSection(Trim(s[a..e]))
  {
    var slice := s[a..e];
    assert slice[0] == '#';
    assert TrimStart(slice) == 0;
    TrimSpec(slice);
    TrimTrimmed(slice);
  }

  /** A split position opens a heading section. */
  lemma SectionsAreHeadings(s: string, ps: seq<nat>)
    requires Ascending(s, ps)
    requires forall k :: 0 <= k < |ps| ==> s[ps[k]] == '#'
    ensures forall k :: 0 <= k < |ps| ==> IsHeadingSection(SectionAt(s, ps, k))
  {
    forall k | 0 <= k < |ps| ensures IsHeadingSection(SectionAt(s, ps, k)) {
      HeadingSection(s, ps[k], SectionEnd(s, ps, k));
    }
  }

  /** When no section is blank, every split position opens a section of its own, in order. */
  lemma {:induction false} SectionsBelowAt(s: string, ps: seq<nat>, i: nat)
    requires Ascending(s, ps) && i <= |ps|
    requires forall k :: 0 <= k < |ps| ==> |SectionAt(s, ps, k)| > 0
    ensures |SectionsBelow(s, ps, i)| == i
    ensures forall k :: 0 <= k < i ==> SectionsBelow(s, ps, i)[k] == SectionAt(s, ps, k)
  {
    if i > 0 {
      SectionsBelowAt(s, ps, i - 1);
      var prev := SectionsBelow(s, ps, i - 1);
      assert SectionsBelow(s, ps, i) == prev + [SectionAt(s, ps, i - 1)];
    }
  }

  /** The preamble is the trimmed text before the first heading, unless that is blank. */
  lemma PreambleShape(s: string, ps: seq<nat>)
    requires Ascending(s, ps) && |ps| > 0
    ensures |Preamble(s, ps)| <= 1
    ensures |Preamble(s, ps)| == 0 <==> AllSpace(s[..ps[0]])
    ensures |Preamble(s, ps)| == 1 ==> Preamble(s, ps)[0] == Trim(s[..ps[0]]) && IsTrimmed(Preamble(s, ps)[0])
  {
    TrimEmpty(s[..ps[0]]);
    TrimTrimmed(s[..ps[0]]);
    if ps[0] == 0 {
      assert s[..ps[0]] == [];
    }
  }

  /** Where each section sits in the list: the preamble first, then the section of each
      split position, in order. */
  lemma SectionsIndex(s: string, ps: seq<nat>)
    requires Ascending(s, ps) && |ps| > 0
    requires forall k :: 0 <= k < |ps| ==> |SectionAt(s, ps, k)| > 0
    ensures |Sections(s, ps)| == |Preamble(s, ps)| + |ps|
    ensures |Preamble(s, ps)| == 1 ==> Sections(s, ps)[0] == Preamble(s, ps)[0]
    ensures forall k :: 0 <= k < |ps| ==> Sections(s, ps)[|Preamble(s, ps)| + k] == SectionAt(s, ps, k)
  {
    SectionsBelowAt(s, ps, |ps|);
    var pre, below := Preamble(s, ps), SectionsBelow(s, ps, |ps|);
    var secs := Sections(s, ps);
    assert secs == pre + below;
    forall k | 0 <= k < |ps| ensures secs[|pre| + k] == SectionAt(s, ps, k) {
      assert secs[|pre| + k] == below[k];
    }
  }

  /** The sections cut at ascending positions that each hold a '#'. */
  lemma SectionsAt(s: string, ps: seq<nat>)
    requires Ascending(s, ps) && |ps| > 0
    requires forall k :: 0 <= k < |ps| ==> s[ps[k]] == '#'
    ensures var secs := Sections(s, ps);
      && |secs| == |Preamble(s, ps)| + |ps|
      && (|Preamble(s, ps)| == 0 <==> AllSpace(s[..ps[0]]))
      && (|Preamble(s, ps)| == 1 ==> secs[0] == Trim(s[..ps[0]]))
      && (forall k :: 0 <= k < |ps| ==> secs[|Preamble(s, ps)| + k] == SectionAt(s, ps, k))
      && (forall k :: 0 <= k < |secs| ==> secs[k] != [] && IsTrimmed(secs[k]))
      && (forall k :: |Preamble(s, ps)| <= k < |secs| ==> IsHeadingSection(secs[k]))
  {
    SectionsAreHeadings(s, ps);
    SectionsIndex(s, ps);
    PreambleShape(s, ps);
    var secs, n := Sections(s, ps), |Preamble(s, ps)|;
    forall k | 0 <= k < |secs| ensures secs[k] != [] && IsTrimmed(secs[k]) && (k >= n ==> IsHeadingSection(secs[k])) {
      if k >= n {
        assert secs[n + (k - n)] == SectionAt(s, ps, k - n);
      }
    }
  }

  /** The sections of a text with at least one heading outside code: the text before the
      first heading, trimmed, unless it is blank; then, for each heading in order, the
      text from it to the next one (or to the end), trimmed, which starts with '#'. */
  lemma SectionsShape(s: string)
    requires SplitPositions(s) != []
    ensures Ascending(s, SplitPositions(s))
    ensures var ps := SplitPositions(s); var secs := Sections(s, ps);
      && |secs| == |Preamble(s, ps)| + |ps|
      && (|Preamble(s, ps)| == 0 <==> AllSpace(s[..ps[0]]))
      && (|Preamble(s, ps)| == 1 ==> secs[0] == Trim(s[..ps[0]]))
      && (forall k :: 0 <= k < |ps| ==> secs[|Preamble(s, ps)| + k] == SectionAt(s, ps, k))
      && (forall k :: 0 <= k < |secs| ==> secs[k] != [] && IsTrimmed(secs[k]))
      && (forall k :: |Preamble(s, ps)| <= k < |secs| ==> IsHeadingSection(secs[k]))
  {
    var ps := SplitPositions(s);
    forall k | 0 <= k < |ps| ensures s[ps[k]] == '#' {
      SplitPositionsBelowMembers(s, CodeRanges(s), |s|, ps[k]);
      HeadingStartsWithHash(s, ps[k]);
    }
    SectionsAt(s, ps);
  }

  /** What `splitByHeadings` returns: the whole text when no heading lies outside code,
      else the preamble and the heading sections. */
  function SplitSections(text: string): seq<string> {
    var ps := SplitPositions(text);
    if ps == [] then [text] else Sections(text, ps)
  }

  /** splitByHeadings */
  method SplitByHeadings(text: string) returns (sections: seq<string>)
    ensures sections == SplitSections(text)
  {
    var ranges := FindCodeBlockRanges(text);
    var positions := FindHeadingPositions(text, ranges);
    if |positions| == 0 {
      return [text];
    }
    sections := CutAtPositions(text, positions);
  }

  /** The first half of splitByHeadings: the start of every heading match that is not
      inside a code range, in text order. */
  method FindHeadingPositions(text: string, ranges: seq<(nat, nat)>) returns (positions: seq<nat>)
    ensures positions == SplitPositionsBelow(text, ranges, |text|)
  {
    positions := [];
    var i := 0;
    while i < |text|
      invariant i <= |text|
      invariant positions == SplitPositionsBelow(text, ranges, i)
    {
      if HeadingAt(text, i) && !IsInsideCodeBlock(i, ranges) {
        positions := positions + [i];
      }
      i := i + 1;
    }
  }

  /** The second half of splitByHeadings: the preamble, then one trimmed section per
      split position, blank pieces dropped. */
  method CutAtPositions(text: string, positions: seq<nat>) returns (sections: seq<string>)
    requires Ascending(text, positions) && |positions| > 0
    ensures sections == Sections(text, positions)
  {
    sections := [];
    if positions[0] > 0 {
      var pre := Trim(text[..positions[0]]);
      if |pre| > 0 {
        sections := [pre];
      }
    }
    for j := 0 to |positions|
      invariant sections == Preamble(text, positions) + SectionsBelow(text, positions, j)
    {
      var start := positions[j];
      var end := if j + 1 < |positions| then positions[j + 1] else |text|;
      assert end == SectionEnd(text, positions, j);
      var section := Trim(text[start..end]);
      assert section == SectionAt(text, positions, j);
      assert SectionsBelow(text, positions, j + 1)
        == SectionsBelow(text, positions, j) + (if |section| > 0 then [section] else []);
      if |section| > 0 {
        sections := sections + [section];
      }
    }
  }
}
