/**
  Code blocks of a text and of its slices. `chunkText` scans the cleaned document for
  fenced blocks, but `chunkWithCodeBlockProtection` scans each oversized section again
  on its own; this module shows that the second scan finds exactly the blocks of the
  first one that lie inside the section (lib/chunker.ts).
*/
module CodeBlocks {
  import opened Text
  import opened Wrappers
  import opened ChunkerScan

  /** `c` is the whole text of one of the code ranges of `text`. */
  predicate IsCodeBlock(text: string, c: string) {
    exists r :: r in CodeRanges(text) && r.0 <= r.1 <= |text| && c == text[r.0..r.1]
  }

  /** `c` is a code block of `text` whose range lies within `[p, q)`. */
  predicate BlockWithin(text: string, c: string, p: nat, q: nat) {
    exists r :: r in CodeRanges(text) && p <= r.0 <= r.1 <= q <= |text| && c == text[r.0..r.1]
  }

  /** No range of `rs` has `p` strictly inside it. */
  predicate ClearOf(rs: seq<(nat, nat)>, p: nat) {
    forall r :: r in rs ==> !(r.0 < p < r.1)
  }

  /** A code block opens and closes with a backtick. */
  lemma CodeRangeEnds(s: string, r: (nat, nat))
    requires IsCodeRange(s, r)
    ensures s[r.0] == '`' && s[r.1 - 1] == '`' && !IsSpace('`')
  {
    assert s[r.0] == s[r.0..r.0 + 3][0];
    assert s[r.1 - 1] == s[r.1 - 3..r.1][2];
  }

  /** The lazy pattern matched at `i` ends at the first closing fence, so a code range
      that starts at `i` is the match there. */
  lemma MatchUnique(s: string, i: nat, e: nat)
    requires IsCodeRange(s, (i, e))
    ensures CodeMatchAt(s, i) == Some(e)
  {
    assert !(forall j :: i + 3 <= j ==> !FenceAt(s, j)) by {
      assert FenceAt(s, e - 3);
    }
    var m := CodeMatchAt(s, i).value;
    assert FenceAt(s, m - 3) && FenceAt(s, e - 3);
  }

  /** A fence of the slice `s[a..b]` is a fence of `s` that ends by `b`. */
  lemma FenceWindow(s: string, a: nat, b: nat, k: int)
    requires a <= b <= |s|
    ensures FenceAt(s[a..b], k) <==> 0 <= k && a + k + 3 <= b && FenceAt(s, a + k)
  {
    if 0 <= k && a + k + 3 <= b {
      SliceOfSlice(s, s[a..b], a, b, k, k + 3);
    }
  }

  /** Where the pattern fails to match in the whole text it fails in a slice too. */
  lemma MatchWindowNone(s: string, a: nat, b: nat, i: nat)
    requires a <= i < b <= |s|
    requires CodeMatchAt(s, i).None?
    ensures CodeMatchAt(s[a..b], i - a).None?
  {
    var t := s[a..b];
    FenceWindow(s, a, b, i - a);
    if FenceAt(s, i) {
      forall j | i - a + 3 <= j ensures !FenceAt(t, j) {
        FenceWindow(s, a, b, j);
      }
    }
  }

  /** A match of the whole text that ends within a slice is a match of the slice. */
  lemma MatchWindowSome(s: string, a: nat, b: nat, i: nat, e: nat)
    requires a <= i && e <= b <= |s|
    requires CodeMatchAt(s, i) == Some(e)
    ensures CodeMatchAt(s[a..b], i - a) == Some(e - a)
  {
    var t := s[a..b];
    assert IsCodeRange(s, (i, e));
    FenceWindow(s, a, b, i - a);
    FenceWindow(s, a, b, e - a - 3);
    forall j | i - a + 3 <= j < e - a - 3 ensures !FenceAt(t, j) {
      FenceWindow(s, a, b, j);
    }
    MatchUnique(t, i - a, e - a);
  }

  /** The ranges of `rs` that start at or after `p`. */
  function DropBefore(rs: seq<(nat, nat)>, p: nat): (d: seq<(nat, nat)>)
    ensures forall r :: r in d <==> r in rs && p <= r.0
  {
    if rs == [] then []
    else (if rs[0].0 < p then [] else [rs[0]]) + DropBefore(rs[1..], p)
  }

  lemma {:induction false} DropBeforeAll(rs: seq<(nat, nat)>, p: nat)
    requires forall r :: r in rs ==> p <= r.0
    ensures DropBefore(rs, p) == rs
  {
    if rs != [] {
      DropBeforeAll(rs[1..], p);
      assert rs == [rs[0]] + rs[1..];
    }
  }

  /** The scan resumed at a position `p` that no range crosses finds the ranges of the
      scan from an earlier position that start at or after `p`. */
  lemma {:induction false} ResumeAt(s: string, pos: nat, p: nat)
    requires pos <= p
    requires ClearOf(CodeRangesFrom(s, pos), p)
    ensures CodeRangesFrom(s, p) == DropBefore(CodeRangesFrom(s, pos), p)
    decreases p - pos
  {
    var rs := CodeRangesFrom(s, pos);
    if pos == p {
      DropBeforeAll(rs, p);
    } else if pos >= |s| {
      assert rs == [];
    } else {
      match CodeMatchAt(s, pos)
      case Some(e) =>
        var tail := CodeRangesFrom(s, e);
        assert rs == [(pos, e)] + tail;
        assert (pos, e) in rs;
        assert rs[1..] == tail;
        ResumeAt(s, e, p);
      case None =>
        ResumeAt(s, pos + 1, p);
    }
  }

  /** `x - a`, cut off at zero. */
  function Shift(x: nat, a: nat): nat {
    if x >= a then x - a else 0
  }

  /** The ranges of `rs` that start before `b`, shifted left by `a`. */
  function Window(rs: seq<(nat, nat)>, a: nat, b: nat): seq<(nat, nat)> {
    if rs == [] then []
    else (if rs[0].0 < b then [(Shift(rs[0].0, a), Shift(rs[0].1, a))] else []) + Window(rs[1..], a, b)
  }

  /** A range that starts before `b` is in the window, shifted. */
  lemma {:induction false} WindowIn(rs: seq<(nat, nat)>, a: nat, b: nat, r: (nat, nat))
    requires r in rs && a <= r.0 < b && a <= r.1
    ensures (r.0 - a, r.1 - a) in Window(rs, a, b)
  {
    var rest := rs[1..];
    assert rs == [rs[0]] + rest;
    if r != rs[0] {
      assert r in rest;
      WindowIn(rest, a, b, r);
    }
  }

  /** Everything in the window is a range that starts before `b`, shifted. */
  lemma {:induction false} WindowFrom(rs: seq<(nat, nat)>, a: nat, b: nat, x: (nat, nat))
    requires forall k :: 0 <= k < |rs| ==> a <= rs[k].0 && a <= rs[k].1
    requires x in Window(rs, a, b)
    ensures (x.0 + a, x.1 + a) in rs && x.0 + a < b
  {
    var rest := rs[1..];
    assert rs == [rs[0]] + rest;
    if x != (Shift(rs[0].0, a), Shift(rs[0].1, a)) || rs[0].0 >= b {
      assert x in Window(rest, a, b);
      WindowFrom(rest, a, b, x);
    }
  }

  lemma WindowCons(x: (nat, nat), tail: seq<(nat, nat)>, a: nat, b: nat)
    requires a <= x.0 < b && a <= x.1
    ensures Window([x] + tail, a, b) == [(x.0 - a, x.1 - a)] + Window(tail, a, b)
  {
    assert ([x] + tail)[0] == x && ([x] + tail)[1..] == tail;
  }

  lemma {:induction false} WindowNone(rs: seq<(nat, nat)>, a: nat, b: nat)
    requires forall k :: 0 <= k < |rs| ==> b <= rs[k].0
    ensures Window(rs, a, b) == []
  {
    if rs != [] {
      WindowNone(rs[1..], a, b);
    }
  }

  /** One step of the scan: a match at `pos` is the first range, else the scan moves on. */
  lemma ScanStep(s: string, pos: nat)
    requires pos < |s|
    ensures CodeMatchAt(s, pos).None? ==> CodeRangesFrom(s, pos) == CodeRangesFrom(s, pos + 1)
  {
  }

  lemma ScanSome(s: string, pos: nat, e: nat)
    requires pos < |s| && CodeMatchAt(s, pos) == Some(e)
    ensures CodeRangesFrom(s, pos) == [(pos, e)] + CodeRangesFrom(s, e)
  {
  }

  lemma ClearCons(x: (nat, nat), rest: seq<(nat, nat)>, p: nat)
    requires ClearOf([x] + rest, p)
    ensures !(x.0 < p < x.1) && ClearOf(rest, p)
  {
    assert x in [x] + rest;
    forall r | r in rest ensures !(r.0 < p < r.1) {
      assert r in [x] + rest;
    }
  }

  /** A step of the two scans where the pattern does not match. */
  lemma WindowNoneStep(s: string, a: nat, b: nat, pos: nat)
    requires a <= pos < b <= |s|
    requires CodeMatchAt(s, pos).None?
    requires CodeRangesFrom(s[a..b], pos + 1 - a) == Window(CodeRangesFrom(s, pos + 1), a, b)
    ensures CodeRangesFrom(s[a..b], pos - a) == Window(CodeRangesFrom(s, pos), a, b)
  {
    MatchWindowNone(s, a, b, pos);
    ScanStep(s, pos);
    ScanStep(s[a..b], pos - a);
  }

  /** A match of the whole text that ends within a slice starts the slice's scan there. */
  lemma SliceScanSome(s: string, a: nat, b: nat, pos: nat, e: nat)
    requires a <= pos < b <= |s| && e <= b
    requires CodeMatchAt(s, pos) == Some(e)
    ensures CodeRangesFrom(s[a..b], pos - a) == [(pos - a, e - a)] + CodeRangesFrom(s[a..b], e - a)
  {
    MatchWindowSome(s, a, b, pos, e);
    ScanSome(s[a..b], pos - a, e - a);
  }

  /** A step of the two scans where the pattern matches up to `e`, within the slice. */
  lemma WindowSomeStep(s: string, a: nat, b: nat, pos: nat, e: nat)
    requires a <= pos < b <= |s| && e <= b
    requires CodeMatchAt(s, pos) == Some(e)
    requires CodeRangesFrom(s[a..b], e - a) == Window(CodeRangesFrom(s, e), a, b)
    ensures CodeRangesFrom(s[a..b], pos - a) == Window(CodeRangesFrom(s, pos), a, b)
  {
    SliceScanSome(s, a, b, pos, e);
    WindowCons((pos, e), CodeRangesFrom(s, e), a, b);
    ScanSome(s, pos, e);
  }

  /** Scanning the slice `s[a..b]` from `pos - a` finds the ranges the scan of `s` from
      `pos` finds before `b`, shifted, provided none of those crosses `b`. */
  lemma {:induction false} WindowRanges(s: string, a: nat, b: nat, pos: nat)
    requires a <= pos <= b <= |s|
    requires ClearOf(CodeRangesFrom(s, pos), b)
    ensures CodeRangesFrom(s[a..b], pos - a) == Window(CodeRangesFrom(s, pos), a, b)
    decreases b - pos, 1
  {
    if pos == b {
      WindowNone(CodeRangesFrom(s, pos), a, b);
    } else {
      var m := CodeMatchAt(s, pos);
      if m.Some? {
        WindowRangesMatch(s, a, b, pos, m.value);
      } else {
        WindowRangesSkip(s, a, b, pos);
      }
    }
  }

  /** `WindowRanges` where the pattern does not match at `pos`. */
  lemma {:induction false} WindowRangesSkip(s: string, a: nat, b: nat, pos: nat)
    requires a <= pos < b <= |s|
    requires CodeMatchAt(s, pos).None?
    requires ClearOf(CodeRangesFrom(s, pos), b)
    ensures CodeRangesFrom(s[a..b], pos - a) == Window(CodeRangesFrom(s, pos), a, b)
    decreases b - pos, 0
  {
    ScanStep(s, pos);
    WindowRanges(s, a, b, pos + 1);
    WindowNoneStep(s, a, b, pos);
  }

  /** `WindowRanges` where the pattern matches at `pos`, up to `e`. */
  lemma {:induction false} WindowRangesMatch(s: string, a: nat, b: nat, pos: nat, e: nat)
    requires a <= pos < b <= |s|
    requires CodeMatchAt(s, pos) == Some(e)
    requires ClearOf(CodeRangesFrom(s, pos), b)
    ensures CodeRangesFrom(s[a..b], pos - a) == Window(CodeRangesFrom(s, pos), a, b)
    decreases b - pos, 0
  {
    ScanSome(s, pos, e);
    ClearCons((pos, e), CodeRangesFrom(s, e), b);
    WindowRanges(s, a, b, e);
    WindowSomeStep(s, a, b, pos, e);
  }

  /** `s[lo..hi]` is `s[p..q]` with white space, and only white space, taken off both ends. */
  predicate SpaceAround(s: string, p: nat, q: nat, lo: nat, hi: nat) {
    p <= lo <= hi <= q <= |s|
    && (forall k :: p <= k < lo ==> IsSpace(s[k]))
    && (forall k :: hi <= k < q ==> IsSpace(s[k]))
  }

  lemma TrimSpaceAround(s: string, p: nat, q: nat)
    requires p <= q <= |s|
    ensures SpaceAround(s, p, q, TrimLo(s, p, q), TrimHi(s, p, q))
    ensures Trim(s[p..q]) == s[TrimLo(s, p, q)..TrimHi(s, p, q)]
  {
    TrimRangeSpec(s, p, q);
    TrimRangeSlice(s, p, q);
  }

  /** Taking white space off ends that no code range crosses leaves ends that no code
      range crosses: the white space cannot hold a fence. */
  lemma SpaceClear(s: string, p: nat, q: nat, lo: nat, hi: nat)
    requires SpaceAround(s, p, q, lo, hi)
    requires ClearOf(CodeRanges(s), p) && ClearOf(CodeRanges(s), q)
    ensures ClearOf(CodeRanges(s), lo) && ClearOf(CodeRanges(s), hi)
  {
    CodeRangesFromSpec(s, 0);
    forall r | r in CodeRanges(s) ensures !(r.0 < lo < r.1) && !(r.0 < hi < r.1) {
      CodeRangeEnds(s, r);
      assert !(p <= r.0 < lo);
      assert !(hi <= r.1 - 1 < q);
    }
  }

  /** The code ranges of `s[lo..hi]`, the slice `s[p..q]` stripped of white space at both
      ends, when no code range of `s` crosses `p` or `q`: those of `s` from `lo` on that
      start before `hi`, shifted. */
  lemma StrippedRanges(s: string, p: nat, q: nat, lo: nat, hi: nat)
    requires SpaceAround(s, p, q, lo, hi)
    requires ClearOf(CodeRanges(s), p) && ClearOf(CodeRanges(s), q)
    ensures CodeRanges(s[lo..hi]) == Window(CodeRangesFrom(s, lo), lo, hi)
    ensures CodeRangesFrom(s, lo) == DropBefore(CodeRanges(s), lo)
  {
    SpaceClear(s, p, q, lo, hi);
    ResumeAt(s, 0, lo);
    assert ClearOf(CodeRangesFrom(s, lo), hi);
    WindowRanges(s, lo, hi, lo);
  }

  /** A code range of the stripped slice is, shifted back, a code range of `s`. */
  lemma StrippedRangeOut(s: string, p: nat, q: nat, lo: nat, hi: nat, x: (nat, nat))
    requires SpaceAround(s, p, q, lo, hi)
    requires ClearOf(CodeRanges(s), p) && ClearOf(CodeRanges(s), q)
    requires x in CodeRanges(s[lo..hi])
    ensures (x.0 + lo, x.1 + lo) in CodeRanges(s)
  {
    var d := CodeRangesFrom(s, lo);
    StrippedRanges(s, p, q, lo, hi);
    WindowFrom(d, lo, hi, x);
  }

  /** A code range of `s` within `[p, q)` lies within `[lo, hi)` and is, shifted, a code
      range of the stripped slice. */
  lemma StrippedRangeIn(s: string, p: nat, q: nat, lo: nat, hi: nat, r: (nat, nat))
    requires SpaceAround(s, p, q, lo, hi)
    requires ClearOf(CodeRanges(s), p) && ClearOf(CodeRanges(s), q)
    requires r in CodeRanges(s) && p <= r.0 <= r.1 <= q
    ensures lo <= r.0 <= r.1 <= hi
    ensures (r.0 - lo, r.1 - lo) in CodeRanges(s[lo..hi])
  {
    CodeRangesFromSpec(s, 0);
    CodeRangeEnds(s, r);
    assert lo <= r.0 < hi && r.1 <= hi;
    StrippedRanges(s, p, q, lo, hi);
    WindowIn(CodeRangesFrom(s, lo), lo, hi, r);
  }

  /** A code block of the stripped slice is a code block of `s` within `[p, q)`. */
  lemma StrippedBlockOut(s: string, p: nat, q: nat, lo: nat, hi: nat, x: (nat, nat))
    requires SpaceAround(s, p, q, lo, hi)
    requires ClearOf(CodeRanges(s), p) && ClearOf(CodeRanges(s), q)
    requires x in CodeRanges(s[lo..hi]) && x.0 <= x.1 <= hi - lo
    ensures BlockWithin(s, s[lo..hi][x.0..x.1], p, q)
  {
    StrippedRangeOut(s, p, q, lo, hi, x);
    SliceOfSlice(s, s[lo..hi], lo, hi, x.0, x.1);
    var r := (x.0 + lo, x.1 + lo);
    assert r in CodeRanges(s) && p <= r.0 <= r.1 <= q && s[lo..hi][x.0..x.1] == s[r.0..r.1];
  }

  /** A code block of `s` within `[p, q)` is a code block of the stripped slice. */
  lemma StrippedBlockIn(s: string, p: nat, q: nat, lo: nat, hi: nat, r: (nat, nat))
    requires SpaceAround(s, p, q, lo, hi)
    requires ClearOf(CodeRanges(s), p) && ClearOf(CodeRanges(s), q)
    requires r in CodeRanges(s) && p <= r.0 <= r.1 <= q
    ensures IsCodeBlock(s[lo..hi], s[r.0..r.1])
  {
    StrippedRangeIn(s, p, q, lo, hi, r);
    var x := (r.0 - lo, r.1 - lo);
    SliceOfSlice(s, s[lo..hi], lo, hi, x.0, x.1);
    assert x in CodeRanges(s[lo..hi]) && x.0 <= x.1 <= hi - lo && s[r.0..r.1] == s[lo..hi][x.0..x.1];
  }

  /** The code blocks of the trimmed slice `s[p..q]`, when no code range of `s` crosses
      `p` or `q`, are exactly the code blocks of `s` that lie within `[p, q)`. */
  lemma SectionBlocks(s: string, p: nat, q: nat)
    requires p <= q <= |s|
    requires ClearOf(CodeRanges(s), p) && ClearOf(CodeRanges(s), q)
    ensures forall c :: IsCodeBlock(Trim(s[p..q]), c) <==> BlockWithin(s, c, p, q)
  {
    var lo, hi := TrimLo(s, p, q), TrimHi(s, p, q);
    TrimSpaceAround(s, p, q);
    var t := s[lo..hi];
    forall c | IsCodeBlock(t, c) ensures BlockWithin(s, c, p, q) {
      var x :| x in CodeRanges(t) && x.0 <= x.1 <= |t| && c == t[x.0..x.1];
      StrippedBlockOut(s, p, q, lo, hi, x);
    }
    forall c | BlockWithin(s, c, p, q) ensures IsCodeBlock(t, c) {
      var r :| r in CodeRanges(s) && p <= r.0 <= r.1 <= q <= |s| && c == s[r.0..r.1];
      StrippedBlockIn(s, p, q, lo, hi, r);
    }
  }

  // ---------------------------------------------------------------------------------
  // The sections of splitByHeadings and the code blocks of the text
  // ---------------------------------------------------------------------------------

  /** Neither the start nor the end of the text lies strictly inside a code range. */
  lemma EndsClear(s: string)
    ensures ClearOf(CodeRanges(s), 0) && ClearOf(CodeRanges(s), |s|)
  {
  }

  /** Split positions hold a '#', ascend, and lie inside no code range. */
  lemma SplitPositionsClear(s: string)
    ensures Ascending(s, SplitPositions(s))
    ensures forall k :: 0 <= k < |SplitPositions(s)| ==>
      s[SplitPositions(s)[k]] == '#' && ClearOf(CodeRanges(s), SplitPositions(s)[k])
  {
    var ps := SplitPositions(s);
    forall k | 0 <= k < |ps| ensures s[ps[k]] == '#' && ClearOf(CodeRanges(s), ps[k]) {
      SplitPositionsBelowMembers(s, CodeRanges(s), |s|, ps[k]);
      HeadingStartsWithHash(s, ps[k]);
    }
  }

  /** Cut positions that lie inside no code range, each holding a '#'. */
  predicate ClearCuts(s: string, ps: seq<nat>) {
    Ascending(s, ps) && |ps| > 0
    && forall k :: 0 <= k < |ps| ==> s[ps[k]] == '#' && ClearOf(CodeRanges(s), ps[k])
  }

  /** Where a section ends lies inside no code range. */
  lemma SectionEndClear(s: string, ps: seq<nat>, k: nat)
    requires ClearCuts(s, ps) && k < |ps|
    ensures ClearOf(CodeRanges(s), SectionEnd(s, ps, k))
  {
    EndsClear(s);
  }

  /** The last of the ascending positions `ps[..j + 1]` that is at most `x`. */
  lemma {:induction false} LastAtOrBefore(ps: seq<nat>, x: nat, j: nat) returns (m: nat)
    requires j < |ps| && ps[0] <= x
    requires forall a, b :: 0 <= a < b < |ps| ==> ps[a] < ps[b]
    requires forall k :: j < k < |ps| ==> x < ps[k]
    ensures m <= j && ps[m] <= x && (m + 1 < |ps| ==> x < ps[m + 1])
    decreases j
  {
    if ps[j] <= x {
      m := j;
    } else {
      m := LastAtOrBefore(ps, x, j - 1);
    }
  }

  /** The code blocks of the preamble are those of the text before the first cut. */
  lemma PreambleBlocks(s: string, ps: seq<nat>)
    requires ClearCuts(s, ps)
    ensures forall c :: IsCodeBlock(Trim(s[..ps[0]]), c) <==> BlockWithin(s, c, 0, ps[0])
  {
    EndsClear(s);
    assert s[..ps[0]] == s[0..ps[0]];
    SectionBlocks(s, 0, ps[0]);
  }

  /** The code blocks of the section at cut `k` are those of the text up to the next cut. */
  lemma CutBlocks(s: string, ps: seq<nat>, k: nat)
    requires ClearCuts(s, ps) && k < |ps|
    ensures forall c :: IsCodeBlock(SectionAt(s, ps, k), c) <==> BlockWithin(s, c, ps[k], SectionEnd(s, ps, k))
  {
    SectionEndClear(s, ps, k);
    SectionBlocks(s, ps[k], SectionEnd(s, ps, k));
  }

  lemma WithinIsBlock(s: string, c: string, p: nat, q: nat)
    requires BlockWithin(s, c, p, q)
    ensures IsCodeBlock(s, c)
  {
  }

  /** The section at index `j` of the list: the preamble or the section of a cut. */
  lemma SectionIs(s: string, ps: seq<nat>, j: nat)
    requires ClearCuts(s, ps) && j < |Sections(s, ps)|
    ensures |Preamble(s, ps)| <= 1
    ensures j < |Preamble(s, ps)| ==> j == 0 && Sections(s, ps)[j] == Trim(s[..ps[0]])
    ensures j >= |Preamble(s, ps)| ==>
      j - |Preamble(s, ps)| < |ps| && Sections(s, ps)[j] == SectionAt(s, ps, j - |Preamble(s, ps)|)
  {
    SectionsAt(s, ps);
    PreambleShape(s, ps);
    var n := |Preamble(s, ps)|;
    if j >= n {
      assert Sections(s, ps)[n + (j - n)] == SectionAt(s, ps, j - n);
    }
  }

  /** Every code block of a section is a code block of the text. */
  lemma SectionsBlocksAt(s: string, ps: seq<nat>, j: nat, c: string)
    requires ClearCuts(s, ps)
    requires j < |Sections(s, ps)| && IsCodeBlock(Sections(s, ps)[j], c)
    ensures IsCodeBlock(s, c)
  {
    SectionIs(s, ps, j);
    var n := |Preamble(s, ps)|;
    if j < n {
      PreambleBlocks(s, ps);
      WithinIsBlock(s, c, 0, ps[0]);
    } else {
      CutBlocks(s, ps, j - n);
      WithinIsBlock(s, c, ps[j - n], SectionEnd(s, ps, j - n));
    }
  }

  /** A code range that starts before the first cut is a block of the preamble, which is
      then not blank and comes first. */
  lemma BlockInPreamble(s: string, ps: seq<nat>, r: (nat, nat))
    requires ClearCuts(s, ps)
    requires r in CodeRanges(s) && r.0 <= r.1 <= |s| && r.0 < ps[0]
    ensures 0 < |Sections(s, ps)| && IsCodeBlock(Sections(s, ps)[0], s[r.0..r.1])
  {
    var c := s[r.0..r.1];
    PreambleBlocks(s, ps);
    assert BlockWithin(s, c, 0, ps[0]);
    assert IsCodeBlock(Trim(s[..ps[0]]), c);
    TrimEmpty(s[..ps[0]]);
    PreambleShape(s, ps);
    assert |Preamble(s, ps)| == 1;
    SectionIs(s, ps, 0);
  }

  /** The section of cut `m` sits just after the preamble's entries. */
  lemma CutSection(s: string, ps: seq<nat>, m: nat)
    requires ClearCuts(s, ps) && m < |ps|
    ensures |Preamble(s, ps)| + m < |Sections(s, ps)|
    ensures Sections(s, ps)[|Preamble(s, ps)| + m] == SectionAt(s, ps, m)
  {
    SectionsAt(s, ps);
  }

  /** A code range that starts at or after cut `m` and before the next one is a block of
      the section of cut `m`. */
  lemma BlockInCut(s: string, ps: seq<nat>, r: (nat, nat), m: nat)
    requires ClearCuts(s, ps) && m < |ps|
    requires r in CodeRanges(s) && r.0 <= r.1 <= |s|
    requires ps[m] <= r.0 && (m + 1 < |ps| ==> r.0 < ps[m + 1])
    ensures |Preamble(s, ps)| + m < |Sections(s, ps)|
    ensures IsCodeBlock(Sections(s, ps)[|Preamble(s, ps)| + m], s[r.0..r.1])
  {
    var c := s[r.0..r.1];
    var q := SectionEnd(s, ps, m);
    assert r.1 <= q by {
      SectionEndClear(s, ps, m);
      assert r.0 < q;
    }
    assert IsCodeBlock(SectionAt(s, ps, m), c) by {
      CutBlocks(s, ps, m);
      assert BlockWithin(s, c, ps[m], q);
    }
    CutSection(s, ps, m);
  }

  /** Every code range of the text lies in a section, and its block is one of that
      section's code blocks. */
  lemma BlockSectionAt(s: string, ps: seq<nat>, r: (nat, nat)) returns (j: nat)
    requires ClearCuts(s, ps)
    requires r in CodeRanges(s) && r.0 <= r.1 <= |s|
    ensures j < |Sections(s, ps)| && IsCodeBlock(Sections(s, ps)[j], s[r.0..r.1])
  {
    if r.0 < ps[0] {
      BlockInPreamble(s, ps, r);
      j := 0;
    } else {
      var m := LastAtOrBefore(ps, r.0, |ps| - 1);
      BlockInCut(s, ps, r, m);
      j := |Preamble(s, ps)| + m;
    }
  }

  /** Every code block of a section of `splitByHeadings` is a code block of the text. */
  lemma SectionBlocksOfText(s: string, j: nat, c: string)
    requires j < |SplitSections(s)| && IsCodeBlock(SplitSections(s)[j], c)
    ensures IsCodeBlock(s, c)
  {
    SplitPositionsClear(s);
    if SplitPositions(s) != [] {
      SectionsBlocksAt(s, SplitPositions(s), j, c);
    }
  }

  /** Every code block of the text is a code block of one of the sections of
      `splitByHeadings`. */
  lemma SectionOfBlock(s: string, r: (nat, nat)) returns (j: nat)
    requires r in CodeRanges(s)
    ensures r.0 <= r.1 <= |s|
    ensures j < |SplitSections(s)| && IsCodeBlock(SplitSections(s)[j], s[r.0..r.1])
  {
    SplitPositionsClear(s);
    if SplitPositions(s) == [] {
      j := 0;
    } else {
      j := BlockSectionAt(s, SplitPositions(s), r);
    }
  }
}
