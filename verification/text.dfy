/**
  String helpers that mirror the JavaScript built-ins the retrieval core leans on:
  the white-space class `\s`, `String.prototype.trim` and `String.prototype.lastIndexOf`.
  Strings are sequences of Unicode scalar values.
*/
module Text {

  /** The code points JavaScript counts as white space (ECMA-262 WhiteSpace and
      LineTerminator): the regular-expression class `\s` matches exactly these and
      `trim` strips exactly these. */
  const Whitespace: set<char> := {
    ' ', '\t', '\n', '\r', '\U{B}', '\U{C}', '\U{A0}', '\U{1680}',
    '\U{2000}', '\U{2001}', '\U{2002}', '\U{2003}', '\U{2004}', '\U{2005}',
    '\U{2006}', '\U{2007}', '\U{2008}', '\U{2009}', '\U{200A}',
    '\U{2028}', '\U{2029}', '\U{202F}', '\U{205F}', '\U{3000}', '\U{FEFF}'
  }

  predicate IsSpace(c: char) {
    c in Whitespace
  }

  /** The characters after which `^` matches in a multiline JavaScript regular expression. */
  predicate IsLineTerminator(c: char) {
    c == '\n' || c == '\r' || c == '\U{2028}' || c == '\U{2029}'
  }

  predicate AllSpace(s: string) {
    forall k :: 0 <= k < |s| ==> IsSpace(s[k])
  }

  lemma AllSpaceAppend(a: string, b: string)
    ensures AllSpace(a + b) <==> AllSpace(a) && AllSpace(b)
  {
    if AllSpace(a + b) {
      forall k | 0 <= k < |a| ensures IsSpace(a[k]) {
        assert a[k] == (a + b)[k];
      }
      forall k | 0 <= k < |b| ensures IsSpace(b[k]) {
        assert b[k] == (a + b)[|a| + k];
      }
    }
  }

  predicate NoSpace(s: string) {
    forall k :: 0 <= k < |s| ==> !IsSpace(s[k])
  }

  lemma NoSpaceSlice(s: string, i: nat, j: nat)
    requires i <= j <= |s| && NoSpace(s)
    ensures NoSpace(s[i..j])
  {
    forall k | 0 <= k < j - i ensures !IsSpace(s[i..j][k]) {
      assert s[i..j][k] == s[i + k];
    }
  }

  /** Neither end of the string is white space. */
  predicate IsTrimmed(s: string) {
    s == [] || (!IsSpace(s[0]) && !IsSpace(s[|s| - 1]))
  }

  /** The first index in `[i, hi)` whose character is not white space, or `hi`. */
  function SkipSpace(s: string, i: nat, hi: nat): (k: nat)
    requires i <= hi <= |s|
    ensures i <= k <= hi
    decreases hi - i
  {
    if i == hi || !IsSpace(s[i]) then i else SkipSpace(s, i + 1, hi)
  }

  lemma {:induction false} SkipSpaceSpec(s: string, i: nat, hi: nat)
    requires i <= hi <= |s|
    ensures forall k :: i <= k < SkipSpace(s, i, hi) ==> IsSpace(s[k])
    ensures SkipSpace(s, i, hi) < hi ==> !IsSpace(s[SkipSpace(s, i, hi)])
    decreases hi - i
  {
    if i < hi && IsSpace(s[i]) {
      SkipSpaceSpec(s, i + 1, hi);
    }
  }

  /** Going back from `j`, but not past `lo`: the first index that follows a character
      other than white space, or `lo`. */
  function SkipSpaceBack(s: string, lo: nat, j: nat): (k: nat)
    requires lo <= j <= |s|
    ensures lo <= k <= j
    decreases j
  {
    if j == lo || !IsSpace(s[j - 1]) then j else SkipSpaceBack(s, lo, j - 1)
  }

  lemma {:induction false} SkipSpaceBackSpec(s: string, lo: nat, j: nat)
    requires lo <= j <= |s|
    ensures forall k :: SkipSpaceBack(s, lo, j) <= k < j ==> IsSpace(s[k])
    ensures SkipSpaceBack(s, lo, j) > lo ==> !IsSpace(s[SkipSpaceBack(s, lo, j) - 1])
    decreases j
  {
    if j > lo && IsSpace(s[j - 1]) {
      SkipSpaceBackSpec(s, lo, j - 1);
    }
  }

  /** Where the text that `trim` keeps of `s[lo..hi]` starts and ends, as indices of `s`. */
  function TrimLo(s: string, lo: nat, hi: nat): nat
    requires lo <= hi <= |s|
  {
    SkipSpace(s, lo, hi)
  }

  function TrimHi(s: string, lo: nat, hi: nat): nat
    requires lo <= hi <= |s|
  {
    SkipSpaceBack(s, TrimLo(s, lo, hi), hi)
  }

  /** `s.slice(lo, hi).trim()`, taken from `s` itself. */
  function TrimRange(s: string, lo: nat, hi: nat): (r: string)
    requires lo <= hi <= |s|
    ensures |r| <= hi - lo
  {
    s[TrimLo(s, lo, hi)..TrimHi(s, lo, hi)]
  }

  /** `s.trim()`: white space removed from both ends. */
  function Trim(s: string): (r: string)
    ensures |r| <= |s|
  {
    TrimRange(s, 0, |s|)
  }

  /** What `trim` removes from `s[lo..hi]` is white space, and what it keeps starts and
      ends with a character that is not. */
  lemma TrimRangeSpec(s: string, lo: nat, hi: nat)
    requires lo <= hi <= |s|
    ensures forall k :: lo <= k < TrimLo(s, lo, hi) ==> IsSpace(s[k])
    ensures forall k :: TrimHi(s, lo, hi) <= k < hi ==> IsSpace(s[k])
    ensures TrimLo(s, lo, hi) < hi ==> TrimLo(s, lo, hi) < TrimHi(s, lo, hi)
    ensures TrimLo(s, lo, hi) < TrimHi(s, lo, hi) ==>
      !IsSpace(s[TrimLo(s, lo, hi)]) && !IsSpace(s[TrimHi(s, lo, hi) - 1])
  {
    SkipSpaceSpec(s, lo, hi);
    SkipSpaceBackSpec(s, TrimLo(s, lo, hi), hi);
  }

  /** `trim` leaves neither end white. */
  lemma TrimRangeTrimmed(s: string, lo: nat, hi: nat)
    requires lo <= hi <= |s|
    ensures IsTrimmed(TrimRange(s, lo, hi))
  {
    TrimRangeSpec(s, lo, hi);
    var r := TrimRange(s, lo, hi);
    if r != [] {
      assert r[0] == s[TrimLo(s, lo, hi)] && r[|r| - 1] == s[TrimHi(s, lo, hi) - 1];
    }
  }

  /** `trim` leaves nothing exactly when the range is all white space. */
  lemma TrimRangeEmpty(s: string, lo: nat, hi: nat)
    requires lo <= hi <= |s|
    ensures TrimRange(s, lo, hi) == [] <==> forall k :: lo <= k < hi ==> IsSpace(s[k])
  {
    TrimRangeSpec(s, lo, hi);
  }

  /** Trimming the range `[lo, hi)` of `s` is trimming the slice `s[lo..hi]`. */
  lemma TrimRangeSlice(s: string, lo: nat, hi: nat)
    requires lo <= hi <= |s|
    ensures TrimRange(s, lo, hi) == Trim(s[lo..hi])
  {
    var t := s[lo..hi];
    var a := TrimLo(t, 0, |t|);
    var b := TrimHi(t, 0, |t|);
    SkipSpaceShift(s, t, lo, hi, 0);
    assert TrimLo(s, lo, hi) == lo + a;
    SkipSpaceBackShift(s, t, lo, hi, a, |t|);
    assert TrimHi(s, lo, hi) == lo + b;
    SliceOfSlice(s, t, lo, hi, a, b);
  }

  lemma SliceOfSlice(s: string, t: string, lo: nat, hi: nat, a: nat, b: nat)
    requires lo <= hi <= |s| && t == s[lo..hi] && a <= b <= |t|
    ensures t[a..b] == s[lo + a..lo + b]
  {
    forall k | 0 <= k < b - a ensures t[a..b][k] == s[lo + a..lo + b][k] {
      assert t[a + k] == s[lo + a + k];
    }
  }

  lemma {:induction false} SkipSpaceShift(s: string, t: string, lo: nat, hi: nat, i: nat)
    requires lo <= hi <= |s| && t == s[lo..hi] && i <= |t|
    ensures SkipSpace(s, lo + i, hi) == lo + SkipSpace(t, i, |t|)
    decreases |t| - i
  {
    assert lo + |t| == hi;
    if i < |t| {
      assert t[i] == s[lo + i];
      if IsSpace(s[lo + i]) {
        SkipSpaceShift(s, t, lo, hi, i + 1);
      }
    }
  }

  lemma {:induction false} SkipSpaceBackShift(s: string, t: string, lo: nat, hi: nat, a: nat, j: nat)
    requires lo <= hi <= |s| && t == s[lo..hi] && a <= j <= |t|
    ensures SkipSpaceBack(s, lo + a, lo + j) == lo + SkipSpaceBack(t, a, j)
    decreases j
  {
    if a < j {
      assert t[j - 1] == s[lo + j - 1];
      if IsSpace(s[lo + j - 1]) {
        SkipSpaceBackShift(s, t, lo, hi, a, j - 1);
      }
    }
  }

  /** Where the text `trim` keeps of `s` starts and ends. */
  function TrimStart(s: string): nat {
    TrimLo(s, 0, |s|)
  }

  function TrimEnd(s: string): nat {
    TrimHi(s, 0, |s|)
  }

  lemma TrimSpec(s: string)
    ensures Trim(s) == s[TrimStart(s)..TrimEnd(s)]
    ensures forall k :: 0 <= k < TrimStart(s) ==> IsSpace(s[k])
    ensures forall k :: TrimEnd(s) <= k < |s| ==> IsSpace(s[k])
    ensures TrimStart(s) < |s| ==> TrimStart(s) < TrimEnd(s)
    ensures TrimStart(s) < TrimEnd(s) ==> !IsSpace(s[TrimStart(s)]) && !IsSpace(s[TrimEnd(s) - 1])
  {
    TrimRangeSpec(s, 0, |s|);
  }

  /** `trim` leaves neither end white, and leaves alone a string with neither end white. */
  lemma TrimTrimmed(s: string)
    ensures IsTrimmed(Trim(s))
    ensures IsTrimmed(s) ==> Trim(s) == s
  {
    TrimRangeTrimmed(s, 0, |s|);
    TrimRangeSpec(s, 0, |s|);
  }

  /** `trim` leaves nothing exactly when the string is all white space. */
  lemma TrimEmpty(s: string)
    ensures Trim(s) == [] <==> AllSpace(s)
  {
    TrimRangeEmpty(s, 0, |s|);
  }

  /** Text without white space is left alone by `trim`. */
  lemma NoSpaceTrimmed(s: string)
    requires NoSpace(s)
    ensures IsTrimmed(s) && Trim(s) == s
  {
    if s != [] {
      assert !IsSpace(s[0]) && !IsSpace(s[|s| - 1]);
    }
    TrimTrimmed(s);
  }

  /** A range without white space is left alone by `trim`. */
  lemma NoSpaceTrimRange(s: string, lo: nat, hi: nat)
    requires lo <= hi <= |s| && NoSpace(s)
    ensures TrimRange(s, lo, hi) == s[lo..hi]
  {
    if lo < hi {
      assert !IsSpace(s[lo]) && !IsSpace(s[hi - 1]);
    }
    TrimRangeSpec(s, lo, hi);
  }

  /** `pat` occurs in `s` starting at index `i`. */
  predicate OccursAt(s: string, pat: string, i: int) {
    0 <= i && i + |pat| <= |s| && s[i..i + |pat|] == pat
  }

  /** The right-most occurrence of `pat` starting strictly before `k`, or -1. */
  function LastIndexBefore(s: string, pat: string, k: int): (r: int)
    requires k <= |s| - |pat| + 1
    ensures r == -1 || 0 <= r < k
    decreases k, 0
  {
    if k <= 0 then -1 else LastIndexAtOrBefore(s, pat, k - 1)
  }

  /** The right-most occurrence of `pat` starting at or before `j`, or -1. */
  function LastIndexAtOrBefore(s: string, pat: string, j: nat): (r: int)
    requires j <= |s| - |pat|
    ensures r == -1 || 0 <= r <= j
    decreases j, 1
  {
    if OccursAt(s, pat, j) then j else LastIndexBefore(s, pat, j)
  }

  lemma {:induction false} LastIndexBeforeSpec(s: string, pat: string, k: int)
    requires k <= |s| - |pat| + 1
    ensures var r := LastIndexBefore(s, pat, k);
      && (r == -1 || OccursAt(s, pat, r))
      && forall i :: r < i < k ==> !OccursAt(s, pat, i)
    decreases k
  {
    if k > 0 && !OccursAt(s, pat, k - 1) {
      LastIndexBeforeSpec(s, pat, k - 1);
    }
  }

  /** `s.lastIndexOf(pat)`: the right-most index at which `pat` occurs in `s`, or -1. */
  function LastIndexOf(s: string, pat: string): (r: int)
    ensures r == -1 || 0 <= r <= |s| - |pat|
  {
    LastIndexBefore(s, pat, |s| - |pat| + 1)
  }

  /** `lastIndexOf` finds an occurrence, and no occurrence lies to its right. */
  lemma LastIndexOfSpec(s: string, pat: string)
    ensures LastIndexOf(s, pat) == -1 || OccursAt(s, pat, LastIndexOf(s, pat))
    ensures forall i :: LastIndexOf(s, pat) < i ==> !OccursAt(s, pat, i)
  {
    LastIndexBeforeSpec(s, pat, |s| - |pat| + 1);
  }

  /** `s` contains no run of three line feeds. */
  predicate NoTripleNewline(s: string) {
    forall i :: 0 <= i < |s| - 2 ==> !(s[i] == '\n' && s[i + 1] == '\n' && s[i + 2] == '\n')
  }

  lemma NoTripleNewlineSlice(s: string, i: nat, j: nat)
    requires i <= j <= |s|
    requires NoTripleNewline(s)
    ensures NoTripleNewline(s[i..j])
  {
    var t := s[i..j];
    forall k | 0 <= k < |t| - 2
      ensures !(t[k] == '\n' && t[k + 1] == '\n' && t[k + 2] == '\n')
    {
      assert t[k] == s[i + k] && t[k + 1] == s[i + k + 1] && t[k + 2] == s[i + k + 2];
    }
  }
}
