/**
  The BM25 tokenizer: `tokenize` lowercases the text, turns every character that is
  neither a letter, a digit nor white space into a space, and returns the maximal runs
  of characters that are not white space.
*/
module Tokenizer {
  import opened Text

  /** The characters `toLowerCase` changes in this model: A-Z and the upper-case letters
      of Latin-1 (U+00C0..U+00DE except the multiplication sign U+00D7). */
  predicate IsUpper(c: char) {
    ('A' <= c <= 'Z') || ('\U{C0}' <= c <= '\U{DE}' && c != '\U{D7}')
  }

  /** `toLowerCase` on one character. */
  function Lower(c: char): (r: char)
    ensures !IsUpper(r)
    ensures IsSpace(r) <==> IsSpace(c)
  {
    if IsUpper(c) then (c as int + 32) as char else c
  }

  /** \p{L} or \p{N}: exact on ASCII and Latin-1; every other character that is not
      white space counts as a letter. */
  predicate IsLetterOrDigit(c: char) {
    if c <= '\U{7F}' then ('a' <= c <= 'z') || ('A' <= c <= 'Z') || ('0' <= c <= '9')
    else if c <= '\U{FF}' then
      || c == '\U{AA}' || c == '\U{B5}' || c == '\U{BA}'
      || ('\U{C0}' <= c <= '\U{FF}' && c != '\U{D7}' && c != '\U{F7}')
      || c == '\U{B2}' || c == '\U{B3}' || c == '\U{B9}' || ('\U{BC}' <= c <= '\U{BE}')
    else !IsSpace(c)
  }

  /** The replacement of /[^\p{L}\p{N}\s]/gu by a space, on one character. */
  function Mask(c: char): (r: char)
    ensures IsLetterOrDigit(r) || IsSpace(r)
    ensures IsSpace(c) || IsLetterOrDigit(c) ==> r == c
    ensures !IsUpper(c) ==> !IsUpper(r)
  {
    if IsLetterOrDigit(c) || IsSpace(c) then c else ' '
  }

  /** The text after `toLowerCase()` and the replacement. */
  function Normalize(text: string): (r: string)
    ensures |r| == |text|
    ensures forall k :: 0 <= k < |r| ==> r[k] == Mask(Lower(text[k]))
    ensures forall k :: 0 <= k < |r| ==> (IsLetterOrDigit(r[k]) || IsSpace(r[k])) && !IsUpper(r[k])
    ensures forall k :: 0 <= k < |r| ==> (IsSpace(r[k]) <==> IsSpace(text[k]) || !IsLetterOrDigit(Lower(text[k])))
    ensures forall k :: 0 <= k < |r| && IsLetterOrDigit(Lower(text[k])) ==> r[k] == Lower(text[k])
  {
    seq(|text|, k requires 0 <= k < |text| => Mask(Lower(text[k])))
  }

  /** The end of the run of non-space characters that starts at `i`. */
  function RunEnd(s: string, i: nat): (j: nat)
    requires i <= |s|
    ensures i <= j <= |s|
    ensures forall k :: i <= k < j ==> !IsSpace(s[k])
    ensures j < |s| ==> IsSpace(s[j])
    decreases |s| - i
  {
    if i == |s| || IsSpace(s[i]) then i else RunEnd(s, i + 1)
  }

  /** `split(/\s+/)` followed by `filter(t => t.length > 0)`, from index `i` on: the
      maximal runs of non-space characters. */
  function WordsFrom(s: string, i: nat): seq<string>
    requires i <= |s|
    decreases |s| - i
  {
    if i == |s| then []
    else if IsSpace(s[i]) then WordsFrom(s, i + 1)
    else
      var j := RunEnd(s, i);
      [s[i..j]] + WordsFrom(s, j)
  }

  /** tokenize */
  function Tokenize(text: string): seq<string> {
    if text == "" then [] else WordsFrom(Normalize(text), 0)
  }

  /** A token: non-empty, lower-case, letters and digits only. */
  predicate IsToken(t: string) {
    t != [] && forall k :: 0 <= k < |t| ==> IsLetterOrDigit(t[k]) && !IsUpper(t[k])
  }

  lemma {:induction false} WordsFromShape(s: string, i: nat)
    requires i <= |s|
    requires forall k :: 0 <= k < |s| ==> (IsLetterOrDigit(s[k]) || IsSpace(s[k])) && !IsUpper(s[k])
    ensures forall w :: w in WordsFrom(s, i) ==> IsToken(w)
    decreases |s| - i
  {
    if i < |s| {
      if IsSpace(s[i]) {
        WordsFromShape(s, i + 1);
      } else {
        var j := RunEnd(s, i);
        WordsFromShape(s, j);
        assert forall k :: 0 <= k < j - i ==> s[i..j][k] == s[i + k];
      }
    }
  }

  lemma {:induction false} WordsFromBlank(s: string, i: nat)
    requires i <= |s| && AllSpace(s)
    ensures WordsFrom(s, i) == []
    decreases |s| - i
  {
    if i < |s| {
      WordsFromBlank(s, i + 1);
    }
  }

  /** Every token is non-empty, lower-case and made of letters and digits only. */
  lemma TokensAreWords(text: string)
    ensures forall t :: t in Tokenize(text) ==> IsToken(t)
  {
    if text != "" {
      WordsFromShape(Normalize(text), 0);
    }
  }

  /** The empty text and text of white space only have no tokens. */
  lemma TokenizeBlank(text: string)
    requires AllSpace(text)
    ensures Tokenize(text) == []
  {
    if text != "" {
      var s := Normalize(text);
      assert forall k :: 0 <= k < |s| ==> IsSpace(s[k]);
      WordsFromBlank(s, 0);
    }
  }

  /** The characters of a string that are not white space, in order. */
  function Squeeze(s: string): (r: string)
    ensures |r| <= |s|
  {
    if s == [] then []
    else (if IsSpace(s[0]) then [] else [s[0]]) + Squeeze(s[1..])
  }

  /** The tokens put back to back. */
  function Concat(ws: seq<string>): string {
    if ws == [] then [] else ws[0] + Concat(ws[1..])
  }

  lemma {:induction false} SqueezeRun(s: string, i: nat, j: nat)
    requires i <= j <= |s|
    requires forall k :: i <= k < j ==> !IsSpace(s[k])
    ensures Squeeze(s[i..]) == s[i..j] + Squeeze(s[j..])
    decreases j - i
  {
    if i < j {
      SqueezeRun(s, i + 1, j);
      assert s[i..][1..] == s[i + 1..];
      assert s[i..j] == [s[i]] + s[i + 1..j];
    }
  }

  lemma {:induction false} WordsFromConcat(s: string, i: nat)
    requires i <= |s|
    ensures Concat(WordsFrom(s, i)) == Squeeze(s[i..])
    decreases |s| - i
  {
    if i < |s| {
      assert s[i..][1..] == s[i + 1..];
      if IsSpace(s[i]) {
        WordsFromConcat(s, i + 1);
      } else {
        var j := RunEnd(s, i);
        WordsFromConcat(s, j);
        SqueezeRun(s, i, j);
        assert ([s[i..j]] + WordsFrom(s, j))[1..] == WordsFrom(s, j);
      }
    }
  }

  /** Nothing but white space is lost: the tokens, put back to back, are the normalised
      text with its white space removed. */
  lemma TokensCoverText(text: string)
    ensures Concat(Tokenize(text)) == Squeeze(Normalize(text))
  {
    if text != "" {
      WordsFromConcat(Normalize(text), 0);
      assert Normalize(text)[0..] == Normalize(text);
    }
  }
}
