/**
  Okapi BM25 scoring of a query against a list of documents (`computeBM25Scores`):
  document frequencies over the tokenised documents, a term-frequency map per document,
  the sum of idf * normalised tf over the query terms, the documents with a positive
  score, sorted by descending score.
*/
module Bm25 {
  import opened Text
  import opened Tokenizer
  import opened Ranking

  const DefaultK1: real := 1.5
  const DefaultB: real := 0.75

  /** The tuning under which every matching term adds a positive amount. */
  predicate ValidTuning(k1: real, b: real) {
    k1 >= 0.0 && 0.0 <= b <= 1.0
  }

  lemma DefaultTuningValid()
    ensures ValidTuning(DefaultK1, DefaultB)
  {
  }

  /** What BM25 needs of `Math.log`: it is positive above 1. */
  ghost predicate IsLog(ln: real -> real) {
    forall x: real :: x > 1.0 ==> ln(x) > 0.0
  }

  /** `m.get(key) ?? 0` */
  function Get(m: map<string, nat>, key: string): nat {
    if key in m then m[key] else 0
  }

  // ---------------------------------------------------------------------------------
  // Counts
  // ---------------------------------------------------------------------------------

  /** The number of documents whose tokens include `term`. */
  function DocFreq(docs: seq<seq<string>>, term: string): (n: nat)
    ensures n <= |docs|
  {
    if docs == [] then 0
    else DocFreq(docs[..|docs| - 1], term) + (if term in docs[|docs| - 1] then 1 else 0)
  }

  /** A term that occurs in some document has a document frequency between 1 and N. */
  lemma {:induction false} DocFreqBounds(docs: seq<seq<string>>, term: string, i: nat)
    requires i < |docs| && term in docs[i]
    ensures 1 <= DocFreq(docs, term) <= |docs|
  {
    if i < |docs| - 1 {
      DocFreqBounds(docs[..|docs| - 1], term, i);
    }
  }

  /** The number of occurrences of `term` among `tokens`. */
  function TermFreq(tokens: seq<string>, term: string): (n: nat)
    ensures n <= |tokens|
  {
    if tokens == [] then 0
    else TermFreq(tokens[..|tokens| - 1], term) + (if tokens[|tokens| - 1] == term then 1 else 0)
  }

  lemma {:induction false} TermFreqPositive(tokens: seq<string>, term: string)
    ensures TermFreq(tokens, term) > 0 <==> term in tokens
  {
    if tokens != [] {
      var init := tokens[..|tokens| - 1];
      TermFreqPositive(init, term);
      assert tokens == init + [tokens[|tokens| - 1]];
    }
  }

  /** The total number of tokens. */
  function TotalLength(docs: seq<seq<string>>): nat {
    if docs == [] then 0 else TotalLength(docs[..|docs| - 1]) + |docs[|docs| - 1]|
  }

  lemma {:induction false} TotalLengthBound(docs: seq<seq<string>>, i: nat)
    requires i < |docs|
    ensures |docs[i]| <= TotalLength(docs)
  {
    if i < |docs| - 1 {
      TotalLengthBound(docs[..|docs| - 1], i);
    }
  }

  // ---------------------------------------------------------------------------------
  // Scores
  // ---------------------------------------------------------------------------------

  /** The argument of the logarithm in idf = log((N - df + 0.5) / (df + 0.5) + 1). */
  function IdfArgument(n: nat, df: nat): (x: real)
    requires df <= n
    ensures x > 1.0
  {
    assert n as real - df as real + 0.5 > 0.0;
    (n as real - df as real + 0.5) / (df as real + 0.5) + 1.0
  }

  /** The BM25 term-frequency component (tf * (k1 + 1)) / (tf + k1 * (1 - b + b * dl / avgDl)). */
  function TfNorm(tf: nat, dl: nat, avgDl: real, k1: real, b: real): (r: real)
    requires ValidTuning(k1, b) && tf > 0 && avgDl > 0.0
    ensures r > 0.0
  {
    var ratio := dl as real / avgDl;
    assert ratio >= 0.0;
    assert b * ratio >= 0.0;
    var lengthNorm := 1.0 - b + b * ratio;
    assert k1 * lengthNorm >= 0.0;
    var den := tf as real + k1 * lengthNorm;
    assert tf as real * (k1 + 1.0) > 0.0;
    (tf as real * (k1 + 1.0)) / den
  }

  /** The average document length, in tokens. */
  function AverageLength(docs: seq<seq<string>>): real
    requires docs != []
  {
    TotalLength(docs) as real / |docs| as real
  }

  /** Documents that hold a token have a positive average length. */
  lemma AverageLengthPositive(docs: seq<seq<string>>, i: nat)
    requires i < |docs| && docs[i] != []
    ensures AverageLength(docs) > 0.0
  {
    TotalLengthBound(docs, i);
  }

  /** What query term `term` adds to the score of document `i`: nothing when no
      document holds the term or this one does not, else idf * tfNorm. */
  function TermScore(docs: seq<seq<string>>, i: nat, term: string, k1: real, b: real, ln: real -> real): real
    requires ValidTuning(k1, b) && i < |docs|
  {
    var df := DocFreq(docs, term);
    if df == 0 then 0.0
    else
      var tf := TermFreq(docs[i], term);
      if tf == 0 then 0.0
      else
        TermFreqPositive(docs[i], term);
        AverageLengthPositive(docs, i);
        ln(IdfArgument(|docs|, df)) * TfNorm(tf, |docs[i]|, AverageLength(docs), k1, b)
  }

  /** The score of document `i` for the query terms `terms`, summed in order. */
  function DocScore(docs: seq<seq<string>>, i: nat, terms: seq<string>, k1: real, b: real, ln: real -> real): real
    requires ValidTuning(k1, b) && i < |docs|
  {
    if terms == [] then 0.0
    else DocScore(docs, i, terms[..|terms| - 1], k1, b, ln) + TermScore(docs, i, terms[|terms| - 1], k1, b, ln)
  }

  /** A term adds a positive amount to a document that holds it, and nothing otherwise. */
  lemma TermScoreSign(docs: seq<seq<string>>, i: nat, term: string, k1: real, b: real, ln: real -> real)
    requires ValidTuning(k1, b) && IsLog(ln) && i < |docs|
    ensures TermScore(docs, i, term, k1, b, ln) >= 0.0
    ensures TermScore(docs, i, term, k1, b, ln) > 0.0 <==> term in docs[i]
  {
    TermFreqPositive(docs[i], term);
    if term in docs[i] {
      DocFreqBounds(docs, term, i);
      var df := DocFreq(docs, term);
      assert ln(IdfArgument(|docs|, df)) > 0.0;
    }
  }

  /** A document scores above zero exactly when it holds one of the query terms. */
  lemma {:induction false} DocScoreSign(docs: seq<seq<string>>, i: nat, terms: seq<string>, k1: real, b: real, ln: real -> real)
    requires ValidTuning(k1, b) && IsLog(ln) && i < |docs|
    ensures DocScore(docs, i, terms, k1, b, ln) >= 0.0
    ensures DocScore(docs, i, terms, k1, b, ln) > 0.0 <==> exists t :: t in terms && t in docs[i]
  {
    if terms != [] {
      var init, last := terms[..|terms| - 1], terms[|terms| - 1];
      DocScoreSign(docs, i, init, k1, b, ln);
      TermScoreSign(docs, i, last, k1, b, ln);
      assert terms == init + [last];
      if exists t :: t in terms && t in docs[i] {
        var t :| t in terms && t in docs[i];
        if t != last {
          assert t in init;
        }
      }
    }
  }

  /** The score of every document. */
  function Scores(docs: seq<seq<string>>, terms: seq<string>, k1: real, b: real, ln: real -> real): (scores: seq<real>)
    requires ValidTuning(k1, b)
    ensures |scores| == |docs|
    ensures forall i :: 0 <= i < |docs| ==> scores[i] == DocScore(docs, i, terms, k1, b, ln)
  {
    seq(|docs|, i requires 0 <= i < |docs| => DocScore(docs, i, terms, k1, b, ln))
  }

  /** The results pushed by the scoring loop for the first `n` documents, in document
      order: those with a positive score. */
  function Hits(scores: seq<real>, n: nat): seq<Scored>
    requires n <= |scores|
  {
    if n == 0 then []
    else Hits(scores, n - 1) + (if scores[n - 1] > 0.0 then [Scored(n - 1, scores[n - 1])] else [])
  }

  /** `documents.map(tokenize)` */
  function TokenizeAll(documents: seq<string>): (docs: seq<seq<string>>)
    ensures |docs| == |documents|
    ensures forall i :: 0 <= i < |docs| ==> docs[i] == Tokenize(documents[i])
  {
    seq(|documents|, i requires 0 <= i < |documents| => Tokenize(documents[i]))
  }

  /** Every document's token list holds only tokens, and a blank document has none. */
  lemma TokenizeAllShape(documents: seq<string>)
    ensures forall i, t :: 0 <= i < |documents| && t in TokenizeAll(documents)[i] ==> IsToken(t)
    ensures forall i :: 0 <= i < |documents| && AllSpace(documents[i]) ==> TokenizeAll(documents)[i] == []
  {
    forall i | 0 <= i < |documents|
      ensures forall t :: t in TokenizeAll(documents)[i] ==> IsToken(t)
      ensures AllSpace(documents[i]) ==> TokenizeAll(documents)[i] == []
    {
      TokensAreWords(documents[i]);
      if AllSpace(documents[i]) {
        TokenizeBlank(documents[i]);
      }
    }
  }

  /** The results of `computeBM25Scores(query, documents, { k1, b })`. */
  function BM25Scores(query: string, documents: seq<string>, k1: real, b: real, ln: real -> real): seq<Scored>
    requires ValidTuning(k1, b)
  {
    if query == "" || |documents| == 0 then []
    else
      var terms := Tokenize(query);
      if terms == [] then []
      else
        var docs := TokenizeAll(documents);
        SortByScoreDesc(Hits(Scores(docs, terms, k1, b, ln), |docs|))
  }

  // ---------------------------------------------------------------------------------
  // The computation
  // ---------------------------------------------------------------------------------

  /** The document-frequency map: for each document, every distinct token (a `Set` of
      the tokens, visited in insertion order) counts once. */
  method CountDocFreq(docs: seq<seq<string>>) returns (df: map<string, nat>)
    ensures forall t :: Get(df, t) == DocFreq(docs, t)
  {
    df := map[];
    for i := 0 to |docs|
      invariant forall t :: Get(df, t) == DocFreq(docs[..i], t)
    {
      var tokens := docs[i];
      for j := 0 to |tokens|
        invariant forall t :: Get(df, t) == DocFreq(docs[..i], t) + (if t in tokens[..j] then 1 else 0)
      {
        var term := tokens[j];
        assert tokens[..j + 1] == tokens[..j] + [term];
        if term !in tokens[..j] {
          df := df[term := Get(df, term) + 1];
        }
      }
      assert tokens[..|tokens|] == tokens;
      assert docs[..i + 1][..i] == docs[..i];
    }
    assert docs[..|docs|] == docs;
  }

  /** The term-frequency map of one document. */
  method CountTermFreq(tokens: seq<string>) returns (tf: map<string, nat>)
    ensures forall t :: Get(tf, t) == TermFreq(tokens, t)
  {
    tf := map[];
    for j := 0 to |tokens|
      invariant forall t :: Get(tf, t) == TermFreq(tokens[..j], t)
    {
      var token := tokens[j];
      assert tokens[..j + 1][..j] == tokens[..j];
      tf := tf[token := Get(tf, token) + 1];
    }
    assert tokens[..|tokens|] == tokens;
  }

  /** The body of the scoring loop for document `i`: its term-frequency map, then the
      sum over the query terms, skipping terms no document holds and terms this one
      does not hold. */
  method ScoreDocument(docTokens: seq<seq<string>>, i: nat, queryTerms: seq<string>, df: map<string, nat>,
                       k1: real, b: real, ln: real -> real) returns (score: real)
    requires ValidTuning(k1, b) && i < |docTokens|
    requires forall t :: Get(df, t) == DocFreq(docTokens, t)
    ensures score == DocScore(docTokens, i, queryTerms, k1, b, ln)
  {
    var tokens := docTokens[i];
    var dl := |tokens|;
    var tf := CountTermFreq(tokens);
    score := 0.0;
    for k := 0 to |queryTerms|
      invariant score == DocScore(docTokens, i, queryTerms[..k], k1, b, ln)
    {
      var term := queryTerms[k];
      assert queryTerms[..k + 1][..k] == queryTerms[..k];
      var termDf := Get(df, term);
      if termDf == 0 {
        continue;
      }
      var termTf := Get(tf, term);
      if termTf == 0 {
        continue;
      }
      TermFreqPositive(tokens, term);
      AverageLengthPositive(docTokens, i);
      var idf := ln(IdfArgument(|docTokens|, termDf));
      var tfNorm := TfNorm(termTf, dl, AverageLength(docTokens), k1, b);
      score := score + idf * tfNorm;
    }
    assert queryTerms[..|queryTerms|] == queryTerms;
  }

  /** computeBM25Scores */
  method ComputeBM25Scores(query: string, documents: seq<string>, k1: real, b: real, ln: real -> real)
    returns (results: seq<Scored>)
    requires ValidTuning(k1, b)
    ensures results == BM25Scores(query, documents, k1, b, ln)
  {
    if query == "" || |documents| == 0 {
      return [];
    }
    var queryTerms := Tokenize(query);
    if |queryTerms| == 0 {
      return [];
    }
    var docTokens := TokenizeAll(documents);
    var df := CountDocFreq(docTokens);
    results := ScoreAll(docTokens, queryTerms, df, k1, b, ln);
    results := SortByScoreDesc(results);
  }

  /** The scoring loop: one pass per document, keeping those with a positive score. */
  method ScoreAll(docTokens: seq<seq<string>>, queryTerms: seq<string>, df: map<string, nat>,
                  k1: real, b: real, ln: real -> real) returns (results: seq<Scored>)
    requires ValidTuning(k1, b)
    requires forall t :: Get(df, t) == DocFreq(docTokens, t)
    ensures results == Hits(Scores(docTokens, queryTerms, k1, b, ln), |docTokens|)
  {
    ghost var scores := Scores(docTokens, queryTerms, k1, b, ln);
    results := [];
    for i := 0 to |docTokens|
      invariant results == Hits(scores, i)
    {
      var score := ScoreDocument(docTokens, i, queryTerms, df, k1, b, ln);
      assert score == scores[i];
      if score > 0.0 {
        results := results + [Scored(i, score)];
      }
    }
  }

  // ---------------------------------------------------------------------------------
  // Properties
  // ---------------------------------------------------------------------------------

  /** Some entry of `r` is for position `i`. */
  ghost predicate Returned(r: seq<Scored>, i: nat) {
    exists x :: x in r && x.index == i
  }

  /** The hits are in document order, each with its document's positive score. */
  lemma {:induction false} HitsShape(scores: seq<real>, n: nat)
    requires n <= |scores|
    ensures |Hits(scores, n)| <= n
    ensures IndexOrdered(Hits(scores, n))
    ensures forall k :: 0 <= k < |Hits(scores, n)| ==>
      var x := Hits(scores, n)[k]; x.index < n && x.score > 0.0 && x.score == scores[x.index]
  {
    if n > 0 {
      HitsShape(scores, n - 1);
      var prev := Hits(scores, n - 1);
      if scores[n - 1] > 0.0 {
        var h := Hits(scores, n);
        assert h == prev + [Scored(n - 1, scores[n - 1])];
        assert forall k :: 0 <= k < |prev| ==> h[k] == prev[k];
      }
    }
  }

  /** Document `i` is among the hits exactly when its score is positive. */
  lemma {:induction false} HitsReturned(scores: seq<real>, n: nat, i: nat)
    requires i < n <= |scores|
    ensures Returned(Hits(scores, n), i) <==> scores[i] > 0.0
  {
    var prev := Hits(scores, n - 1);
    var h := Hits(scores, n);
    if scores[n - 1] > 0.0 {
      assert h == prev + [Scored(n - 1, scores[n - 1])];
    } else {
      assert h == prev;
    }
    if i < n - 1 {
      HitsReturned(scores, n - 1, i);
      if scores[i] > 0.0 {
        var x :| x in prev && x.index == i;
        assert x in h;
      } else {
        forall x | x in h ensures x.index != i {
          if x in prev {
            assert !(x in prev && x.index == i);
          }
        }
      }
    } else if scores[i] > 0.0 {
      assert h[|h| - 1] == Scored(i, scores[i]);
    } else {
      HitsShape(scores, n - 1);
    }
  }

  /** `computeBM25Scores` returns nothing for an empty query, a query without tokens
      (white space only, say) or an empty document list. */
  lemma BM25Empty(query: string, documents: seq<string>, k1: real, b: real, ln: real -> real)
    requires ValidTuning(k1, b)
    requires query == "" || AllSpace(query) || documents == [] || Tokenize(query) == []
    ensures BM25Scores(query, documents, k1, b, ln) == []
  {
    if AllSpace(query) {
      TokenizeBlank(query);
    }
  }

  /** At most one result per document, each with a positive score and the index of a
      document, in descending score order with ties in ascending index order. */
  lemma BM25Shape(query: string, documents: seq<string>, k1: real, b: real, ln: real -> real)
    requires ValidTuning(k1, b)
    ensures var r := BM25Scores(query, documents, k1, b, ln);
      && |r| <= |documents|
      && (forall k :: 0 <= k < |r| ==> r[k].score > 0.0 && r[k].index < |documents|)
      && (forall i, j :: 0 <= i < j < |r| ==> r[i].index != r[j].index)
      && RankOrdered(r)
  {
    var terms := Tokenize(query);
    if query != "" && |documents| > 0 && terms != [] {
      var docs := TokenizeAll(documents);
      var h := Hits(Scores(docs, terms, k1, b, ln), |docs|);
      HitsShape(Scores(docs, terms, k1, b, ln), |docs|);
      SortRankOrdered(h);
      SortDistinct(h);
      var r := SortByScoreDesc(h);
      forall k | 0 <= k < |r| ensures r[k].score > 0.0 && r[k].index < |documents| {
        assert r[k] in multiset(h);
      }
    }
  }

  /** Document `i` shares a token with the query. */
  ghost predicate Matches(query: string, document: string) {
    exists t :: t in Tokenize(query) && t in Tokenize(document)
  }

  /** A document is among the results exactly when it holds one of the query's tokens. */
  lemma BM25Membership(query: string, documents: seq<string>, k1: real, b: real, ln: real -> real, i: nat)
    requires ValidTuning(k1, b) && IsLog(ln)
    ensures Returned(BM25Scores(query, documents, k1, b, ln), i) <==> i < |documents| && Matches(query, documents[i])
  {
    var terms := Tokenize(query);
    if query == "" {
      assert terms == [];
    } else if |documents| > 0 && terms != [] {
      var docs := TokenizeAll(documents);
      var scores := Scores(docs, terms, k1, b, ln);
      var h := Hits(scores, |docs|);
      var r := SortByScoreDesc(h);
      assert r == BM25Scores(query, documents, k1, b, ln);
      assert Returned(r, i) <==> Returned(h, i) by {
        if Returned(r, i) {
          var x :| x in r && x.index == i;
          assert x in multiset(r);
        }
        if Returned(h, i) {
          var x :| x in h && x.index == i;
          assert x in multiset(h);
        }
      }
      if i < |documents| {
        HitsReturned(scores, |docs|, i);
        DocScoreSign(docs, i, terms, k1, b, ln);
      } else {
        HitsShape(scores, |docs|);
        forall x | x in h ensures x.index < |documents| {
          var k :| 0 <= k < |h| && h[k] == x;
        }
      }
    }
  }

  /** Hence the documents returned do not depend on k1 and b, only their scores do. */
  lemma TuningIrrelevant(query: string, documents: seq<string>, k1: real, b: real, k1': real, b': real, ln: real -> real)
    requires ValidTuning(k1, b) && ValidTuning(k1', b') && IsLog(ln)
    ensures forall i: nat ::
      Returned(BM25Scores(query, documents, k1, b, ln), i) <==> Returned(BM25Scores(query, documents, k1', b', ln), i)
  {
    forall i: nat
      ensures Returned(BM25Scores(query, documents, k1, b, ln), i) <==> Returned(BM25Scores(query, documents, k1', b', ln), i)
    {
      BM25Membership(query, documents, k1, b, ln, i);
      BM25Membership(query, documents, k1', b', ln, i);
    }
  }
}
