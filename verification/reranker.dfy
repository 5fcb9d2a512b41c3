/**
  The LLM re-ranker's post-processing (`rerankWithLLM`). The generator call and
  `JSON.parse` are inputs: `reply` is what the generator produced and `parse` stands for
  `JSON.parse`. The model keeps the short-circuit for short lists, the extraction of the
  JSON array from the reply, the validated score map, the stable sort with -1 for
  unscored documents, the `topK` cut and the fallback to the original order.
*/
module Reranker {
  import opened Wrappers
  import opened Text
  import opened Ranking

  /** A retrieved chunk as the re-ranker receives and returns it. */
  datatype RankedDocument = RankedDocument(content: string, source: Option<string>, similarity: real)

  /** What the generator call produced: it threw (an API or network error, or the
      five-second time-out), or it returned a text. */
  datatype Reply = Failed | Replied(text: string)

  /** An element of the array `JSON.parse` returned. Reading a field of `null` throws;
      any other value has an `index` and a `score` field that is a number (`Some`) or
      anything else: absent, a string, an object (`None`). */
  datatype Item = NullItem | Item(index: Option<real>, score: Option<real>)

  /** What `JSON.parse` made of the extracted text. The text starts with `[` and ends with
      `]`, so a successful parse is an array. */
  datatype Parsed = ParseError | Array(items: seq<Item>)

  // ---------------------------------------------------------------------------
  // Extracting the JSON array from the reply
  // ---------------------------------------------------------------------------

  /** The position of the first `c` in `s` at or after `i`, or `|s|` when there is none. */
  function FirstIndexFrom(s: string, c: char, i: nat): (r: nat)
    requires i <= |s|
    ensures i <= r <= |s|
    ensures r < |s| ==> s[r] == c
    ensures forall k :: i <= k < r ==> s[k] != c
    decreases |s| - i
  {
    if i == |s| || s[i] == c then i else FirstIndexFrom(s, c, i + 1)
  }

  /** `text.match(/\[[\s\S]*\]/)`: the leftmost match starts at the first `[` and, the
      star being greedy, ends at the last `]`; there is none unless a `]` follows a `[`. */
  function ExtractArray(text: string): Option<string> {
    var open := FirstIndexFrom(text, '[', 0);
    var close := LastIndexOf(text, "]");
    if open < close then Some(text[open..close + 1]) else None
  }

  /** `lastIndexOf("]")` finds a `]`, and none lies to its right. */
  lemma LastBracket(text: string)
    ensures LastIndexOf(text, "]") >= 0 ==> text[LastIndexOf(text, "]")] == ']'
    ensures forall k :: LastIndexOf(text, "]") < k < |text| ==> text[k] != ']'
  {
    var close := LastIndexOf(text, "]");
    LastIndexOfSpec(text, "]");
    forall k | close < k < |text|
      ensures text[k] != ']'
    {
      assert !OccursAt(text, "]", k);
      assert text[k..k + 1] == [text[k]];
    }
    if close >= 0 {
      assert text[close..close + 1] == [text[close]];
    }
  }

  /** The extraction fails exactly when no `]` comes after a `[`. */
  lemma ExtractArrayNone(text: string)
    ensures ExtractArray(text).None? <==>
      forall i, j :: 0 <= i < j < |text| ==> !(text[i] == '[' && text[j] == ']')
  {
    var open := FirstIndexFrom(text, '[', 0);
    var close := LastIndexOf(text, "]");
    LastBracket(text);
    if close <= open {
      forall i, j | 0 <= i < j < |text|
        ensures !(text[i] == '[' && text[j] == ']')
      {
        assert text[i] == '[' ==> open <= i;
        assert text[j] == ']' ==> j <= close;
      }
    }
  }

  /** A successful extraction is the slice from the first `[` to the last `]`. */
  lemma ExtractArraySome(text: string)
    ensures ExtractArray(text).Some? ==>
      exists lo, hi :: 0 <= lo < hi < |text| && ExtractArray(text).value == text[lo..hi + 1]
        && text[lo] == '[' && text[hi] == ']'
        && (forall k :: 0 <= k < lo ==> text[k] != '[')
        && (forall k :: hi < k < |text| ==> text[k] != ']')
  {
    var open := FirstIndexFrom(text, '[', 0);
    var close := LastIndexOf(text, "]");
    LastBracket(text);
    if open < close {
      assert ExtractArray(text).value == text[open..close + 1];
    }
  }

  // ---------------------------------------------------------------------------
  // The score map
  // ---------------------------------------------------------------------------

  /** The loop's test: a numeric `index` in `[0, n)` and a numeric `score`. */
  predicate Accepted(item: Item, n: nat) {
    item.Item? && item.index.Some? && item.score.Some? && 0.0 <= item.index.value < n as real
  }

  /** The score map once the loop has visited `items[..j]`: each accepted element sets
      its index to its score; `None` once the loop has read a field of a `null`. */
  function ScoreMapUpTo(items: seq<Item>, n: nat, j: nat): Option<map<real, real>>
    requires j <= |items|
  {
    if j == 0 then Some(map[])
    else match ScoreMapUpTo(items, n, j - 1)
      case None => None
      case Some(m) =>
        if items[j - 1].NullItem? then None
        else if Accepted(items[j - 1], n) then Some(m[items[j - 1].index.value := items[j - 1].score.value])
        else Some(m)
  }

  /** The loop throws exactly when one of the elements it visited is `null`. */
  lemma {:induction false} ScoreMapNone(items: seq<Item>, n: nat, j: nat)
    requires j <= |items|
    ensures ScoreMapUpTo(items, n, j).None? <==> exists p :: 0 <= p < j && items[p].NullItem?
  {
    if j > 0 {
      ScoreMapNone(items, n, j - 1);
    }
  }

  /** Element `p` is the last of `items[..j]` that the loop accepts for its index. */
  predicate LastFor(items: seq<Item>, n: nat, j: nat, p: nat)
    requires j <= |items|
  {
    p < j && Accepted(items[p], n)
    && forall q :: p < q < j && Accepted(items[q], n) ==> items[q].index.value != items[p].index.value
  }

  /** The map holds exactly the indices of accepted elements, all in `[0, n)`, and each
      maps to the score of the last accepted element with that index. */
  lemma {:induction false} ScoreMapContents(items: seq<Item>, n: nat, j: nat)
    requires j <= |items|
    requires ScoreMapUpTo(items, n, j).Some?
    ensures forall key :: key in ScoreMapUpTo(items, n, j).value ==> 0.0 <= key < n as real
    ensures forall key :: key in ScoreMapUpTo(items, n, j).value <==>
      exists p :: 0 <= p < j && Accepted(items[p], n) && items[p].index.value == key
    ensures forall p :: 0 <= p < j && LastFor(items, n, j, p) ==>
      ScoreMapUpTo(items, n, j).value[items[p].index.value] == items[p].score.value
  {
    if j > 0 {
      ScoreMapContents(items, n, j - 1);
      var m0 := ScoreMapUpTo(items, n, j - 1).value;
      var m := ScoreMapUpTo(items, n, j).value;
      forall p | 0 <= p < j && LastFor(items, n, j, p)
        ensures m[items[p].index.value] == items[p].score.value
      {
        if p < j - 1 {
          assert LastFor(items, n, j - 1, p);
        }
      }
      forall key | key in m
        ensures exists p :: 0 <= p < j && Accepted(items[p], n) && items[p].index.value == key
      {
        if !(key in m0) {
          assert Accepted(items[j - 1], n) && items[j - 1].index.value == key;
        }
      }
    }
  }

  /** The `for … of` loop that fills `scoreMap`; `None` where reading `item.index` of a
      `null` element throws. */
  method BuildScoreMap(items: seq<Item>, n: nat) returns (scoreMap: Option<map<real, real>>)
    ensures scoreMap == ScoreMapUpTo(items, n, |items|)
  {
    var m: map<real, real> := map[];
    for j := 0 to |items|
      invariant ScoreMapUpTo(items, n, j) == Some(m)
    {
      var item := items[j];
      if item.NullItem? {
        ScoreMapNone(items, n, |items|);
        return None;
      }
      if Accepted(item, n) {
        m := m[item.index.value := item.score.value];
      }
    }
    return Some(m);
  }

  // ---------------------------------------------------------------------------
  // Reordering
  // ---------------------------------------------------------------------------

  /** `scoreMap.get(i) ?? -1`: the score of document `i`, -1 when the map has none. */
  function ScoreOf(scoreMap: map<real, real>, i: nat): real {
    if i as real in scoreMap then scoreMap[i as real] else -1.0
  }

  /** `documents.map((doc, i) => ({ doc, score }))`, each document standing as its position. */
  function Keyed(scoreMap: map<real, real>, n: nat): (r: seq<Scored>)
    ensures |r| == n
    ensures forall k :: 0 <= k < n ==> r[k] == Scored(k, ScoreOf(scoreMap, k))
  {
    seq(n, k requires 0 <= k < n => Scored(k, ScoreOf(scoreMap, k)))
  }

  /** The positions after `.sort((a, b) => b.score - a.score)`. */
  function Ranked(scoreMap: map<real, real>, n: nat): seq<Scored> {
    SortByScoreDesc(Keyed(scoreMap, n))
  }

  /** The sorted list is the `n` positions, each carrying its own score. */
  lemma RankedEntries(scoreMap: map<real, real>, n: nat)
    ensures |Ranked(scoreMap, n)| == n
    ensures forall k :: 0 <= k < n ==>
      Ranked(scoreMap, n)[k].index < n && Ranked(scoreMap, n)[k].score == ScoreOf(scoreMap, Ranked(scoreMap, n)[k].index)
  {
    var keyed := Keyed(scoreMap, n);
    var r := Ranked(scoreMap, n);
    forall k | 0 <= k < n
      ensures r[k].index < n && r[k].score == ScoreOf(scoreMap, r[k].index)
    {
      assert r[k] in multiset(keyed);
      var j :| 0 <= j < n && keyed[j] == r[k];
    }
  }

  /** Every position appears exactly once in the sorted list. */
  lemma RankedPermutation(scoreMap: map<real, real>, n: nat)
    ensures forall i, j :: 0 <= i < j < |Ranked(scoreMap, n)| ==> Ranked(scoreMap, n)[i].index != Ranked(scoreMap, n)[j].index
    ensures forall i :: 0 <= i < n ==> Scored(i, ScoreOf(scoreMap, i)) in Ranked(scoreMap, n)
  {
    var keyed := Keyed(scoreMap, n);
    var r := Ranked(scoreMap, n);
    SortDistinct(keyed);
    forall i | 0 <= i < n
      ensures Scored(i, ScoreOf(scoreMap, i)) in r
    {
      assert keyed[i] in multiset(r);
    }
  }

  /** The sort is stable and descending: a higher score first, equal scores in their
      original order. */
  lemma RankedOrdered(scoreMap: map<real, real>, n: nat)
    ensures RankOrdered(Ranked(scoreMap, n))
  {
    SortRankOrdered(Keyed(scoreMap, n));
  }

  /** All positions of `order` are within `n`. */
  predicate Within(order: seq<Scored>, n: nat) {
    forall e :: e in order ==> e.index < n
  }

  /** `.map(({ doc }) => doc)`: the documents at the ranked positions. */
  function Pick(documents: seq<RankedDocument>, order: seq<Scored>): (r: seq<RankedDocument>)
    requires Within(order, |documents|)
    ensures |r| == |order|
    ensures forall k :: 0 <= k < |order| ==> r[k] == documents[order[k].index]
  {
    seq(|order|, k requires 0 <= k < |order| => documents[order[k].index])
  }

  lemma PickCons(documents: seq<RankedDocument>, x: Scored, order: seq<Scored>)
    requires Within([x] + order, |documents|)
    ensures Within(order, |documents|)
    ensures Pick(documents, [x] + order) == [documents[x.index]] + Pick(documents, order)
  {
    assert forall e :: e in order ==> e in [x] + order;
  }

  lemma InsertWithin(x: Scored, order: seq<Scored>, n: nat)
    requires x.index < n && Within(order, n)
    ensures Within(Insert(x, order), n)
  {
    var r := Insert(x, order);
    forall e | e in r
      ensures e.index < n
    {
      assert e in multiset(r);
    }
  }

  lemma {:induction false} PickInsert(documents: seq<RankedDocument>, x: Scored, order: seq<Scored>)
    requires x.index < |documents| && Within(order, |documents|)
    ensures Within(Insert(x, order), |documents|)
    ensures multiset(Pick(documents, Insert(x, order))) == multiset(Pick(documents, order)) + multiset{documents[x.index]}
  {
    InsertWithin(x, order, |documents|);
    if order == [] || x.score >= order[0].score {
      PickCons(documents, x, order);
    } else {
      var rest := order[1..];
      assert order == [order[0]] + rest;
      PickCons(documents, order[0], rest);
      PickInsert(documents, x, rest);
      var t := Insert(x, rest);
      assert Insert(x, order) == [order[0]] + t;
      PickCons(documents, order[0], t);
      assert multiset(Pick(documents, Insert(x, order))) == multiset{documents[order[0].index]} + multiset(Pick(documents, t));
    }
  }

  lemma {:induction false} PickSort(documents: seq<RankedDocument>, order: seq<Scored>)
    requires Within(order, |documents|)
    ensures Within(SortByScoreDesc(order), |documents|)
    ensures multiset(Pick(documents, SortByScoreDesc(order))) == multiset(Pick(documents, order))
  {
    if order != [] {
      assert order == [order[0]] + order[1..];
      PickCons(documents, order[0], order[1..]);
      PickSort(documents, order[1..]);
      PickInsert(documents, order[0], SortByScoreDesc(order[1..]));
    }
  }

  /** The reranked documents before the cut. */
  function Reorder(documents: seq<RankedDocument>, scoreMap: map<real, real>): (r: seq<RankedDocument>)
    ensures |r| == |documents|
  {
    RankedEntries(scoreMap, |documents|);
    Pick(documents, Ranked(scoreMap, |documents|))
  }

  /** Re-ranking only moves documents: the same records, each as often as before. */
  lemma ReorderPermutation(documents: seq<RankedDocument>, scoreMap: map<real, real>)
    ensures multiset(Reorder(documents, scoreMap)) == multiset(documents)
  {
    var keyed := Keyed(scoreMap, |documents|);
    PickSort(documents, keyed);
    assert Pick(documents, keyed) == documents;
  }

  /** Document `k` of the reranked list is the document at ranked position `k`: ordered by
      descending score, equal scores in their original order. */
  lemma ReorderRanked(documents: seq<RankedDocument>, scoreMap: map<real, real>)
    ensures forall k :: 0 <= k < |documents| ==>
      Ranked(scoreMap, |documents|)[k].index < |documents|
      && Reorder(documents, scoreMap)[k] == documents[Ranked(scoreMap, |documents|)[k].index]
    ensures forall p, q :: 0 <= p < q < |documents| ==>
      var i, j := Ranked(scoreMap, |documents|)[p].index, Ranked(scoreMap, |documents|)[q].index;
      ScoreOf(scoreMap, i) > ScoreOf(scoreMap, j) || (ScoreOf(scoreMap, i) == ScoreOf(scoreMap, j) && i < j)
  {
    RankedEntries(scoreMap, |documents|);
    RankedOrdered(scoreMap, |documents|);
  }

  // ---------------------------------------------------------------------------
  // rerankWithLLM
  // ---------------------------------------------------------------------------

  /** Where `slice(0, topK)` ends on a list of length `len`, for any integer `topK`
      (a negative one counts from the end). */
  function SliceEnd(len: nat, topK: int): (e: nat)
    ensures e <= len
  {
    if topK < 0 then (if len + topK < 0 then 0 else len + topK)
    else if topK < len then topK else len
  }

  /** `documents.slice(0, topK)`. */
  function Take(documents: seq<RankedDocument>, topK: int): seq<RankedDocument> {
    documents[..SliceEnd(|documents|, topK)]
  }

  /** `options?.topK ?? documents.length`. */
  function TopK(topK: Option<int>, n: nat): int {
    if topK.Some? then topK.value else n
  }

  /** The score map the `try` block builds for `n` documents, or `None` where it returns
      the original order: the generator threw, the reply holds no `[ … ]`, `JSON.parse`
      threw, or an element of the array is `null`. */
  function ScoreMapOf(n: nat, reply: Reply, parse: string -> Parsed): Option<map<real, real>> {
    if reply.Failed? then None
    else match ExtractArray(reply.text)
      case None => None
      case Some(json) =>
        match parse(json)
        case ParseError => None
        case Array(items) => ScoreMapUpTo(items, n, |items|)
  }

  /** `rerankWithLLM` as a function of the generator's reply. */
  function Rerank(documents: seq<RankedDocument>, topK: Option<int>, reply: Reply, parse: string -> Parsed): seq<RankedDocument> {
    var k := TopK(topK, |documents|);
    if |documents| <= 2 then Take(documents, k)
    else match ScoreMapOf(|documents|, reply, parse)
      case None => Take(documents, k)
      case Some(scoreMap) => Take(Reorder(documents, scoreMap), k)
  }

  /** rerankWithLLM, step by step. */
  method RerankWithLLM(documents: seq<RankedDocument>, topK: Option<int>, reply: Reply, parse: string -> Parsed)
    returns (result: seq<RankedDocument>)
    ensures result == Rerank(documents, topK, reply, parse)
  {
    var k := if topK.Some? then topK.value else |documents|;
    if |documents| <= 2 {
      return Take(documents, k);
    }
    if reply.Failed? {
      return Take(documents, k);
    }
    var jsonMatch := ExtractArray(reply.text);
    if jsonMatch.None? {
      return Take(documents, k);
    }
    var parsed := parse(jsonMatch.value);
    if parsed.ParseError? {
      return Take(documents, k);
    }
    var scoreMap := BuildScoreMap(parsed.items, |documents|);
    if scoreMap.None? {
      return Take(documents, k);
    }
    result := Take(Reorder(documents, scoreMap.value), k);
  }

  // ---------------------------------------------------------------------------
  // Properties
  // ---------------------------------------------------------------------------

  /** The output has `min(topK, |documents|)` entries for a non-negative `topK`, and all
      of them without one, whatever the generator replies. */
  lemma RerankLength(documents: seq<RankedDocument>, topK: Option<int>, reply: Reply, parse: string -> Parsed)
    ensures topK.None? ==> |Rerank(documents, topK, reply, parse)| == |documents|
    ensures topK.Some? && 0 <= topK.value ==>
      |Rerank(documents, topK, reply, parse)| == if topK.value < |documents| then topK.value else |documents|
    ensures topK.Some? && topK.value < 0 ==>
      |Rerank(documents, topK, reply, parse)| == if |documents| + topK.value < 0 then 0 else |documents| + topK.value
  {
  }

  /** Two documents or fewer are returned as they are, cut to `topK`, and the reply plays
      no part: the generator is never asked. */
  lemma RerankShort(documents: seq<RankedDocument>, topK: Option<int>, reply: Reply, parse: string -> Parsed,
                    reply': Reply, parse': string -> Parsed)
    requires |documents| <= 2
    ensures Rerank(documents, topK, reply, parse) == Rerank(documents, topK, reply', parse')
    ensures Rerank(documents, topK, reply, parse) == documents[..|Rerank(documents, topK, reply, parse)|]
    ensures documents == [] ==> Rerank(documents, topK, reply, parse) == []
  {
  }

  /** A failed generator call, a reply with no JSON array, a parse error or a `null`
      element all give the original order, cut to `topK`. */
  lemma RerankFallback(documents: seq<RankedDocument>, topK: Option<int>, reply: Reply, parse: string -> Parsed)
    requires || reply.Failed?
             || ExtractArray(reply.text).None?
             || parse(ExtractArray(reply.text).value).ParseError?
             || exists p :: 0 <= p < |parse(ExtractArray(reply.text).value).items| && parse(ExtractArray(reply.text).value).items[p].NullItem?
    ensures Rerank(documents, topK, reply, parse) == documents[..|Rerank(documents, topK, reply, parse)|]
    ensures Rerank(documents, topK, reply, parse) == Take(documents, TopK(topK, |documents|))
  {
    if !reply.Failed? && ExtractArray(reply.text).Some? {
      var parsed := parse(ExtractArray(reply.text).value);
      if parsed.Array? {
        ScoreMapNone(parsed.items, |documents|, |parsed.items|);
      }
    }
  }

  /** With a score map, the output is the reranked list cut to `topK`: a prefix holding
      the best-scored documents, each scoring at least as high as every document cut. */
  lemma RerankTopK(documents: seq<RankedDocument>, topK: Option<int>, reply: Reply, parse: string -> Parsed)
    requires |documents| > 2 && ScoreMapOf(|documents|, reply, parse).Some?
    ensures var scoreMap := ScoreMapOf(|documents|, reply, parse).value;
      Rerank(documents, topK, reply, parse) == Reorder(documents, scoreMap)[..|Rerank(documents, topK, reply, parse)|]
    ensures var scoreMap := ScoreMapOf(|documents|, reply, parse).value;
      var order := Ranked(scoreMap, |documents|);
      forall p, q :: 0 <= p < |Rerank(documents, topK, reply, parse)| <= q < |order| ==>
        ScoreOf(scoreMap, order[p].index) >= ScoreOf(scoreMap, order[q].index)
  {
    var scoreMap := ScoreMapOf(|documents|, reply, parse).value;
    RankedEntries(scoreMap, |documents|);
    RankedOrdered(scoreMap, |documents|);
  }

  lemma TakeSubmultiset(s: seq<RankedDocument>, topK: int)
    ensures multiset(Take(s, topK)) <= multiset(s)
  {
    var e := SliceEnd(|s|, topK);
    assert s == s[..e] + s[e..];
  }

  /** In every branch the output is drawn from the input records, unchanged, none more
      often than it was given. */
  lemma RerankRecords(documents: seq<RankedDocument>, topK: Option<int>, reply: Reply, parse: string -> Parsed)
    ensures multiset(Rerank(documents, topK, reply, parse)) <= multiset(documents)
  {
    var k := TopK(topK, |documents|);
    if |documents| > 2 && ScoreMapOf(|documents|, reply, parse).Some? {
      var scoreMap := ScoreMapOf(|documents|, reply, parse).value;
      ReorderPermutation(documents, scoreMap);
      TakeSubmultiset(Reorder(documents, scoreMap), k);
    } else {
      TakeSubmultiset(documents, k);
    }
  }
}
