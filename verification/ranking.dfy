/**
  The descending, stable sort that both the BM25 scorer and the LLM re-ranker apply to
  (index, score) pairs: JavaScript's `Array.prototype.sort` with the comparator
  `(a, b) => b.score - a.score`, which is stable, so equal scores keep their input order.
*/
module Ranking {

  /** An entry of a ranked list: a position in the caller's list and its score. */
  datatype Scored = Scored(index: nat, score: real)

  /** `a` belongs before `b`: a higher score, or the same score and an earlier position. */
  predicate Precedes(a: Scored, b: Scored) {
    a.score > b.score || (a.score == b.score && a.index < b.index)
  }

  /** Descending by score, ties in ascending position. */
  predicate RankOrdered(s: seq<Scored>) {
    forall i, j :: 0 <= i < j < |s| ==> Precedes(s[i], s[j])
  }

  /** Strictly ascending positions: the order in which the source builds its lists. */
  predicate IndexOrdered(s: seq<Scored>) {
    forall i, j :: 0 <= i < j < |s| ==> s[i].index < s[j].index
  }

  /** Puts `x` in front of the first entry whose score does not exceed its own. */
  function Insert(x: Scored, s: seq<Scored>): (r: seq<Scored>)
    ensures multiset(r) == multiset(s) + multiset{x}
    ensures |r| == |s| + 1
  {
    if s == [] || x.score >= s[0].score then [x] + s
    else
      assert s == [s[0]] + s[1..];
      [s[0]] + Insert(x, s[1..])
  }

  /** The stable sort into descending score (insertion sort from the back, so an entry
      is inserted in front of the later entries with an equal score). */
  function SortByScoreDesc(s: seq<Scored>): (r: seq<Scored>)
    ensures multiset(r) == multiset(s)
    ensures |r| == |s|
  {
    if s == [] then []
    else
      assert s == [s[0]] + s[1..];
      Insert(s[0], SortByScoreDesc(s[1..]))
  }

  lemma {:induction false} InsertRankOrdered(x: Scored, s: seq<Scored>)
    requires RankOrdered(s)
    requires forall k :: 0 <= k < |s| ==> x.index < s[k].index
    ensures RankOrdered(Insert(x, s))
  {
    if s == [] || x.score >= s[0].score {
      forall k | 0 <= k < |s|
        ensures Precedes(x, s[k])
      {
        if k > 0 {
          assert Precedes(s[0], s[k]);
        }
      }
    } else {
      InsertRankOrdered(x, s[1..]);
      var t := Insert(x, s[1..]);
      forall k | 0 <= k < |t|
        ensures Precedes(s[0], t[k])
      {
        assert t[k] in multiset(t);
        if t[k] != x {
          assert t[k] in multiset(s[1..]);
          var j :| 0 <= j < |s[1..]| && s[1..][j] == t[k];
          assert Precedes(s[0], s[j + 1]);
        }
      }
    }
  }

  /** Sorting a list whose positions ascend yields the stable descending order. */
  lemma {:induction false} SortRankOrdered(s: seq<Scored>)
    requires IndexOrdered(s)
    ensures RankOrdered(SortByScoreDesc(s))
  {
    if s != [] {
      SortRankOrdered(s[1..]);
      var t := SortByScoreDesc(s[1..]);
      forall k | 0 <= k < |t|
        ensures s[0].index < t[k].index
      {
        assert t[k] in multiset(s[1..]);
        var j :| 0 <= j < |s[1..]| && s[1..][j] == t[k];
        assert s[j + 1] == t[k];
      }
      InsertRankOrdered(s[0], t);
    }
  }

  /** A rank-ordered arrangement of a collection is unique: whatever stable sort the
      runtime uses, its output is the one `SortByScoreDesc` computes. */
  lemma {:induction false} RankOrderedUnique(a: seq<Scored>, b: seq<Scored>)
    requires RankOrdered(a) && RankOrdered(b)
    requires multiset(a) == multiset(b)
    ensures a == b
  {
    if a != [] {
      assert |b| == |a| by {
        assert |multiset(a)| == |multiset(b)|;
      }
      assert a[0] in multiset(b);
      assert b[0] in multiset(a);
      assert a[0] == b[0];
      assert a == [a[0]] + a[1..];
      assert b == [b[0]] + b[1..];
      assert multiset(a) == multiset{a[0]} + multiset(a[1..]);
      assert multiset(b) == multiset{b[0]} + multiset(b[1..]);
      assert multiset(a[1..]) == multiset(a) - multiset{a[0]};
      assert multiset(b[1..]) == multiset(b) - multiset{b[0]};
      RankOrderedUnique(a[1..], b[1..]);
    }
  }

  /** The positions of a ranked list, in order. */
  function Indices(s: seq<Scored>): (r: seq<nat>)
    ensures |r| == |s|
    ensures forall k :: 0 <= k < |s| ==> r[k] == s[k].index
  {
    seq(|s|, k requires 0 <= k < |s| => s[k].index)
  }

  lemma IndicesCons(x: Scored, s: seq<Scored>)
    ensures Indices([x] + s) == [x.index] + Indices(s)
  {
  }

  lemma {:induction false} InsertIndices(x: Scored, s: seq<Scored>)
    ensures multiset(Indices(Insert(x, s))) == multiset(Indices(s)) + multiset{x.index}
  {
    IndicesCons(x, s);
    if s != [] && x.score < s[0].score {
      InsertIndices(x, s[1..]);
      IndicesCons(s[0], Insert(x, s[1..]));
      IndicesCons(s[0], s[1..]);
      assert s == [s[0]] + s[1..];
    }
  }

  /** Sorting moves entries but keeps exactly the positions it was given. */
  lemma {:induction false} SortIndices(s: seq<Scored>)
    ensures multiset(Indices(SortByScoreDesc(s))) == multiset(Indices(s))
  {
    if s != [] {
      var rest := s[1..];
      assert s == [s[0]] + rest;
      SortIndices(rest);
      InsertIndices(s[0], SortByScoreDesc(rest));
      IndicesCons(s[0], rest);
      assert SortByScoreDesc(s) == Insert(s[0], SortByScoreDesc(rest));
    }
  }

  /** Sorting a list with distinct positions keeps them distinct. */
  lemma SortDistinct(s: seq<Scored>)
    requires IndexOrdered(s)
    ensures forall i, j :: 0 <= i < j < |SortByScoreDesc(s)| ==> SortByScoreDesc(s)[i].index != SortByScoreDesc(s)[j].index
  {
    var t := SortByScoreDesc(s);
    SortRankOrdered(s);
    forall i, j | 0 <= i < j < |t| ensures t[i].index != t[j].index {
      assert Precedes(t[i], t[j]);
      assert t[i] in multiset(s) && t[j] in multiset(s);
      var p :| 0 <= p < |s| && s[p] == t[i];
      var q :| 0 <= q < |s| && s[q] == t[j];
      if p < q {
        assert s[p].index < s[q].index;
      } else if q < p {
        assert s[q].index < s[p].index;
      }
    }
  }
}
