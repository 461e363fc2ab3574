/**
 `IRmodel.getRanking`: the (document, score) items of `getScores(query)`
 sorted by score, highest first. The scores are a parameter (the scoring
 formula is not part of this model); they are taken as reals.

 Python's `sorted(..., reverse=True)` is stable: documents with equal scores
 keep the order `getScores` listed them in. The ranking here does the same,
 by a stable insertion.
 */
module Ranking {
  import opened Dict

  /** The items of a document -> score dict, in iteration order. */
  type Scores = seq<(string, real)>

  /** Scores never increase along the sequence. */
  predicate Descending(r: Scores)
  {
    forall i, j :: 0 <= i < j < |r| ==> r[i].1 >= r[j].1
  }

  /** The items scoring exactly `v`, in their order. */
  function WithScore(s: Scores, v: real): Scores
  {
    if |s| == 0 then []
    else (if s[0].1 == v then [s[0]] else []) + WithScore(s[1..], v)
  }

  /**
   Places `x` in a descending sequence ahead of every item it does not score
   below, so that among equal scores it comes first.
   */
  function Insert(x: (string, real), r: Scores): (r': Scores)
    ensures multiset(r') == multiset(r) + multiset{x}
    ensures |r'| == |r| + 1
  {
    if |r| == 0 || r[0].1 <= x.1 then [x] + r
    else
      assert r == [r[0]] + r[1..];
      [r[0]] + Insert(x, r[1..])
  }

  /**
   `getRanking`: the scored items, highest score first, equal scores in
   the order `getScores` gave them.
   */
  function GetRanking(scores: Scores): (r: Scores)
    ensures multiset(r) == multiset(scores)
    ensures |r| == |scores|
    ensures Descending(r)
  {
    if |scores| == 0 then []
    else
      var rest := GetRanking(scores[1..]);
      InsertDescending(scores[0], rest);
      assert scores == [scores[0]] + scores[1..];
      Insert(scores[0], rest)
  }

  lemma {:induction false} InsertDescending(x: (string, real), r: Scores)
    requires Descending(r)
    ensures Descending(Insert(x, r))
  {
    if |r| > 0 && r[0].1 > x.1 {
      InsertDescending(x, r[1..]);
      var tail := Insert(x, r[1..]);
      assert multiset(tail) == multiset(r[1..]) + multiset{x};
      forall j | 0 <= j < |tail| ensures r[0].1 >= tail[j].1 {
        assert tail[j] in multiset(tail);
        if tail[j] != x {
          assert tail[j] in multiset(r[1..]);
          var i :| 0 <= i < |r[1..]| && r[1..][i] == tail[j];
          assert r[i + 1] == tail[j];
        }
      }
    }
  }

  lemma {:induction false} WithScoreInsert(x: (string, real), r: Scores, v: real)
    ensures WithScore(Insert(x, r), v) == (if x.1 == v then [x] else []) + WithScore(r, v)
  {
    if |r| == 0 || r[0].1 <= x.1 {
      assert ([x] + r)[1..] == r;
    } else {
      var y := Insert(x, r[1..]);
      WithScoreInsert(x, r[1..], v);
      assert Insert(x, r) == [r[0]] + y;
      assert ([r[0]] + y)[1..] == y;
      var head := if r[0].1 == v then [r[0]] else [];
      var mid := if x.1 == v then [x] else [];
      assert WithScore(Insert(x, r), v) == head + (mid + WithScore(r[1..], v));
      assert WithScore(r, v) == head + WithScore(r[1..], v);
      assert head == [] || mid == [];
    }
  }

  /**
   The ranking is stable: the items with any one score appear in the same
   relative order as in `getScores`.
   */
  lemma {:induction false} RankingStable(scores: Scores, v: real)
    ensures WithScore(GetRanking(scores), v) == WithScore(scores, v)
  {
    if |scores| > 0 {
      RankingStable(scores[1..], v);
      WithScoreInsert(scores[0], GetRanking(scores[1..]), v);
    }
  }

  /**
   With one item per document (a dict's items), each ranked pair carries
   that document's score, and every scored document is ranked exactly once.
   */
  lemma RankingScores(scores: Scores)
    requires DistinctKeys(scores)
    ensures forall i :: 0 <= i < |GetRanking(scores)| ==>
      var p := GetRanking(scores)[i];
      p.0 in AsMap(scores) && AsMap(scores)[p.0] == p.1
    ensures forall id :: id in AsMap(scores) ==> (id, AsMap(scores)[id]) in GetRanking(scores)
  {
    var r := GetRanking(scores);
    forall i | 0 <= i < |r| ensures r[i].0 in AsMap(scores) && AsMap(scores)[r[i].0] == r[i].1 {
      assert r[i] in multiset(r);
      assert r[i] in scores;
      AsMapMember(scores, r[i].0, r[i].1);
    }
    forall id | id in AsMap(scores) ensures (id, AsMap(scores)[id]) in r {
      AsMapMember(scores, id, AsMap(scores)[id]);
      assert (id, AsMap(scores)[id]) in multiset(scores);
    }
  }

  /** Two documents tied at 0.5 keep their order behind the one scoring 2.0. */
  lemma RankingExample()
    ensures GetRanking([("D1", 0.5), ("D2", 2.0), ("D3", 0.5)]) == [("D2", 2.0), ("D1", 0.5), ("D3", 0.5)]
  {
    var s: Scores := [("D1", 0.5), ("D2", 2.0), ("D3", 0.5)];
    assert s[1..] == [("D2", 2.0), ("D3", 0.5)];
    assert s[1..][1..] == [("D3", 0.5)];
    assert s[1..][1..][1..] == [];
    assert GetRanking(s[1..][1..]) == [("D3", 0.5)];
    assert GetRanking(s[1..]) == [("D2", 2.0), ("D3", 0.5)];
  }
}
