/** Presentation order of partial-match candidates: by descending score. */
module Ranking {

  /** `order` lists names of `scores` with scores never increasing along it. */
  predicate SortedByScore(order: seq<string>, scores: map<string, real>) {
    && (forall k :: 0 <= k < |order| ==> order[k] in scores)
    && (forall i, j :: 0 <= i < j < |order| ==> scores[order[i]] >= scores[order[j]])
  }

  /** Inserts `name` before the first entry that does not outscore it. */
  function InsertByScore(order: seq<string>, name: string, scores: map<string, real>): (r: seq<string>)
    requires name in scores
    requires forall k :: 0 <= k < |order| ==> order[k] in scores
    ensures multiset(r) == multiset(order) + multiset{name}
    decreases |order|
  {
    if |order| == 0 || scores[name] >= scores[order[0]] then [name] + order
    else
      assert order == [order[0]] + order[1..];
      [order[0]] + InsertByScore(order[1..], name, scores)
  }

  /** Inserting into a score-sorted list keeps it sorted. */
  lemma {:induction false} InsertByScoreSorted(order: seq<string>, name: string, scores: map<string, real>)
    requires name in scores
    requires SortedByScore(order, scores)
    ensures SortedByScore(InsertByScore(order, name, scores), scores)
    decreases |order|
  {
    var r := InsertByScore(order, name, scores);
    if |order| == 0 || scores[name] >= scores[order[0]] {
    } else {
      var tail := InsertByScore(order[1..], name, scores);
      InsertByScoreSorted(order[1..], name, scores);
      forall x | x in tail
        ensures x in scores && scores[order[0]] >= scores[x]
      {
        assert x in multiset(tail);
        assert x == name || x in order[1..];
      }
      assert r == [order[0]] + tail;
    }
  }

  /** Ranks the candidate names: a permutation of the keys, best score first. The order
      among equal scores is not specified. */
  method RankCandidates(candidates: map<string, real>) returns (order: seq<string>)
    ensures multiset(order) == multiset(candidates.Keys)
    ensures SortedByScore(order, candidates)
  {
    order := [];
    var rest := candidates.Keys;
    while rest != {}
      invariant rest <= candidates.Keys
      invariant multiset(order) + multiset(rest) == multiset(candidates.Keys)
      invariant SortedByScore(order, candidates)
      decreases rest
    {
      var name :| name in rest;
      assert multiset(rest) == multiset(rest - {name}) + multiset{name};
      InsertByScoreSorted(order, name, candidates);
      order := InsertByScore(order, name, candidates);
      rest := rest - {name};
    }
  }

  /** A permutation of a set's elements lists each element once, and nothing else. */
  lemma PermutationOfKeys(order: seq<string>, candidates: map<string, real>)
    requires multiset(order) == multiset(candidates.Keys)
    ensures |order| == |candidates|
    ensures forall x :: x in order <==> x in candidates
    ensures forall i, j :: 0 <= i < j < |order| ==> order[i] != order[j]
  {
    assert |multiset(order)| == |order|;
    assert |multiset(candidates.Keys)| == |candidates.Keys|;
    forall x ensures x in order <==> x in candidates {
      assert x in order <==> x in multiset(order);
    }
    forall i, j | 0 <= i < j < |order|
      ensures order[i] != order[j]
    {
      assert order == order[..j] + order[j..];
      assert order[i] in order[..j];
      assert order[j] in order[j..];
      assert multiset(order)[order[j]] == multiset(order[..j])[order[j]] + multiset(order[j..])[order[j]];
      assert multiset(candidates.Keys)[order[j]] <= 1;
    }
  }
}
