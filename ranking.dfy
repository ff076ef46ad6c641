/**
 * Ranking of the recorded slots: a stable sort by ascending score, then the
 * first ten.
 */
module Ranking {
  import opened Scoring
  import opened Generator
  import Sorting

  const MaxRecommendations := 10

  /**
   * The comparator `a.score - b.score` read as "a may stay before b": a
   * finite score comes before infinity, and infinity minus infinity (NaN)
   * counts as equal.
   */
  predicate ScoreNoWorse(a: Candidate, b: Candidate) {
    b.score.Inf? || (a.score.Fin? && a.score.value <= b.score.value)
  }

  lemma ScoreNoWorseIsTotalPreorder()
    ensures Sorting.Total(ScoreNoWorse) && Sorting.Transitive(ScoreNoWorse)
  {
  }

  /** The candidates stably sorted by ascending score. */
  function SortByScore(cands: seq<Candidate>): (r: seq<Candidate>)
    ensures multiset(r) == multiset(cands)
  {
    Sorting.SortBy(cands, ScoreNoWorse)
  }

  /** The best ten candidates by score, or all of them when there are fewer. */
  function Rank(cands: seq<Candidate>): (r: seq<Candidate>)
    ensures |r| == if |cands| < MaxRecommendations then |cands| else MaxRecommendations
    ensures forall c :: c in r ==> c in cands
    ensures |cands| <= MaxRecommendations ==> multiset(r) == multiset(cands)
  {
    var sorted := SortByScore(cands);
    var r := if |sorted| <= MaxRecommendations then sorted else sorted[..MaxRecommendations];
    assert forall c :: c in r ==> c in multiset(sorted);
    r
  }

  /**
   * The ranking lists its slots by ascending score, and every slot it drops
   * scores no better than every slot it keeps.
   */
  lemma RankIsBestFirst(cands: seq<Candidate>)
    ensures var r := Rank(cands);
      forall i, j :: 0 <= i < j < |r| ==> ScoreNoWorse(r[i], r[j])
    ensures var r := Rank(cands); var sorted := SortByScore(cands);
      && r == sorted[..|r|]
      && forall i, j :: 0 <= i < |r| <= j < |sorted| ==> ScoreNoWorse(sorted[i], sorted[j])
  {
    ScoreNoWorseIsTotalPreorder();
    Sorting.SortBySorted(cands, ScoreNoWorse);
  }

  predicate Earlier(a: Candidate, b: Candidate) {
    a.time < b.time
  }

  /**
   * When the candidates come in time order, slots with equal scores
   * (infinity included) keep that order in the ranking.
   */
  lemma RankTiesChronological(cands: seq<Candidate>)
    requires forall i, j :: 0 <= i < j < |cands| ==> cands[i].time < cands[j].time
    ensures var r := Rank(cands);
      forall i, j :: 0 <= i < j < |r| && r[i].score == r[j].score ==> r[i].time < r[j].time
  {
    Sorting.SortByTiesOrdered(cands, ScoreNoWorse, Earlier);
    var sorted := SortByScore(cands);
    var r := Rank(cands);
    forall i, j | 0 <= i < j < |r| && r[i].score == r[j].score
      ensures r[i].time < r[j].time
    {
      assert r[i] == sorted[i] && r[j] == sorted[j];
      assert ScoreNoWorse(sorted[j], sorted[i]);
    }
  }

  /** When every score is infinite (no appointment on either side of any slot), ranking keeps time order. */
  lemma {:induction false} AllInfiniteKeepsOrder(cands: seq<Candidate>)
    requires forall c :: c in cands ==> c.score.Inf?
    ensures SortByScore(cands) == cands
  {
    if cands != [] {
      AllInfiniteKeepsOrder(cands[1..]);
      assert SortByScore(cands) == Sorting.Insert(cands[0], cands[1..], ScoreNoWorse);
      if |cands| > 1 {
        assert cands[1] in cands;
      }
      assert [cands[0]] + cands[1..] == cands;
    }
  }
}
