/** The constraint store: the recorded (guess, feedback) pairs and the
    possible answers they leave, with the relaxation used when no candidate
    agrees with every pair. */
module Constraints {

  import opened Candidates
  import opened Matching
  import opened Ranking

  /** A guess together with the number of matching positions reported for it. */
  datatype Constraint = Constraint(guess: Vector, feedback: int)

  /** Comparing the recorded guess against `v` reproduces the recorded feedback. */
  predicate Satisfies(v: Vector, c: Constraint)
  {
    Feedback(c.guess, v) == c.feedback
  }

  predicate SatisfiesAll(v: Vector, cs: seq<Constraint>)
  {
    forall k :: 0 <= k < |cs| ==> Satisfies(v, cs[k])
  }

  /** How many of the constraints `v` satisfies. */
  function ConsistencyScore(v: Vector, cs: seq<Constraint>): nat
  {
    if |cs| == 0 then 0
    else ConsistencyScore(v, cs[..|cs| - 1]) + (if Satisfies(v, cs[|cs| - 1]) then 1 else 0)
  }

  /** A score never exceeds the number of constraints, and reaches it exactly
      when the vector satisfies them all. */
  lemma {:induction false} ConsistencyScoreSpec(v: Vector, cs: seq<Constraint>)
    ensures ConsistencyScore(v, cs) <= |cs|
    ensures ConsistencyScore(v, cs) == |cs| <==> SatisfiesAll(v, cs)
  {
    if |cs| > 0 {
      var n := |cs| - 1;
      ConsistencyScoreSpec(v, cs[..n]);
      if SatisfiesAll(v, cs[..n]) && Satisfies(v, cs[n]) {
        forall k | 0 <= k < |cs|
          ensures Satisfies(v, cs[k])
        {
          if k < n {
            assert cs[k] == cs[..n][k];
          }
        }
      }
      if SatisfiesAll(v, cs) {
        forall k | 0 <= k < n
          ensures Satisfies(v, cs[..n][k])
        {
          assert cs[..n][k] == cs[k];
        }
      }
    }
  }

  /** The inner loop of the relaxation: one point per constraint whose
      feedback `v` reproduces. */
  method ConstraintScore(v: Vector, cs: seq<Constraint>) returns (score: nat)
    ensures score == ConsistencyScore(v, cs)
  {
    score := 0;
    var k := 0;
    while k < |cs|
      invariant 0 <= k <= |cs|
      invariant score == ConsistencyScore(v, cs[..k])
    {
      var actualFeedback := CalculateFeedback(cs[k].guess, v);
      if actualFeedback == cs[k].feedback {
        score := score + 1;
      }
      assert cs[..k + 1][..k] == cs[..k];
      k := k + 1;
    }
    assert cs[..k] == cs;
  }

  /** The candidates that satisfy every constraint, in their original order. */
  function StrictFilter(all: seq<Vector>, cs: seq<Constraint>): seq<Vector>
  {
    if |all| == 0 then []
    else
      var n := |all| - 1;
      StrictFilter(all[..n], cs) + (if SatisfiesAll(all[n], cs) then [all[n]] else [])
  }

  /** The consistency score of every candidate, aligned with the candidates. */
  function Scores(all: seq<Vector>, cs: seq<Constraint>): seq<nat>
  {
    seq(|all|, i requires 0 <= i < |all| => ConsistencyScore(all[i], cs))
  }

  /** The best consistency score over the candidate space. */
  function BestScore(len: nat, cs: seq<Constraint>): nat
  {
    MaxScore(Scores(AllVectors(len), cs))
  }

  /** updatePossibleNumbers: the strict filter when it keeps anything,
      otherwise the relaxed set. */
  function NextPossible(len: nat, cs: seq<Constraint>): seq<Vector>
  {
    var all := AllVectors(len);
    var strict := StrictFilter(all, cs);
    if |strict| > 0 then strict
    else Pick(all, RelaxedIndices(Scores(all, cs)))
  }

  /** The outer loop of the relaxation: the consistency score of every
      candidate, aligned with the candidates (the source keeps them in a map
      keyed by the candidate arrays, each a distinct object). */
  method ScoreCandidates(space: seq<Vector>, cs: seq<Constraint>) returns (scores: seq<nat>)
    ensures |scores| == |space|
    ensures forall i :: 0 <= i < |space| ==> scores[i] == ConsistencyScore(space[i], cs)
  {
    scores := [];
    var i := 0;
    while i < |space|
      invariant 0 <= i <= |space|
      invariant |scores| == i
      invariant forall j :: 0 <= j < i ==> scores[j] == ConsistencyScore(space[j], cs)
    {
      var score := ConstraintScore(space[i], cs);
      scores := scores + [score];
      i := i + 1;
    }
  }

  /** The sort and the filter of the relaxation: order the candidates' indices
      by descending score (stably, as Array.prototype.sort does), read the best
      score off the head and keep the entries that reach one below it. */
  method SortAndFilter(scores: seq<nat>) returns (bestNumbers: seq<nat>)
    requires |scores| > 0
    ensures bestNumbers == RelaxedIndices(scores)
    ensures |bestNumbers| > 0
  {
    var sortedNumbers := SortDesc(scores, MaxScore(scores));
    SortThenFilter(scores);
    var bestScore := scores[sortedNumbers[0]];
    bestNumbers := AtLeast(sortedNumbers, scores, bestScore as int - 1);
    RelaxedNonEmpty(scores);
  }

  /** The relaxation branch of updatePossibleNumbers: score every candidate,
      sort and filter. The fallback to the whole space is never taken. */
  method RelaxPossibleNumbers(len: nat, cs: seq<Constraint>) returns (relaxed: seq<Vector>)
    requires len >= 1
    ensures relaxed == Pick(AllVectors(len), RelaxedIndices(Scores(AllVectors(len), cs)))
  {
    var space := GenerateAllPossibleNumbers(len);
    var scores := ScoreCandidates(space, cs);
    assert scores == Scores(space, cs);
    var bestNumbers := SortAndFilter(scores);
    RelaxedMembers(scores);

    if |bestNumbers| > 0 {
      relaxed := Pick(space, bestNumbers);
    } else {
      assert false;
    }
  }

  lemma {:induction false} StrictFilterMembers(all: seq<Vector>, cs: seq<Constraint>)
    ensures forall v :: v in StrictFilter(all, cs) <==> v in all && SatisfiesAll(v, cs)
  {
    if |all| > 0 {
      var n := |all| - 1;
      StrictFilterMembers(all[..n], cs);
      assert all == all[..n] + [all[n]];
    }
  }

  lemma {:induction false} StrictFilterPrefix(all: seq<Vector>, cs: seq<Constraint>, n: nat)
    requires n <= |all|
    ensures StrictFilter(all[..n], cs) == Pick(all, LevelBelow(Scores(all, cs), |cs|, n))
  {
    if n > 0 {
      var s := Scores(all, cs);
      var prev := LevelBelow(s, |cs|, n - 1);
      StrictFilterPrefix(all, cs, n - 1);
      assert all[..n][..n - 1] == all[..n - 1];
      ConsistencyScoreSpec(all[n - 1], cs);
      if SatisfiesAll(all[n - 1], cs) {
        assert LevelBelow(s, |cs|, n) == prev + [n - 1];
        assert Pick(all, prev + [n - 1]) == Pick(all, prev) + [all[n - 1]];
      } else {
        assert LevelBelow(s, |cs|, n) == prev;
      }
    }
  }

  /** The strict filter is the level of full scores: the candidates, in
      increasing index order, that satisfy every constraint. */
  lemma StrictFilterIsTopLevel(all: seq<Vector>, cs: seq<Constraint>)
    ensures StrictFilter(all, cs) == Pick(all, Level(Scores(all, cs), |cs|))
  {
    StrictFilterPrefix(all, cs, |all|);
    assert all[..|all|] == all;
  }

  /** The strict filter of the candidate space keeps exactly the candidates
      that satisfy every constraint, in increasing binary value. */
  lemma StrictResult(len: nat, cs: seq<Constraint>)
    ensures var strict := StrictFilter(AllVectors(len), cs);
      (forall v :: v in strict <==> v in AllVectors(len) && SatisfiesAll(v, cs)) &&
      (forall p, q :: 0 <= p < q < |strict| ==> Value(strict[p]) < Value(strict[q]))
  {
    var all := AllVectors(len);
    var s := Scores(all, cs);
    var top := Level(s, |cs|);
    var strict := StrictFilter(all, cs);
    StrictFilterMembers(all, cs);
    StrictFilterIsTopLevel(all, cs);
    LevelSorted(s, |cs|);
    AllVectorsExact(len);
    forall p, q | 0 <= p < q < |strict|
      ensures Value(strict[p]) < Value(strict[q])
    {
      assert strict[p] == all[top[p]] && strict[q] == all[top[q]];
      assert top[p] < top[q];
    }
  }

  /** With no candidate satisfying every constraint, the best score falls
      short of the number of constraints and the relaxed set is not empty. */
  lemma RelaxedNonEmptyResult(len: nat, cs: seq<Constraint>)
    requires |StrictFilter(AllVectors(len), cs)| == 0
    ensures |NextPossible(len, cs)| > 0 && BestScore(len, cs) < |cs|
  {
    var all := AllVectors(len);
    var s := Scores(all, cs);
    RelaxedNonEmpty(s);
    StrictFilterMembers(all, cs);
    var i := MaxScoreAt(s);
    ConsistencyScoreSpec(all[i], cs);
    assert all[i] !in StrictFilter(all, cs);
  }

  /** The relaxed set holds exactly the candidates that satisfy at least the
      best score minus one of the constraints. */
  lemma RelaxedMembership(len: nat, cs: seq<Constraint>)
    requires |StrictFilter(AllVectors(len), cs)| == 0
    ensures var relaxed := NextPossible(len, cs); var best: int := BestScore(len, cs);
      forall v :: v in relaxed <==> v in AllVectors(len) && ConsistencyScore(v, cs) >= best - 1
  {
    RelaxedSound(len, cs);
    RelaxedComplete(len, cs);
  }

  lemma RelaxedSound(len: nat, cs: seq<Constraint>)
    requires |StrictFilter(AllVectors(len), cs)| == 0
    ensures var relaxed := NextPossible(len, cs); var best: int := BestScore(len, cs);
      forall p :: 0 <= p < |relaxed| ==>
        relaxed[p] in AllVectors(len) && ConsistencyScore(relaxed[p], cs) >= best - 1
  {
  }

  lemma RelaxedComplete(len: nat, cs: seq<Constraint>)
    requires |StrictFilter(AllVectors(len), cs)| == 0
    ensures var relaxed := NextPossible(len, cs); var best: int := BestScore(len, cs);
      forall v :: v in AllVectors(len) && ConsistencyScore(v, cs) >= best - 1 ==> v in relaxed
  {
    var all := AllVectors(len);
    var s := Scores(all, cs);
    var best: int := BestScore(len, cs);
    var r := RelaxedIndices(s);
    var relaxed := NextPossible(len, cs);
    assert relaxed == Pick(all, r);
    RelaxedMembers(s);
    forall v | v in all && ConsistencyScore(v, cs) >= best - 1
      ensures v in relaxed
    {
      var j :| 0 <= j < |all| && all[j] == v;
      assert s[j] >= best - 1;
      var p :| 0 <= p < |r| && r[p] == j;
      assert relaxed[p] == v;
    }
  }

  /** Along the relaxed set consistency scores never increase, and candidates
      of equal score keep increasing binary value: a stable sort by
      descending score. */
  lemma RelaxedOrder(len: nat, cs: seq<Constraint>)
    requires |StrictFilter(AllVectors(len), cs)| == 0
    ensures var relaxed := NextPossible(len, cs);
      (forall p, q :: 0 <= p < q < |relaxed| ==>
        ConsistencyScore(relaxed[p], cs) >= ConsistencyScore(relaxed[q], cs)) &&
      (forall p, q :: 0 <= p < q < |relaxed| && ConsistencyScore(relaxed[p], cs) == ConsistencyScore(relaxed[q], cs) ==>
        Value(relaxed[p]) < Value(relaxed[q]))
  {
    var all := AllVectors(len);
    var s := Scores(all, cs);
    var r := RelaxedIndices(s);
    var relaxed := NextPossible(len, cs);
    assert relaxed == Pick(all, r);
    RelaxedMembers(s);
    RelaxedInOrder(s);
    AllVectorsExact(len);
    forall p, q | 0 <= p < q < |relaxed|
      ensures ConsistencyScore(relaxed[p], cs) >= ConsistencyScore(relaxed[q], cs)
      ensures ConsistencyScore(relaxed[p], cs) == ConsistencyScore(relaxed[q], cs) ==> Value(relaxed[p]) < Value(relaxed[q])
    {
      assert relaxed[p] == all[r[p]] && relaxed[q] == all[r[q]];
      assert s[r[p]] >= s[r[q]];
    }
  }

  /** The possible answers are never empty and always lie in the candidate space. */
  lemma NextPossibleInSpace(len: nat, cs: seq<Constraint>)
    ensures |NextPossible(len, cs)| > 0
    ensures forall p :: 0 <= p < |NextPossible(len, cs)| ==> NextPossible(len, cs)[p] in AllVectors(len)
  {
    var all := AllVectors(len);
    StrictFilterMembers(all, cs);
    if |StrictFilter(all, cs)| == 0 {
      RelaxedNonEmptyResult(len, cs);
      RelaxedMembership(len, cs);
    }
  }
}
