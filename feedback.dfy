/** The only information a guess reveals: how many positions match. */
module Matching {

  import opened Candidates

  /** Matches among the first `n` positions of `guess`. A position past the
      end of `target` never matches. */
  function MatchCount(guess: Vector, target: Vector, n: nat): nat
    requires n <= |guess|
  {
    if n == 0 then 0
    else MatchCount(guess, target, n - 1) + (if n - 1 < |target| && guess[n - 1] == target[n - 1] then 1 else 0)
  }

  /** calculateFeedback(guess, target): positions of `guess` that hold the
      same digit in `target`. */
  function Feedback(guess: Vector, target: Vector): nat
  {
    MatchCount(guess, target, |guess|)
  }

  method CalculateFeedback(guess: Vector, target: Vector) returns (correctCount: nat)
    ensures correctCount == Feedback(guess, target)
  {
    correctCount := 0;
    var i := 0;
    while i < |guess|
      invariant 0 <= i <= |guess|
      invariant correctCount == MatchCount(guess, target, i)
    {
      if i < |target| && guess[i] == target[i] {
        correctCount := correctCount + 1;
      }
      i := i + 1;
    }
  }

  lemma {:induction false} MatchCountBounds(guess: Vector, target: Vector, n: nat)
    requires n <= |guess|
    ensures MatchCount(guess, target, n) <= n
    ensures MatchCount(guess, target, n) <= |target|
  {
    if n > 0 {
      MatchCountBounds(guess, target, n - 1);
    }
  }

  /** The feedback never exceeds the length of either vector. */
  lemma FeedbackBounds(guess: Vector, target: Vector)
    ensures 0 <= Feedback(guess, target) <= |guess|
    ensures Feedback(guess, target) <= |target|
  {
    MatchCountBounds(guess, target, |guess|);
  }

  /** The feedback does not depend on which vector is the guess: only the
      positions both vectors have can match. */
  lemma FeedbackSymmetric(a: Vector, b: Vector)
    ensures Feedback(a, b) == Feedback(b, a)
  {
    if |a| <= |b| {
      MatchCountSymmetric(a, b, |a|);
      MatchCountPastEnd(b, a, |b|);
    } else {
      MatchCountSymmetric(a, b, |b|);
      MatchCountPastEnd(a, b, |a|);
    }
  }

  lemma {:induction false} MatchCountSymmetric(a: Vector, b: Vector, n: nat)
    requires n <= |a| && n <= |b|
    ensures MatchCount(a, b, n) == MatchCount(b, a, n)
  {
    if n > 0 {
      MatchCountSymmetric(a, b, n - 1);
    }
  }

  /** Positions of the guess past the target's end add nothing. */
  lemma {:induction false} MatchCountPastEnd(guess: Vector, target: Vector, n: nat)
    requires |target| <= n <= |guess|
    ensures MatchCount(guess, target, n) == MatchCount(guess, target, |target|)
  {
    if n > |target| {
      MatchCountPastEnd(guess, target, n - 1);
    }
  }

  /** Between vectors of one length, the feedback is the full length exactly
      when the vectors are equal; in particular a vector fully matches itself. */
  lemma {:induction false} FeedbackFullIffEqual(guess: Vector, target: Vector)
    requires |guess| == |target|
    ensures Feedback(guess, target) == |guess| <==> guess == target
    ensures Feedback(guess, guess) == |guess|
  {
    MatchCountFull(guess, target, |guess|);
    MatchCountFull(guess, guess, |guess|);
  }

  lemma {:induction false} MatchCountFull(guess: Vector, target: Vector, n: nat)
    requires |guess| == |target| && n <= |guess|
    ensures MatchCount(guess, target, n) == n <==> guess[..n] == target[..n]
  {
    if n > 0 {
      MatchCountFull(guess, target, n - 1);
      MatchCountBounds(guess, target, n - 1);
      assert guess[..n] == guess[..n - 1] + [guess[n - 1]];
      assert target[..n] == target[..n - 1] + [target[n - 1]];
      if guess[..n] == target[..n] {
        assert guess[..n - 1] == guess[..n][..n - 1];
        assert target[..n - 1] == target[..n][..n - 1];
        assert guess[n - 1] == guess[..n][n - 1];
      }
    }
  }
}
