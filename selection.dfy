/** The guess selector: a direct scan when few possible answers remain, and
    otherwise a search of the whole candidate space for the guess whose
    feedback histogram scores best. */
module Selection {

  import opened Wrappers
  import opened Candidates
  import opened Matching

  /** The score of a histogram. The source computes its Shannon entropy in
      floating point; here it is a parameter, known only to be non-negative. */
  type Score = r: real | 0.0 <= r

  /** The answer returned when no possible answer is left: six zeros,
      whatever the configured length. */
  const FallbackGuess: Vector := [0, 0, 0, 0, 0, 0]

  /** A history entry counts `v` as already guessed when every digit of the
      entry equals the digit of `v` at the same position, that is, when the
      entry is a prefix of `v` (a position past the end of `v` matches
      nothing). */
  predicate Covers(prev: Vector, v: Vector)
  {
    |prev| <= |v| && v[..|prev|] == prev
  }

  predicate Guessed(history: seq<Vector>, v: Vector)
  {
    exists k :: 0 <= k < |history| && Covers(history[k], v)
  }

  /** For history entries of the vector's own length the test is plain
      membership; an empty entry counts every vector as guessed. */
  lemma GuessedMeaning(history: seq<Vector>, v: Vector)
    ensures (forall k :: 0 <= k < |history| ==> |history[k]| == |v|) ==> (Guessed(history, v) <==> v in history)
    ensures [] in history ==> Guessed(history, v)
  {
    if [] in history {
      var k :| 0 <= k < |history| && history[k] == [];
      assert Covers(history[k], v);
    }
    if forall k :: 0 <= k < |history| ==> |history[k]| == |v| {
      assert v[..|v|] == v;
      if v in history {
        var k :| 0 <= k < |history| && history[k] == v;
        assert Covers(history[k], v);
      }
      if Guessed(history, v) {
        var k :| 0 <= k < |history| && Covers(history[k], v);
        assert history[k] == v;
      }
    }
  }

  /** The position of the first candidate not yet guessed, or the number of
      candidates when every one of them has been. */
  function FirstUnguessed(candidates: seq<Vector>, history: seq<Vector>): (k: nat)
    ensures k <= |candidates|
    ensures forall j :: 0 <= j < k ==> Guessed(history, candidates[j])
    ensures k < |candidates| ==> !Guessed(history, candidates[k])
  {
    if |candidates| == 0 then 0
    else if !Guessed(history, candidates[0]) then 0
    else
      var k := FirstUnguessed(candidates[1..], history);
      assert forall j :: 1 <= j < k + 1 ==> candidates[j] == candidates[1..][j - 1];
      1 + k
  }

  /** The scans of src/strategy.ts: walk the candidates in order and stop at
      the first one no history entry covers. */
  method ScanUnguessed(candidates: seq<Vector>, history: seq<Vector>) returns (k: nat)
    ensures k == FirstUnguessed(candidates, history)
  {
    k := 0;
    while k < |candidates| && Guessed(history, candidates[k])
      invariant k <= |candidates|
      invariant forall j :: 0 <= j < k ==> Guessed(history, candidates[j])
    {
      k := k + 1;
    }
  }

  /** How many possible answers give feedback `k` against `guess`. */
  function BucketCount(guess: Vector, possible: seq<Vector>, k: int): nat
  {
    if |possible| == 0 then 0
    else
      var n := |possible| - 1;
      BucketCount(guess, possible[..n], k) + (if Feedback(guess, possible[n]) == k then 1 else 0)
  }

  /** The feedback histogram of `guess`: bucket `k`, for `k` from 0 to `len`,
      counts the possible answers that would give feedback `k`. */
  function Histogram(guess: Vector, possible: seq<Vector>, len: nat): seq<nat>
  {
    seq(len + 1, k requires 0 <= k <= len => BucketCount(guess, possible, k))
  }

  function Sum(h: seq<nat>): nat
  {
    if |h| == 0 then 0 else Sum(h[..|h| - 1]) + h[|h| - 1]
  }

  /** calculateGuessScore's value: the score of the guess's histogram. */
  function GuessScore(guess: Vector, possible: seq<Vector>, len: nat, entropy: seq<nat> -> Score): Score
  {
    entropy(Histogram(guess, possible, len))
  }

  /** The first `n` buckets together hold the answers with feedback below `n`. */
  function BucketsBelow(guess: Vector, possible: seq<Vector>, n: nat): nat
  {
    if n == 0 then 0 else BucketsBelow(guess, possible, n - 1) + BucketCount(guess, possible, n - 1)
  }

  lemma {:induction false} BucketsBelowStep(guess: Vector, possible: seq<Vector>, x: Vector, n: nat)
    ensures BucketsBelow(guess, possible + [x], n)
         == BucketsBelow(guess, possible, n) + (if Feedback(guess, x) < n then 1 else 0)
  {
    if n > 0 {
      BucketsBelowStep(guess, possible, x, n - 1);
      assert (possible + [x])[..|possible|] == possible;
    }
  }

  lemma {:induction false} BucketsBelowAll(guess: Vector, possible: seq<Vector>)
    ensures BucketsBelow(guess, possible, |guess| + 1) == |possible|
  {
    if |possible| > 0 {
      var n := |possible| - 1;
      BucketsBelowAll(guess, possible[..n]);
      assert possible == possible[..n] + [possible[n]];
      BucketsBelowStep(guess, possible[..n], possible[n], |guess| + 1);
      FeedbackBounds(guess, possible[n]);
      assert BucketsBelow(guess, possible[..n] + [possible[n]], |guess| + 1) == n + 1;
    } else {
      BucketsBelowNone(guess, |guess| + 1);
    }
  }

  lemma {:induction false} BucketsBelowNone(guess: Vector, n: nat)
    ensures BucketsBelow(guess, [], n) == 0
  {
    if n > 0 {
      BucketsBelowNone(guess, n - 1);
    }
  }

  lemma {:induction false} SumIsBucketsBelow(guess: Vector, possible: seq<Vector>, len: nat, n: nat)
    requires n <= len + 1
    ensures Sum(Histogram(guess, possible, len)[..n]) == BucketsBelow(guess, possible, n)
  {
    if n > 0 {
      SumIsBucketsBelow(guess, possible, len, n - 1);
      assert Histogram(guess, possible, len)[..n][..n - 1] == Histogram(guess, possible, len)[..n - 1];
    }
  }

  /** The histogram has a bucket for every feedback from 0 to `len`, and its
      buckets add up to the number of possible answers. */
  lemma HistogramTotal(guess: Vector, possible: seq<Vector>, len: nat)
    requires |guess| == len
    ensures |Histogram(guess, possible, len)| == len + 1
    ensures Sum(Histogram(guess, possible, len)) == |possible|
  {
    var h := Histogram(guess, possible, len);
    SumIsBucketsBelow(guess, possible, len, len + 1);
    assert h[..len + 1] == h;
    BucketsBelowAll(guess, possible);
  }

  /** calculateGuessScore: fill the histogram in an array, bucket by bucket,
      then score it. */
  method CalculateGuessScore(guess: Vector, possible: seq<Vector>, len: nat, entropy: seq<nat> -> Score)
    returns (score: Score)
    requires |guess| == len
    ensures score == GuessScore(guess, possible, len, entropy)
  {
    var feedbackCounts := new nat[len + 1](_ => 0);
    var i := 0;
    while i < |possible|
      invariant 0 <= i <= |possible|
      invariant forall k :: 0 <= k <= len ==> feedbackCounts[k] == BucketCount(guess, possible[..i], k)
    {
      var feedback := CalculateFeedback(guess, possible[i]);
      FeedbackBounds(guess, possible[i]);
      assert possible[..i + 1][..i] == possible[..i];
      feedbackCounts[feedback] := feedbackCounts[feedback] + 1;
      i := i + 1;
    }
    assert possible[..i] == possible;
    assert feedbackCounts[..] == Histogram(guess, possible, len);
    score := entropy(feedbackCounts[..]);
  }

  /** Candidate `k` is unguessed, scores at least as well as every unguessed
      candidate, and strictly better than every unguessed one before it. */
  ghost predicate IsFirstArgmax(all: seq<Vector>, possible: seq<Vector>, history: seq<Vector>,
                                len: nat, entropy: seq<nat> -> Score, k: int)
  {
    0 <= k < |all| && !Guessed(history, all[k]) &&
    (forall j :: 0 <= j < |all| && !Guessed(history, all[j]) ==>
      GuessScore(all[j], possible, len, entropy) <= GuessScore(all[k], possible, len, entropy)) &&
    (forall j :: 0 <= j < k && !Guessed(history, all[j]) ==>
      GuessScore(all[j], possible, len, entropy) < GuessScore(all[k], possible, len, entropy))
  }

  /** The small-set rule: the first possible answer not yet guessed; failing
      that, the first candidate of the whole space not yet guessed; failing
      that, the first possible answer. */
  ghost predicate SmallSetChoice(len: nat, possible: seq<Vector>, history: seq<Vector>, g: Vector)
    requires |possible| > 0
  {
    var all := AllVectors(len);
    var k := FirstUnguessed(possible, history);
    var j := FirstUnguessed(all, history);
    if k < |possible| then g == possible[k]
    else if j < |all| then g == all[j]
    else g == possible[0]
  }

  /** The large-set rule: the first best-scoring candidate of the whole space
      among those not yet guessed; the first possible answer when every
      candidate has been guessed. */
  ghost predicate LargeSetChoice(len: nat, possible: seq<Vector>, history: seq<Vector>,
                                 entropy: seq<nat> -> Score, g: Vector)
    requires |possible| > 0
  {
    var all := AllVectors(len);
    if FirstUnguessed(all, history) < |all| then
      exists k :: IsFirstArgmax(all, possible, history, len, entropy, k) && g == all[k]
    else g == possible[0]
  }

  /** The search loop of the large-set branch: over the candidates in order,
      skip those already guessed and keep the first one whose score beats
      every score seen before it. */
  method BestUnguessed(allGuesses: seq<Vector>, possible: seq<Vector>, history: seq<Vector>,
                       len: nat, entropy: seq<nat> -> Score)
    returns (bestGuess: Option<Vector>)
    requires forall j :: 0 <= j < |allGuesses| ==> |allGuesses[j]| == len
    ensures bestGuess.None? ==> forall j :: 0 <= j < |allGuesses| ==> Guessed(history, allGuesses[j])
    ensures bestGuess.Some? ==> exists k ::
      IsFirstArgmax(allGuesses, possible, history, len, entropy, k) && bestGuess.value == allGuesses[k]
  {
    bestGuess := None;
    var bestScore: real := -1.0;
    ghost var bestIndex: nat := 0;
    for i := 0 to |allGuesses|
      invariant bestIndex <= i
      invariant bestGuess.None? ==> bestScore == -1.0 && forall j :: 0 <= j < i ==> Guessed(history, allGuesses[j])
      invariant bestGuess.Some? ==>
        bestIndex < i && bestGuess.value == allGuesses[bestIndex] && !Guessed(history, allGuesses[bestIndex]) &&
        bestScore == GuessScore(allGuesses[bestIndex], possible, len, entropy)
      invariant forall j :: 0 <= j < i && !Guessed(history, allGuesses[j]) ==>
        GuessScore(allGuesses[j], possible, len, entropy) <= bestScore
      invariant forall j :: 0 <= j < bestIndex && !Guessed(history, allGuesses[j]) ==>
        GuessScore(allGuesses[j], possible, len, entropy) < bestScore
    {
      if Guessed(history, allGuesses[i]) {
        continue;
      }
      var score := CalculateGuessScore(allGuesses[i], possible, len, entropy);
      if score > bestScore {
        bestScore := score;
        bestGuess := Some(allGuesses[i]);
        bestIndex := i;
      }
    }
    if bestGuess.Some? {
      assert IsFirstArgmax(allGuesses, possible, history, len, entropy, bestIndex);
    }
  }

  /** chooseOptimalGuess, over the engine state it reads. */
  method ChooseOptimalGuess(len: nat, possible: seq<Vector>, history: seq<Vector>, entropy: seq<nat> -> Score)
    returns (guess: Vector)
    requires len >= 1
    ensures |possible| == 0 ==> guess == FallbackGuess
    ensures 0 < |possible| <= 3 ==> SmallSetChoice(len, possible, history, guess)
    ensures |possible| > 3 ==> LargeSetChoice(len, possible, history, entropy, guess)
    ensures 0 < |possible| && FirstUnguessed(AllVectors(len), history) < Pow2(len) ==> !Guessed(history, guess)
  {
    if |possible| <= 3 {
      if |possible| == 0 {
        return FallbackGuess;
      }
      var k := ScanUnguessed(possible, history);
      if k < |possible| {
        return possible[k];
      }
      var allGuesses := GenerateAllPossibleNumbers(len);
      var j := ScanUnguessed(allGuesses, history);
      if j < |allGuesses| {
        return allGuesses[j];
      }
      return possible[0];
    }

    var allGuesses := GenerateAllPossibleNumbers(len);
    var bestGuess := BestUnguessed(allGuesses, possible, history, len, entropy);
    if bestGuess.None? {
      if |possible| > 0 {
        return possible[0];
      }
      assert false;
    }
    guess := bestGuess.value;
  }

  /** An empty history entry freezes the selector: whichever branch runs, it
      returns the first possible answer. */
  lemma EmptyEntryFreezesChoice(len: nat, possible: seq<Vector>, history: seq<Vector>,
                                entropy: seq<nat> -> Score, g: Vector)
    requires [] in history && |possible| > 0
    requires if |possible| <= 3 then SmallSetChoice(len, possible, history, g)
             else LargeSetChoice(len, possible, history, entropy, g)
    ensures g == possible[0]
  {
  }

  /** Whichever branch runs, the selected guess is a candidate of the space,
      provided the possible answers are. */
  lemma ChoiceInSpace(len: nat, possible: seq<Vector>, history: seq<Vector>,
                      entropy: seq<nat> -> Score, g: Vector)
    requires |possible| > 0
    requires forall p :: 0 <= p < |possible| ==> possible[p] in AllVectors(len)
    requires if |possible| <= 3 then SmallSetChoice(len, possible, history, g)
             else LargeSetChoice(len, possible, history, entropy, g)
    ensures g in AllVectors(len)
  {
    var all := AllVectors(len);
    if |possible| <= 3 {
      var k := FirstUnguessed(possible, history);
      var j := FirstUnguessed(all, history);
      if k < |possible| {
        assert g == possible[k];
      } else if j < |all| {
        assert g == all[j];
      } else {
        assert g == possible[0];
      }
    } else if FirstUnguessed(all, history) < |all| {
      var k :| IsFirstArgmax(all, possible, history, len, entropy, k) && g == all[k];
      assert all[k] in all;
    } else {
      assert g == possible[0];
    }
  }

  /** Pigeonhole: pairwise distinct guesses taken from the candidate space
      number at most 2^L, so a run of guesses that never repeats ends within
      2^L guesses. */
  lemma DistinctGuessesBound(len: nat, guesses: seq<Vector>)
    requires forall k :: 0 <= k < |guesses| ==> guesses[k] in AllVectors(len)
    requires forall k, m :: 0 <= k < m < |guesses| ==> guesses[k] != guesses[m]
    ensures |guesses| <= Pow2(len)
  {
    AllVectorsExact(len);
    DistinctWithin(guesses, AllVectors(len));
  }

  /** A run of guesses in which no guess is covered by the guesses before it,
      which is what the selector delivers when each guess is passed back as the
      next history entry, lasts at most 2^L guesses. */
  lemma UnguessedRunBound(len: nat, guesses: seq<Vector>)
    requires forall m :: 0 <= m < |guesses| ==>
      guesses[m] in AllVectors(len) && !Guessed(guesses[..m], guesses[m])
    ensures |guesses| <= Pow2(len)
  {
    forall k, m | 0 <= k < m < |guesses|
      ensures guesses[k] != guesses[m]
    {
      var earlier := guesses[..m];
      assert earlier[k] == guesses[k];
      assert guesses[k][..|guesses[k]|] == guesses[k];
      assert Covers(earlier[k], guesses[k]);
      assert Guessed(earlier, guesses[k]);
    }
    DistinctGuessesBound(len, guesses);
  }

  lemma {:induction false} DistinctWithin(xs: seq<Vector>, pool: seq<Vector>)
    requires forall k :: 0 <= k < |xs| ==> xs[k] in pool
    requires forall k, m :: 0 <= k < m < |xs| ==> xs[k] != xs[m]
    ensures |xs| <= |pool|
    decreases |xs|
  {
    if |xs| > 0 {
      var last := xs[|xs| - 1];
      var i :| 0 <= i < |pool| && pool[i] == last;
      var rest := pool[..i] + pool[i + 1..];
      var front := xs[..|xs| - 1];
      forall k | 0 <= k < |front|
        ensures front[k] in rest
      {
        var x := front[k];
        assert x == xs[k] && x != last;
        var t :| 0 <= t < |pool| && pool[t] == x;
        if t < i {
          assert rest[t] == x;
        } else {
          assert t > i && rest[t - 1] == x;
        }
      }
      DistinctWithin(front, rest);
    }
  }
}
