/** The guessing engine: an object holding the candidate length, the
    possible answers, the recorded constraints and the guess history. */
module Engine {

  import opened Wrappers
  import opened Candidates
  import opened Constraints
  import opened Selection

  class Strategy {
    var numberLength: nat
    var possibleNumbers: seq<Vector>
    var constraints: seq<Constraint>
    var guessHistory: seq<Vector>

    /** The length is positive, the history lists the constraints' guesses one
        for one, and the possible answers are a non-empty selection from the
        candidate space. */
    ghost predicate Valid()
      reads this
    {
      numberLength >= 1 &&
      |guessHistory| == |constraints| &&
      (forall k :: 0 <= k < |constraints| ==> constraints[k].guess == guessHistory[k]) &&
      |possibleNumbers| > 0 &&
      (forall p :: 0 <= p < |possibleNumbers| ==> possibleNumbers[p] in AllVectors(numberLength))
    }

    constructor (length: nat)
      requires length >= 1
      ensures Valid()
      ensures numberLength == length && possibleNumbers == AllVectors(length)
      ensures constraints == [] && guessHistory == []
    {
      var numbers := GenerateAllPossibleNumbers(length);
      numberLength := length;
      possibleNumbers := numbers;
      constraints := [];
      guessHistory := [];
    }

    /** Starts a new session. The new state depends on `length` alone, so
        resetting twice leaves the same state as resetting once, and the
        same state as a new engine. */
    method Reset(length: nat)
      requires length >= 1
      modifies this
      ensures Valid()
      ensures numberLength == length && possibleNumbers == AllVectors(length)
      ensures constraints == [] && guessHistory == []
    {
      numberLength := length;
      possibleNumbers := GenerateAllPossibleNumbers(length);
      constraints := [];
      guessHistory := [];
    }

    /** Records one more constraint and the same guess in the history; the
        possible answers are left as they were. */
    method AddConstraint(guess: Vector, feedback: int)
      requires Valid()
      modifies this
      ensures Valid()
      ensures constraints == old(constraints) + [Constraint(guess, feedback)]
      ensures guessHistory == old(guessHistory) + [guess]
      ensures numberLength == old(numberLength) && possibleNumbers == old(possibleNumbers)
    {
      constraints := constraints + [Constraint(guess, feedback)];
      guessHistory := guessHistory + [guess];
    }

    /** Recomputes the possible answers from scratch: the candidates that
        satisfy every constraint or, when there are none, the relaxed set
        ordered by a stable sort on descending consistency score. */
    method UpdatePossibleNumbers()
      requires Valid()
      modifies this
      ensures Valid()
      ensures possibleNumbers == NextPossible(numberLength, constraints)
      ensures numberLength == old(numberLength) && constraints == old(constraints)
      ensures guessHistory == old(guessHistory)
    {
      var all := GenerateAllPossibleNumbers(numberLength);
      possibleNumbers := StrictFilter(all, constraints);

      if |possibleNumbers| == 0 {
        possibleNumbers := RelaxPossibleNumbers(numberLength, constraints);
      }
      NextPossibleInSpace(numberLength, constraints);
    }

    /** getNextGuess: records the previous guess and its feedback when both
        are given, then selects the next guess. `guessCount` has no effect. */
    method GetNextGuess(lastGuess: Option<Vector>, lastFeedback: Option<int>, guessCount: int,
                        entropy: seq<nat> -> Score)
      returns (guess: Vector)
      requires Valid()
      modifies this
      ensures Valid() && numberLength == old(numberLength)
      ensures lastGuess.Some? && lastFeedback.Some? ==>
        constraints == old(constraints) + [Constraint(lastGuess.value, lastFeedback.value)] &&
        guessHistory == old(guessHistory) + [lastGuess.value] &&
        possibleNumbers == NextPossible(numberLength, constraints)
      ensures !(lastGuess.Some? && lastFeedback.Some?) ==>
        constraints == old(constraints) && guessHistory == old(guessHistory) &&
        possibleNumbers == old(possibleNumbers)
      ensures |possibleNumbers| <= 3 ==> SmallSetChoice(numberLength, possibleNumbers, guessHistory, guess)
      ensures |possibleNumbers| > 3 ==> LargeSetChoice(numberLength, possibleNumbers, guessHistory, entropy, guess)
      ensures guess in AllVectors(numberLength)
      ensures FirstUnguessed(AllVectors(numberLength), guessHistory) < Pow2(numberLength) ==>
        !Guessed(guessHistory, guess)
    {
      if lastGuess.Some? && lastFeedback.Some? {
        AddConstraint(lastGuess.value, lastFeedback.value);
        UpdatePossibleNumbers();
      }
      guess := ChooseOptimalGuess(numberLength, possibleNumbers, guessHistory, entropy);
      ChoiceInSpace(numberLength, possibleNumbers, guessHistory, entropy, guess);
    }
  }
}
