# Boordle guessing engine, modelled in Dafny

Boordle is a binary code-breaking puzzle. The hidden answer is a vector of L
digits, each 0 or 1. Each guess reveals only how many positions match the
answer. The `Strategy` class in `src/strategy.ts` is the engine that proposes
the next guess. This project models that class and proves properties of it.

The engine keeps four pieces of state:

- the length L;
- the possible answers (`possibleNumbers`);
- an append-only list of (guess, feedback) constraints;
- a guess history that records the same guesses in lockstep.

Each call to `getNextGuess` may first record the previous guess and its
feedback. It then recomputes the possible answers:

- **Strict filter:** keep the candidates that agree with every constraint.
- **Relaxation:** used when the strict filter keeps nothing. Keep the
  candidates whose score is at least the best score minus one, where a
  candidate's score is the number of constraints it satisfies. They are
  ordered by a stable sort on descending score.

Last, it picks a guess:

- **At most three possible answers:** a direct scan with a fixed fallback
  chain.
- **More than three:** a search of the whole candidate space for the first
  not-yet-guessed vector whose feedback histogram scores best.

Files, one module each:

- `candidates.dfy` (`Candidates`): the candidate space, i.e. the padded
  binary numerals of 0 to 2^L − 1, plus `generateAllPossibleNumbers`.
- `feedback.dfy` (`Matching`): `calculateFeedback`.
- `ranking.dfy` (`Ranking`): orderings of the candidate space by a per-candidate
  score. This covers the stable descending sort, the "best score minus one"
  filter and the relaxed set, all over indices.
- `constraints.dfy` (`Constraints`): constraints, consistency scores, the
  strict filter and the relaxation branch of `updatePossibleNumbers`.
- `selection.dfy` (`Selection`): the "already guessed" test, the scans, the
  feedback histogram, `calculateGuessScore` and `chooseOptimalGuess`.
- `strategy.dfy` (`Engine`): the class `Strategy` with its fields, its object
  invariant `Valid()` and the methods that update it.
- `wrappers.dfy` (`Wrappers`): `Option`.

Modelling choices:

- **"Already guessed" test, modelled exactly.** A history entry covers a
  vector when every digit of the entry equals the vector's digit at the same
  position, i.e. when the entry is a prefix of the vector. For entries of
  length L this is plain equality (`Selection.GuessedMeaning`). An empty
  entry covers every vector.
- **The empty first guess.** The user interface passes `[]` as the previous
  guess on its first call, together with the parsed input as feedback
  (src/app.tsx:288-292). That `[]` is
  truthy, so it is recorded. From then on every vector counts as guessed, and
  the engine always returns its first possible answer
  (`Selection.EmptyEntryFreezesChoice`).
- **Feedback, modelled exactly.** It counts the positions below the guess's
  length where the target has the same digit. A position past the target's
  end never matches.
- **Hard-coded fallback.** `[0,0,0,0,0,0]` has six digits whatever L is
  (`Selection.FallbackGuess`). The engine's invariant keeps the possible
  answers non-empty, so `getNextGuess` never reaches the branch that returns
  it.
- **Dead code.** In the large-set branch, `possibleNumbers` has more than
  three members. So the fallbacks at src/strategy.ts:139-146 never run, and
  the model has `assert false` there. The fallback to the whole space at
  src/strategy.ts:77-78 is also proved unreachable.
- **Score map.** The source keys its map by the candidate arrays, and each
  generated array is a distinct object. The model uses a score sequence
  aligned with the candidate space instead.
- **The sort.** `Array.prototype.sort` with comparator `b[1] - a[1]` is a
  stable sort by descending score. It is modelled by `Ranking.SortDesc`: the
  score levels from the top down, each in increasing index order. Lemmas
  prove that this ordering is a permutation, is non-increasing and is stable.

Three properties of the code worth stating outright:

- The match count at src/strategy.ts:83-91 is symmetric for vectors of any
  lengths, since only positions both vectors have can match
  (`Matching.FeedbackSymmetric`).
- The "already guessed" test at src/strategy.ts:100-101 is a prefix test,
  not equality.
- The relaxed answers at src/strategy.ts:67-73 are ordered by a stable sort
  on descending score, not left in candidate order.

## Model

| member | source | states |
|---|---|---|
| `Candidates.GenerateAllPossibleNumbers` | src/strategy.ts:30-38 | the loop returns exactly the candidate space: numeral i of length L for every i below 2^L, in order |
| `Candidates.AllVectorsExact` | src/strategy.ts:30-38 | the space has 2^L vectors; vector i has length L, only digits 0 and 1, and spells i in binary; no two are equal |
| `Candidates.AllVectorsMembers` | src/strategy.ts:30-38 | a vector is in the space iff it is a binary vector of length L, and then it sits at the index it spells |
| `Candidates.BitsRoundTrip` | src/strategy.ts:33-34 | the padded, most-significant-first numeral of i < 2^L is binary and reads back as i |
| `Candidates.ValueRoundTrip` | src/strategy.ts:33-34 | every binary vector is the padded numeral of the number it spells, and that number is below 2^L |
| `Matching.CalculateFeedback` | src/strategy.ts:83-91 | the counting loop returns the number of positions of the guess holding the target's digit |
| `Matching.FeedbackBounds` | src/strategy.ts:83-91 | the feedback lies between 0 and the guess's length, and never exceeds the target's length |
| `Matching.FeedbackSymmetric` | src/strategy.ts:83-91 | for any two vectors, of equal or different lengths, swapping guess and target does not change the feedback |
| `Matching.FeedbackFullIffEqual` | src/strategy.ts:83-91 | for vectors of equal length, the feedback equals the length iff the vectors are equal; a vector fully matches itself |
| `Constraints.ConsistencyScoreSpec` | src/strategy.ts:56-63 | a candidate's score is at most the number of constraints, and equals it iff the candidate satisfies every constraint |
| `Constraints.ConstraintScore` | src/strategy.ts:57-63 | the inner loop returns the number of constraints whose feedback the candidate reproduces |
| `Constraints.ScoreCandidates` | src/strategy.ts:56-65 | the outer loop returns one score per candidate, aligned with the candidate space |
| `Constraints.StrictFilterMembers` | src/strategy.ts:46-51 | the filter keeps a vector iff it is among the candidates and satisfies every constraint |
| `Constraints.StrictFilterIsTopLevel` | src/strategy.ts:46-51 | the filter is the set of candidates whose score equals the number of constraints, in increasing index order |
| `Constraints.StrictResult` | src/strategy.ts:46-51 | over the candidate space, the filter keeps exactly the consistent vectors, in strictly increasing binary value |
| `Constraints.SortAndFilter` | src/strategy.ts:67-73 | sorting the scored candidates, reading the best score off the head and keeping what reaches one below it yields exactly the relaxed index list, which is never empty |
| `Constraints.RelaxPossibleNumbers` | src/strategy.ts:53-79 | scoring, sorting, reading the best score off the head and filtering yields exactly the relaxed set; the fallback at :77-78 is unreachable |
| `Constraints.RelaxedNonEmptyResult` | src/strategy.ts:53-79 | when the strict filter keeps nothing, the relaxed set is not empty and the best score is below the number of constraints |
| `Constraints.RelaxedMembership` | src/strategy.ts:70-73 | the relaxed set holds a vector iff it is a candidate satisfying at least the best score minus one constraints |
| `Constraints.RelaxedOrder` | src/strategy.ts:67-73 | along the relaxed set scores never increase, and equal scores keep increasing binary value |
| `Constraints.NextPossibleInSpace` | src/strategy.ts:45-80 | the recomputed possible answers are never empty and always lie in the candidate space |
| `Ranking.MaxScoreBound` | src/strategy.ts:70 | no score exceeds the best score |
| `Ranking.MaxScoreAt` | src/strategy.ts:70 | some candidate reaches the best score |
| `Ranking.SortDescSpec` | src/strategy.ts:67-68 | the sort lists every index whose score is at most the top, in non-increasing and stable order |
| `Ranking.SortIsStablePermutation` | src/strategy.ts:67-68 | sorting the whole space lists every index exactly once, in descending and stable order, with a best-scoring index at its head |
| `Ranking.HeadIsBest` | src/strategy.ts:70 | the head of the sorted list carries the maximum score |
| `Ranking.FilterTopTwo` | src/strategy.ts:71-73 | keeping the sorted entries that reach the top score minus one leaves the top level followed by the level below it |
| `Ranking.SortThenFilter` | src/strategy.ts:67-73 | the sort, then reading the best score off the head, then filtering, gives exactly the relaxed index list |
| `Ranking.RelaxedNonEmpty` | src/strategy.ts:70-75 | the relaxed index list is never empty when there is a candidate |
| `Ranking.RelaxedMembers` | src/strategy.ts:71-73 | the relaxed index list holds an index iff its score is at least the best score minus one |
| `Ranking.RelaxedInOrder` | src/strategy.ts:67-73 | along the relaxed index list scores never increase and equal scores keep increasing index order |
| `Selection.GuessedMeaning` | src/strategy.ts:100-101 | with history entries of the vector's length, "already guessed" is plain membership; an empty entry counts every vector as guessed |
| `Selection.FirstUnguessed` | src/strategy.ts:99-104 | the result is the first position whose candidate no history entry covers; all earlier ones are covered; it is the count of candidates when all are covered |
| `Selection.ScanUnguessed` | src/strategy.ts:99-112 | the scan loop stops exactly at the first candidate not yet guessed |
| `Selection.HistogramTotal` | src/strategy.ts:152-158 | the histogram has L+1 buckets, and they add up to the number of possible answers |
| `Selection.CalculateGuessScore` | src/strategy.ts:152-168 | the array filled in place holds, in bucket k, the number of possible answers with feedback k; the score is that histogram's score |
| `Selection.BestUnguessed` | src/strategy.ts:117-133 | the search loop returns nothing only when every candidate is already guessed; otherwise the first unguessed candidate whose score is the highest among unguessed candidates and beats every unguessed one before it |
| `Selection.ChooseOptimalGuess` | src/strategy.ts:93-150 | no possible answer: six zeros. One to three: the first unguessed possible answer, else the first unguessed candidate, else the first possible answer. More than three: the first unguessed best-scoring candidate, or the first possible answer when all are guessed. The result is unguessed while any candidate is |
| `Selection.EmptyEntryFreezesChoice` | src/strategy.ts:100-101 | once the history holds an empty entry, both branches return the first possible answer |
| `Selection.ChoiceInSpace` | src/strategy.ts:93-150 | when the possible answers lie in the candidate space, so does the guess either branch selects |
| `Selection.DistinctGuessesBound` | src/strategy.ts:30-38 | pairwise distinct guesses drawn from the candidate space number at most 2^L |
| `Selection.UnguessedRunBound` | src/strategy.ts:21-28 | a run of candidates in which none is covered by the ones before it (the history each call builds when every guess is passed back) has at most 2^L members |
| `Engine.Strategy.constructor` | src/strategy.ts:7-12 | a new engine holds the whole candidate space and no constraints or history |
| `Engine.Strategy.Reset` | src/strategy.ts:14-19 | the state after a reset depends on the length alone: the whole space, no constraints, no history (so a reset is idempotent and equals a new engine) |
| `Engine.Strategy.AddConstraint` | src/strategy.ts:40-43 | one constraint and the same guess are appended; the possible answers and length are unchanged; the lockstep invariant holds |
| `Engine.Strategy.UpdatePossibleNumbers` | src/strategy.ts:45-81 | the possible answers become the strict filter when it is non-empty, else the relaxed set; constraints and history are unchanged |
| `Engine.Strategy.GetNextGuess` | src/strategy.ts:21-28 | with both a previous guess and a feedback, the constraint is recorded and the possible answers are recomputed; the returned guess is a candidate of the space, follows the small-set or large-set rule and is unguessed while any candidate is |

## Left out

- Selection.CalculateGuessScore: the entropy arithmetic at src/strategy.ts:160-166 (`count / n`, `Math.log2`) is floating point. The model applies a parameter `entropy` to the exact histogram. The only thing assumed about `entropy` is that it is non-negative, which the strictly-greater search relies on. So "the score is 0 iff one bucket" and "the score is maximal for balanced buckets" are not modelled.
- Engine.Strategy.Reset: requires a length of at least 1. src/app.tsx:262 calls `reset()` with no length. This leaves the candidate space empty, and the relaxation would then read the first element of an empty sorted list and throw. A length of 0 would produce the single vector `[0]`, because the numeral is not shortened to zero digits.
- Feedback values are integers. A feedback of `NaN` (from `parseInt` on bad input) is not modelled; it would match no constraint. A missing feedback is modelled as `None`, which stands for the `null` the source tests for; an `undefined` feedback, which the source would record, is not modelled.
- `Array.prototype.sort`, `filter`, `every` and `some` are library calls. They are modelled by the functions that specify them (`Ranking.SortDesc`, `Constraints.StrictFilter`, `Constraints.SatisfiesAll`, `Selection.Guessed`), not by their own loops.
- The copies `[...guess]` at src/strategy.ts:41-42 are implicit, because sequences are values. Aliasing of arrays between the engine and its caller is not modelled.
- The `guessCount` argument of `getNextGuess` is accepted and has no effect.
- The end-to-end convergence argument across several calls of `getNextGuess` is not written out as one statement. Each call returns a candidate that no history entry covers while any candidate is uncovered (`Engine.Strategy.GetNextGuess`), and a run of such guesses has at most 2^L members (`Selection.UnguessedRunBound`); this holds for any `entropy` and any feedback. It needs the caller to pass back each returned guess. The user interface's first call records an empty entry (src/app.tsx:289), which covers every vector, so from then on the no-repeat guarantee says nothing.
- src/app.tsx is not part of this model. It covers rendering, focus handling, timers, dialogs, tabs, hints and the random answer.
