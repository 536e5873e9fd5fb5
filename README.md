# Wordle solver simulation, modelled in Dafny

The program plays Wordle against a known secret word. Each round it works through four steps:

- It draws five words at random from the pool of words still possible.
- It guesses the first sampled word that has the most different letters.
- It scores the guess green / yellow / gray, using the duplicate-letter rule.
- It folds the colours into a constraint record (greens by position, yellows with their forbidden
  positions, grays) and prunes the pool to the words that satisfy the record.

The game stops at the first hit or after six attempts.

The model has one module per component:

- `Words` (words.dfy): words of length five, colours, `Option`, `Min`.
- `Evaluator` (evaluator.dfy): `EvaluateGuess` keeps the two in-place loops of the program, a
  green pass and a yellow pass over a working copy of the secret. It is proved equal to a
  closed-form `Feedback`, where a non-green position is yellow exactly when fewer earlier
  non-green copies of its letter exist than copies left in the secret once the greens are taken.
  On top of that, the duplicate-letter rule is proved: for every letter, the green or yellow
  positions holding it number min(count in guess, count in secret).
- `Constraints` (constraints.dfy): the constraint record is a class `ConstraintSet` whose three
  fields `UpdateConstraints` updates in place. Its effect is stated by `Updated`, a position-by-position
  closed form. The gray guard reads the record *while* the round is folded in, so it sees the
  record as it stands after the earlier rounds and this round's earlier positions.
- `Pruning` (pruning.dfy): `IsValid` and `PruneWords`, the filtering list comprehension.
- `Selection` (selection.dfy): `UniqueLetters` (the loop that counts down from five) and
  `SelectGuess`.
  - Each `random.choice` on a pool is an injected natural number `d`, read as `pool[d % |pool|]`.
  - The sampled words go into a dictionary keyed by word. `FirstOccurrences` models its key
    order: the first insertion fixes a key's place.
  - The guess is the first key with the best score. `BestSurvivesDedup` proves that this is the
    first best word of the raw samples.
- `Simulation` (simulation.dfy): `RunSimulation` plays one game with all six rounds of draws
  injected. The rounds the game passes through are described by `IsGame`, a predicate over a
  ghost sequence of `Round`s (pool and record). Each round follows from the one before by
  `NextRound`, and the game stops at the first hit. `RunSimulation` returns the outcome
  `GameOutcome` that these rounds determine. `GameIsDetermined` proves the draws admit at most one sequence of rounds.

Where the code differs from what a reader of a Wordle solver might expect, the model follows
the code:

- **Gray guard.** One might expect a letter to be grayed only when it occurs once in the guess.
  The code (wordle.py:35) has no such check. It only asks whether the letter is already a
  recorded green value or a yellow key, and the answer depends on the order of positions. As a
  result the secret can be pruned. `GrayGuardCanPruneSecret` shows this: for the secret "berry",
  the guess "eerie" makes 'e' gray at position 0, although 'e' is green at position 1, and
  "berry" is then pruned.
- **Empty pool.** The code does not handle an empty pool: `random.choice` on an empty pool
  raises, which `run_simulation` does not catch (wordle.py:63, 113), so the game has no failure
  outcome for that case. The model requires instead that every
  round of the game has a non-empty pool: `Playable` inside `IsGame`.
- **Duplicate samples.** A repeated sample rewrites its key with the same score and keeps the
  key's first place in the dictionary, so only the first occurrence of a word matters.

## Model

| member | source | states |
|---|---|---|
| Evaluator.Feedback | wordle.py:9-25 | the feedback has five marks, and a mark is green exactly when guess and secret agree at that position |
| Evaluator.EvaluateGuess | wordle.py:9-25 | the two passes compute exactly the closed-form feedback `Feedback(secret, guess)` |
| Evaluator.MarkGreens | wordle.py:10-17 | after the green pass the marks are green exactly where the letters agree and gray elsewhere, and the working copy has exactly those positions struck out |
| Evaluator.MarkYellows | wordle.py:19-25 | starting from the green pass's marks and working copy, the yellow pass ends with the closed-form feedback |
| Evaluator.MarkYellowAt | wordle.py:20-23 | one step gives position i its closed-form mark; afterwards each letter's copies left in the working copy are those left after the greens, minus one per non-green position up to i that took one |
| Evaluator.IndexOf | wordle.py:23 | `list.index`: the position returned holds the value, and no earlier position does |
| Evaluator.YellowMeansMisplaced | wordle.py:21-23 | a yellow position has a letter that differs from the secret's there yet occurs in the secret |
| Evaluator.SelfIsAllGreen | wordle.py:14-17 | guessing the secret gives five greens |
| Evaluator.MarkedCount | wordle.py:9-25 | for every letter, green-or-yellow positions holding it number min(count in guess, count in secret), so never more than the secret holds |
| Constraints.Updated | wordle.py:28-36 | the record after one round: each green position records its letter, each yellow position is added under its letter, and a gray position's letter joins the grays unless it is a green value or a yellow key of the record as it stands after the earlier rounds and this round's earlier positions |
| Constraints.ConstraintSet.constructor | wordle.py:105-109 | a new record is empty: no greens, no yellows, no grays |
| Constraints.UpdateConstraints | wordle.py:28-36 | the loop leaves the record equal to `Updated(old record, guess, feedback)` and keeps every position in range |
| Constraints.UpdatedWellFormed | wordle.py:28-36 | folding in a round keeps every recorded position inside the word |
| Constraints.UpdatedRecordsRound | wordle.py:30-33 | every green is recorded at its position with its letter, every yellow under its letter with its position |
| Constraints.UpdatedOnlyGrows | wordle.py:28-36 | nothing is forgotten: green positions stay and change their letter only under a new green there, yellows and grays only grow |
| Constraints.UpdatedGraysComeFromGrayPositions | wordle.py:34-36 | a letter becomes gray only from a gray position of the guess holding it |
| Pruning.IsValid | wordle.py:40-55 | a word passes exactly when it has every green letter at its position, contains every yellow letter but at none of its forbidden positions, and contains no gray letter |
| Pruning.PruneWords | wordle.py:57 | the pruned pool is never longer than the pool and holds only words of the pool |
| Pruning.PruneWordsKeepsExactlyPassing | wordle.py:39-57 | the result is an ordered subsequence of the pool, keeping each passing word as often as the pool has it and no failing word: a word is kept exactly when it is in the pool and passes all three checks |
| Pruning.PruneWordsUnique | wordle.py:57 | any ordered subsequence with those counts is the pruned pool, so the contract above determines the result |
| Pruning.PruneKeepsPassingPool | wordle.py:57 | a pool whose words all pass is returned unchanged |
| Pruning.PruneIdempotent | wordle.py:39-57 | pruning twice with the same record is pruning once |
| Selection.DistinctIsLetterCount | wordle.py:72-81 | the distinct-letter score is the size of the set of letters of the word |
| Selection.UniqueLetters | wordle.py:72-81 | counting down from five at each repeated letter gives the number of different letters, between 1 and 5 |
| Selection.Samples | wordle.py:62-63 | one sampled word per draw, each a word of the pool |
| Selection.BestIndex | wordle.py:65-68 | the index found has the highest score among the samples, and every earlier sample scores strictly less |
| Selection.FirstOccurrences | wordle.py:61-64 | the dictionary's keys are exactly the sampled words |
| Selection.DrawCandidates | wordle.py:61-64 | the key order is the first-occurrence order of the samples, and every key maps to its distinct-letter score |
| Selection.BestSurvivesDedup | wordle.py:64-68 | the first best key of the deduplicated samples is the first best raw sample |
| Selection.Select | wordle.py:60-68 | the guess is a word of the pool |
| Selection.SelectGuess | wordle.py:60-68 | the returned key is `Select(pool, draws)`: a word of the pool, scoring no less than any sample |
| Simulation.IsGame | wordle.py:111-123 | the rounds the loop passes through: the first has the whole list and an empty record, every round has a non-empty pool, every round before the last misses and is followed by its `NextRound`, and the last hits or is the sixth |
| Simulation.NextRound | wordle.py:113-123 | after a missed guess the record stays in range and the new pool is a sub-collection of the old, no longer |
| Simulation.RoundFollows | wordle.py:122-123 | in a game, each round before the last is followed by its `NextRound` |
| Simulation.HitEndsGame | wordle.py:118-120 | a round whose guess hits is the last round of the game |
| Simulation.GameStopsAtFirstHit | wordle.py:112-125 | every round before the last misses, and a game shorter than six rounds ends on a hit |
| Simulation.RoundShrinks | wordle.py:122-123 | each round's pool is no longer than, and contained in, the one before |
| Simulation.GamePoolsShrink | wordle.py:111-123 | pools never grow from round to round, and every pool word, hence every guess, is a word of the list |
| Simulation.RoundsStayAgreed | wordle.py:113-123 | two games with the same draws that agree on a round agree on the next |
| Simulation.GamesAgree | wordle.py:111-123 | two games with the same draws agree on every round both reach |
| Simulation.GameIsDetermined | wordle.py:104-125 | the draws admit at most one sequence of rounds; with none, the precondition of `RunSimulation` cannot be met |
| Simulation.PlayAttempt | wordle.py:113-123 | the guess is the one this round prescribes and hits only in the last round; a hit leaves the record and the pool unchanged; after a miss, in every round including the sixth, the record is `Updated` by the guess's feedback and the pool is pruned by it, and a next round exists unless this was the sixth, whose record and pool these then are |
| Simulation.RunSimulation | wordle.py:104-125 | the outcome is the game's: solved at the attempt of the last round when its guess hits, failed otherwise |
| Simulation.BerryEerieLeftovers | wordle.py:13-17 | once the greens of "eerie" (e at 1, r at 2) take berry's only 'e', no 'e' and no 'i' is left in the working copy |
| Simulation.BerryEerieFeedback | wordle.py:9-25 | "eerie" against "berry" scores gray, green, green, gray, gray |
| Simulation.EerieGraysE | wordle.py:34-36 | the gray at position 0 adds 'e' to the grays although 'e' is green at position 1 |
| Simulation.GrayGuardCanPruneSecret | wordle.py:34-36 | with the gray guard as written, the record built from the secret's own feedback prunes the secret "berry" |

## Left out

- `load_words` (wordle.py:4-6): file input. The word list is a parameter of `RunSimulation`.
- `print_guess_feedback` (wordle.py:84-99) and the `print` calls in `run_simulation`: console
  output only. `RunSimulation` returns the outcome, and `PlayAttempt` returns each guess.
- `random.choice` and the `__main__` block (wordle.py:127-130): the randomness is injected as
  natural-number draws, five per round for six rounds. The secret is a parameter.
- RunSimulation: a draw on an empty pool raises in the program. The model does not represent
  that exception. It requires instead that the ghost rounds of the game all have a non-empty
  pool.
- The alphabet: words are any five-character strings. The program filters the list only by
  length (wordle.py:6), and no operation of the core depends on the letters being lowercase.
