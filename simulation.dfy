/** One game: at most six rounds of select, score, record and prune. */
module Simulation {
  import opened Words
  import opened Evaluator
  import opened Constraints
  import opened Pruning
  import opened Selection

  const MaxAttempts: nat := 6

  /** The end of a game: solved at a given attempt (counted from 1), or not solved in six. */
  datatype Outcome = Solved(attempts: nat) | Failed

  /** The injected draws: five per round, one round per possible attempt. */
  predicate DrawsFit(draws: seq<seq<nat>>)
  {
    |draws| == MaxAttempts && forall r :: 0 <= r < |draws| ==> |draws[r]| == SampleCount
  }

  /** A round of the game: the pool its guess is drawn from and the record that prunes it. */
  datatype Round = Round(pool: seq<Word>, knowledge: Knowledge)

  /** A round with something to draw from and a record whose positions are in range. */
  predicate Playable(r: Round)
  {
    |r.pool| > 0 && WellFormed(r.knowledge)
  }

  /** The round that follows a missed guess: its feedback is recorded and the pool pruned by the result. */
  function NextRound(secret: Word, r: Round, roundDraws: seq<nat>): (next: Round)
    requires Playable(r) && |roundDraws| == SampleCount
    ensures WellFormed(next.knowledge)
    ensures |next.pool| <= |r.pool|
    ensures forall w :: w in next.pool ==> w in r.pool
  {
    var guess := Select(r.pool, roundDraws);
    var fb := Feedback(secret, guess);
    UpdatedWellFormed(r.knowledge, guess, fb);
    var k := Updated(r.knowledge, guess, fb);
    Round(PruneWords(r.pool, k), k)
  }

  /**
   * Round `r` of `rounds` is played as the game plays it: if it is not the last round its guess
   * misses and its `NextRound` follows; if it is the last, its guess hits or it is the sixth.
   */
  predicate Step(secret: Word, draws: seq<seq<nat>>, rounds: seq<Round>, r: nat)
    requires DrawsFit(draws) && r < |rounds| <= MaxAttempts && Playable(rounds[r])
  {
    (r < |rounds| - 1 ==>
       Select(rounds[r].pool, draws[r]) != secret && rounds[r + 1] == NextRound(secret, rounds[r], draws[r])) &&
    (r == |rounds| - 1 ==> Select(rounds[r].pool, draws[r]) == secret || |rounds| == MaxAttempts)
  }

  /**
   * `rounds` are the rounds a game with these draws plays: the first holds the whole list and an
   * empty record, every round has a pool to draw from (a draw on an empty pool raises, which the
   * game does not catch), and every round is a `Step` of the game.
   */
  predicate IsGame(secret: Word, wordList: seq<Word>, draws: seq<seq<nat>>, rounds: seq<Round>)
    requires DrawsFit(draws)
  {
    1 <= |rounds| <= MaxAttempts &&
    rounds[0] == Round(wordList, NoKnowledge) &&
    (forall r :: 0 <= r < |rounds| ==> Playable(rounds[r])) &&
    (forall r {:trigger Step(secret, draws, rounds, r)} :: 0 <= r < |rounds| ==> Step(secret, draws, rounds, r))
  }

  /** A round that is not the last is followed by its `NextRound`. */
  lemma RoundFollows(secret: Word, wordList: seq<Word>, draws: seq<seq<nat>>, rounds: seq<Round>, r: nat)
    requires DrawsFit(draws) && IsGame(secret, wordList, draws, rounds) && r < |rounds| - 1
    ensures rounds[r + 1] == NextRound(secret, rounds[r], draws[r])
  {
    assert Step(secret, draws, rounds, r);
  }

  /** A guess that hits ends the game: only the last round can hit. */
  lemma HitEndsGame(secret: Word, wordList: seq<Word>, draws: seq<seq<nat>>, rounds: seq<Round>, r: nat)
    requires DrawsFit(draws) && IsGame(secret, wordList, draws, rounds) && r < |rounds|
    requires Select(rounds[r].pool, draws[r]) == secret
    ensures r == |rounds| - 1
  {
    assert Step(secret, draws, rounds, r);
  }

  /**
   * The game ends exactly at its first hit, or unsolved after six rounds: every round before the
   * last misses, and a game that ends unsolved has played six rounds.
   */
  lemma GameStopsAtFirstHit(secret: Word, wordList: seq<Word>, draws: seq<seq<nat>>, rounds: seq<Round>)
    requires DrawsFit(draws) && IsGame(secret, wordList, draws, rounds)
    ensures forall r :: 0 <= r < |rounds| - 1 ==> Select(rounds[r].pool, draws[r]) != secret
    ensures |rounds| < MaxAttempts ==> Select(rounds[|rounds| - 1].pool, draws[|rounds| - 1]) == secret
  {
    forall r | 0 <= r < |rounds| - 1
      ensures Select(rounds[r].pool, draws[r]) != secret
    {
      assert Step(secret, draws, rounds, r);
    }
    assert Step(secret, draws, rounds, |rounds| - 1);
  }

  /** The pool of a round after the first keeps only words of the pool before it. */
  lemma RoundShrinks(secret: Word, wordList: seq<Word>, draws: seq<seq<nat>>, rounds: seq<Round>, r: nat)
    requires DrawsFit(draws) && IsGame(secret, wordList, draws, rounds) && r < |rounds| - 1
    ensures |rounds[r + 1].pool| <= |rounds[r].pool|
    ensures forall w :: w in rounds[r + 1].pool ==> w in rounds[r].pool
  {
    RoundFollows(secret, wordList, draws, rounds, r);
  }

  /** Two games that agree on a round both continue agree on the round after it. */
  lemma RoundsStayAgreed(secret: Word, wordList: seq<Word>, draws: seq<seq<nat>>, rounds: seq<Round>, others: seq<Round>, n: nat)
    requires DrawsFit(draws) && IsGame(secret, wordList, draws, rounds) && IsGame(secret, wordList, draws, others)
    requires n + 1 < |rounds| && n + 1 < |others| && rounds[n] == others[n]
    ensures rounds[n + 1] == others[n + 1]
  {
    RoundFollows(secret, wordList, draws, rounds, n);
    RoundFollows(secret, wordList, draws, others, n);
  }

  /**
   * Pools only shrink: each is no larger than the one before, and every word of any pool, so
   * every guess, comes from the word list.
   */
  lemma {:induction false} GamePoolsShrink(secret: Word, wordList: seq<Word>, draws: seq<seq<nat>>, rounds: seq<Round>, r: nat)
    requires DrawsFit(draws) && IsGame(secret, wordList, draws, rounds) && r < |rounds|
    ensures r > 0 ==> |rounds[r].pool| <= |rounds[r - 1].pool|
    ensures forall w :: w in rounds[r].pool ==> w in wordList
    ensures Select(rounds[r].pool, draws[r]) in wordList
  {
    if r > 0 {
      RoundShrinks(secret, wordList, draws, rounds, r - 1);
      GamePoolsShrink(secret, wordList, draws, rounds, r - 1);
    }
    assert Playable(rounds[r]);
  }

  /** Two games with the same draws agree on every round both reach. */
  lemma {:induction false} GamesAgree(secret: Word, wordList: seq<Word>, draws: seq<seq<nat>>, rounds: seq<Round>, others: seq<Round>, n: nat)
    requires DrawsFit(draws) && IsGame(secret, wordList, draws, rounds) && IsGame(secret, wordList, draws, others)
    requires n < |rounds| && n < |others|
    ensures rounds[n] == others[n]
  {
    if n > 0 {
      GamesAgree(secret, wordList, draws, rounds, others, n - 1);
      RoundsStayAgreed(secret, wordList, draws, rounds, others, n - 1);
    }
  }

  /** The draws determine the game: at most one sequence of rounds plays it. */
  lemma GameIsDetermined(secret: Word, wordList: seq<Word>, draws: seq<seq<nat>>, rounds: seq<Round>, others: seq<Round>)
    requires DrawsFit(draws) && IsGame(secret, wordList, draws, rounds) && IsGame(secret, wordList, draws, others)
    ensures rounds == others
  {
    if |rounds| < |others| {
      var n := |rounds| - 1;
      GamesAgree(secret, wordList, draws, rounds, others, n);
      assert Step(secret, draws, rounds, n);
      HitEndsGame(secret, wordList, draws, others, n);
    } else if |others| < |rounds| {
      var n := |others| - 1;
      GamesAgree(secret, wordList, draws, rounds, others, n);
      assert Step(secret, draws, others, n);
      HitEndsGame(secret, wordList, draws, rounds, n);
    }
    forall n | 0 <= n < |rounds|
      ensures rounds[n] == others[n]
    {
      GamesAgree(secret, wordList, draws, rounds, others, n);
    }
  }

  /** How a game ends: solved in its last round if that round's guess hits, otherwise failed. */
  function GameOutcome(secret: Word, draws: seq<seq<nat>>, rounds: seq<Round>): Outcome
    requires DrawsFit(draws) && 1 <= |rounds| <= MaxAttempts && Playable(rounds[|rounds| - 1])
  {
    if Select(rounds[|rounds| - 1].pool, draws[|rounds| - 1]) == secret then Solved(|rounds|) else Failed
  }

  /**
   * One attempt: draw a guess from the pool, score it, and when it misses record the feedback
   * and prune the pool; a hit leaves the record and the pool as they were. The guess is the one
   * its round prescribes, a hit comes only in the last round, and after a miss the state is that
   * of the next round, if the game goes on.
   */
  method PlayAttempt(secretWord: Word, validWords: seq<Word>, constraints: ConstraintSet,
                     ghost wordList: seq<Word>, draws: seq<seq<nat>>, ghost rounds: seq<Round>, round: nat)
    returns (guess: Word, nextWords: seq<Word>)
    requires DrawsFit(draws) && IsGame(secretWord, wordList, draws, rounds) && round < |rounds|
    requires constraints.Valid() && constraints.Snapshot() == rounds[round].knowledge && validWords == rounds[round].pool
    modifies constraints
    ensures constraints.Valid()
    ensures guess == Select(rounds[round].pool, draws[round])
    ensures guess == secretWord ==> round == |rounds| - 1
    ensures guess != secretWord ==> round + 1 < |rounds| || round + 1 == MaxAttempts
    ensures guess != secretWord && round + 1 < |rounds| ==>
      nextWords == rounds[round + 1].pool && constraints.Snapshot() == rounds[round + 1].knowledge
    ensures guess == secretWord ==> constraints.Snapshot() == old(constraints.Snapshot()) && nextWords == validWords
    ensures guess != secretWord ==>
      constraints.Snapshot() == Updated(old(constraints.Snapshot()), guess, Feedback(secretWord, guess)) &&
      nextWords == PruneWords(validWords, constraints.Snapshot())
  {
    guess := SelectGuess(validWords, draws[round]);
    var feedback := EvaluateGuess(secretWord, guess);
    if guess == secretWord {
      HitEndsGame(secretWord, wordList, draws, rounds, round);
      nextWords := validWords;
    } else {
      UpdateConstraints(guess, feedback, constraints);
      nextWords := PruneWords(validWords, constraints.Snapshot());
      assert Step(secretWord, draws, rounds, round);
    }
  }

  /**
   * Plays one game: up to six attempts, stopping at the first guess that hits. The outcome is
   * the one the rounds of the game determine.
   */
  method RunSimulation(secretWord: Word, wordList: seq<Word>, draws: seq<seq<nat>>, ghost rounds: seq<Round>)
    returns (outcome: Outcome)
    requires DrawsFit(draws) && IsGame(secretWord, wordList, draws, rounds)
    ensures outcome == GameOutcome(secretWord, draws, rounds)
  {
    var constraints := new ConstraintSet();
    var validWords := wordList;
    for attempt := 1 to MaxAttempts + 1
      invariant attempt - 1 < |rounds| || attempt - 1 == |rounds| == MaxAttempts
      invariant attempt - 1 < |rounds| ==>
        validWords == rounds[attempt - 1].pool && constraints.Snapshot() == rounds[attempt - 1].knowledge
      invariant constraints.Valid()
      invariant attempt > 1 ==> Select(rounds[attempt - 2].pool, draws[attempt - 2]) != secretWord
    {
      var guess, nextWords := PlayAttempt(secretWord, validWords, constraints, wordList, draws, rounds, attempt - 1);
      if guess == secretWord {
        return Solved(attempt);
      }
      validWords := nextWords;
    }
    outcome := Failed;
  }

  /** Once the greens of "eerie" (e at 1, r at 2) take berry's only 'e', no 'e' and no 'i' is left. */
  lemma BerryEerieLeftovers()
    ensures Available("berry", "eerie", 'e') == 0 && Available("berry", "eerie", 'i') == 0
  {
    var u := Unmatched("berry", "eerie");
    assert u == [Some('b'), None, None, Some('r'), Some('y')];
    assert multiset(u) == multiset{Some('b'), None, None, Some('r'), Some('y')};
  }

  /** The feedback of the guess "eerie" against the secret "berry". */
  lemma BerryEerieFeedback()
    ensures Feedback("berry", "eerie") == [Gray, Green, Green, Gray, Gray]
  {
    var secret: Word, guess: Word := "berry", "eerie";
    BerryEerieLeftovers();
    var fb := Feedback(secret, guess);
    assert fb[0] == Mark(secret, guess, 0);
    assert fb[3] == Mark(secret, guess, 3);
    assert fb[4] == Mark(secret, guess, 4);
  }

  /** The gray at position 0 of "eerie" adds 'e' to the grays, though 'e' is green at position 1. */
  lemma EerieGraysE()
    ensures 'e' in Updated(NoKnowledge, "eerie", [Gray, Green, Green, Gray, Gray]).grays
  {
    var guess: Word, fb: seq<Color> := "eerie", [Gray, Green, Green, Gray, Gray];
    assert GreensAfter(map[], guess, fb, 0) == map[];
    assert YellowsAfter(map[], guess, fb, 0) == map[];
    assert GrayedAt(NoKnowledge, guess, fb, 0);
  }

  /**
   * The gray guard reads the record in the middle of the scan, so a letter grayed at an early
   * position is kept gray even when a later position of the same guess shows it green. Here the
   * secret "berry" is pruned by the constraints its own feedback on "eerie" produces.
   */
  lemma GrayGuardCanPruneSecret()
    ensures Feedback("berry", "eerie") == [Gray, Green, Green, Gray, Gray]
    ensures var k := Updated(NoKnowledge, "eerie", Feedback("berry", "eerie"));
      'e' in k.grays && WellFormed(k) && PruneWords(["berry"], k) == []
  {
    BerryEerieFeedback();
    var fb: seq<Color> := [Gray, Green, Green, Gray, Gray];
    EerieGraysE();
    UpdatedWellFormed(NoKnowledge, "eerie", fb);
    var k := Updated(NoKnowledge, "eerie", fb);
    var secret: Word := "berry";
    assert secret[1] == 'e';
    assert !IsValid(secret, k);
    PruneWordsKeepsExactlyPassing([secret], k);
  }
}
