/** Scoring one guess against the secret with the duplicate-letter rule. */
module Evaluator {
  import opened Words

  /** The secret with the letters matched by a green struck out (None). */
  function Unmatched(secret: Word, guess: Word): (s: seq<Option<char>>)
    ensures |s| == WordLength
  {
    seq(WordLength, j requires 0 <= j < WordLength =>
      if guess[j] == secret[j] then None else Some(secret[j]))
  }

  /** How many copies of `c` the secret still offers once the greens are taken. */
  function Available(secret: Word, guess: Word, c: char): nat
  {
    multiset(Unmatched(secret, guess))[Some(c)]
  }

  /** The number of positions below `n` where the guess has `c` but is not green there. */
  function Misses(secret: Word, guess: Word, c: char, n: nat): nat
    requires n <= WordLength
  {
    if n == 0 then 0
    else Misses(secret, guess, c, n - 1) + (if guess[n - 1] == c && guess[n - 1] != secret[n - 1] then 1 else 0)
  }

  /** The number of positions below `n` that are green with letter `c`. */
  function Hits(secret: Word, guess: Word, c: char, n: nat): nat
    requires n <= WordLength
  {
    if n == 0 then 0
    else Hits(secret, guess, c, n - 1) + (if guess[n - 1] == c && guess[n - 1] == secret[n - 1] then 1 else 0)
  }

  /**
   * The colour of position `i`, stated without the scan: green when the letters agree;
   * otherwise yellow exactly when fewer earlier non-green copies of the letter exist than
   * unmatched copies in the secret (so left-to-right they take the copies first), else gray.
   */
  function Mark(secret: Word, guess: Word, i: nat): Color
    requires i < WordLength
  {
    if guess[i] == secret[i] then Green
    else if Misses(secret, guess, guess[i], i) < Available(secret, guess, guess[i]) then Yellow
    else Gray
  }

  /** The feedback for a whole guess. */
  function Feedback(secret: Word, guess: Word): (fb: seq<Color>)
    ensures |fb| == WordLength
    ensures forall i :: 0 <= i < WordLength ==> (fb[i] == Green <==> guess[i] == secret[i])
  {
    seq(WordLength, i requires 0 <= i < WordLength => Mark(secret, guess, i))
  }

  /** Python's list.index: the first position holding `x`. */
  function IndexOf<T(==)>(s: seq<T>, x: T): (k: nat)
    requires x in s
    ensures k < |s| && s[k] == x
    ensures forall j :: 0 <= j < k ==> s[j] != x
  {
    if s[0] == x then 0 else 1 + IndexOf(s[1..], x)
  }

  /** The marks after the green pass: green where the letters agree, gray elsewhere. */
  function GreenMarks(secret: Word, guess: Word): (fb: seq<Color>)
    ensures |fb| == WordLength
  {
    seq(WordLength, j requires 0 <= j < WordLength => if guess[j] == secret[j] then Green else Gray)
  }

  /**
   * Scores a guess: the green pass, then the yellow pass over the working copy of the secret
   * it leaves behind.
   */
  method EvaluateGuess(secret: Word, guess: Word) returns (feedback: seq<Color>)
    ensures feedback == Feedback(secret, guess)
  {
    var secretLetters;
    feedback, secretLetters := MarkGreens(secret, guess);
    feedback := MarkYellows(secret, guess, feedback, secretLetters);
  }

  /**
   * The green pass: every position whose letters agree turns green and its letter is struck
   * from the working copy of the secret.
   */
  method MarkGreens(secret: Word, guess: Word) returns (feedback: seq<Color>, secretLetters: seq<Option<char>>)
    ensures feedback == GreenMarks(secret, guess)
    ensures secretLetters == Unmatched(secret, guess)
  {
    feedback := [Gray, Gray, Gray, Gray, Gray];
    secretLetters := [Some(secret[0]), Some(secret[1]), Some(secret[2]), Some(secret[3]), Some(secret[4])];
    for i := 0 to WordLength
      invariant |feedback| == WordLength && |secretLetters| == WordLength
      invariant forall j :: 0 <= j < WordLength ==>
        feedback[j] == (if j < i && guess[j] == secret[j] then Green else Gray)
      invariant forall j :: 0 <= j < WordLength ==>
        secretLetters[j] == (if j < i && guess[j] == secret[j] then None else Some(secret[j]))
    {
      if guess[i] == secret[i] {
        feedback := feedback[i := Green];
        secretLetters := secretLetters[i := None];
      }
    }
  }

  /**
   * The yellow pass: a position still gray turns yellow when its letter is left in the working
   * copy, and the first such copy is struck out.
   */
  method MarkYellows(secret: Word, guess: Word, greens: seq<Color>, unmatched: seq<Option<char>>)
    returns (feedback: seq<Color>)
    requires greens == GreenMarks(secret, guess)
    requires unmatched == Unmatched(secret, guess)
    ensures feedback == Feedback(secret, guess)
  {
    feedback := greens;
    var secretLetters := unmatched;
    for i := 0 to WordLength
      invariant |feedback| == WordLength && |secretLetters| == WordLength
      invariant forall j :: 0 <= j < i ==> feedback[j] == Mark(secret, guess, j)
      invariant forall j :: i <= j < WordLength ==> feedback[j] == greens[j]
      invariant Consumed(secret, guess, secretLetters, i)
    {
      feedback, secretLetters := MarkYellowAt(secret, guess, feedback, secretLetters, i);
    }
  }

  /**
   * One step of the yellow pass: position `i` gets its mark, and the working copy loses the
   * copy a yellow takes.
   */
  method MarkYellowAt(secret: Word, guess: Word, feedback: seq<Color>, secretLetters: seq<Option<char>>, i: nat)
    returns (marked: seq<Color>, letters: seq<Option<char>>)
    requires i < WordLength && |feedback| == WordLength && |secretLetters| == WordLength
    requires feedback[i] == (if guess[i] == secret[i] then Green else Gray)
    requires Consumed(secret, guess, secretLetters, i)
    ensures marked == feedback[i := Mark(secret, guess, i)]
    ensures |letters| == WordLength && Consumed(secret, guess, letters, i + 1)
  {
    marked, letters := feedback, secretLetters;
    if feedback[i] == Gray && Some(guess[i]) in secretLetters {
      YellowStep(secret, guess, secretLetters, i);
      marked := feedback[i := Yellow];
      var k := IndexOf(secretLetters, Some(guess[i]));
      letters := secretLetters[k := None];
    } else if feedback[i] == Gray {
      GrayStep(secret, guess, secretLetters, i);
    } else {
      GreenStep(secret, guess, secretLetters, i);
    }
  }

  /**
   * The working copy after the yellow pass has reached position `n`: each letter has lost
   * as many unmatched copies as earlier non-green positions could take.
   */
  ghost predicate Consumed(secret: Word, guess: Word, letters: seq<Option<char>>, n: nat)
    requires n <= WordLength
  {
    forall c :: multiset(letters)[Some(c)] ==
      Available(secret, guess, c) - Min(Misses(secret, guess, c, n), Available(secret, guess, c))
  }

  lemma YellowStep(secret: Word, guess: Word, letters: seq<Option<char>>, i: nat)
    requires i < WordLength && guess[i] != secret[i]
    requires Consumed(secret, guess, letters, i) && Some(guess[i]) in letters
    ensures Mark(secret, guess, i) == Yellow
    ensures Consumed(secret, guess, letters[IndexOf(letters, Some(guess[i])) := None], i + 1)
  {
    var c := guess[i];
    assert multiset(letters)[Some(c)] > 0;
    var k := IndexOf(letters, Some(c));
    var after := letters[k := None];
    assert multiset(after) == multiset(letters) - multiset{Some(c)} + multiset{None};
    forall d
      ensures multiset(after)[Some(d)] ==
        Available(secret, guess, d) - Min(Misses(secret, guess, d, i + 1), Available(secret, guess, d))
    {
      assert Misses(secret, guess, d, i + 1) == Misses(secret, guess, d, i) + (if d == c then 1 else 0);
    }
  }

  lemma GrayStep(secret: Word, guess: Word, letters: seq<Option<char>>, i: nat)
    requires i < WordLength && guess[i] != secret[i]
    requires Consumed(secret, guess, letters, i) && Some(guess[i]) !in letters
    ensures Mark(secret, guess, i) == Gray
    ensures Consumed(secret, guess, letters, i + 1)
  {
    var c := guess[i];
    assert multiset(letters)[Some(c)] == 0;
    forall d
      ensures multiset(letters)[Some(d)] ==
        Available(secret, guess, d) - Min(Misses(secret, guess, d, i + 1), Available(secret, guess, d))
    {
      assert Misses(secret, guess, d, i + 1) == Misses(secret, guess, d, i) + (if d == c then 1 else 0);
    }
  }

  lemma GreenStep(secret: Word, guess: Word, letters: seq<Option<char>>, i: nat)
    requires i < WordLength && guess[i] == secret[i]
    requires Consumed(secret, guess, letters, i)
    ensures Consumed(secret, guess, letters, i + 1)
  {
    forall d
      ensures multiset(letters)[Some(d)] ==
        Available(secret, guess, d) - Min(Misses(secret, guess, d, i + 1), Available(secret, guess, d))
    {
      assert Misses(secret, guess, d, i + 1) == Misses(secret, guess, d, i);
    }
  }

  /** Guessing the secret itself gives five greens. */
  lemma SelfIsAllGreen(secret: Word)
    ensures Feedback(secret, secret) == seq(WordLength, _ => Green)
  {
  }

  /** A yellow sits where the letters differ, and its letter occurs elsewhere in the secret. */
  lemma YellowMeansMisplaced(secret: Word, guess: Word, i: nat)
    requires i < WordLength
    ensures Feedback(secret, guess)[i] == Yellow ==> guess[i] != secret[i] && guess[i] in secret
  {
    if Feedback(secret, guess)[i] == Yellow {
      var u := Unmatched(secret, guess);
      assert Some(guess[i]) in multiset(u);
      var j := IndexOf(u, Some(guess[i]));
      assert secret[j] == guess[i];
    }
  }

  /** The number of positions below `n` whose letter is `c` and whose mark is not gray. */
  function Credited(guess: Word, fb: seq<Color>, c: char, n: nat): nat
    requires |fb| == WordLength && n <= WordLength
  {
    if n == 0 then 0
    else Credited(guess, fb, c, n - 1) + (if guess[n - 1] == c && fb[n - 1] != Gray then 1 else 0)
  }

  lemma {:induction false} CreditedSplit(secret: Word, guess: Word, c: char, n: nat)
    requires n <= WordLength
    ensures Credited(guess, Feedback(secret, guess), c, n) ==
      Hits(secret, guess, c, n) + Min(Misses(secret, guess, c, n), Available(secret, guess, c))
  {
    if n > 0 {
      CreditedSplit(secret, guess, c, n - 1);
      var i := n - 1;
      var mark := Feedback(secret, guess)[i];
      assert mark == Mark(secret, guess, i);
      if guess[i] == c && guess[i] != secret[i] {
        assert Misses(secret, guess, c, n) == Misses(secret, guess, c, i) + 1;
        assert mark != Gray <==> Misses(secret, guess, c, i) < Available(secret, guess, c);
      } else {
        assert Misses(secret, guess, c, n) == Misses(secret, guess, c, i);
      }
    }
  }

  lemma {:induction false} GuessCount(secret: Word, guess: Word, c: char, n: nat)
    requires n <= WordLength
    ensures multiset(guess[..n])[c] == Hits(secret, guess, c, n) + Misses(secret, guess, c, n)
  {
    if n > 0 {
      GuessCount(secret, guess, c, n - 1);
      assert guess[..n] == guess[..n - 1] + [guess[n - 1]];
    }
  }

  lemma {:induction false} SecretCount(secret: Word, guess: Word, c: char, n: nat)
    requires n <= WordLength
    ensures multiset(secret[..n])[c] ==
      Hits(secret, guess, c, n) + multiset(Unmatched(secret, guess)[..n])[Some(c)]
  {
    if n > 0 {
      SecretCount(secret, guess, c, n - 1);
      assert secret[..n] == secret[..n - 1] + [secret[n - 1]];
      var u := Unmatched(secret, guess);
      assert u[..n] == u[..n - 1] + [u[n - 1]];
    }
  }

  /**
   * The duplicate-letter rule: for every letter, the positions of the guess holding it that
   * are marked green or yellow number exactly the smaller of its counts in the guess and in
   * the secret, so never more than the secret holds.
   */
  lemma MarkedCount(secret: Word, guess: Word, c: char)
    ensures Credited(guess, Feedback(secret, guess), c, WordLength) ==
      Min(multiset(guess)[c], multiset(secret)[c])
    ensures Credited(guess, Feedback(secret, guess), c, WordLength) <= multiset(secret)[c]
  {
    CreditedSplit(secret, guess, c, WordLength);
    GuessCount(secret, guess, c, WordLength);
    SecretCount(secret, guess, c, WordLength);
    assert guess[..WordLength] == guess;
    assert secret[..WordLength] == secret;
    assert Unmatched(secret, guess)[..WordLength] == Unmatched(secret, guess);
  }
}
