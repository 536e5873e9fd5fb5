/** The guess heuristic: sample the pool and keep a sampled word with the most different letters. */
module Selection {
  import opened Words

  /** How many words are drawn from the pool per guess. */
  const SampleCount: nat := 5

  /** The number of letters of `s` that do not occur earlier in `s`. */
  function Distinct(s: string): nat
    decreases |s|
  {
    if s == [] then 0
    else Distinct(s[..|s| - 1]) + (if s[|s| - 1] in s[..|s| - 1] then 0 else 1)
  }

  /** Distinct counts the different letters: it is the size of the set of letters. */
  lemma {:induction false} DistinctIsLetterCount(s: string)
    ensures Distinct(s) == |set c | c in s|
    decreases |s|
  {
    if s != [] {
      var p, x := s[..|s| - 1], s[|s| - 1];
      DistinctIsLetterCount(p);
      var seen := set c | c in p;
      assert s == p + [x];
      assert (set c | c in s) == seen + {x};
      if x in p {
        assert seen + {x} == seen;
      } else {
        assert x !in seen;
        assert |seen + {x}| == |seen| + 1;
      }
    }
  }

  /** Counts down from five once for every letter already seen earlier in the word. */
  method UniqueLetters(word: Word) returns (count: int)
    ensures count == Distinct(word)
    ensures count == |set c | c in word|
    ensures 1 <= count <= WordLength
  {
    var letters: set<char> := {};
    count := WordLength;
    for i := 0 to WordLength
      invariant letters == set c | c in word[..i]
      invariant count == WordLength - i + |letters|
      invariant |letters| <= i
      invariant i > 0 ==> |letters| >= 1
    {
      assert word[..i + 1] == word[..i] + [word[i]];
      if word[i] in letters {
        count := count - 1;
      } else {
        letters := letters + {word[i]};
      }
    }
    assert word[..WordLength] == word;
    DistinctIsLetterCount(word);
  }

  /**
   * The sampled words: each random draw is an injected natural number `d`, read as the pool
   * position `d % |pool|`, so every choice a uniform draw can make is expressible.
   */
  function Samples(pool: seq<Word>, draws: seq<nat>): (s: seq<Word>)
    requires |pool| > 0
    ensures |s| == |draws|
    ensures forall j :: 0 <= j < |s| ==> s[j] in pool
  {
    seq(|draws|, j requires 0 <= j < |draws| => pool[draws[j] % |pool|])
  }

  /** The position of the first word with the most different letters. */
  function BestIndex(s: seq<Word>): (k: nat)
    requires |s| > 0
    ensures k < |s|
    ensures forall j :: 0 <= j < |s| ==> Distinct(s[j]) <= Distinct(s[k])
    ensures forall j :: 0 <= j < k ==> Distinct(s[j]) < Distinct(s[k])
    decreases |s|
  {
    if |s| == 1 then 0
    else
      var b := BestIndex(s[..|s| - 1]);
      if Distinct(s[|s| - 1]) > Distinct(s[b]) then |s| - 1 else b
  }

  /** The score of the best word of `s`. */
  function BestScore(s: seq<Word>): nat
    requires |s| > 0
  {
    Distinct(s[BestIndex(s)])
  }

  lemma BestScoreStep(s: seq<Word>, j: nat)
    requires 0 < j < |s|
    ensures BestScore(s[..j + 1]) == if Distinct(s[j]) > BestScore(s[..j]) then Distinct(s[j]) else BestScore(s[..j])
  {
    assert s[..j + 1][..j] == s[..j];
  }

  /** The words of `s` in the order they first appear, each once: the key order of a dict filled from `s`. */
  function FirstOccurrences(s: seq<Word>): (d: seq<Word>)
    ensures forall w :: w in d <==> w in s
    decreases |s|
  {
    if s == [] then []
    else
      var d := FirstOccurrences(s[..|s| - 1]);
      if s[|s| - 1] in d then d else d + [s[|s| - 1]]
  }

  /** Extending a prefix of `s` by one word appends it to the first occurrences unless already there. */
  lemma FirstOccurrencesExtend(s: seq<Word>, i: nat)
    requires i < |s|
    ensures var d := FirstOccurrences(s[..i]);
      FirstOccurrences(s[..i + 1]) == if s[i] in d then d else d + [s[i]]
  {
    assert s[..i + 1][..i] == s[..i];
  }

  /** Collapsing repeated samples does not change which word is the first best. */
  lemma {:induction false} BestSurvivesDedup(s: seq<Word>)
    requires |s| > 0
    ensures |FirstOccurrences(s)| > 0
    ensures FirstOccurrences(s)[BestIndex(FirstOccurrences(s))] == s[BestIndex(s)]
    decreases |s|
  {
    if |s| > 1 {
      var p, x := s[..|s| - 1], s[|s| - 1];
      BestSurvivesDedup(p);
      var d := FirstOccurrences(p);
      if x in d {
        var j :| 0 <= j < |p| && p[j] == x;
        assert Distinct(x) <= Distinct(p[BestIndex(p)]);
      } else {
        assert (d + [x])[..|d|] == d;
      }
    } else {
      assert FirstOccurrences(s) == FirstOccurrences(s[..0]) + [s[0]];
    }
  }

  /** The guess the selector makes from `pool` with the given draws. */
  function Select(pool: seq<Word>, draws: seq<nat>): (guess: Word)
    requires |pool| > 0 && |draws| > 0
    ensures guess in pool
  {
    var s := Samples(pool, draws);
    s[BestIndex(s)]
  }

  /**
   * The dict of sampled words: five draws, each word recorded under its score; the keys come
   * out in first-insertion order, a repeated draw keeping its first place.
   */
  method DrawCandidates(validWords: seq<Word>, draws: seq<nat>) returns (order: seq<Word>, candidates: map<Word, int>)
    requires |validWords| > 0 && |draws| == SampleCount
    ensures order == FirstOccurrences(Samples(validWords, draws))
    ensures forall w :: w in candidates <==> w in order
    ensures forall w :: w in candidates ==> candidates[w] == Distinct(w)
  {
    ghost var samples := Samples(validWords, draws);
    order, candidates := [], map[];
    for i := 0 to SampleCount
      invariant order == FirstOccurrences(samples[..i])
      invariant forall w :: w in candidates <==> w in order
      invariant forall w :: w in candidates ==> candidates[w] == Distinct(w)
    {
      var newWord := validWords[draws[i] % |validWords|];
      var score := UniqueLetters(newWord);
      assert samples[i] == newWord;
      FirstOccurrencesExtend(samples, i);
      if newWord !in candidates {
        order := order + [newWord];
      }
      candidates := candidates[newWord := score];
    }
    assert samples[..SampleCount] == samples;
  }

  /**
   * Takes the best score among the sampled words and returns the first key of the dict that
   * holds it: the first sampled word with the most different letters.
   */
  method SelectGuess(validWords: seq<Word>, draws: seq<nat>) returns (guess: Word)
    requires |validWords| > 0 && |draws| == SampleCount
    ensures guess == Select(validWords, draws)
    ensures guess in validWords
    ensures forall j :: 0 <= j < |draws| ==> Distinct(Samples(validWords, draws)[j]) <= Distinct(guess)
  {
    var order, candidates := DrawCandidates(validWords, draws);
    BestSurvivesDedup(Samples(validWords, draws));

    var bestScore := candidates[order[0]];
    for j := 1 to |order|
      invariant bestScore == BestScore(order[..j])
    {
      BestScoreStep(order, j);
      if candidates[order[j]] > bestScore {
        bestScore := candidates[order[j]];
      }
    }
    assert order[..|order|] == order;

    ghost var best := BestIndex(order);
    assert order[best] in candidates;
    for j := 0 to |order|
      invariant j <= best
    {
      if candidates[order[j]] == bestScore {
        assert j == best;
        return order[j];
      }
      assert candidates[order[j]] != candidates[order[best]];
      assert j != best;
    }
    assert false;
  }
}
