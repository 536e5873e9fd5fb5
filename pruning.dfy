/** Filtering the candidate pool against the accumulated knowledge. */
module Pruning {
  import opened Words
  import opened Constraints

  /** The retention test: every green matches, every yellow letter occurs but not at a recorded position, no gray letter occurs. */
  predicate IsValid(word: Word, k: Knowledge)
    requires WellFormed(k)
  {
    && (forall i :: i in k.greens ==> word[i] == k.greens[i])
    && (forall c :: c in k.yellows ==> c in word && forall i :: i in k.yellows[c] ==> word[i] != c)
    && (forall c :: c in k.grays ==> c !in word)
  }

  /** `sub` is `s` with some elements dropped and the rest kept in order. */
  predicate IsSubsequence<T(==)>(sub: seq<T>, s: seq<T>)
    decreases |s|
  {
    if sub == [] then true
    else if s == [] then false
    else (sub[0] == s[0] && IsSubsequence(sub[1..], s[1..])) || IsSubsequence(sub, s[1..])
  }

  /** The pool with the words failing the test dropped; it is never longer than the pool. */
  function PruneWords(words: seq<Word>, k: Knowledge): (kept: seq<Word>)
    requires WellFormed(k)
    ensures |kept| <= |words|
    ensures forall w :: w in kept ==> w in words
    decreases |words|
  {
    if words == [] then []
    else
      var rest := PruneWords(words[1..], k);
      if IsValid(words[0], k) then [words[0]] + rest else rest
  }

  /**
   * What pruning keeps: an ordered subsequence of the pool holding every passing word as often
   * as the pool does and no failing word; so a word is kept exactly when it is in the pool and passes.
   */
  lemma {:induction false} PruneWordsKeepsExactlyPassing(words: seq<Word>, k: Knowledge)
    requires WellFormed(k)
    ensures IsSubsequence(PruneWords(words, k), words)
    ensures forall w :: multiset(PruneWords(words, k))[w] == if IsValid(w, k) then multiset(words)[w] else 0
    ensures forall w :: w in PruneWords(words, k) <==> w in words && IsValid(w, k)
    decreases |words|
  {
    if words != [] {
      PruneWordsKeepsExactlyPassing(words[1..], k);
      assert words == [words[0]] + words[1..];
    }
  }

  /** A pool whose words all pass is left as it is. */
  lemma {:induction false} PruneKeepsPassingPool(words: seq<Word>, k: Knowledge)
    requires WellFormed(k)
    requires forall w :: w in words ==> IsValid(w, k)
    ensures PruneWords(words, k) == words
    decreases |words|
  {
    if words != [] {
      PruneKeepsPassingPool(words[1..], k);
    }
  }

  /** Pruning twice with the same knowledge is pruning once. */
  lemma PruneIdempotent(words: seq<Word>, k: Knowledge)
    requires WellFormed(k)
    ensures PruneWords(PruneWords(words, k), k) == PruneWords(words, k)
  {
    PruneWordsKeepsExactlyPassing(words, k);
    PruneKeepsPassingPool(PruneWords(words, k), k);
  }

  lemma {:induction false} SubsequenceMultiset<T>(sub: seq<T>, s: seq<T>)
    requires IsSubsequence(sub, s)
    ensures multiset(sub) <= multiset(s)
    decreases |s|
  {
    if sub != [] {
      assert s == [s[0]] + s[1..];
      if sub[0] == s[0] && IsSubsequence(sub[1..], s[1..]) {
        SubsequenceMultiset(sub[1..], s[1..]);
        assert sub == [sub[0]] + sub[1..];
      } else {
        SubsequenceMultiset(sub, s[1..]);
      }
    }
  }

  /**
   * The contract of PruneWords pins its result down: an ordered subsequence of the pool that
   * holds every passing word as often as the pool does and no failing word is the pruned pool.
   */
  lemma {:induction false} PruneWordsUnique(r: seq<Word>, words: seq<Word>, k: Knowledge)
    requires WellFormed(k)
    requires IsSubsequence(r, words)
    requires forall w :: multiset(r)[w] == if IsValid(w, k) then multiset(words)[w] else 0
    ensures r == PruneWords(words, k)
    decreases |words|
  {
    if words == [] {
      assert r == [];
    } else {
      var x, xs := words[0], words[1..];
      assert words == [x] + xs;
      if IsValid(x, k) {
        if !(r != [] && r[0] == x && IsSubsequence(r[1..], xs)) {
          assert IsSubsequence(r, xs);
          SubsequenceMultiset(r, xs);
          assert false;
        }
        assert r == [x] + r[1..];
        PruneWordsUnique(r[1..], xs, k);
      } else {
        assert multiset(r)[x] == 0;
        assert r != [] ==> r[0] != x by {
          if r != [] { assert r[0] in multiset(r); }
        }
        assert IsSubsequence(r, xs);
        PruneWordsUnique(r, xs, k);
      }
    }
  }
}
