/** The knowledge gathered over the rounds of one game, and how one round's feedback is folded in. */
module Constraints {
  import opened Words

  /**
   * A value view of the constraint record: required letter per position, letters known to be
   * present together with the positions they may not take, and letters taken to be absent.
   */
  datatype Knowledge = Knowledge(greens: map<int, char>, yellows: map<char, set<int>>, grays: set<char>)

  const NoKnowledge := Knowledge(map[], map[], {})

  /** Every recorded position lies inside a word. */
  predicate WellFormed(k: Knowledge)
  {
    && (forall i :: i in k.greens ==> 0 <= i < WordLength)
    && (forall c, i :: c in k.yellows && i in k.yellows[c] ==> 0 <= i < WordLength)
  }

  /** The greens once the first `n` positions of the round have been folded in. */
  function GreensAfter(greens: map<int, char>, guess: Word, fb: seq<Color>, n: nat): map<int, char>
    requires |fb| == WordLength && n <= WordLength
  {
    greens + map j | 0 <= j < n && fb[j] == Green :: guess[j]
  }

  /** The positions below `n` where `c` was yellow in this round. */
  function YellowPositions(guess: Word, fb: seq<Color>, c: char, n: nat): set<int>
    requires |fb| == WordLength && n <= WordLength
  {
    set j | 0 <= j < n && fb[j] == Yellow && guess[j] == c
  }

  /** The positions recorded under `c`, or none when `c` is not a key. */
  function Forbidden(yellows: map<char, set<int>>, c: char): set<int>
  {
    if c in yellows then yellows[c] else {}
  }

  /** The yellows once the first `n` positions of the round have been folded in. */
  function YellowsAfter(yellows: map<char, set<int>>, guess: Word, fb: seq<Color>, n: nat): map<char, set<int>>
    requires |fb| == WordLength && n <= WordLength
  {
    if n == 0 then yellows
    else
      var y := YellowsAfter(yellows, guess, fb, n - 1);
      if fb[n - 1] == Yellow then y[guess[n - 1] := Forbidden(y, guess[n - 1]) + {n - 1}] else y
  }

  /**
   * The same yellows described position-free: a letter is a key when it was one before or is
   * yellow somewhere below `n`, and its positions are the old ones plus those yellow positions.
   */
  lemma {:induction false} YellowsAfterIs(yellows: map<char, set<int>>, guess: Word, fb: seq<Color>, n: nat, c: char)
    requires |fb| == WordLength && n <= WordLength
    ensures var y := YellowsAfter(yellows, guess, fb, n);
      && (c in y <==> c in yellows || YellowPositions(guess, fb, c, n) != {})
      && Forbidden(y, c) == Forbidden(yellows, c) + YellowPositions(guess, fb, c, n)
  {
    if n > 0 {
      YellowsAfterIs(yellows, guess, fb, n - 1, c);
      if fb[n - 1] == Yellow && guess[n - 1] == c {
        assert YellowPositions(guess, fb, c, n) == YellowPositions(guess, fb, c, n - 1) + {n - 1};
      } else {
        assert YellowPositions(guess, fb, c, n) == YellowPositions(guess, fb, c, n - 1);
      }
    } else {
      assert YellowPositions(guess, fb, c, n) == {};
    }
  }

  /**
   * The grays once the first `n` positions have been folded in: a gray position adds its letter
   * unless, at that point of the scan, the letter is already some green's value or a key of the
   * yellows. What later positions of the same guess contribute is not consulted.
   */
  function GraysAfter(k: Knowledge, guess: Word, fb: seq<Color>, n: nat): set<char>
    requires |fb| == WordLength && n <= WordLength
  {
    k.grays + set i | 0 <= i < n && GrayedAt(k, guess, fb, i) :: guess[i]
  }

  /** Whether the gray guard lets position `i` add its letter to the grays. */
  predicate GrayedAt(k: Knowledge, guess: Word, fb: seq<Color>, i: nat)
    requires |fb| == WordLength && i < WordLength
  {
    && fb[i] == Gray
    && guess[i] !in GreensAfter(k.greens, guess, fb, i).Values
    && guess[i] !in YellowsAfter(k.yellows, guess, fb, i)
  }

  /** The knowledge after one whole round. */
  function Updated(k: Knowledge, guess: Word, fb: seq<Color>): Knowledge
    requires |fb| == WordLength
  {
    Knowledge(GreensAfter(k.greens, guess, fb, WordLength),
              YellowsAfter(k.yellows, guess, fb, WordLength),
              GraysAfter(k, guess, fb, WordLength))
  }

  /** The mutable record threaded through one game. */
  class ConstraintSet {
    var greens: map<int, char>
    var yellows: map<char, set<int>>
    var grays: set<char>

    function Snapshot(): Knowledge
      reads this
    {
      Knowledge(greens, yellows, grays)
    }

    ghost predicate Valid()
      reads this
    {
      WellFormed(Snapshot())
    }

    constructor ()
      ensures Valid() && Snapshot() == NoKnowledge
    {
      greens, yellows, grays := map[], map[], {};
    }
  }

  /** Folds one round's feedback into the record, position by position. */
  method UpdateConstraints(guess: Word, feedback: seq<Color>, constraints: ConstraintSet)
    requires |feedback| == WordLength && constraints.Valid()
    modifies constraints
    ensures constraints.Valid()
    ensures constraints.Snapshot() == Updated(old(constraints.Snapshot()), guess, feedback)
  {
    ghost var k0 := constraints.Snapshot();
    for i := 0 to WordLength
      invariant constraints.greens == GreensAfter(k0.greens, guess, feedback, i)
      invariant constraints.yellows == YellowsAfter(k0.yellows, guess, feedback, i)
      invariant constraints.grays == GraysAfter(k0, guess, feedback, i)
    {
      var letter, color := guess[i], feedback[i];
      GraysStep(k0, guess, feedback, i);
      if color == Green {
        GreensStep(k0.greens, guess, feedback, i);
        constraints.greens := constraints.greens[i := letter];
      } else if color == Yellow {
        GreensStep(k0.greens, guess, feedback, i);
        constraints.yellows := constraints.yellows[letter := Forbidden(constraints.yellows, letter) + {i}];
      } else {
        GreensStep(k0.greens, guess, feedback, i);
        if letter !in constraints.greens.Values && letter !in constraints.yellows {
          constraints.grays := constraints.grays + {letter};
        }
      }
    }
    UpdatedWellFormed(k0, guess, feedback);
  }

  lemma GreensStep(greens: map<int, char>, guess: Word, fb: seq<Color>, i: nat)
    requires |fb| == WordLength && i < WordLength
    ensures GreensAfter(greens, guess, fb, i + 1) ==
      if fb[i] == Green then GreensAfter(greens, guess, fb, i)[i := guess[i]]
      else GreensAfter(greens, guess, fb, i)
  {
  }

  lemma GraysStep(k: Knowledge, guess: Word, fb: seq<Color>, i: nat)
    requires |fb| == WordLength && i < WordLength
    ensures GraysAfter(k, guess, fb, i + 1) ==
      GraysAfter(k, guess, fb, i) + if GrayedAt(k, guess, fb, i) then {guess[i]} else {}
  {
    var before := set j | 0 <= j < i && GrayedAt(k, guess, fb, j) :: guess[j];
    var after := set j | 0 <= j < i + 1 && GrayedAt(k, guess, fb, j) :: guess[j];
    assert after == before + if GrayedAt(k, guess, fb, i) then {guess[i]} else {};
  }

  /** Folding a round in keeps every recorded position inside a word. */
  lemma UpdatedWellFormed(k: Knowledge, guess: Word, fb: seq<Color>)
    requires |fb| == WordLength && WellFormed(k)
    ensures WellFormed(Updated(k, guess, fb))
  {
    forall c | true
      ensures var y := YellowsAfter(k.yellows, guess, fb, WordLength);
        c in y ==> forall i :: i in y[c] ==> 0 <= i < WordLength
    {
      YellowsAfterIs(k.yellows, guess, fb, WordLength, c);
    }
  }

  /** Every green of the round is recorded at its position, and every yellow under its letter. */
  lemma UpdatedRecordsRound(k: Knowledge, guess: Word, fb: seq<Color>)
    requires |fb| == WordLength
    ensures var u := Updated(k, guess, fb);
      forall i :: 0 <= i < WordLength ==>
        (fb[i] == Green ==> i in u.greens && u.greens[i] == guess[i]) &&
        (fb[i] == Yellow ==> guess[i] in u.yellows && i in u.yellows[guess[i]])
  {
    forall i | 0 <= i < WordLength && fb[i] == Yellow
      ensures var y := YellowsAfter(k.yellows, guess, fb, WordLength); guess[i] in y && i in y[guess[i]]
    {
      YellowsAfterIs(k.yellows, guess, fb, WordLength, guess[i]);
      assert i in YellowPositions(guess, fb, guess[i], WordLength);
    }
  }

  /**
   * Nothing is forgotten: green positions stay, a green position changes its letter only when
   * the round has a green there, and the yellows and grays only grow.
   */
  lemma UpdatedOnlyGrows(k: Knowledge, guess: Word, fb: seq<Color>)
    requires |fb| == WordLength
    ensures var u := Updated(k, guess, fb);
      && k.greens.Keys <= u.greens.Keys
      && (forall i :: i in k.greens && !(0 <= i < WordLength && fb[i] == Green) ==> u.greens[i] == k.greens[i])
      && (forall c :: c in k.yellows ==> c in u.yellows && k.yellows[c] <= u.yellows[c])
      && k.grays <= u.grays
  {
    forall c | c in k.yellows
      ensures var y := YellowsAfter(k.yellows, guess, fb, WordLength); c in y && k.yellows[c] <= y[c]
    {
      YellowsAfterIs(k.yellows, guess, fb, WordLength, c);
    }
  }

  /** A letter is added to the grays only from a gray position of the round. */
  lemma UpdatedGraysComeFromGrayPositions(k: Knowledge, guess: Word, fb: seq<Color>, c: char)
    requires |fb| == WordLength
    requires c in Updated(k, guess, fb).grays && c !in k.grays
    ensures exists i :: 0 <= i < WordLength && fb[i] == Gray && guess[i] == c
  {
  }
}
