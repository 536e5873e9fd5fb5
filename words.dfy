/** Vocabulary shared by every component of the solver. */
module Words {

  /** Every word the solver handles has exactly five letters (the word list is filtered to those). */
  const WordLength: nat := 5

  /** A guess or a secret. */
  type Word = w: string | |w| == WordLength witness "aaaaa"

  /** The colour given to one position of a guess. */
  datatype Color = Green | Yellow | Gray

  datatype Option<T> = None | Some(value: T)

  function Min(a: int, b: int): int
  {
    if a <= b then a else b
  }
}
