/** Machine words as the debugger uses them: uint64_t values with wrap-around addition,
    and the Option and Result types the other modules return. */
module Machine {

  const WORD_SIZE: nat := 0x1_0000_0000_0000_0000

  type Word = x: nat | x < WORD_SIZE

  type Byte = x: nat | x < 256

  const ALL_ONES: Word := WORD_SIZE - 1

  datatype Option<+T> = None | Some(value: T)

  datatype Result<+T, +E> = Ok(value: T) | Err(error: E)

  /** uint64_t addition of a word and a (possibly negative) offset. */
  function Add(a: int, b: int): Word {
    (a + b) % 0x1_0000_0000_0000_0000
  }

  function Sub(a: int, b: int): Word {
    (a - b) % 0x1_0000_0000_0000_0000
  }

  /** The value of a word when it is read as int64_t. */
  function ToSigned(w: int): int {
    var u := w % 0x1_0000_0000_0000_0000;
    if u < 0x8000_0000_0000_0000 then u else u - 0x1_0000_0000_0000_0000
  }

  /** Sums are exact inside the range of a word. */
  lemma AddMeans(a: Word, b: int)
    ensures 0 <= a + b < 0x1_0000_0000_0000_0000 ==> Add(a, b) == a + b
  {
  }

  lemma SubUndoesAdd(a: Word, b: int)
    ensures Sub(Add(a, b), b) == a
  {
  }

  lemma AddUndoesSub(a: Word, b: int)
    ensures Add(Sub(a, b), b) == a
  {
  }

  /** A signed reading has the same bits. */
  lemma SignedMeans(a: Word)
    ensures Add(0, ToSigned(a)) == a && -0x8000_0000_0000_0000 <= ToSigned(a) < 0x8000_0000_0000_0000
  {
  }

  lemma AddTwice(a: int, b: int, c: int)
    ensures Add(Add(a, b), c) == Add(a, b + c)
  {
  }
}
