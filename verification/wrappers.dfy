/** Failure-carrying results shared by every part of the Huffman model.
    Each exception the C# library throws becomes one `HfmError` value. */
module Wrappers {

  /** The outcome of an operation that can throw in the library. */
  datatype Result<+T> = Success(value: T) | Failure(error: HfmError)

  /** An optional value, used for tree navigation that can fall off a leaf. */
  datatype Option<+T> = None | Some(value: T)

  /** The ways the library can fail.
      - InvalidFrequency: a node was constructed with a frequency that is not positive.
      - EmptyTable: the frequency table had no entries, so `nodes[0]` is out of range.
      - DuplicateKey: the code table received the same char twice (only the
        single-symbol placeholder '\0' can collide with a real symbol).
      - UnexpectedChar: the encoder or its size estimate met a char that has no code.
      - Overflow: a size computed in an `int` wrapped below zero, so allocating
        an array of that length throws. */
  datatype HfmError = InvalidFrequency | EmptyTable | DuplicateKey | UnexpectedChar | Overflow

  function Min(a: int, b: int): (m: int)
    ensures m <= a && m <= b && (m == a || m == b)
  {
    if a <= b then a else b
  }
}
