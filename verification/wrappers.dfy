/** Optional values, results, and the failures the Huffman engine can raise. */
module Wrappers {

  datatype Option<+T> = None | Some(value: T)

  /** The two ways the engine fails on bad input: a text symbol that has no
      code (a KeyError in `encode_text`), and a padding header that cannot be
      read as a binary numeral (a ValueError in `remove_padding`). */
  datatype Error = UnknownSymbol(symbol: char) | MalformedPadding

  /** A value or an `Error`; usable with `:-`. */
  datatype Result<+T> = Success(value: T) | Failure(error: Error) {

    predicate IsFailure() {
      Failure?
    }

    function PropagateFailure<U>(): Result<U>
      requires Failure?
    {
      Failure(error)
    }

    function Extract(): T
      requires Success?
    {
      value
    }
  }
}
