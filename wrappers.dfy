/** Nullable values and exceptional outcomes shared by the trie modules. */
module Wrappers {

  /** A Kotlin `T?` / Java `Optional<T>`: either absent or present. */
  datatype Option<+T> = None | Some(value: T)

  /** The exceptions the modelled code can raise. */
  datatype Error =
    | IllegalArgument      // IllegalArgumentException
    | IllegalState         // IllegalStateException
    | IndexOutOfBounds     // StringIndexOutOfBoundsException from keyword[i]
    | NullPointer          // NullPointerException from `!!` on null

  /** Either a normal return value or a thrown exception. */
  datatype Result<+T> = Ok(value: T) | Err(error: Error)
}
