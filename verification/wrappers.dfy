/** Failure-carrying datatypes, and the one sequence predicate, shared by
    the modules of the model.

    The library signals misuse by throwing an `Error`; the model returns `Err`
    instead, carrying the kind of failure. */
module Wrappers {

  datatype Option<+T> = None | Some(value: T)

  /** The ways the library's operations fail. */
  datatype Error =
    | EmptyCollection   // "Invalid operation: ... is empty"
    | InvalidParameter  // a `typeof` check rejected an argument
    | MissingSize       // UnionFind constructed without a size
    | RangeError        // `new Array(len)` with a length that is not a valid array length

  /** `new Array(len)` accepts only integral lengths in `[0, 2^32)`; any
      other length throws a `RangeError`. */
  const ArrayLengthLimit: int := 0x1_0000_0000

  /** No element occurs twice. */
  predicate Distinct<T(==)>(s: seq<T>) {
    forall i, j :: 0 <= i < j < |s| ==> s[i] != s[j]
  }

  datatype Result<+T> = Ok(value: T) | Err(error: Error) {
    predicate IsFailure() {
      Err?
    }
  }
}
