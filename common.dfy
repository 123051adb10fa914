/** Failure-compatible wrappers shared by the model modules. */
module Common {

  /** A value that may be absent: SQL NULL, a missing row, a JavaScript null. */
  datatype Option<+T> = None | Some(value: T)

  /** The outcome of a write that SQLite may refuse with a constraint error. */
  datatype Result<+T> = Ok(value: T) | ConstraintViolation

  /** Every element of `s` occurs once. */
  predicate Distinct<T(==)>(s: seq<T>) {
    forall i, j :: 0 <= i < j < |s| ==> s[i] != s[j]
  }
}
