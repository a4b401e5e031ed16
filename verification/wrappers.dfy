/** Failure-carrying result types shared by every module of the model. */
module Wrappers {

  /** An optional value: Go's nil-or-present, or a map lookup that may miss. */
  datatype Option<+T> = None | Some(value: T)

  /** A Go `(value, error)` pair where exactly one side is meaningful. */
  datatype Result<+R, +E> = Ok(value: R) | Err(error: E)

  /** The elements an optional value holds, as a set. */
  function OptionSet<T>(o: Option<T>): (s: set<T>)
    ensures o.None? ==> s == {}
    ensures o.Some? ==> s == {o.value}
  {
    match o
    case None => {}
    case Some(v) => {v}
  }
}
