/** The ways a Go call can end: a value, an `error` return, or a panic. */
module Outcomes {

  /** A value that may be missing: a failed decode, an absent row, a nil pointer. */
  datatype Option<+T> = None | Some(value: T) {
    predicate IsFailure() { None? }

    function PropagateFailure<U>(): Option<U>
      requires None?
    {
      None
    }

    function Extract(): T
      requires Some?
    {
      value
    }
  }

  /** The end of a Go call that may return an error or panic. */
  datatype Outcome<+T> = Ok(value: T) | Err | Panic {
    predicate IsFailure() { !Ok? }

    function PropagateFailure<U>(): Outcome<U>
      requires !Ok?
    {
      if Err? then Err else Panic
    }

    function Extract(): T
      requires Ok?
    {
      value
    }
  }

  /** `x, err := f(); if err != nil { return err }` over a lookup. */
  function OrErr<T>(o: Option<T>): Outcome<T> {
    match o
    case Some(v) => Ok(v)
    case None => Err
  }
}
