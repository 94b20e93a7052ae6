/** Option and Result types shared by the session model. */
module Wrappers {

  datatype Option<+T> = None | Some(value: T)

  /** The ways a session operation fails. */
  datatype Error =
    | InvalidOffset       // a moment was requested before time zero
    | NotSparse           // a state holding a resolved node tree was asked to be removed
    | UnresolvedReference // an object is missing from the id mapping or the buffer open-state table
    | InvalidAddAction    // a synth was placed other than at the head or the tail of its target
    | UnknownParameter    // a synth parameter the definition does not declare was read
    | NoStateBelow        // the resolver was given the root-level offset, which has no resolved state below it

  datatype Result<+T> = Ok(value: T) | Err(error: Error) {
    predicate IsFailure() { Err? }

    function PropagateFailure<U>(): Result<U>
      requires Err?
    {
      Err(error)
    }

    function Extract(): T
      requires Ok?
    {
      value
    }
  }
}
