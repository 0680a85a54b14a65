/**
 Failure-carrying datatypes shared by every module of the model.

 The modelled Python code signals failure by raising exceptions; each
 exception that escapes the code under study is one constructor of `Exc`,
 and every operation that can raise returns a `Result`.
 */
module Outcomes {

  datatype Option<+T> = None | Some(value: T)

  /** The exceptions the modelled code lets escape to its caller. */
  datatype Exc =
    | IndexError
    | FileNotFound(path: string)
    | SameFileError(path: string)
    | AssertionError(msg: string)
    | NotImplemented(msg: string)
    | NetworkXError(msg: string)
    | RunException(msg: string)
    | ExecutableNotFound
      /** A name the code evaluates is not bound in its module. */
    | NameError(name: string)
      /** The reply stream ran dry before a well-formed reply arrived; the
          original keeps asking the model forever in that situation. */
    | NoWellFormedReply

  /** A value or the exception that replaced it; usable with `:-`. */
  datatype Result<+T> = Ok(value: T) | Err(exc: Exc) {

    predicate IsFailure() {
      Err?
    }

    function PropagateFailure<U>(): Result<U>
      requires Err?
    {
      Err(exc)
    }

    function Extract(): T
      requires Ok?
    {
      value
    }
  }
}
