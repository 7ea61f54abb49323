/** Option and Result values used for the error paths of the modelled C and C++ code. */
module Wrappers {

  datatype Option<+T> = None | Some(value: T)

  /**
    `Ok` is the success return of a C function, `Err` carries the message it reports
    (or the exception a C++ function throws); `:-` propagates an `Err`.
  */
  datatype Result<+T> = Ok(value: T) | Err(msg: string) {
    predicate IsFailure() {
      Err?
    }

    function PropagateFailure<U>(): Result<U>
      requires Err?
    {
      Err(msg)
    }

    function Extract(): T
      requires Ok?
    {
      value
    }
  }
}
