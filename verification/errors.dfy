/** The error taxonomy of the tool and the result type every fallible step
    returns. The error kinds carry no message: the model distinguishes them
    by kind only. */
module Errors {

  /** The four kinds of failure an operation can report. */
  datatype Error = Keyring | Crypto | Io | Format

  /** Success with a value, or failure with an error kind. Usable with `:-`. */
  datatype Result<+T> = Ok(value: T) | Err(error: Error) {

    predicate IsFailure() {
      Err?
    }

    function PropagateFailure<U>(): Result<U>
      requires Err?
    {
      Err(error)
    }

    function Extract(): T
      requires Ok?
    {
      value
    }
  }

  /** Some value, or nothing (an AEAD operation that failed). */
  datatype Option<+T> = None | Some(value: T)
}
