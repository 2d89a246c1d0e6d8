/** The error taxonomy shared by the decoder and the encoder, and the result
    wrappers every fallible operation returns. */
module Errors {

  /** The failure kinds: the five variants of the crate's error enum, plus
      `Syntax` and `TypeNotSupported`, which the encoder raises. */
  datatype Error =
    | Message(text: string)
    | ExpectedNumber
    | ExpectedList
    | ExpectedEnd
    | Eof
    | Syntax
    | TypeNotSupported

  /** `Result<T>` of the crate: a value or one `Error`. */
  datatype Result<+T> = Ok(value: T) | Err(error: Error) {

    predicate IsFailure() {
      Err?
    }

    function PropagateFailure<U>(): Result<U>
      requires Err?
    {
      Err(error)
    }

    function Extract(): T
      requires Ok?
    {
      value
    }
  }

  /** The conventional optional value. */
  datatype Option<+T> = None | Some(value: T)
}
