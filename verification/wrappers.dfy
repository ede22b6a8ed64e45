/** Failure-carrying results shared by every module of the model.
    `Option` stands for a Java reference that may be null; `Result` for a call
    that either returns normally or throws one of the exceptions in `Error`. */
module Wrappers {

  /** A Java reference that may be null: `None` is null. */
  datatype Option<+T> = None | Some(value: T)

  /** The exceptions the modelled code throws. */
  datatype Error =
    | NullPointer
    | IllegalArgument
    | IndexOutOfBounds
    | ArrayIndexOutOfBounds
    | StringIndexOutOfBounds
    | NegativeArraySize
    | OutOfMemory
    | NoSuchElement

  /** Normal return with a value, or an exception. */
  datatype Result<+R> = Ok(value: R) | Err(error: Error)
}
