/** Option, Result and Outcome for Java's null returns and thrown exceptions. */
module Wrappers {

  /** A Java reference that may be null: `None` is null. */
  datatype Option<+T> = None | Some(value: T)

  /** The exceptions the modelled code can raise. */
  datatype JavaException =
    | NullPointerException
    | MapNodeException(message: string)

  /** A call that either returns a value or throws. */
  datatype Result<+R> = Success(value: R) | Failure(error: JavaException)

  /** A void call that either returns normally or throws. */
  datatype Outcome = Pass | Fail(error: JavaException)
}
