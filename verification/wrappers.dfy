/** The two shapes Python results take in this program: a value or `None`,
    and a value or a raised exception. */
module Wrappers {

  /** `X | None`. */
  datatype Option<+T> = None | Some(value: T)

  /** The outcome of a call that may raise: the value it returns, or the
      error it raises. The three members let `:-` stop at the first error,
      as an uncaught exception does. */
  datatype Result<+R, +E> = Success(value: R) | Failure(error: E) {
    predicate IsFailure() {
      Failure?
    }

    function PropagateFailure<U>(): Result<U, E>
      requires Failure?
    {
      Failure(error)
    }

    function Extract(): R
      requires Success?
    {
      value
    }
  }
}

/** Raw bytes as read from a file or a database blob. */
module Octets {

  newtype byte = b: int | 0 <= b < 256

  type Bytes = seq<byte>
}
