/**
 * The snapshot engine's error surface: every failure is either a
 * serialization or a deserialization error, carrying its cause.
 */
module Errors {

  /** Why an operation failed: the backend's own report, or an inner value's error. */
  datatype Cause =
    | Backend(reason: string)
    | Inner(error: Error)

  datatype Error =
    | Serialize(cause: Cause)
    | Deserialize(cause: Cause)

  datatype Result<T> = Ok(value: T) | Err(error: Error) {
    predicate IsFailure() {
      Err?
    }

    function PropagateFailure<U>(): Result<U>
      requires Err?
    {
      Err(error)
    }

    function Extract(): T
      requires Ok?
    {
      value
    }
  }

  /** The backend found fewer bytes than the value needs. */
  const UNEXPECTED_EOF: Error := Deserialize(Backend("unexpected end of input"))
}
