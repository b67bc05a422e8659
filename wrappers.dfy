/** Failure-compatible wrappers shared by every module of the model.
    Java's `Optional`/nullable references become `Option`; a method that throws
    becomes a function or method returning `Result`, whose error side records the
    exception class and message the source throws. */
module Wrappers {

  datatype Option<+T> = None | Some(value: T) {
    /** The value, or `default` when absent (Java's `orElse`, JavaScript's `??`-style fallback). */
    function GetOr(default: T): T {
      match this
      case Some(v) => v
      case None => default
    }
  }

  /** The exceptions the modelled code raises. Messages are kept verbatim because
      the controllers and the tests compare them. */
  datatype Exception =
    | RuntimeException(message: string)
    | IllegalStateException(message: string)
    /** jjwt rejects a token whose signature does not verify under the key. */
    | SignatureException
    /** jjwt rejects a string that is not a compact signed JWT. */
    | MalformedJwtException
    /** The persistence layer refuses to save an entity whose `nullable = false`
        column holds null; `property` names the entity and the field. */
    | NotNullViolation(property: string)

  datatype Result<+T> = Ok(value: T) | Err(error: Exception) {
    predicate IsFailure() {
      Err?
    }

    function PropagateFailure<U>(): Result<U>
      requires Err?
    {
      Err(error)
    }

    function Extract(): T
      requires Ok?
    {
      value
    }
  }

  /** What a service call against a repository leaves behind: the value returned
      (or the exception thrown) and the repository contents afterwards. */
  datatype Outcome<+T, +S> = Outcome(result: Result<T>, store: S)
}
