/**
  Java exceptions seen by the contract-request handler, modelled as data.

  A Java call that either returns a value of type T or throws is modelled as an
  `Outcome<T>`. The exception classes the handler distinguishes in its `catch`
  clauses each get their own kind; every other exception class is `OtherException`.
 */
module Exceptions {

  datatype ExcKind =
    | MessageEmpty          // MessageEmptyException
    | VersionNotSupported   // VersionNotSupportedException
    | MalformedPayload      // MalformedPayloadException
    | MissingPayload        // MissingPayloadException
    | InvalidResource       // InvalidResourceException
    | ResourceNotFound      // ResourceNotFoundException
    | MessageBuilder        // MessageBuilderException
    | IllegalState          // IllegalStateException
    | ConstraintViolation   // ConstraintViolationException
    | RdfBuilder            // RdfBuilderException
    | IllegalArgument       // IllegalArgumentException
    | OtherException(className: string)

  /** A thrown exception: its class and its message. */
  datatype Exc = Exc(kind: ExcKind, message: string)

  /** Either the call returned a value or it threw an exception. */
  datatype Outcome<+T> = Returned(value: T) | Threw(exc: Exc)

  /** The exception classes caught while building the accept or reject response. */
  predicate IsResponseBuilderFailure(k: ExcKind) {
    k.MessageBuilder? || k.IllegalState? || k.ConstraintViolation? || k.RdfBuilder?
  }
}
