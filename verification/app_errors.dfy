/** What a use case can throw, as seen by a `catch` clause. */
module AppErrors {

  /** A thrown value, sorted by the tests the catch clauses apply to it.
      `AppError` is the application's own error (status code included); `Zod` is a schema
      validation error with its issue messages; `Failure` is any other `Error` instance
      (a storage failure, a `TypeError`); `NonError` is a thrown value that is not an
      `Error` instance at all. */
  datatype Thrown =
    | AppError(message: string, statusCode: int)
    | Zod(issues: seq<string>)
    | Failure(name: string)
    | NonError(description: string)

  /** `error instanceof Error`: every kind except a non-Error throwable.
      The application's AppError counts as an Error subclass. */
  predicate IsErrorInstance(e: Thrown) {
    !e.NonError?
  }

  /** The error raised when a property is read from `null` or `undefined`. */
  const NullDereference: Thrown := Failure("TypeError")

  /** How one awaited write behaves: it completes; it throws without taking effect;
      or it takes effect and still throws (a commit whose acknowledgement is lost). */
  datatype Effect = Completes | FailsBefore(error: Thrown) | FailsAfter(error: Thrown) {
    predicate Applied() { !FailsBefore? }
  }
}
