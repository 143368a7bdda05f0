/** Value wrappers shared by the whole model: Java's nullable references, thrown
    exceptions and the service layer's error kinds. */
module Common {

  /** A Java reference that may be null: `None` is null. */
  datatype Option<+T> = None | Some(value: T)

  /** The outcome of a call that either returns normally or throws. */
  datatype Outcome<+E> = Pass | Fail(error: E)

  /** The outcome of a call that returns a value or throws. */
  datatype Result<+T, +E> = Ok(value: T) | Err(error: E)

  /** The checked exceptions of the service layer. `DuplicateResource` is a
      subclass of `InvalidInput` in the source (see `IsInvalidInput`);
      `DbFailure` is a `DatabaseOperationException` carried by a runtime exception. */
  datatype Error =
    | InvalidInput(message: string)
    | DuplicateResource(message: string)
    | NotFound(message: string)
    | DbFailure(message: string)

  /** `catch (InvalidInputException e)` also catches a duplicate-resource failure. */
  predicate IsInvalidInput(e: Error) {
    e.InvalidInput? || e.DuplicateResource?
  }
}
