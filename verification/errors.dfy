/** The exceptions that reach the error handler, as one tagged union. */
module Errors {
  import opened Wrappers
  import opened Catalog

  datatype Error =
    | ServiceException(status: HttpConstant)
    | InvalidRequestException(status: HttpConstant)
    | NotFoundException(status: HttpConstant)
    /** `javax.validation.ValidationException`; bean validation wraps what a validator throws. */
    | ValidationException(cause: Option<Error>)
    /** Spring's `ConversionFailedException`, wrapping what a converter threw. */
    | ConversionFailedException(cause: Option<Error>)
    | MethodNotAllowedException
    /** Spring's `ResponseStatusException`, with its reason and cause. */
    | ResponseStatusException(reason: Option<string>, cause: Option<Error>)
    | DecodingException
    /** Spring's `DataIntegrityViolationException`: the database refused a row, here a
        primary key already in use. */
    | DataIntegrityViolationException
    /** Spring's `IncorrectResultSizeDataAccessException`: `one()` met more than one row. */
    | IncorrectResultSizeException
    /** Any other throwable, such as a plain `RuntimeException`. */
    | OtherException(message: string)
}
