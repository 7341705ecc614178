/** The status catalogue (`StatusConstants.HttpConstants`) and the `{status, data}` envelope. */
module Catalog {
  import opened Wrappers

  /** The catalogue symbols the modelled code refers to. Their code and description
      strings are not part of this model; they come from a `Catalog`. */
  datatype HttpConstant =
    | Success
    | BadRequest
    | InternalServerError
    | MethodNotAllowed
    | NoMatchingHandler
    | JsonDecodingError
    | UserNotFound
    | FailedToConvertValueToEnum
    | CardIdIsRequired
    | FirstNameIsRequired
    | SecondNameIsRequired
    | TypeIsRequired
    | StatusIsRequired
    | DateOfBirthIsRequired
    | AgeIsRequired
    | MobileNumberIsRequired
    | MobileBrandIsRequired
    | TypeIsInvalid
    | StatusIsInvalid
    | DateOfBirthIsInvalid
    | AgeIsInvalid

  /** The fixed, read-only `(code, desc)` table behind every catalogue symbol. */
  datatype Catalog = Catalog(code: HttpConstant -> string, desc: HttpConstant -> string)

  /** The wire status object `{code, message}`. */
  datatype Status = Status(code: string, message: string)

  /** `new Status(HttpConstants)`: copies the symbol's code and description. */
  function StatusOf(cat: Catalog, c: HttpConstant): Status
  {
    Status(cat.code(c), cat.desc(c))
  }

  /** The response envelope `{status, data}`; `None` data is the JSON `null`. */
  datatype Response<+T> = Response(status: Status, data: Option<T>)
}

/** What the server writes back: an HTTP status and the envelope. */
module Http {
  import opened Catalog

  const Ok200 := 200
  const BadRequest400 := 400
  const NotFound404 := 404
  const MethodNotAllowed405 := 405
  const InternalServerError500 := 500

  datatype ServerResponse<+T> = ServerResponse(httpStatus: int, body: Response<T>)
}
