/** `CustomErrorWebExceptionHandler`: the single place where an error becomes an HTTP
    status and a `{status, data: null}` envelope. */
module ErrorHandler {
  import opened Wrappers
  import opened Catalog
  import opened Errors
  import opened Http

  /** The HTTP status and catalogue symbol chosen for an error. */
  datatype Classification = Classification(httpStatus: int, status: HttpConstant)

  /** `renderErrorResponse`: the first matching branch decides. */
  function Classify(e: Error): Classification {
    match e
    case ServiceException(s) => Classification(InternalServerError500, s)
    case InvalidRequestException(s) => Classification(BadRequest400, s)
    case NotFoundException(s) => Classification(NotFound404, s)
    case ValidationException(Some(InvalidRequestException(s))) => Classification(BadRequest400, s)
    case ConversionFailedException(Some(ServiceException(s))) => Classification(InternalServerError500, s)
    case MethodNotAllowedException => Classification(MethodNotAllowed405, MethodNotAllowed)
    case ResponseStatusException(reason, cause) =>
      if reason == Some("No matching handler") then Classification(InternalServerError500, NoMatchingHandler)
      else if cause == Some(DecodingException) then Classification(InternalServerError500, JsonDecodingError)
      else InternalServerErrorReply()
    case _ => InternalServerErrorReply()
  }

  /** `internalServerError`: the fallback for everything not recognised above. */
  function InternalServerErrorReply(): Classification {
    Classification(InternalServerError500, InternalServerError)
  }

  function RenderErrorResponse<T>(cat: Catalog, e: Error): (r: ServerResponse<T>)
    ensures r.body.data.None?
    ensures r.httpStatus in {BadRequest400, NotFound404, MethodNotAllowed405, InternalServerError500}
    ensures r.httpStatus == Classify(e).httpStatus
    ensures r.body.status == StatusOf(cat, Classify(e).status)
  {
    var c := Classify(e);
    ServerResponse(c.httpStatus, Response(StatusOf(cat, c.status), None))
  }

  /** The error kinds of the service's taxonomy: client errors, missing entities, and
      server-side faults. */
  predicate IsClientError(e: Error) {
    e.InvalidRequestException? || (e.ValidationException? && e.cause.Some? && e.cause.value.InvalidRequestException?)
  }

  /** The status an error carries itself, directly or through the wrapper the handler unwraps. */
  function CarriedStatus(e: Error): Option<HttpConstant> {
    if e.ServiceException? || e.InvalidRequestException? || e.NotFoundException? then Some(e.status)
    else if e.ValidationException? && e.cause.Some? && e.cause.value.InvalidRequestException? then Some(e.cause.value.status)
    else if e.ConversionFailedException? && e.cause.Some? && e.cause.value.ServiceException? then Some(e.cause.value.status)
    else None
  }

  /** 400 is chosen exactly for invalid requests, bare or wrapped by bean validation. */
  lemma BadRequestExactly(e: Error)
    ensures Classify(e).httpStatus == BadRequest400 <==> IsClientError(e)
  {
  }

  /** 404 exactly for `NotFoundException`, 405 exactly for `MethodNotAllowedException`,
      and 500 for everything else. */
  lemma StatusByKind(e: Error)
    ensures Classify(e).httpStatus == NotFound404 <==> e.NotFoundException?
    ensures Classify(e).httpStatus == MethodNotAllowed405 <==> e.MethodNotAllowedException?
    ensures Classify(e).httpStatus == InternalServerError500
        <==> !IsClientError(e) && !e.NotFoundException? && !e.MethodNotAllowedException?
  {
  }

  /** An error that carries a status is answered with that status, unchanged. */
  lemma CarriedStatusWins(e: Error)
    requires CarriedStatus(e).Some?
    ensures Classify(e).status == CarriedStatus(e).value
  {
  }

  /** Errors without a status of their own get a fixed catalogue symbol. */
  lemma FixedStatuses(reason: Option<string>, cause: Option<Error>, message: string)
    ensures Classify(MethodNotAllowedException) == Classification(MethodNotAllowed405, MethodNotAllowed)
    ensures Classify(ResponseStatusException(Some("No matching handler"), cause))
         == Classification(InternalServerError500, NoMatchingHandler)
    ensures reason != Some("No matching handler") ==>
              (Classify(ResponseStatusException(reason, Some(DecodingException)))
                 == Classification(InternalServerError500, JsonDecodingError))
    ensures reason != Some("No matching handler") && cause != Some(DecodingException) ==>
              Classify(ResponseStatusException(reason, cause)) == InternalServerErrorReply()
    ensures Classify(OtherException(message)) == InternalServerErrorReply()
    ensures Classify(DecodingException) == InternalServerErrorReply()
  {
  }

  /** A wrapper whose cause is not the one the handler looks for falls through to the
      generic 500, losing the inner status. */
  lemma WrongCauseFallsThrough(cause: Option<Error>)
    ensures (cause.None? || !cause.value.InvalidRequestException?) ==>
              Classify(ValidationException(cause)) == InternalServerErrorReply()
    ensures (cause.None? || !cause.value.ServiceException?) ==>
              Classify(ConversionFailedException(cause)) == InternalServerErrorReply()
  {
  }
}
