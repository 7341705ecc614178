/** `BaseController`: the success envelopes every endpoint answers with. */
module BaseController {
  import opened Wrappers
  import opened Catalog
  import opened Errors
  import opened Http
  import opened ErrorHandler

  /** `success()`: status `SUCCESS`, no data. */
  function SuccessEmpty<T>(cat: Catalog): (r: Response<T>)
    ensures r.status == StatusOf(cat, Success) && r.data.None?
  {
    Response(StatusOf(cat, Success), None)
  }

  /** `success(data)`: the emitted item wrapped with status `SUCCESS`; an error is not
      caught and travels on unchanged. */
  function SuccessWith<T>(cat: Catalog, data: Result<T, Error>): (r: Result<Response<T>, Error>)
    ensures r.Ok? <==> data.Ok?
    ensures r.Ok? ==> r.value.status == StatusOf(cat, Success) && r.value.data == Some(data.value)
    ensures r.Err? ==> r.error == data.error
  {
    var item :- data;
    Ok(Response(StatusOf(cat, Success), Some(item)))
  }

  /** The two envelopes carry the same `SUCCESS` status and differ only in the data. */
  lemma SuccessEnvelopesAgree<T>(cat: Catalog, item: T)
    ensures SuccessWith(cat, Ok(item)).Ok?
    ensures SuccessEmpty<T>(cat) == SuccessWith(cat, Ok(item)).value.(data := None)
  {
  }

  /** What reaches the client: 200 with the envelope, or the error handler's reply. */
  function Deliver<T>(cat: Catalog, r: Result<Response<T>, Error>): (s: ServerResponse<T>)
    ensures s.httpStatus == Ok200 <==> r.Ok?
    ensures r.Ok? ==> s.body == r.value
    ensures r.Err? ==> s.body.data.None? && s.body.status == StatusOf(cat, Classify(r.error).status)
  {
    if r.Ok? then ServerResponse(Ok200, r.value) else RenderErrorResponse(cat, r.error)
  }

  /** A successful payload is delivered as 200 with status `SUCCESS` and the payload itself;
      an error is delivered exactly as the error handler renders it. */
  lemma DeliverSuccess<T>(cat: Catalog, data: Result<T, Error>)
    ensures data.Ok? ==>
      Deliver(cat, SuccessWith(cat, data)) == ServerResponse(Ok200, Response(StatusOf(cat, Success), Some(data.value)))
    ensures data.Err? ==>
      Deliver(cat, SuccessWith(cat, data)) == RenderErrorResponse(cat, data.error)
  {
  }
}

/** The user endpoints as the framework runs them: bean validation of the body first, then
    the component, then the envelope. Routing is not part of this model. */
module UserEndpoints {
  import opened Wrappers
  import opened Catalog
  import opened Errors
  import opened Http
  import opened Enums
  import opened Users
  import opened Constraints
  import opened Environment
  import opened UserFieldRules
  import opened CustomPage
  import opened UserPersistenceService
  import opened UserComponent
  import opened ErrorHandler
  import opened BaseController
  import Update = UpdateUserRequest
  import Create = CreateUserRequest
  import UserEntityToUserCommandConverter
  import UserCommandToUserResponseConverter

  /** The exception bean validation raises when a validator throws. */
  function Rejected(e: Error): Error {
    ValidationException(Some(e))
  }

  /** A validation failure as the client sees it: 400 with the violated constraint's status. */
  lemma RejectedIsBadRequest<T>(cat: Catalog, s: HttpConstant)
    ensures RenderErrorResponse<T>(cat, Rejected(InvalidRequestException(s)))
         == ServerResponse(BadRequest400, Response(StatusOf(cat, s), None))
  {
  }

  /** The component's outcome delivered: the new table on success, the old one otherwise. */
  function Respond<T>(cat: Catalog, store: Store, outcome: Result<(Store, T), Error>): (r: (ServerResponse<T>, Store))
    ensures r.0.httpStatus == Ok200 <==> outcome.Ok?
    ensures outcome.Ok? ==> r == (ServerResponse(Ok200, Response(StatusOf(cat, Success), Some(outcome.value.1))), outcome.value.0)
    ensures outcome.Err? ==> r == (RenderErrorResponse(cat, outcome.error), store)
  {
    var reply := Deliver(cat, SuccessWith(cat, if outcome.Ok? then Ok(outcome.value.1) else Err(outcome.error)));
    (reply, if outcome.Ok? then outcome.value.0 else store)
  }

  /** `PATCH /v1/users/{id}`. */
  function PatchUser(env: Env, cat: Catalog, store: Store, id: int, req: Update.UpdateUserRequest, run: seq<Check>)
    : (r: (ServerResponse<UserResponse>, Store))
    requires Arrangement(run, Update.Table(env, req))
    ensures Update.Validate(env, req, run).Some? ==>
      && r.1 == store
      && r.0.httpStatus == BadRequest400
      && r.0.body.status == StatusOf(cat, Update.Validate(env, req, run).value.status)
      && r.0.body.data.None?
    ensures r.0.httpStatus == Ok200 ==> UpdateUser(env.enums, store, id, req).Ok?
    ensures Update.Validate(env, req, run).None? && UpdateUser(env.enums, store, id, req).Ok? ==>
      var updated := UpdateUser(env.enums, store, id, req).value;
      r == (ServerResponse(Ok200, Response(StatusOf(cat, Success), Some(updated.1))), updated.0)
    ensures Update.Validate(env, req, run).None? && UpdateUser(env.enums, store, id, req).Err? ==>
      r == (RenderErrorResponse(cat, UpdateUser(env.enums, store, id, req).error), store)
  {
    var violation := Update.Validate(env, req, run);
    if violation.Some? then
      RejectedIsBadRequest<UserResponse>(cat, violation.value.status);
      (RenderErrorResponse(cat, Rejected(violation.value)), store)
    else Respond(cat, store, UpdateUser(env.enums, store, id, req))
  }

  /** A valid update of a stored user whose row converts is answered 200 with the merged user,
      and the row is overwritten in place. */
  lemma PatchExistingUserSucceeds(env: Env, cat: Catalog, store: Store, id: int, req: Update.UpdateUserRequest,
                                  run: seq<Check>, i: int)
    requires Arrangement(run, Update.Table(env, req))
    requires Update.Validate(env, req, run).None?
    requires Keyed(store) && 0 <= i < |store| && store[i].id == Some(id)
    requires UserEntityToUserCommandConverter.Convert(env.enums, store[i]).Ok?
    ensures var r := PatchUser(env, cat, store, id, req, run);
      && r.0.httpStatus == Ok200
      && r.0.body.data.Some? && r.0.body.data.value.id == Some(id)
      && |r.1| == |store|
  {
  }

  /** An update with an out-of-range age is refused with 400 `AGE_IS_INVALID` whatever else is
      in the table, and the table is untouched. */
  lemma PatchUnderageRejected(env: Env, cat: Catalog, store: Store, id: int, run: seq<Check>)
    requires Arrangement(run, Update.Table(env, Update.Empty.(age := Some(14))))
    ensures var r := PatchUser(env, cat, store, id, Update.Empty.(age := Some(14)), run);
      && r.1 == store
      && r.0 == ServerResponse(BadRequest400, Response(StatusOf(cat, AgeIsInvalid), None))
  {
  }

  /** `POST /v1/users`. */
  function PostUser(env: Env, cat: Catalog, store: Store, req: Create.CreateUserRequest, run: seq<Check>, generated: int)
    : (r: (ServerResponse<UserResponse>, Store))
    requires env.enums.WellFormed() && !HasId(store, generated)
    requires Arrangement(run, Create.Table(env, req))
    ensures Create.Validate(env, req, run).Some? ==>
      && r.1 == store
      && r.0.httpStatus == BadRequest400
      && r.0.body.status == StatusOf(cat, Create.Validate(env, req, run).value.status)
    ensures r.0.httpStatus == Ok200 ==> |r.1| == |store| + 1
    ensures Create.Validate(env, req, run).None? ==>
      && CreateUser(env.enums, store, req, generated).Ok?
      && var created := CreateUser(env.enums, store, req, generated).value;
         r == (ServerResponse(Ok200, Response(StatusOf(cat, Success), Some(created.1))), created.0)
  {
    var violation := Create.Validate(env, req, run);
    if violation.Some? then
      RejectedIsBadRequest<UserResponse>(cat, violation.value.status);
      (RenderErrorResponse(cat, Rejected(violation.value)), store)
    else Respond(cat, store, CreateUser(env.enums, store, req, generated))
  }

  /** A complete, well-formed create request whose only fault is age 14 is refused with 400
      `AGE_IS_INVALID`, and nothing is stored. */
  lemma PostUnderageRejected(env: Env, cat: Catalog, store: Store, req: Create.CreateUserRequest,
                             run: seq<Check>, generated: int)
    requires env.enums.WellFormed() && !HasId(store, generated)
    requires Arrangement(run, Create.Table(env, req))
    requires Create.MissingFields(req) == {}
    requires req.userType.value in env.enums.userType.values
    requires req.status.value in env.enums.userStatus.values
    requires env.parses(req.dateOfBirth.value, env.dateFormat)
    requires req.age == Some(14)
    ensures var r := PostUser(env, cat, store, req, run, generated);
      && r.1 == store
      && r.0 == ServerResponse(BadRequest400, Response(StatusOf(cat, AgeIsInvalid), None))
  {
    assert TypedViolations(env, req.userType, req.status, req.dateOfBirth, req.age) == {AgeIsInvalid};
    Create.SingleProblem(env, req, run, AgeIsInvalid);
  }

  /** `GET /v1/users/{id}`. */
  function GetUserEndpoint(cat: Catalog, enums: UserEnums, store: Store, id: int): (r: ServerResponse<UserResponse>)
    ensures !HasId(store, id) <==> r == ServerResponse(NotFound404, Response(StatusOf(cat, UserNotFound), None))
    ensures r.httpStatus == Ok200 ==> r.body.data.Some? && r.body.data.value.id == Some(id)
  {
    var found := GetUser(enums, store, id);
    var r := Deliver(cat, SuccessWith(cat, found));
    assert r.httpStatus == NotFound404 ==> found.Err? && found.error.NotFoundException?;
    r
  }

  /** Under the primary key, a stored user whose row converts is answered 200 with its
      response; a row that does not convert is answered 500 `FAILED_TO_CONVERT_VALUE_TO_ENUM`. */
  lemma GetUserEndpointFinds(cat: Catalog, enums: UserEnums, store: Store, id: int, i: int)
    requires Keyed(store) && 0 <= i < |store| && store[i].id == Some(id)
    ensures UserEntityToUserCommandConverter.Convert(enums, store[i]).Ok? ==>
      GetUserEndpoint(cat, enums, store, id)
        == ServerResponse(Ok200, Response(StatusOf(cat, Success),
             Some(UserCommandToUserResponseConverter.Convert(enums, UserEntityToUserCommandConverter.Convert(enums, store[i]).value))))
    ensures UserEntityToUserCommandConverter.Convert(enums, store[i]).Err? ==>
      GetUserEndpoint(cat, enums, store, id)
        == ServerResponse(InternalServerError500, Response(StatusOf(cat, FailedToConvertValueToEnum), None))
  {
  }

  /** `GET /v1/users`, with the one-based paging. */
  function ListUsers(cat: Catalog, enums: UserEnums, store: Store, p: Pageable): (r: ServerResponse<CustomPage<UserShortResponse>>)
    ensures r.httpStatus == Ok200 ==>
      && r.body.data.Some?
      && r.body.data.value.totalElements == |store|
      && r.body.data.value.size == |r.body.data.value.content| <= p.pageSize
    ensures r.httpStatus == Ok200 <==> FindAll(enums, store, p).Ok?
    ensures r.httpStatus != Ok200 ==>
      r == ServerResponse(InternalServerError500, Response(StatusOf(cat, FailedToConvertValueToEnum), None))
  {
    Deliver(cat, SuccessWith(cat, GetUserList(enums, store, p)))
  }

  /** `DELETE /v1/users/{id}` as written: 200 with no data, over a delete that never runs,
      so a user that was there is there still. */
  function DeleteUserEndpointAsWritten<T>(cat: Catalog, store: Store, id: int): (r: (ServerResponse<T>, Store))
    ensures r.0 == ServerResponse(Ok200, SuccessEmpty(cat))
    ensures |r.1| == |store|
    ensures HasId(r.1, id) <==> HasId(store, id)
  {
    (ServerResponse(Ok200, SuccessEmpty(cat)), DeleteAsWritten(store, id))
  }

  /** `DELETE /v1/users/{id}` with the delete subscribed: 200 with no data, and the user gone. */
  function DeleteUserEndpoint<T>(cat: Catalog, store: Store, id: int): (r: (ServerResponse<T>, Store))
    ensures r.0 == ServerResponse(Ok200, SuccessEmpty(cat))
    ensures !HasId(r.1, id)
  {
    (ServerResponse(Ok200, SuccessEmpty(cat)), DeleteUser(store, id))
  }
}
