/** `UserComponent`: the create, update, read, list and delete flows over the table. The
    activity enrichment of `getUser` is not part of this model. */
module UserComponent {
  import opened Wrappers
  import opened Catalog
  import opened Values
  import opened Errors
  import opened Enums
  import opened Users
  import opened EnumConversions
  import opened CustomPage
  import opened UserPersistenceService
  import opened UpdateUserRequest
  import opened CreateUserRequest
  import ToCommand = CreateUserRequestToUserCommandConverter
  import ConversionService
  import UserEntityToUserCommandConverter
  import ToResponse = UserCommandToUserResponseConverter
  import ToShort = UserCommandToUserShortResponseConverter

  /** `createUser`: the converted request, at level 1, saved under the generated id. */
  function CreateUser(enums: UserEnums, store: Store, req: CreateUserRequest, generated: int)
    : (r: Result<(Store, UserResponse), Error>)
    requires enums.WellFormed() && !HasId(store, generated)
    ensures r.Ok? <==> ToCommand.Convert(enums, req).Ok?
    ensures r.Err? ==> r.error == ConversionService.EnumConversionFailed
    ensures r.Ok? ==>
      var resp := r.value.1;
      && resp.id == Some(generated)
      && resp.level == Some(UserLevelToInt(enums, enums.level1))
      && resp.cardId == req.cardId && resp.firstName == req.firstName && resp.secondName == req.secondName
      && resp.userType == req.userType && resp.status == req.status
      && resp.dateOfBirth == req.dateOfBirth && resp.age == req.age
      && |r.value.0| == |store| + 1 && r.value.0[..|store|] == store
    ensures r.Ok? && Keyed(store) ==> Keyed(r.value.0)
  {
    var cmd :- ConversionService.Convert(ToCommand.Convert(enums, req));
    var leveled := cmd.(level := Some(enums.level1));
    var saved := Save(enums, store, leveled, generated).value;
    assert saved.0[..|store|] == store;
    Ok((saved.0, ToResponse.Convert(enums, saved.1)))
  }

  /** The field-by-field merge inside `updateUser`: text fields are taken when not blank,
      `status` and `age` when present; an unknown `type` or `status` is refused. */
  function Merge(enums: UserEnums, cmd: UserCommand, req: UpdateUserRequest): (r: Result<UserCommand, Error>)
    requires ValidCommand(enums, cmd)
    ensures r.Ok? <==>
      && (IsNotBlank(req.userType) ==> req.userType.value in enums.userType.values)
      && (req.status.Some? ==> req.status.value in enums.userStatus.values)
    ensures r.Err? ==> r.error == ServiceException(FailedToConvertValueToEnum)
    ensures r.Ok? ==>
      var m := r.value;
      && ValidCommand(enums, m)
      && m.id == cmd.id && m.level == cmd.level
      && m.cardId == (if IsNotBlank(req.cardId) then req.cardId else cmd.cardId)
      && m.firstName == (if IsNotBlank(req.firstName) then req.firstName else cmd.firstName)
      && m.secondName == (if IsNotBlank(req.secondName) then req.secondName else cmd.secondName)
      && m.dateOfBirth == (if IsNotBlank(req.dateOfBirth) then req.dateOfBirth else cmd.dateOfBirth)
      && m.age == (if req.age.Some? then req.age else cmd.age)
      && ToOptValue(enums.userType, m.userType)
         == (if IsNotBlank(req.userType) then req.userType else ToOptValue(enums.userType, cmd.userType))
      && ToOptValue(enums.userStatus, m.status)
         == (if req.status.Some? then req.status else ToOptValue(enums.userStatus, cmd.status))
  {
    var m := cmd;
    var m := if IsNotBlank(req.cardId) then m.(cardId := req.cardId) else m;
    var m := if IsNotBlank(req.firstName) then m.(firstName := req.firstName) else m;
    var m := if IsNotBlank(req.secondName) then m.(secondName := req.secondName) else m;
    var userType :- if IsNotBlank(req.userType) then ToOptConstant(enums.userType, req.userType)
                    else Ok(cmd.userType);
    var m := m.(userType := userType);
    var status :- if req.status.Some? then ToOptConstant(enums.userStatus, req.status)
                  else Ok(cmd.status);
    var m := m.(status := status);
    var m := if IsNotBlank(req.dateOfBirth) then m.(dateOfBirth := req.dateOfBirth) else m;
    var m := if req.age.Some? then m.(age := req.age) else m;
    Ok(m)
  }

  /** The merge never touches the id or the level, and ignores the mobile fields. */
  lemma MergeKeepsIdLevelIgnoresMobile(enums: UserEnums, cmd: UserCommand, req: UpdateUserRequest,
                                       number: Option<string>, brand: Option<string>)
    requires ValidCommand(enums, cmd)
    ensures Merge(enums, cmd, req).Ok? ==>
      Merge(enums, cmd, req).value.id == cmd.id && Merge(enums, cmd, req).value.level == cmd.level
    ensures Merge(enums, cmd, req.(mobileNumber := number, mobileBrand := brand)) == Merge(enums, cmd, req)
  {
  }

  /** An update whose fields are all absent or blank leaves the user as stored. */
  lemma BlankUpdateIsNoOp(enums: UserEnums, cmd: UserCommand, req: UpdateUserRequest)
    requires ValidCommand(enums, cmd)
    requires !IsNotBlank(req.cardId) && !IsNotBlank(req.firstName) && !IsNotBlank(req.secondName)
    requires !IsNotBlank(req.userType) && req.status.None? && !IsNotBlank(req.dateOfBirth) && req.age.None?
    ensures Merge(enums, cmd, req) == Ok(cmd)
  {
  }

  /** Applying the same update twice is applying it once. */
  lemma MergeIdempotent(enums: UserEnums, cmd: UserCommand, req: UpdateUserRequest)
    requires ValidCommand(enums, cmd) && Merge(enums, cmd, req).Ok?
    ensures Merge(enums, Merge(enums, cmd, req).value, req) == Merge(enums, cmd, req)
  {
  }

  /** `getUser` without the activity: the stored user as a response, or `USER_NOT_FOUND`. */
  function GetUser(enums: UserEnums, store: Store, id: int): (r: Result<UserResponse, Error>)
    ensures r == Err(NotFoundException(UserNotFound)) <==> !HasId(store, id)
    ensures r.Ok? ==> r.value.id == Some(id)
    ensures r.Ok? ==> exists c :: FindById(enums, store, id) == Ok(Some(c))
                                  && ValidCommand(enums, c) && r.value == ToResponse.Convert(enums, c)
  {
    var found :- FindById(enums, store, id);
    if found.None? then Err(NotFoundException(UserNotFound))
    else Ok(ToResponse.Convert(enums, found.value))
  }

  /** Under the primary key, a stored user whose row converts is read as that row's response;
      a row that does not convert fails the read with the conversion error. */
  lemma GetUserFinds(enums: UserEnums, store: Store, id: int, i: int)
    requires Keyed(store) && 0 <= i < |store| && store[i].id == Some(id)
    ensures UserEntityToUserCommandConverter.Convert(enums, store[i]).Ok? ==>
      GetUser(enums, store, id)
        == Ok(ToResponse.Convert(enums, UserEntityToUserCommandConverter.Convert(enums, store[i]).value))
    ensures UserEntityToUserCommandConverter.Convert(enums, store[i]).Err? ==>
      GetUser(enums, store, id) == Err(ConversionService.EnumConversionFailed)
  {
  }

  /** A created user is read back with the response the creation returned. */
  lemma CreateThenGet(enums: UserEnums, store: Store, req: CreateUserRequest, generated: int)
    requires enums.WellFormed() && Keyed(store) && !HasId(store, generated)
    requires CreateUser(enums, store, req, generated).Ok?
    ensures var created := CreateUser(enums, store, req, generated).value;
      GetUser(enums, created.0, generated) == Ok(created.1)
  {
  }

  /** `updateUser` as written, up to its `save`: the merged user still carries the id it was
      found under, and `save` inserts. The conversion to a response that would follow is
      never reached. */
  function UpdateUserAsWritten(enums: UserEnums, store: Store, id: int, req: UpdateUserRequest)
    : (r: Result<(Store, UserCommand), Error>)
    ensures r.Err?
    ensures !HasId(store, id) ==> r == Err(NotFoundException(UserNotFound))
  {
    var found :- FindById(enums, store, id);
    if found.None? then Err(NotFoundException(UserNotFound))
    else
      var merged :- Merge(enums, found.value, req);
      Save(enums, store, merged, id)
  }

  /** Every update of an existing user that gets as far as the save is refused by the
      primary key, whatever it changes. */
  lemma UpdateOfExistingUserRefused(enums: UserEnums, store: Store, id: int, req: UpdateUserRequest)
    requires FindById(enums, store, id).Ok? && FindById(enums, store, id).value.Some?
    requires Merge(enums, FindById(enums, store, id).value.value, req).Ok?
    ensures UpdateUserAsWritten(enums, store, id, req) == Err(DataIntegrityViolationException)
  {
  }

  /** With the save an update needs, every update of an existing user that the merge accepts
      succeeds: the merged user overwrites the stored row and is returned. */
  lemma UpdateOfExistingUserSucceeds(enums: UserEnums, store: Store, id: int, req: UpdateUserRequest)
    requires FindById(enums, store, id).Ok? && FindById(enums, store, id).value.Some?
    requires Merge(enums, FindById(enums, store, id).value.value, req).Ok?
    ensures UpdateUser(enums, store, id, req).Ok?
    ensures var m := Merge(enums, FindById(enums, store, id).value.value, req).value;
      UpdateUser(enums, store, id, req) == Ok((SaveExisting(enums, store, m).0, ToResponse.Convert(enums, m)))
  {
  }

  /** `updateUser` with the save an update needs: the stored row is overwritten in place. */
  function UpdateUser(enums: UserEnums, store: Store, id: int, req: UpdateUserRequest)
    : (r: Result<(Store, UserResponse), Error>)
    ensures !HasId(store, id) ==> r == Err(NotFoundException(UserNotFound))
    ensures r.Err? ==> r.error in {NotFoundException(UserNotFound), IncorrectResultSizeException,
                                   ConversionService.EnumConversionFailed,
                                   ServiceException(FailedToConvertValueToEnum)}
    ensures r.Err? && FindById(enums, store, id).Ok? && FindById(enums, store, id).value.Some? ==>
      r.error == ServiceException(FailedToConvertValueToEnum)
    ensures r.Ok? ==>
      && |r.value.0| == |store|
      && r.value.1.id == Some(id)
      && exists stored, m :: FindById(enums, store, id) == Ok(Some(stored))
                          && Merge(enums, stored, req) == Ok(m)
                          && r.value.0 == SaveExisting(enums, store, m).0
                          && r.value.1 == ToResponse.Convert(enums, m)
  {
    var found :- FindById(enums, store, id);
    if found.None? then Err(NotFoundException(UserNotFound))
    else
      var merged :- Merge(enums, found.value, req);
      var saved := SaveExisting(enums, store, merged);
      Ok((saved.0, ToResponse.Convert(enums, saved.1)))
  }

  /** After an update, reading the user returns what the update returned. */
  lemma UpdateThenGet(enums: UserEnums, store: Store, id: int, req: UpdateUserRequest)
    requires enums.WellFormed() && Keyed(store)
    requires UpdateUser(enums, store, id, req).Ok?
    ensures var updated := UpdateUser(enums, store, id, req).value;
      GetUser(enums, updated.0, id) == Ok(updated.1)
  {
  }

  /** `getUserList`: the page of users, each as a short response. */
  function GetUserList(enums: UserEnums, store: Store, p: Pageable): (r: Result<CustomPage<UserShortResponse>, Error>)
    ensures r.Ok? <==> FindAll(enums, store, p).Ok?
    ensures r.Ok? ==>
      var page := FindAll(enums, store, p).value;
      && r.value.number == page.number && r.value.size == page.size
      && r.value.totalElements == page.totalElements
      && |r.value.content| == |page.content|
      && forall k :: 0 <= k < |page.content| ==> r.value.content[k] == ToShort.Convert(enums, page.content[k])
  {
    var page :- FindAll(enums, store, p);
    Ok(Map(page, (c: UserCommand) requires ValidCommand(enums, c) => ToShort.Convert(enums, c)))
  }

  /** `deleteUser`: the user is gone and nobody else is touched. */
  function DeleteUser(store: Store, id: int): (r: Store)
    ensures !HasId(r, id)
    ensures forall other :: other != id ==> Matching(r, other) == Matching(store, other)
    ensures Keyed(store) ==> Keyed(r)
  {
    DeleteKeepsAllOthers(store, id);
    assert Keyed(store) ==> Keyed(Delete(store, id)) by {
      if Keyed(store) { DeleteKeyed(store, id); }
    }
    Delete(store, id)
  }
}
