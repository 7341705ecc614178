/** Enum <-> wire-value conversion, shared by every converter: lookups by wire value
    that fail with `FAILED_TO_CONVERT_VALUE_TO_ENUM`, and projections that cannot fail. */
module EnumConversions {
  import opened Wrappers
  import opened Catalog
  import opened Errors
  import opened Enums

  /** `X.find(id).orElseThrow(() -> new ServiceException(FAILED_TO_CONVERT_VALUE_TO_ENUM))`. */
  function ToConstant<V(==)>(t: EnumTable<V>, v: V): (r: Result<nat, Error>)
    ensures r.Ok? <==> v in t.values
    ensures r.Ok? ==> t.Member(r.value) && t.GetValue(r.value) == v
    ensures r.Err? ==> r.error == ServiceException(FailedToConvertValueToEnum)
  {
    var found := Find(t, v);
    if found.Some? then Ok(found.value) else Err(ServiceException(FailedToConvertValueToEnum))
  }

  /** A nullable wire value: absent stays absent, present is looked up. */
  function ToOptConstant<V(==)>(t: EnumTable<V>, v: Option<V>): (r: Result<Option<nat>, Error>)
    ensures r.Ok? <==> v.None? || v.value in t.values
    ensures r.Ok? ==> (r.value.None? <==> v.None?)
    ensures r.Ok? && v.Some? ==> t.Member(r.value.value) && t.GetValue(r.value.value) == v.value
    ensures r.Err? ==> r.error == ServiceException(FailedToConvertValueToEnum)
  {
    if v.None? then Ok(None)
    else
      var e :- ToConstant(t, v.value);
      Ok(Some(e))
  }

  /** A nullable constant projected to its wire value. */
  function ToOptValue<V(==)>(t: EnumTable<V>, e: Option<nat>): (r: Option<V>)
    requires e.Some? ==> t.Member(e.value)
    ensures r.None? <==> e.None?
    ensures t.Distinct() ==> ToOptConstant(t, r) == Ok(e)
  {
    if e.None? then None
    else
      Some(t.GetValue(e.value))
  }

  function IntToUserStatus(enums: UserEnums, id: int): (r: Result<nat, Error>)
    ensures r.Ok? <==> id in enums.userStatus.values
    ensures r.Ok? ==> enums.userStatus.Member(r.value) && enums.userStatus.GetValue(r.value) == id
    ensures r.Err? ==> r.error == ServiceException(FailedToConvertValueToEnum)
  {
    ToConstant(enums.userStatus, id)
  }

  function StringToUserType(enums: UserEnums, id: string): (r: Result<nat, Error>)
    ensures r.Ok? <==> id in enums.userType.values
    ensures r.Ok? ==> enums.userType.Member(r.value) && enums.userType.GetValue(r.value) == id
    ensures r.Err? ==> r.error == ServiceException(FailedToConvertValueToEnum)
  {
    ToConstant(enums.userType, id)
  }

  function IntToUserLevel(enums: UserEnums, id: int): (r: Result<nat, Error>)
    ensures r.Ok? <==> id in enums.userLevel.values
    ensures r.Ok? ==> enums.userLevel.Member(r.value) && enums.userLevel.GetValue(r.value) == id
    ensures r.Err? ==> r.error == ServiceException(FailedToConvertValueToEnum)
  {
    ToConstant(enums.userLevel, id)
  }

  /** `userStatusToInt`: `getValue()`, which the status lookup inverts. */
  function UserStatusToInt(enums: UserEnums, e: nat): (r: int)
    requires enums.userStatus.Member(e)
    ensures enums.userStatus.Distinct() ==> IntToUserStatus(enums, r) == Ok(e)
  {
    enums.userStatus.GetValue(e)
  }

  /** `userTypeToString`: `getValue()`, which the type lookup inverts. */
  function UserTypeToString(enums: UserEnums, e: nat): (r: string)
    requires enums.userType.Member(e)
    ensures enums.userType.Distinct() ==> StringToUserType(enums, r) == Ok(e)
  {
    enums.userType.GetValue(e)
  }

  /** `userLevelToInt`: `getValue()`, which the level lookup inverts. */
  function UserLevelToInt(enums: UserEnums, e: nat): (r: int)
    requires enums.userLevel.Member(e)
    ensures enums.userLevel.Distinct() ==> IntToUserLevel(enums, r) == Ok(e)
  {
    enums.userLevel.GetValue(e)
  }

  /** A wire value that resolves is the projection of what it resolves to. */
  lemma LookupThenProject(enums: UserEnums, status: int, userType: string, level: int)
    ensures IntToUserStatus(enums, status).Ok? ==>
              UserStatusToInt(enums, IntToUserStatus(enums, status).value) == status
    ensures StringToUserType(enums, userType).Ok? ==>
              UserTypeToString(enums, StringToUserType(enums, userType).value) == userType
    ensures IntToUserLevel(enums, level).Ok? ==>
              UserLevelToInt(enums, IntToUserLevel(enums, level).value) == level
  {
  }
}

/** Spring's `ConversionService.convert`: a converter's own exception reaches the caller
    wrapped in a `ConversionFailedException` whose cause it is. */
module ConversionService {
  import opened Wrappers
  import opened Catalog
  import opened Errors

  function Convert<T>(r: Result<T, Error>): (c: Result<T, Error>)
    ensures c.Ok? <==> r.Ok?
    ensures c.Ok? ==> c.value == r.value
    ensures c.Err? ==> c.error == ConversionFailedException(Some(r.error))
  {
    if r.Ok? then Ok(r.value) else Err(ConversionFailedException(Some(r.error)))
  }

  /** What a failed enum lookup looks like once it has come through the conversion service. */
  const EnumConversionFailed := ConversionFailedException(Some(ServiceException(FailedToConvertValueToEnum)))
}

/** `CreateUserRequestToUserCommandConverter`. */
module CreateUserRequestToUserCommandConverter {
  import opened Wrappers
  import opened Catalog
  import opened Errors
  import opened Enums
  import opened Users
  import opened EnumConversions
  import opened CreateUserRequest

  /** Copies the scalar fields, resolves `type` and `status`, and leaves `id` and `level`
      unset; the mobile fields have no place in a command. */
  function Convert(enums: UserEnums, req: CreateUserRequest): (r: Result<UserCommand, Error>)
    ensures r.Ok? <==>
      && (req.userType.Some? ==> req.userType.value in enums.userType.values)
      && (req.status.Some? ==> req.status.value in enums.userStatus.values)
    ensures r.Err? ==> r.error == ServiceException(FailedToConvertValueToEnum)
    ensures r.Ok? ==>
      var c := r.value;
      && c.id.None? && c.level.None?
      && c.cardId == req.cardId && c.firstName == req.firstName && c.secondName == req.secondName
      && c.dateOfBirth == req.dateOfBirth && c.age == req.age
      && ValidCommand(enums, c)
      && ToOptValue(enums.userType, c.userType) == req.userType
      && ToOptValue(enums.userStatus, c.status) == req.status
  {
    var userType :- ToOptConstant(enums.userType, req.userType);
    var status :- ToOptConstant(enums.userStatus, req.status);
    Ok(UserCommand(None, req.cardId, req.firstName, req.secondName, userType, status, None,
                   req.dateOfBirth, req.age))
  }
}

/** `UserEntityToUserCommandConverter`: a stored row back to a command. */
module UserEntityToUserCommandConverter {
  import opened Wrappers
  import opened Catalog
  import opened Errors
  import opened Enums
  import opened Users
  import opened EnumConversions

  function Convert(enums: UserEnums, row: UserEntity): (r: Result<UserCommand, Error>)
    ensures r.Ok? <==>
      && (row.userType.Some? ==> row.userType.value in enums.userType.values)
      && (row.status.Some? ==> row.status.value in enums.userStatus.values)
      && (row.level.Some? ==> row.level.value in enums.userLevel.values)
    ensures r.Err? ==> r.error == ServiceException(FailedToConvertValueToEnum)
    ensures r.Ok? ==>
      && SameScalars(r.value, row)
      && ValidCommand(enums, r.value)
      && ToOptValue(enums.userType, r.value.userType) == row.userType
      && ToOptValue(enums.userStatus, r.value.status) == row.status
      && ToOptValue(enums.userLevel, r.value.level) == row.level
  {
    var userType :- ToOptConstant(enums.userType, row.userType);
    var status :- ToOptConstant(enums.userStatus, row.status);
    var level :- ToOptConstant(enums.userLevel, row.level);
    Ok(UserCommand(row.id, row.cardId, row.firstName, row.secondName, userType, status, level,
                   row.dateOfBirth, row.age))
  }
}

/** `UserCommandToUserEntityConverter`: a command to the row that stores it. */
module UserCommandToUserEntityConverter {
  import opened Wrappers
  import opened Enums
  import opened Users
  import opened EnumConversions
  import UserEntityToUserCommandConverter

  function Convert(enums: UserEnums, c: UserCommand): (r: UserEntity)
    requires ValidCommand(enums, c)
    ensures SameScalars(c, r)
    ensures (r.userType.None? <==> c.userType.None?) && (r.status.None? <==> c.status.None?)
    ensures r.level.None? <==> c.level.None?
    ensures c.status.Some? ==> r.status == Some(UserStatusToInt(enums, c.status.value))
    ensures c.userType.Some? ==> r.userType == Some(UserTypeToString(enums, c.userType.value))
    ensures c.level.Some? ==> r.level == Some(UserLevelToInt(enums, c.level.value))
  {
    UserEntity(c.id, c.cardId, c.firstName, c.secondName,
               ToOptValue(enums.userType, c.userType),
               ToOptValue(enums.userStatus, c.status),
               ToOptValue(enums.userLevel, c.level),
               c.dateOfBirth, c.age)
  }

  /** Storing a command and reading it back gives the same command. */
  lemma CommandRoundTrip(enums: UserEnums, c: UserCommand)
    requires enums.WellFormed() && ValidCommand(enums, c)
    ensures UserEntityToUserCommandConverter.Convert(enums, Convert(enums, c)) == Ok(c)
  {
  }

  /** A row that reads back without error is stored again unchanged. */
  lemma EntityRoundTrip(enums: UserEnums, row: UserEntity)
    requires UserEntityToUserCommandConverter.Convert(enums, row).Ok?
    ensures Convert(enums, UserEntityToUserCommandConverter.Convert(enums, row).value) == row
  {
  }
}

/** `UserCommandToUserResponseConverter`. */
module UserCommandToUserResponseConverter {
  import opened Wrappers
  import opened Enums
  import opened Users
  import opened EnumConversions

  function Convert(enums: UserEnums, c: UserCommand): (r: UserResponse)
    requires ValidCommand(enums, c)
    ensures r.id == c.id && r.cardId == c.cardId && r.firstName == c.firstName
    ensures r.secondName == c.secondName && r.dateOfBirth == c.dateOfBirth && r.age == c.age
    ensures c.status.Some? ==> r.status == Some(UserStatusToInt(enums, c.status.value))
    ensures c.userType.Some? ==> r.userType == Some(UserTypeToString(enums, c.userType.value))
    ensures c.level.Some? ==> r.level == Some(UserLevelToInt(enums, c.level.value))
    ensures enums.WellFormed() ==>
      && ToOptConstant(enums.userType, r.userType) == Ok(c.userType)
      && ToOptConstant(enums.userStatus, r.status) == Ok(c.status)
      && ToOptConstant(enums.userLevel, r.level) == Ok(c.level)
  {
    UserResponse(c.id, c.cardId, c.firstName, c.secondName,
                 ToOptValue(enums.userType, c.userType),
                 ToOptValue(enums.userStatus, c.status),
                 ToOptValue(enums.userLevel, c.level),
                 c.dateOfBirth, c.age)
  }
}

/** `UserCommandToUserShortResponseConverter`: no level, no date of birth, no age. */
module UserCommandToUserShortResponseConverter {
  import opened Wrappers
  import opened Enums
  import opened Users
  import opened EnumConversions
  import UserCommandToUserResponseConverter

  function Convert(enums: UserEnums, c: UserCommand): (r: UserShortResponse)
    requires ValidCommand(enums, c)
    ensures r.id == c.id && r.cardId == c.cardId && r.firstName == c.firstName && r.secondName == c.secondName
    ensures c.status.Some? ==> r.status == Some(UserStatusToInt(enums, c.status.value))
    ensures c.userType.Some? ==> r.userType == Some(UserTypeToString(enums, c.userType.value))
    ensures c.status.None? ==> r.status.None?
    ensures c.userType.None? ==> r.userType.None?
  {
    UserShortResponse(c.id, c.cardId, c.firstName, c.secondName,
                      ToOptValue(enums.userType, c.userType),
                      ToOptValue(enums.userStatus, c.status))
  }

  /** The short response is the full response with level, date of birth and age dropped. */
  lemma AgreesWithFullResponse(enums: UserEnums, c: UserCommand)
    requires ValidCommand(enums, c)
    ensures var full := UserCommandToUserResponseConverter.Convert(enums, c);
      Convert(enums, c) == UserShortResponse(full.id, full.cardId, full.firstName, full.secondName,
                                             full.userType, full.status)
  {
  }
}
