/** The three shapes of a user record: command (typed enums), entity (stored
    primitives) and the two responses. Every field is nullable, as in the source. */
module Users {
  import opened Wrappers
  import opened Enums

  /** `UserCommand`; `userType`, `status` and `level` are enum constants (ordinals). */
  datatype UserCommand = UserCommand(
    id: Option<int>,
    cardId: Option<string>,
    firstName: Option<string>,
    secondName: Option<string>,
    userType: Option<nat>,
    status: Option<nat>,
    level: Option<nat>,
    dateOfBirth: Option<string>,
    age: Option<int>)

  /** `UserEntity`, a row of the `user` table; enums are stored as their wire values. */
  datatype UserEntity = UserEntity(
    id: Option<int>,
    cardId: Option<string>,
    firstName: Option<string>,
    secondName: Option<string>,
    userType: Option<string>,
    status: Option<int>,
    level: Option<int>,
    dateOfBirth: Option<string>,
    age: Option<int>)

  /** `UserResponse`, without the activity sub-object. */
  datatype UserResponse = UserResponse(
    id: Option<int>,
    cardId: Option<string>,
    firstName: Option<string>,
    secondName: Option<string>,
    userType: Option<string>,
    status: Option<int>,
    level: Option<int>,
    dateOfBirth: Option<string>,
    age: Option<int>)

  /** `UserShortResponse`, the list item. */
  datatype UserShortResponse = UserShortResponse(
    id: Option<int>,
    cardId: Option<string>,
    firstName: Option<string>,
    secondName: Option<string>,
    userType: Option<string>,
    status: Option<int>)

  predicate OptMember<V(==)>(t: EnumTable<V>, e: Option<nat>) {
    e.Some? ==> t.Member(e.value)
  }

  /** A command's enum fields hold constants of their enumerations: the only values a
      Java enum-typed field can hold. */
  predicate ValidCommand(enums: UserEnums, c: UserCommand) {
    && OptMember(enums.userType, c.userType)
    && OptMember(enums.userStatus, c.status)
    && OptMember(enums.userLevel, c.level)
  }

  /** The scalar fields every shape copies verbatim agree between a command and an entity. */
  predicate SameScalars(c: UserCommand, e: UserEntity) {
    && c.id == e.id && c.cardId == e.cardId && c.firstName == e.firstName
    && c.secondName == e.secondName && c.dateOfBirth == e.dateOfBirth && c.age == e.age
  }
}
