/** The parts of the application this model keeps abstract. */
module Environment {
  import opened Enums
  import ValidatorService

  /** The three enumerations, the pattern `DateTimeUtils.DATE_FORMAT_YYYY_MM_DD`, and
      the date parser behind `DateTimeUtils.parse`. */
  datatype Env = Env(enums: UserEnums, dateFormat: string, parses: ValidatorService.DateParser)
}

/** The constraints on `type`, `status`, `date_of_birth` and `age` that the create and
    the update request share. */
module UserFieldRules {
  import opened Wrappers
  import opened Catalog
  import opened Values
  import opened Constraints
  import opened Environment
  import IsEnumAnnotation
  import IsDateAnnotation
  import MinAnnotation
  import MaxAnnotation

  const MinAge := 18
  const MaxAge := 54

  function TypeCheck(env: Env, userType: Option<string>): (c: Check)
    ensures Apply(c, env.parses).Err? <==> userType.Some? && userType.value !in env.enums.userType.values
    ensures RuleStatus(c.rule) == TypeIsInvalid
  {
    Check(OfString(userType), EnumRule(IsEnumAnnotation.Initialize(
      IsEnumAnnotation.IsEnum(StringValues(env.enums.userType), Some(TypeIsInvalid)))))
  }

  function StatusCheck(env: Env, status: Option<int>): (c: Check)
    ensures Apply(c, env.parses).Err? <==> status.Some? && status.value !in env.enums.userStatus.values
    ensures RuleStatus(c.rule) == StatusIsInvalid
  {
    Check(OfInteger(status), EnumRule(IsEnumAnnotation.Initialize(
      IsEnumAnnotation.IsEnum(IntValues(env.enums.userStatus), Some(StatusIsInvalid)))))
  }

  function DateOfBirthCheck(env: Env, dateOfBirth: Option<string>): (c: Check)
    ensures Apply(c, env.parses).Err? <==> dateOfBirth.Some? && !env.parses(dateOfBirth.value, env.dateFormat)
    ensures RuleStatus(c.rule) == DateOfBirthIsInvalid
  {
    Check(OfString(dateOfBirth), DateRule(IsDateAnnotation.Initialize(
      IsDateAnnotation.IsDate(env.dateFormat, DateOfBirthIsInvalid))))
  }

  function AgeMinCheck(env: Env, age: Option<int>): (c: Check)
    ensures Apply(c, env.parses).Err? <==> age.Some? && age.value < MinAge
    ensures RuleStatus(c.rule) == AgeIsInvalid
  {
    Check(OfInteger(age), MinRule(MinAnnotation.Initialize(MinAnnotation.Min(MinAge, Some(AgeIsInvalid)))))
  }

  function AgeMaxCheck(env: Env, age: Option<int>): (c: Check)
    ensures Apply(c, env.parses).Err? <==> age.Some? && age.value > MaxAge
    ensures RuleStatus(c.rule) == AgeIsInvalid
  {
    Check(OfInteger(age), MaxRule(MaxAnnotation.Initialize(MaxAnnotation.Max(MaxAge, Some(AgeIsInvalid)))))
  }

  /** The statuses the shared constraints reject a request with, field by field. */
  function TypedViolations(env: Env, userType: Option<string>, status: Option<int>,
                           dateOfBirth: Option<string>, age: Option<int>): set<HttpConstant>
  {
    (if userType.Some? && userType.value !in env.enums.userType.values then {TypeIsInvalid} else {})
    + (if status.Some? && status.value !in env.enums.userStatus.values then {StatusIsInvalid} else {})
    + (if dateOfBirth.Some? && !env.parses(dateOfBirth.value, env.dateFormat) then {DateOfBirthIsInvalid} else {})
    + (if age.Some? && (age.value < MinAge || age.value > MaxAge) then {AgeIsInvalid} else {})
  }

  function TypedChecks(env: Env, userType: Option<string>, status: Option<int>,
                       dateOfBirth: Option<string>, age: Option<int>): (cs: seq<Check>)
    ensures Violations(cs, env.parses) == TypedViolations(env, userType, status, dateOfBirth, age)
  {
    var a := TypeCheck(env, userType);
    var b := StatusCheck(env, status);
    var c := DateOfBirthCheck(env, dateOfBirth);
    var d := AgeMinCheck(env, age);
    var e := AgeMaxCheck(env, age);
    ViolationsOfOne(a, env.parses);
    ViolationsOfOne(b, env.parses);
    ViolationsOfOne(c, env.parses);
    ViolationsOfOne(d, env.parses);
    ViolationsOfOne(e, env.parses);
    ViolationsOfConcat([a], [b], env.parses);
    ViolationsOfConcat([a, b], [c], env.parses);
    ViolationsOfConcat([a, b, c], [d], env.parses);
    ViolationsOfConcat([a, b, c, d], [e], env.parses);
    assert [a, b] == [a] + [b];
    assert [a, b, c] == [a, b] + [c];
    assert [a, b, c, d] == [a, b, c] + [d];
    assert [a, b, c, d, e] == [a, b, c, d] + [e];
    [a, b, c, d, e]
  }
}

/** `UpdateUserRequest`: every field optional; only the annotated fields are checked. */
module UpdateUserRequest {
  import opened Wrappers
  import opened Catalog
  import opened Errors
  import opened Constraints
  import opened Environment
  import opened UserFieldRules

  datatype UpdateUserRequest = UpdateUserRequest(
    cardId: Option<string>,
    firstName: Option<string>,
    secondName: Option<string>,
    userType: Option<string>,
    status: Option<int>,
    dateOfBirth: Option<string>,
    age: Option<int>,
    mobileNumber: Option<string>,
    mobileBrand: Option<string>)

  /** The annotations on the request's fields; card id, names, mobile number and brand carry none. */
  function Table(env: Env, req: UpdateUserRequest): seq<Check> {
    TypedChecks(env, req.userType, req.status, req.dateOfBirth, req.age)
  }

  /** Bean validation of the body, visiting the annotations in the order `run`. */
  function Validate(env: Env, req: UpdateUserRequest, run: seq<Check>): (r: Option<Error>)
    requires Arrangement(run, Table(env, req))
    ensures r.None? <==>
      && (req.userType.Some? ==> req.userType.value in env.enums.userType.values)
      && (req.status.Some? ==> req.status.value in env.enums.userStatus.values)
      && (req.dateOfBirth.Some? ==> env.parses(req.dateOfBirth.value, env.dateFormat))
      && (req.age.Some? ==> MinAge <= req.age.value <= MaxAge)
    ensures r.Some? ==>
              && r.value.InvalidRequestException?
              && r.value.status in TypedViolations(env, req.userType, req.status, req.dateOfBirth, req.age)
  {
    AnyOrder(run, Table(env, req), env.parses);
    FirstViolation(run, env.parses)
  }

  /** An age outside `18..54` is reported as `AGE_IS_INVALID`, whichever bound it breaks
      and in whatever order the annotations run, when the other fields are valid. */
  lemma AgeOutOfRange(env: Env, req: UpdateUserRequest, run: seq<Check>)
    requires Arrangement(run, Table(env, req))
    requires req.age.Some? && (req.age.value < MinAge || req.age.value > MaxAge)
    requires req.userType.Some? ==> req.userType.value in env.enums.userType.values
    requires req.status.Some? ==> req.status.value in env.enums.userStatus.values
    requires req.dateOfBirth.Some? ==> env.parses(req.dateOfBirth.value, env.dateFormat)
    ensures Validate(env, req, run) == Some(InvalidRequestException(AgeIsInvalid))
  {
  }

  /** Each enum or date field that alone is invalid is reported with its own status. */
  lemma SingleFieldInvalid(env: Env, req: UpdateUserRequest, run: seq<Check>, s: HttpConstant)
    requires Arrangement(run, Table(env, req))
    requires TypedViolations(env, req.userType, req.status, req.dateOfBirth, req.age) == {s}
    ensures Validate(env, req, run) == Some(InvalidRequestException(s))
  {
  }

  /** The request with every field absent. */
  const Empty := UpdateUserRequest(None, None, None, None, None, None, None, None, None)

  /** The ages the tests send: 14 and 99 are rejected, 18 and 54 accepted. */
  lemma AgeExamples(env: Env, run14: seq<Check>, run99: seq<Check>, run18: seq<Check>, run54: seq<Check>)
    requires Arrangement(run14, Table(env, Empty.(age := Some(14))))
    requires Arrangement(run99, Table(env, Empty.(age := Some(99))))
    requires Arrangement(run18, Table(env, Empty.(age := Some(18))))
    requires Arrangement(run54, Table(env, Empty.(age := Some(54))))
    ensures Validate(env, Empty.(age := Some(14)), run14) == Some(InvalidRequestException(AgeIsInvalid))
    ensures Validate(env, Empty.(age := Some(99)), run99) == Some(InvalidRequestException(AgeIsInvalid))
    ensures Validate(env, Empty.(age := Some(18)), run18).None?
    ensures Validate(env, Empty.(age := Some(54)), run54).None?
  {
  }

  /** An update that sends nothing, or only unconstrained fields, passes validation. */
  lemma UnconstrainedFieldsPass(env: Env, req: UpdateUserRequest, run: seq<Check>)
    requires req.userType.None? && req.status.None? && req.dateOfBirth.None? && req.age.None?
    requires Arrangement(run, Table(env, req))
    ensures Validate(env, req, run).None?
  {
  }
}

/** `CreateUserRequest`. Its source is not part of this model; its constraints are the ones
    the controller tests exercise: every field required, plus the shared field rules. */
module CreateUserRequest {
  import opened Wrappers
  import opened Catalog
  import opened Values
  import opened Errors
  import opened Constraints
  import opened Environment
  import opened UserFieldRules
  import RequiredAnnotation
  import ValidatorService

  datatype CreateUserRequest = CreateUserRequest(
    cardId: Option<string>,
    firstName: Option<string>,
    secondName: Option<string>,
    userType: Option<string>,
    status: Option<int>,
    dateOfBirth: Option<string>,
    age: Option<int>,
    mobileNumber: Option<string>,
    mobileBrand: Option<string>)

  function RequiredCheck(v: Value, s: HttpConstant, parses: ValidatorService.DateParser): (c: Check)
    ensures Violations([c], parses) == if v.Null? || (v.Str? && IsBlank(v.s)) then {s} else {}
  {
    var c := Check(v, RequiredRule(RequiredAnnotation.Initialize(RequiredAnnotation.Required(Some(s)))));
    ViolationsOfOne(c, parses);
    c
  }

  predicate Missing(s: Option<string>) {
    s.None? || IsBlank(s.value)
  }

  /** The `*_IS_REQUIRED` statuses a request is rejected with, field by field. */
  function MissingFields(req: CreateUserRequest): set<HttpConstant> {
    MissingIdentity(req) + MissingProfile(req) + MissingContact(req)
  }

  function MissingIdentity(req: CreateUserRequest): set<HttpConstant> {
    (if Missing(req.cardId) then {CardIdIsRequired} else {})
    + (if Missing(req.firstName) then {FirstNameIsRequired} else {})
    + (if Missing(req.secondName) then {SecondNameIsRequired} else {})
  }

  function MissingProfile(req: CreateUserRequest): set<HttpConstant> {
    (if Missing(req.userType) then {TypeIsRequired} else {})
    + (if req.status.None? then {StatusIsRequired} else {})
    + (if Missing(req.dateOfBirth) then {DateOfBirthIsRequired} else {})
  }

  function MissingContact(req: CreateUserRequest): set<HttpConstant> {
    (if req.age.None? then {AgeIsRequired} else {})
    + (if Missing(req.mobileNumber) then {MobileNumberIsRequired} else {})
    + (if Missing(req.mobileBrand) then {MobileBrandIsRequired} else {})
  }

  function IdentityChecks(req: CreateUserRequest, parses: ValidatorService.DateParser): (cs: seq<Check>)
    ensures Violations(cs, parses) == MissingIdentity(req)
  {
    var a := RequiredCheck(OfString(req.cardId), CardIdIsRequired, parses);
    var b := RequiredCheck(OfString(req.firstName), FirstNameIsRequired, parses);
    var c := RequiredCheck(OfString(req.secondName), SecondNameIsRequired, parses);
    ViolationsOfThree(a, b, c, parses);
    [a, b, c]
  }

  function ProfileChecks(req: CreateUserRequest, parses: ValidatorService.DateParser): (cs: seq<Check>)
    ensures Violations(cs, parses) == MissingProfile(req)
  {
    var a := RequiredCheck(OfString(req.userType), TypeIsRequired, parses);
    var b := RequiredCheck(OfInteger(req.status), StatusIsRequired, parses);
    var c := RequiredCheck(OfString(req.dateOfBirth), DateOfBirthIsRequired, parses);
    ViolationsOfThree(a, b, c, parses);
    [a, b, c]
  }

  function ContactChecks(req: CreateUserRequest, parses: ValidatorService.DateParser): (cs: seq<Check>)
    ensures Violations(cs, parses) == MissingContact(req)
  {
    var a := RequiredCheck(OfInteger(req.age), AgeIsRequired, parses);
    var b := RequiredCheck(OfString(req.mobileNumber), MobileNumberIsRequired, parses);
    var c := RequiredCheck(OfString(req.mobileBrand), MobileBrandIsRequired, parses);
    ViolationsOfThree(a, b, c, parses);
    [a, b, c]
  }

  /** One `@Required` per field. */
  function RequiredChecks(req: CreateUserRequest, parses: ValidatorService.DateParser): (cs: seq<Check>)
    ensures Violations(cs, parses) == MissingFields(req)
  {
    var a := IdentityChecks(req, parses);
    var b := ProfileChecks(req, parses);
    var c := ContactChecks(req, parses);
    ViolationsOfConcat(a, b, parses);
    ViolationsOfConcat(a + b, c, parses);
    a + b + c
  }

  /** All the annotations on the create request. */
  function Table(env: Env, req: CreateUserRequest): (cs: seq<Check>)
    ensures Violations(cs, env.parses)
         == MissingFields(req) + TypedViolations(env, req.userType, req.status, req.dateOfBirth, req.age)
  {
    var typed := TypedChecks(env, req.userType, req.status, req.dateOfBirth, req.age);
    var required := RequiredChecks(req, env.parses);
    ViolationsOfConcat(required, typed, env.parses);
    required + typed
  }

  function Validate(env: Env, req: CreateUserRequest, run: seq<Check>): (r: Option<Error>)
    requires Arrangement(run, Table(env, req))
    ensures r.None? <==>
      MissingFields(req) == {} && TypedViolations(env, req.userType, req.status, req.dateOfBirth, req.age) == {}
    ensures r.Some? ==>
              && r.value.InvalidRequestException?
              && r.value.status in MissingFields(req) + TypedViolations(env, req.userType, req.status, req.dateOfBirth, req.age)
  {
    AnyOrder(run, Table(env, req), env.parses);
    FirstViolation(run, env.parses)
  }

  /** A create request with a single problem is rejected with exactly that problem's
      status, in whatever order the annotations run: a missing field gives its
      `*_IS_REQUIRED`, an absent `type` is not also reported as invalid. */
  lemma SingleProblem(env: Env, req: CreateUserRequest, run: seq<Check>, s: HttpConstant)
    requires Arrangement(run, Table(env, req))
    requires MissingFields(req) + TypedViolations(env, req.userType, req.status, req.dateOfBirth, req.age) == {s}
    ensures Validate(env, req, run) == Some(InvalidRequestException(s))
  {
    AnyOrder(run, Table(env, req), env.parses);
  }
}
