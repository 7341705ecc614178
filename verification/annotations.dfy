/** The five bean-validation constraint validators. Each is initialised from its annotation
    and then answers `isValid`, which either yields `true` or throws
    `InvalidRequestException` carrying the configured status; it never yields `false`. */

module RequiredAnnotation {
  import opened Wrappers
  import opened Catalog
  import opened Values
  import opened Errors
  import ValidatorService

  /** `@Required` as written at a field; `None` means the `exception` element was left at its default. */
  datatype Required = Required(exception: Option<HttpConstant>)

  /** The initialised validator. */
  datatype Validator = Validator(exception: HttpConstant)

  function Initialize(a: Required): (v: Validator)
    ensures a.exception.Some? ==> v.exception == a.exception.value
    ensures a.exception.None? ==> v.exception == BadRequest
  {
    Validator(if a.exception.Some? then a.exception.value else BadRequest)
  }

  function IsValid(v: Validator, o: Value): (r: Result<bool, Error>)
    ensures r != Ok(false)
    ensures r.Ok? <==> !o.Null? && !(o.Str? && IsBlank(o.s))
    ensures r.Err? ==> r.error == InvalidRequestException(v.exception)
  {
    if o == Null then Err(InvalidRequestException(v.exception))
    else if o.Str? && IsBlank(o.s) then Err(InvalidRequestException(v.exception))
    else Ok(true)
  }

  /** The annotation and `ValidatorService.required` accept the same values and throw the same status. */
  lemma AgreesWithService(v: Validator, o: Value)
    ensures IsValid(v, o).Ok? <==> ValidatorService.Required(o, v.exception).Pass?
    ensures IsValid(v, o).Err? ==> IsValid(v, o).error.status == ValidatorService.Required(o, v.exception).status
  {
  }

  /** Left at its default, the annotation rejects a missing value with `BAD_REQUEST`. */
  lemma DefaultStatusIsBadRequest(s: string)
    requires IsBlank(s)
    ensures IsValid(Initialize(Required(None)), Null) == Err(InvalidRequestException(BadRequest))
    ensures IsValid(Initialize(Required(None)), Str(s)) == Err(InvalidRequestException(BadRequest))
  {
  }
}

module MinAnnotation {
  import opened Wrappers
  import opened Catalog
  import opened Values
  import opened Errors
  import ValidatorService

  /** `@Min(value = ...)`; the exception element defaults to `BAD_REQUEST`. */
  datatype Min = Min(value: int, exception: Option<HttpConstant>)

  datatype Validator = Validator(exception: HttpConstant, min: int)

  function Initialize(a: Min): (v: Validator)
    ensures v.min == a.value
    ensures v.exception == (if a.exception.Some? then a.exception.value else BadRequest)
  {
    Validator(if a.exception.Some? then a.exception.value else BadRequest, a.value)
  }

  function IsValid(v: Validator, value: Value): (r: Result<bool, Error>)
    ensures r != Ok(false)
    ensures r.Err? <==> (value.IntV? || value.LongV?) && Number(value) < v.min
    ensures r.Err? ==> r.error == InvalidRequestException(v.exception)
  {
    if value != Null then
      if value.IntV? then
        if value.i < v.min then Err(InvalidRequestException(v.exception)) else Ok(true)
      else if value.LongV? then
        if value.l < v.min then Err(InvalidRequestException(v.exception)) else Ok(true)
      else Ok(true)
    else Ok(true)
  }

  lemma AgreesWithService(v: Validator, value: Value)
    ensures IsValid(v, value).Ok? <==> ValidatorService.Min(value, v.min, v.exception).Pass?
    ensures IsValid(v, value).Err? ==> IsValid(v, value).error.status == v.exception
  {
  }

  /** Left at its default, the annotation rejects a number below the bound with `BAD_REQUEST`. */
  lemma DefaultStatusIsBadRequest(bound: int)
    ensures IsValid(Initialize(Min(bound, None)), IntV(bound - 1)) == Err(InvalidRequestException(BadRequest))
    ensures IsValid(Initialize(Min(bound, None)), LongV(bound - 1)) == Err(InvalidRequestException(BadRequest))
    ensures IsValid(Initialize(Min(bound, None)), IntV(bound)) == Ok(true)
  {
  }
}

module MaxAnnotation {
  import opened Wrappers
  import opened Catalog
  import opened Values
  import opened Errors
  import ValidatorService

  /** `@Max(value = ...)`; the exception element defaults to `BAD_REQUEST`. */
  datatype Max = Max(value: int, exception: Option<HttpConstant>)

  /** The source keeps the bound in a field called `min`; it is the annotation's maximum. */
  datatype Validator = Validator(exception: HttpConstant, min: int)

  function Initialize(a: Max): (v: Validator)
    ensures v.min == a.value
    ensures v.exception == (if a.exception.Some? then a.exception.value else BadRequest)
  {
    Validator(if a.exception.Some? then a.exception.value else BadRequest, a.value)
  }

  function IsValid(v: Validator, value: Value): (r: Result<bool, Error>)
    ensures r != Ok(false)
    ensures r.Err? <==> (value.IntV? || value.LongV?) && Number(value) > v.min
    ensures r.Err? ==> r.error == InvalidRequestException(v.exception)
  {
    if value != Null then
      if value.IntV? then
        if value.i > v.min then Err(InvalidRequestException(v.exception)) else Ok(true)
      else if value.LongV? then
        if value.l > v.min then Err(InvalidRequestException(v.exception)) else Ok(true)
      else Ok(true)
    else Ok(true)
  }

  lemma AgreesWithService(v: Validator, value: Value)
    ensures IsValid(v, value).Ok? <==> ValidatorService.Max(value, v.min, v.exception).Pass?
    ensures IsValid(v, value).Err? ==> IsValid(v, value).error.status == v.exception
  {
  }

  /** Left at its default, the annotation rejects a number above the bound with `BAD_REQUEST`. */
  lemma DefaultStatusIsBadRequest(bound: int)
    ensures IsValid(Initialize(Max(bound, None)), IntV(bound + 1)) == Err(InvalidRequestException(BadRequest))
    ensures IsValid(Initialize(Max(bound, None)), LongV(bound + 1)) == Err(InvalidRequestException(BadRequest))
  {
  }

  /** Despite its name, the stored bound is an upper bound: the annotation's own value
      passes, and one more than it is rejected. */
  lemma BoundIsUpper(a: Max)
    ensures IsValid(Initialize(a), IntV(a.value)) == Ok(true)
    ensures IsValid(Initialize(a), IntV(a.value + 1)).Err?
    ensures IsValid(Initialize(a), LongV(a.value + 1)).Err?
  {
  }
}

module IsEnumAnnotation {
  import opened Wrappers
  import opened Catalog
  import opened Values
  import opened Errors
  import ValidatorService

  /** `@IsEnum(enumClass = ...)`: the enum class is given by `getValue()` of each of its
      constants; the exception element defaults to `BAD_REQUEST`. */
  datatype IsEnum = IsEnum(enumClass: seq<Value>, exception: Option<HttpConstant>)

  datatype Validator = Validator(exception: HttpConstant, values: seq<Value>)

  /** The allowed values are fixed here, once, from the enum class. */
  function Initialize(a: IsEnum): (v: Validator)
    ensures forall x :: x in v.values <==> x in a.enumClass
    ensures v.exception == (if a.exception.Some? then a.exception.value else BadRequest)
  {
    Validator(if a.exception.Some? then a.exception.value else BadRequest, a.enumClass)
  }

  function IsValid(v: Validator, value: Value): (r: Result<bool, Error>)
    ensures r != Ok(false)
    ensures r.Ok? <==> value.Null? || value in v.values
    ensures r.Err? ==> r.error == InvalidRequestException(v.exception)
  {
    if value != Null && value !in v.values then Err(InvalidRequestException(v.exception))
    else Ok(true)
  }

  lemma AgreesWithService(a: IsEnum, value: Value)
    ensures IsValid(Initialize(a), value).Ok?
        <==> ValidatorService.IsEnum(value, a.enumClass, Initialize(a).exception).Pass?
  {
  }

  /** Left at its default, the annotation rejects a value outside the enum with `BAD_REQUEST`. */
  lemma DefaultStatusIsBadRequest(enumClass: seq<Value>, value: Value)
    requires value != Null && value !in enumClass
    ensures IsValid(Initialize(IsEnum(enumClass, None)), value) == Err(InvalidRequestException(BadRequest))
  {
  }

  /** Membership is by `equals`: an `Integer` member does not admit the `Long` of the same number. */
  lemma IntegerIsNotLong(v: Validator, n: int)
    requires IntV(n) in v.values && LongV(n) !in v.values
    ensures IsValid(v, IntV(n)) == Ok(true)
    ensures IsValid(v, LongV(n)) == Err(InvalidRequestException(v.exception))
  {
  }
}

module IsDateAnnotation {
  import opened Wrappers
  import opened Catalog
  import opened Errors
  import ValidatorService

  /** `@IsDate(format = ..., exception = ...)`. */
  datatype IsDate = IsDate(format: string, exception: HttpConstant)

  datatype Validator = Validator(exception: HttpConstant, format: string)

  function Initialize(a: IsDate): (v: Validator)
    ensures v.format == a.format && v.exception == a.exception
  {
    Validator(a.exception, a.format)
  }

  /** The annotation applies to `String` fields only, so its input is a nullable string. */
  function IsValid(v: Validator, date: Option<string>, parses: ValidatorService.DateParser): (r: Result<bool, Error>)
    ensures r != Ok(false)
    ensures r.Ok? <==> date.None? || parses(date.value, v.format)
    ensures r.Err? ==> r.error == InvalidRequestException(v.exception)
  {
    if date.Some? then
      if parses(date.value, v.format) then Ok(true)
      else Err(InvalidRequestException(v.exception))
    else Ok(true)
  }

  lemma AgreesWithService(v: Validator, date: Option<string>, parses: ValidatorService.DateParser)
    ensures IsValid(v, date, parses).Ok? <==> ValidatorService.IsDate(date, v.format, parses, v.exception).Pass?
  {
  }
}
