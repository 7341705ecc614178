/** Bean validation of a request body: every constraint annotation on the request's
    fields, evaluated one after another until the first one throws. The order in which
    the framework visits them is not fixed, so a run is any arrangement of the table. */
module Constraints {
  import opened Wrappers
  import opened Catalog
  import opened Values
  import opened Errors
  import ValidatorService
  import RequiredAnnotation
  import MinAnnotation
  import MaxAnnotation
  import IsEnumAnnotation
  import IsDateAnnotation

  /** An initialised validator of one of the five kinds. */
  datatype Rule =
    | RequiredRule(required: RequiredAnnotation.Validator)
    | MinRule(min: MinAnnotation.Validator)
    | MaxRule(max: MaxAnnotation.Validator)
    | EnumRule(isEnum: IsEnumAnnotation.Validator)
    | DateRule(isDate: IsDateAnnotation.Validator)

  /** One annotation on one field, together with that field's value. */
  datatype Check = Check(value: Value, rule: Rule)

  /** The `isValid` call of the check's validator. */
  function Apply(c: Check, parses: ValidatorService.DateParser): (r: Result<bool, Error>)
    ensures r != Ok(false)
    ensures r.Err? ==> r.error.InvalidRequestException?
  {
    match c.rule
    case RequiredRule(v) => RequiredAnnotation.IsValid(v, c.value)
    case MinRule(v) => MinAnnotation.IsValid(v, c.value)
    case MaxRule(v) => MaxAnnotation.IsValid(v, c.value)
    case EnumRule(v) => IsEnumAnnotation.IsValid(v, c.value)
    case DateRule(v) =>
      // @IsDate only ever annotates String fields
      if c.value.Str? then IsDateAnnotation.IsValid(v, Some(c.value.s), parses)
      else IsDateAnnotation.IsValid(v, None, parses)
  }

  /** The status a check throws with when it rejects its value. */
  function RuleStatus(r: Rule): HttpConstant {
    match r
    case RequiredRule(v) => v.exception
    case MinRule(v) => v.exception
    case MaxRule(v) => v.exception
    case EnumRule(v) => v.exception
    case DateRule(v) => v.exception
  }

  lemma ApplyRaisesRuleStatus(c: Check, parses: ValidatorService.DateParser)
    ensures Apply(c, parses).Err? ==> Apply(c, parses).error == InvalidRequestException(RuleStatus(c.rule))
  {
  }

  /** Runs the checks in order and stops at the first one that throws. */
  function FirstViolation(run: seq<Check>, parses: ValidatorService.DateParser): (r: Option<Error>)
    ensures r.None? <==> forall c :: c in run ==> Apply(c, parses).Ok?
    ensures r.Some? ==> exists c :: c in run && Apply(c, parses) == Err(r.value)
  {
    if |run| == 0 then None
    else
      var head := Apply(run[0], parses);
      if head.Err? then Some(head.error)
      else
        var rest := FirstViolation(run[1..], parses);
        assert forall c :: c in run <==> c == run[0] || c in run[1..];
        rest
  }

  /** `run` visits exactly the checks of `table`, in some order. */
  ghost predicate Arrangement(run: seq<Check>, table: seq<Check>) {
    forall c :: c in run <==> c in table
  }

  /** The statuses the table's failing checks throw with: the independent description of
      what a run may report. */
  function Violations(table: seq<Check>, parses: ValidatorService.DateParser): set<HttpConstant> {
    set c | c in table && Apply(c, parses).Err? :: RuleStatus(c.rule)
  }

  lemma ViolationsOfOne(c: Check, parses: ValidatorService.DateParser)
    ensures Violations([c], parses) == if Apply(c, parses).Err? then {RuleStatus(c.rule)} else {}
  {
  }

  lemma ViolationsOfConcat(a: seq<Check>, b: seq<Check>, parses: ValidatorService.DateParser)
    ensures Violations(a + b, parses) == Violations(a, parses) + Violations(b, parses)
  {
  }

  lemma ViolationsOfThree(a: Check, b: Check, c: Check, parses: ValidatorService.DateParser)
    ensures Violations([a, b, c], parses)
         == Violations([a], parses) + Violations([b], parses) + Violations([c], parses)
  {
  }

  /** Whatever the order, a run passes exactly when no check of the table fails, and it
      reports one of the violated statuses; when only one status is violated, that is the
      one reported. */
  lemma AnyOrder(run: seq<Check>, table: seq<Check>, parses: ValidatorService.DateParser)
    requires Arrangement(run, table)
    ensures FirstViolation(run, parses).None? <==> Violations(table, parses) == {}
    ensures FirstViolation(run, parses).Some? ==>
              && FirstViolation(run, parses).value.InvalidRequestException?
              && FirstViolation(run, parses).value.status in Violations(table, parses)
    ensures forall s :: Violations(table, parses) == {s} ==>
              FirstViolation(run, parses) == Some(InvalidRequestException(s))
  {
  }
}
