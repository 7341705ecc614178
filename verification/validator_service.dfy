/** `ValidatorService`: a fail-fast chain of field checks. Each check either hands the
    chain on (`return this`) or throws `InvalidRequestException` with the given status. */
module ValidatorService {
  import opened Wrappers
  import opened Catalog
  import opened Values

  /** Where the chain stands: still going, or stopped by the first rejected check. */
  datatype Verdict = Pass | Reject(status: HttpConstant) {

    /** Chaining the next call: once a check has thrown, later checks never run. */
    function Then(next: Verdict): (r: Verdict)
      ensures Reject? ==> r == this
      ensures Pass? ==> r == next
    {
      if Reject? then this else next
    }
  }

  /** Parses a date against a pattern (`DateTimeUtils.parse(...).isPresent()`); not modelled. */
  type DateParser = (string, string) -> bool

  function IsDate(date: Option<string>, pattern: string, parses: DateParser, exception: HttpConstant): (r: Verdict)
    ensures r.Pass? <==> date.None? || parses(date.value, pattern)
    ensures r.Reject? ==> r.status == exception
  {
    if date.Some? && !parses(date.value, pattern) then Reject(exception) else Pass
  }

  /** `enumValues` is `getValue()` of every constant of the enum class, in order. */
  function IsEnum(value: Value, enumValues: seq<Value>, exception: HttpConstant): (r: Verdict)
    ensures r.Pass? <==> value.Null? || value in enumValues
    ensures r.Reject? ==> r.status == exception
  {
    if value != Null && value !in enumValues then Reject(exception) else Pass
  }

  function Max(value: Value, max: int, exception: HttpConstant): (r: Verdict)
    ensures r.Reject? <==> (value.IntV? || value.LongV?) && Number(value) > max
    ensures r.Reject? ==> r.status == exception
  {
    if value != Null then
      if value.IntV? then
        if value.i > max then Reject(exception) else Pass
      else if value.LongV? then
        if value.l > max then Reject(exception) else Pass
      else Pass
    else Pass
  }

  function Min(value: Value, min: int, exception: HttpConstant): (r: Verdict)
    ensures r.Reject? <==> (value.IntV? || value.LongV?) && Number(value) < min
    ensures r.Reject? ==> r.status == exception
  {
    if value != Null then
      if value.IntV? then
        if value.i < min then Reject(exception) else Pass
      else if value.LongV? then
        if value.l < min then Reject(exception) else Pass
      else Pass
    else Pass
  }

  function Required(value: Value, exception: HttpConstant): (r: Verdict)
    ensures r.Reject? <==> value.Null? || (value.Str? && IsBlank(value.s))
    ensures r.Reject? ==> r.status == exception
  {
    if value == Null then Reject(exception)
    else if value.Str? && IsBlank(value.s) then Reject(exception)
    else Pass
  }

  /** A chain passes exactly when every check in it passes, and a rejected chain reports
      the status of its first rejected check. */
  lemma ChainFailFast(a: Verdict, b: Verdict, c: Verdict)
    ensures a.Then(b).Then(c).Pass? <==> a.Pass? && b.Pass? && c.Pass?
    ensures a.Reject? ==> a.Then(b).Then(c) == a
    ensures a.Pass? && b.Reject? ==> a.Then(b).Then(c) == b
  {
  }

  /** Inclusive bounds: a value equal to the bound passes both `min` and `max`, and the
      range check `min(lo).max(hi)` passes exactly the numbers in `lo..hi`. */
  lemma BoundsInclusive(n: int, lo: int, hi: int, s: HttpConstant)
    ensures Min(IntV(n), n, s).Pass? && Max(IntV(n), n, s).Pass?
    ensures Min(LongV(n), n, s).Pass? && Max(LongV(n), n, s).Pass?
    ensures Min(IntV(n), lo, s).Then(Max(IntV(n), hi, s)).Pass? <==> lo <= n <= hi
  {
  }

  /** Absent values pass every check except `required`, which always rejects them. */
  lemma NullOnlyFailsRequired(pattern: string, parses: DateParser, enumValues: seq<Value>, bound: int, s: HttpConstant)
    ensures IsDate(None, pattern, parses, s).Pass?
    ensures IsEnum(Null, enumValues, s).Pass?
    ensures Min(Null, bound, s).Pass? && Max(Null, bound, s).Pass?
    ensures Required(Null, s) == Reject(s)
  {
  }

  /** Bounds only constrain `Integer` and `Long`: strings and other objects always pass. */
  lemma NonNumbersIgnoreBounds(v: Value, bound: int, s: HttpConstant)
    requires !v.IntV? && !v.LongV?
    ensures Min(v, bound, s).Pass? && Max(v, bound, s).Pass?
  {
  }
}
