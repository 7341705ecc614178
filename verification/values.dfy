/** The Java values the validators receive as `Object`, and `StringUtils.isBlank`. */
module Values {
  import opened Wrappers
  import opened Enums

  /** A field value as seen by a validator. Datatype equality is Java's `equals`:
      an `Integer` never equals a `Long`, even with the same number. */
  datatype Value =
    | Null
    | Str(s: string)
    | IntV(i: int)     // java.lang.Integer
    | LongV(l: int)    // java.lang.Long
    | Obj(tag: nat)    // any other object

  /** `Character.isWhitespace`: the Unicode space separators other than the
      no-break spaces, and the ASCII/C0 separators and controls listed by Java. */
  predicate IsWhitespace(c: char) {
    var n := c as int;
    || (0x09 <= n <= 0x0D)
    || (0x1C <= n <= 0x20)
    || n == 0x1680
    || (0x2000 <= n <= 0x2006)
    || (0x2008 <= n <= 0x200A)
    || n == 0x2028 || n == 0x2029 || n == 0x205F || n == 0x3000
  }

  /** `StringUtils.isBlank` on a non-null string: empty or whitespace only. */
  predicate IsBlank(s: string) {
    forall k :: 0 <= k < |s| ==> IsWhitespace(s[k])
  }

  /** `StringUtils.isNotBlank` on a nullable string. */
  predicate IsNotBlank(s: Option<string>) {
    s.Some? && !IsBlank(s.value)
  }

  /** The number an `Integer` or `Long` carries. */
  function Number(v: Value): int
    requires v.IntV? || v.LongV?
  {
    if v.IntV? then v.i else v.l
  }

  /** The values of a string-valued enumeration, boxed as `getValue()` returns them. */
  function StringValues(t: EnumTable<string>): (r: seq<Value>)
    ensures |r| == |t.values|
    ensures forall k :: 0 <= k < |r| ==> r[k] == Str(t.values[k])
    ensures forall x :: x in r <==> x.Str? && x.s in t.values
  {
    seq(|t.values|, k requires 0 <= k < |t.values| => Str(t.values[k]))
  }

  /** The values of an int-valued enumeration, boxed as `Integer`. */
  function IntValues(t: EnumTable<int>): (r: seq<Value>)
    ensures |r| == |t.values|
    ensures forall k :: 0 <= k < |r| ==> r[k] == IntV(t.values[k])
    ensures forall x :: x in r <==> x.IntV? && x.i in t.values
  {
    seq(|t.values|, k requires 0 <= k < |t.values| => IntV(t.values[k]))
  }

  /** A nullable `String` field as an `Object`. */
  function OfString(s: Option<string>): Value {
    if s.Some? then Str(s.value) else Null
  }

  /** A nullable `Integer` field as an `Object`. */
  function OfInteger(n: Option<int>): Value {
    if n.Some? then IntV(n.value) else Null
  }
}
