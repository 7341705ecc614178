/** The enumerations `UserType`, `UserStatus` and `UserLevel`, kept abstract.

    An enumeration is the list of its constants' wire values (`getValue()`), in
    declaration order; a constant is identified by its ordinal in that list. */
module Enums {
  import opened Wrappers

  datatype EnumTable<V(==)> = EnumTable(values: seq<V>) {

    /** `e` names a constant of this enumeration. */
    predicate Member(e: nat) {
      e < |values|
    }

    /** No two constants share a wire value. */
    predicate Distinct() {
      forall i, j :: 0 <= i < j < |values| ==> values[i] != values[j]
    }

    /** `getValue()` of the constant `e`. */
    function GetValue(e: nat): V
      requires Member(e)
    {
      values[e]
    }
  }

  /** Lookup by wire value from index `from` on: the first constant carrying `v`. */
  function FindFrom<V(==)>(t: EnumTable<V>, v: V, from: nat): (r: Option<nat>)
    requires from <= |t.values|
    ensures r.Some? ==> from <= r.value < |t.values| && t.values[r.value] == v
    ensures r.Some? ==> forall j :: from <= j < r.value ==> t.values[j] != v
    ensures r.None? <==> forall j :: from <= j < |t.values| ==> t.values[j] != v
    decreases |t.values| - from
  {
    if from == |t.values| then None
    else if t.values[from] == v then Some(from)
    else FindFrom(t, v, from + 1)
  }

  /** `find(value)`: the constant whose wire value is `v`, if any. */
  function Find<V(==)>(t: EnumTable<V>, v: V): (r: Option<nat>)
    ensures r.Some? ==> t.Member(r.value) && t.GetValue(r.value) == v
    ensures r.None? <==> v !in t.values
  {
    FindFrom(t, v, 0)
  }

  /** Looking a constant up by its own wire value gives that constant back. */
  lemma FindGetValue<V>(t: EnumTable<V>, e: nat)
    requires t.Distinct() && t.Member(e)
    ensures Find(t, t.GetValue(e)) == Some(e)
  {
  }

  /** A successful lookup is undone by `getValue()`: wire value -> constant -> same wire value. */
  lemma GetValueFind<V>(t: EnumTable<V>, v: V)
    requires v in t.values
    ensures Find(t, v).Some? && t.GetValue(Find(t, v).value) == v
  {
  }

  /** The three enumerations of the user model, and which level constant is `LEVEL_1`. */
  datatype UserEnums = UserEnums(
    userType: EnumTable<string>,
    userStatus: EnumTable<int>,
    userLevel: EnumTable<int>,
    level1: nat)
  {
    /** What the Java enums guarantee: distinct wire values, and `LEVEL_1` is a level. */
    predicate WellFormed() {
      && userType.Distinct()
      && userStatus.Distinct()
      && userLevel.Distinct()
      && userLevel.Member(level1)
    }
  }
}
