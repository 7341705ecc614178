/** `CustomPage<T>`: a page of content with its metadata. */
module CustomPage {
  datatype CustomPage<+T> = CustomPage(content: seq<T>, number: int, size: int, totalElements: int)

  /** `map`: converts every element in place and copies the metadata. */
  function Map<T, U>(p: CustomPage<T>, f: T --> U): (r: CustomPage<U>)
    requires forall i :: 0 <= i < |p.content| ==> f.requires(p.content[i])
    ensures r.number == p.number && r.size == p.size && r.totalElements == p.totalElements
    ensures |r.content| == |p.content|
    ensures forall i :: 0 <= i < |p.content| ==> r.content[i] == f(p.content[i])
  {
    CustomPage(MapSeq(p.content, f), p.number, p.size, p.totalElements)
  }

  /** `stream().map(converter).collect(toList())`, element by element in order. */
  function MapSeq<T, U>(s: seq<T>, f: T --> U): (r: seq<U>)
    requires forall i :: 0 <= i < |s| ==> f.requires(s[i])
    ensures |r| == |s|
    ensures forall i :: 0 <= i < |s| ==> r[i] == f(s[i])
  {
    if s == [] then [] else [f(s[0])] + MapSeq(s[1..], f)
  }

  /** Mapping with the identity gives an equal page. */
  lemma MapIdentity<T>(p: CustomPage<T>)
    ensures Map(p, x => x) == p
  {
  }

  /** Mapping twice is mapping once with the composition. */
  lemma MapCompose<T, U, W>(p: CustomPage<T>, f: T -> U, g: U -> W)
    ensures Map(Map(p, f), g) == Map(p, x => g(f(x)))
  {
  }
}
