/**
 * Destination masks and the attribute filter. The agent's masks are 32-bit
 * flag sets; here a mask is the set of destination numbers whose flag it holds
 * (flag `1 << d` is member `d`), so `a | b` is `a + b` and `a & b != 0` is
 * `a * b != {}`.
 */
module Destinations {

  /** Number of destination flags a mask can hold. */
  const WIDTH: nat := 32

  type Destination = d: nat | d < WIDTH

  type Mask = set<Destination>

  /** The mask holding the flags of both masks (`a | b`). */
  function Union(a: Mask, b: Mask): Mask { a + b }

  /** The two masks share a flag (`(a & b) != 0`). */
  predicate Overlaps(a: Mask, b: Mask) { a * b != {} }

  /**
   * The attribute filter, as configured for one attribute scope: whether key
   * `key` may be sent to destination `d`.
   */
  type Filter = (Destination, string) -> bool

  /** The destinations of `mask` through which the filter lets `key` pass. */
  function Surviving(allowed: Filter, mask: Mask, key: string): (r: Mask)
    ensures r <= mask
    ensures forall d :: d in mask ==> (d in r <==> allowed(d, key))
  {
    set d | d in mask && allowed(d, key)
  }

  /**
   * Exclusion rules of the attribute configuration: keys excluded for every
   * destination, and keys excluded per destination.
   */
  datatype Exclusions = Exclusions(global: set<string>, byDestination: map<Destination, set<string>>)

  /** The filter the exclusion rules define. */
  function ExcludeFilter(rules: Exclusions): Filter {
    (d: Destination, key: string) =>
      key !in rules.global && !(d in rules.byDestination && key in rules.byDestination[d])
  }

  /** With nothing excluded, every requested destination survives. */
  lemma NothingExcluded(mask: Mask, key: string)
    ensures Surviving(ExcludeFilter(Exclusions({}, map[])), mask, key) == mask
  {
  }

  /**
   * Excluding a key for one of two requested destinations leaves exactly the
   * other one.
   */
  lemma OneOfTwoExcluded(excluded: Destination, kept: Destination, key: string)
    requires excluded != kept
    ensures Surviving(ExcludeFilter(Exclusions({}, map[excluded := {key}])), Union({excluded}, {kept}), key) == {kept}
  {
    var r := Surviving(ExcludeFilter(Exclusions({}, map[excluded := {key}])), Union({excluded}, {kept}), key);
    assert kept in r;
  }

  /** A key excluded globally survives no request. */
  lemma GloballyExcluded(mask: Mask, key: string, byDestination: map<Destination, set<string>>)
    ensures Surviving(ExcludeFilter(Exclusions({key}, byDestination)), mask, key) == {}
  {
  }
}
