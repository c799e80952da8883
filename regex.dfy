/**
 * The regular expressions of normalization rules. A pattern is its source text
 * and its flag letters. Two kinds of source get a meaning of their own here:
 * a source without metacharacters, which matches its text literally, and the
 * source `^$` without the multiline flag, which matches only the empty string.
 * A sticky pattern (flag `y`) matches only where the previous match ended, so
 * it goes to the host engine, as does every other source: the host's
 * compiler, matcher and replacer are parameters of the model.
 */
module Regex {
  import opened Wrappers
  import opened LiteralPattern

  /** The characters that give a regular expression source its structure. */
  const META: string := "\\^$.|?*+()[]{}"

  /** The source of the pattern that matches only the empty string. */
  const EMPTY_ONLY: string := "^$"

  /** The source of the pattern that matches every input. */
  const MATCH_ALL: string := ""

  datatype Regex = Regex(source: string, flags: string) {
    predicate Global() { 'g' in flags }
    predicate IgnoreCase() { 'i' in flags }
    predicate Multiline() { 'm' in flags }
    predicate Sticky() { 'y' in flags }
  }

  /** A source whose every character stands for itself. */
  predicate IsLiteral(source: string) {
    forall i :: 0 <= i < |source| ==> source[i] !in META
  }

  /** The host's regular expression engine, for the sources the model does not interpret. */
  datatype Host = Host(
    compiles: string -> bool,
    test: (Regex, string) -> bool,
    replace: (Regex, string, string) -> string)

  /** The patterns whose meaning the model gives itself: never sticky ones. */
  predicate Interpreted(re: Regex) {
    !re.Sticky() && (IsLiteral(re.source) || (re.source == EMPTY_ONLY && !re.Multiline()))
  }

  /** A source compiles when it is literal, is `^$`, or the host accepts it. */
  predicate Compiles(host: Host, source: string) {
    IsLiteral(source) || source == EMPTY_ONLY || host.compiles(source)
  }

  /** Whether `re` matches somewhere in `s`. */
  function Test(host: Host, re: Regex, s: string): (r: bool)
    ensures IsLiteral(re.source) && !re.Sticky() ==>
              (r <==> exists j :: 0 <= j <= |s| && OccursAt(s, re.source, j, re.IgnoreCase()))
  {
    if !Interpreted(re) then host.test(re, s)
    else if IsLiteral(re.source) then FindFrom(s, re.source, 0, re.IgnoreCase()).Some?
    else s == ""
  }

  /**
   * `s` with the match of `re`, or every match when `re` is global, replaced by
   * the expanded template `t`.
   */
  function Replace(host: Host, re: Regex, s: string, t: string): string {
    if !Interpreted(re) then host.replace(re, s, t)
    else if IsLiteral(re.source) then
      if re.Global() then ReplaceAll(s, re.source, t, re.IgnoreCase())
      else ReplaceFirst(s, re.source, t, re.IgnoreCase())
    else if s == "" then Expand(t, s, 0, 0) else s
  }

  /** A pattern the model does not interpret is matched and replaced by the host. */
  lemma HostDecides(host: Host, re: Regex, s: string, t: string)
    requires !Interpreted(re)
    ensures Test(host, re, s) == host.test(re, s)
    ensures Replace(host, re, s, t) == host.replace(re, s, t)
  {
  }

  /** `^$` matches exactly the empty string. */
  lemma EmptyOnlyMatches(host: Host, flags: string, s: string)
    requires 'm' !in flags && 'y' !in flags
    ensures Test(host, Regex(EMPTY_ONLY, flags), s) <==> s == ""
  {
    assert !IsLiteral(EMPTY_ONLY) by { assert EMPTY_ONLY[0] == META[1]; }
  }

  /** The empty source, when not sticky, matches every input, at its start. */
  lemma MatchAllMatches(host: Host, flags: string, s: string)
    requires 'y' !in flags
    ensures Test(host, Regex(MATCH_ALL, flags), s)
  {
    assert OccursAt(s, MATCH_ALL, 0, 'i' in flags);
  }

  /** A pattern the model interprets leaves an input it does not match unchanged. */
  lemma ReplaceWithoutMatch(host: Host, re: Regex, s: string, t: string)
    requires Interpreted(re) && !Test(host, re, s)
    ensures Replace(host, re, s, t) == s
  {
    if IsLiteral(re.source) {
      assert forall j :: 0 <= j <= |s| ==> !OccursAt(s, re.source, j, re.IgnoreCase());
      if re.Global() {
        ReplaceAllNoMatch(s, re.source, t, re.IgnoreCase());
      } else {
        ReplaceFirstNoMatch(s, re.source, t, re.IgnoreCase());
      }
    }
  }

  /**
   * For a literal pattern with one occurrence, the global and the non-global
   * replacement agree.
   */
  lemma GlobalAgreesOnSingleMatch(host: Host, source: string, flags: string, s: string, t: string, k: nat)
    requires IsLiteral(source) && 'y' !in flags && |source| > 0 && OccursAt(s, source, k, 'i' in flags)
    requires forall j :: 0 <= j <= |s| && j != k ==> !OccursAt(s, source, j, 'i' in flags)
    ensures Replace(host, Regex(source, flags + "g"), s, t) == Replace(host, Regex(source, flags), s, t)
  {
    var ic := 'i' in flags;
    assert ('i' in flags + "g") == ic;
    assert 'g' in flags + "g";
    assert ('y' in flags + "g") == ('y' in flags);
    ReplaceAllSingle(s, source, t, ic, k);
    if 'g' in flags {
      assert ReplaceAll(s, source, t, ic) == ReplaceFirst(s, source, t, ic);
    }
  }
}
