/**
 * Regular expressions whose source holds no metacharacter match their source
 * text literally. This module gives such patterns their meaning: searching
 * (with ASCII case folding under the `i` flag), expanding a replacement
 * template, and replacing the first or every non-overlapping occurrence,
 * left to right, as `String.prototype.replace` does.
 */
module LiteralPattern {
  import opened Wrappers

  /** ASCII case folding: upper-case ASCII letters to lower case. */
  function Fold(c: char): (f: char)
    ensures 'A' <= c <= 'Z' ==> f as int == c as int + 32
    ensures !('A' <= c <= 'Z') ==> f == c
  {
    if 'A' <= c <= 'Z' then (c as int + 32) as char else c
  }

  predicate SameChar(a: char, b: char, ignoreCase: bool) {
    if ignoreCase then Fold(a) == Fold(b) else a == b
  }

  /** `s` begins with `p`, character by character. */
  predicate StartsWith(s: string, p: string, ignoreCase: bool)
    decreases |p|
  {
    p == [] || (s != [] && SameChar(s[0], p[0], ignoreCase) && StartsWith(s[1..], p[1..], ignoreCase))
  }

  /** `needle` occurs in `s` beginning at index `i`. */
  predicate OccursAt(s: string, needle: string, i: nat, ignoreCase: bool) {
    i + |needle| <= |s| && StartsWith(s[i..], needle, ignoreCase)
  }

  /** `StartsWith` compares the prefix position by position. */
  lemma {:induction false} StartsWithPointwise(s: string, p: string, ignoreCase: bool)
    requires |p| <= |s|
    ensures StartsWith(s, p, ignoreCase) <==> forall j :: 0 <= j < |p| ==> SameChar(s[j], p[j], ignoreCase)
    decreases |p|
  {
    if p != [] {
      StartsWithPointwise(s[1..], p[1..], ignoreCase);
      if forall j :: 0 <= j < |p| ==> SameChar(s[j], p[j], ignoreCase) {
        forall j | 0 <= j < |p| - 1 ensures SameChar(s[1..][j], p[1..][j], ignoreCase) {
          assert s[1..][j] == s[j + 1] && p[1..][j] == p[j + 1];
        }
      }
    }
  }

  /**
   * The first occurrence of `needle` in `s` at index `from` or later, if there
   * is one.
   */
  function FindFrom(s: string, needle: string, from: nat, ignoreCase: bool): (r: Option<nat>)
    requires from <= |s|
    ensures r.Some? ==> from <= r.value <= |s| && OccursAt(s, needle, r.value, ignoreCase)
    ensures r.Some? ==> forall j :: from <= j < r.value ==> !OccursAt(s, needle, j, ignoreCase)
    ensures r.None? ==> forall j :: from <= j <= |s| ==> !OccursAt(s, needle, j, ignoreCase)
    decreases |s| - from
  {
    if OccursAt(s, needle, from, ignoreCase) then Some(from)
    else if from == |s| then None
    else FindFrom(s, needle, from + 1, ignoreCase)
  }

  /**
   * The replacement template `t` expanded for the match `s[start..end]` of a
   * pattern without capture groups: `$$` is `$`, `$&` the match, `` $` `` the
   * text before it, `$'` the text after it; anything else is copied.
   */
  function Expand(t: string, s: string, start: nat, end: nat): string
    requires start <= end <= |s|
    decreases |t|
  {
    if t == [] then []
    else if |t| >= 2 && t[0] == '$' && t[1] == '$' then "$" + Expand(t[2..], s, start, end)
    else if |t| >= 2 && t[0] == '$' && t[1] == '&' then s[start..end] + Expand(t[2..], s, start, end)
    else if |t| >= 2 && t[0] == '$' && t[1] == '`' then s[..start] + Expand(t[2..], s, start, end)
    else if |t| >= 2 && t[0] == '$' && t[1] == '\'' then s[end..] + Expand(t[2..], s, start, end)
    else [t[0]] + Expand(t[1..], s, start, end)
  }

  /** A template without `$` is inserted as it is. */
  lemma {:induction false} ExpandPlain(t: string, s: string, start: nat, end: nat)
    requires start <= end <= |s|
    requires forall i :: 0 <= i < |t| ==> t[i] != '$'
    ensures Expand(t, s, start, end) == t
    decreases |t|
  {
    if t != [] {
      ExpandPlain(t[1..], s, start, end);
      assert [t[0]] + t[1..] == t;
    }
  }

  /** `s` with its first occurrence of `needle` replaced by the expanded template. */
  function ReplaceFirst(s: string, needle: string, t: string, ignoreCase: bool): string {
    match FindFrom(s, needle, 0, ignoreCase)
    case None => s
    case Some(k) => s[..k] + Expand(t, s, k, k + |needle|) + s[k + |needle|..]
  }

  /**
   * `s[from..]` with every occurrence of `needle` replaced, scanning left to
   * right and resuming after each match. An empty needle matches at every
   * position, the last one included.
   */
  function ReplaceAllFrom(s: string, needle: string, t: string, ignoreCase: bool, from: nat): string
    requires from <= |s|
    decreases |s| - from
  {
    if OccursAt(s, needle, from, ignoreCase) then
      var rep := Expand(t, s, from, from + |needle|);
      if |needle| > 0 then rep + ReplaceAllFrom(s, needle, t, ignoreCase, from + |needle|)
      else if from == |s| then rep
      else rep + [s[from]] + ReplaceAllFrom(s, needle, t, ignoreCase, from + 1)
    else if from == |s| then []
    else [s[from]] + ReplaceAllFrom(s, needle, t, ignoreCase, from + 1)
  }

  /** Every occurrence of `needle` in `s` replaced. */
  function ReplaceAll(s: string, needle: string, t: string, ignoreCase: bool): string {
    ReplaceAllFrom(s, needle, t, ignoreCase, 0)
  }

  /** What the scan does once it has reached the match at `k`. */
  function AfterMatch(s: string, needle: string, t: string, ignoreCase: bool, k: nat): string
    requires k + |needle| <= |s|
  {
    var rep := Expand(t, s, k, k + |needle|);
    if |needle| > 0 then rep + ReplaceAllFrom(s, needle, t, ignoreCase, k + |needle|)
    else if k == |s| then rep
    else rep + [s[k]] + ReplaceAllFrom(s, needle, t, ignoreCase, k + 1)
  }

  /** One step of the scan: a match is replaced, anything else copied. */
  lemma ReplaceAllFromStep(s: string, needle: string, t: string, ignoreCase: bool, from: nat)
    requires from <= |s|
    ensures OccursAt(s, needle, from, ignoreCase) ==>
              ReplaceAllFrom(s, needle, t, ignoreCase, from) == AfterMatch(s, needle, t, ignoreCase, from)
    ensures !OccursAt(s, needle, from, ignoreCase) && from < |s| ==>
              ReplaceAllFrom(s, needle, t, ignoreCase, from) == [s[from]] + ReplaceAllFrom(s, needle, t, ignoreCase, from + 1)
    ensures !OccursAt(s, needle, from, ignoreCase) && from == |s| ==>
              ReplaceAllFrom(s, needle, t, ignoreCase, from) == []
  {
  }

  /** Concatenation regrouped: `a + (b + c)` read as `a + b + c`. */
  lemma Regroup(x: string, a: string, m: string, b: string, c: string)
    requires x == a + m && m == b + c
    ensures x == a + b + c
  {
  }

  /** A copied character in front of a copied rest. */
  lemma CopyThenRest(s: string, needle: string, t: string, ignoreCase: bool, from: nat)
    requires from < |s| && !OccursAt(s, needle, from, ignoreCase)
    requires ReplaceAllFrom(s, needle, t, ignoreCase, from + 1) == s[from + 1..]
    ensures ReplaceAllFrom(s, needle, t, ignoreCase, from) == s[from..]
  {
    assert s[from..] == [s[from]] + s[from + 1..];
  }

  /** A copied character in front of a copied stretch and a match. */
  lemma CopyThenMatch(s: string, needle: string, t: string, ignoreCase: bool, from: nat, k: nat)
    requires from < k && k + |needle| <= |s| && !OccursAt(s, needle, from, ignoreCase)
    requires ReplaceAllFrom(s, needle, t, ignoreCase, from + 1) == s[from + 1..k] + AfterMatch(s, needle, t, ignoreCase, k)
    ensures ReplaceAllFrom(s, needle, t, ignoreCase, from) == s[from..k] + AfterMatch(s, needle, t, ignoreCase, k)
  {
    ReplaceAllFromStep(s, needle, t, ignoreCase, from);
    Regroup(ReplaceAllFrom(s, needle, t, ignoreCase, from), [s[from]], ReplaceAllFrom(s, needle, t, ignoreCase, from + 1),
            s[from + 1..k], AfterMatch(s, needle, t, ignoreCase, k));
    assert [s[from]] + s[from + 1..k] == s[from..k];
  }

  /**
   * The scan copies everything up to the first occurrence, replaces that
   * occurrence and carries on after it; with no occurrence left it copies the
   * rest.
   */
  lemma {:induction false} ReplaceAllFromFind(s: string, needle: string, t: string, ignoreCase: bool, from: nat)
    requires from <= |s|
    ensures FindFrom(s, needle, from, ignoreCase).None? ==>
              ReplaceAllFrom(s, needle, t, ignoreCase, from) == s[from..]
    ensures FindFrom(s, needle, from, ignoreCase).Some? ==>
              var k := FindFrom(s, needle, from, ignoreCase).value;
              k + |needle| <= |s| &&
              ReplaceAllFrom(s, needle, t, ignoreCase, from) == s[from..k] + AfterMatch(s, needle, t, ignoreCase, k)
    decreases |s| - from
  {
    ReplaceAllFromStep(s, needle, t, ignoreCase, from);
    if OccursAt(s, needle, from, ignoreCase) {
      assert s[from..from] == [];
    } else if from < |s| {
      ReplaceAllFromFind(s, needle, t, ignoreCase, from + 1);
      var r := FindFrom(s, needle, from + 1, ignoreCase);
      if r.None? {
        CopyThenRest(s, needle, t, ignoreCase, from);
      } else {
        CopyThenMatch(s, needle, t, ignoreCase, from, r.value);
      }
    }
  }

  /** A stretch without occurrences is copied as it is. */
  lemma {:induction false} CopyRun(s: string, needle: string, t: string, ignoreCase: bool, from: nat, to: nat)
    requires from <= to <= |s|
    requires forall j :: from <= j < to ==> !OccursAt(s, needle, j, ignoreCase)
    ensures ReplaceAllFrom(s, needle, t, ignoreCase, from) == s[from..to] + ReplaceAllFrom(s, needle, t, ignoreCase, to)
    decreases |s| - from
  {
    if from < to {
      ReplaceAllFromStep(s, needle, t, ignoreCase, from);
      CopyRun(s, needle, t, ignoreCase, from + 1, to);
      Regroup(ReplaceAllFrom(s, needle, t, ignoreCase, from), [s[from]], ReplaceAllFrom(s, needle, t, ignoreCase, from + 1),
              s[from + 1..to], ReplaceAllFrom(s, needle, t, ignoreCase, to));
      assert [s[from]] + s[from + 1..to] == s[from..to];
    }
  }

  /** A non-empty occurrence is replaced and the scan resumes right after it. */
  lemma MatchStep(s: string, needle: string, t: string, ignoreCase: bool, from: nat)
    requires |needle| > 0 && OccursAt(s, needle, from, ignoreCase)
    ensures ReplaceAllFrom(s, needle, t, ignoreCase, from) ==
              Expand(t, s, from, from + |needle|) + ReplaceAllFrom(s, needle, t, ignoreCase, from + |needle|)
  {
  }

  /** With no occurrence, replacing every occurrence changes nothing. */
  lemma ReplaceAllNoMatch(s: string, needle: string, t: string, ignoreCase: bool)
    requires forall j :: 0 <= j <= |s| ==> !OccursAt(s, needle, j, ignoreCase)
    ensures ReplaceAll(s, needle, t, ignoreCase) == s
  {
    ReplaceAllFromFind(s, needle, t, ignoreCase, 0);
  }

  /** The only occurrence is the first one found. */
  lemma OnlyOccurrenceFound(s: string, needle: string, ignoreCase: bool, k: nat, from: nat)
    requires from <= k && OccursAt(s, needle, k, ignoreCase)
    requires forall j :: 0 <= j <= |s| && j != k ==> !OccursAt(s, needle, j, ignoreCase)
    ensures FindFrom(s, needle, from, ignoreCase) == Some(k)
  {
    var r := FindFrom(s, needle, from, ignoreCase);
    if r.None? {
      assert false;
    }
  }

  /** Past the only occurrence nothing is found. */
  lemma NothingPastOnlyOccurrence(s: string, needle: string, ignoreCase: bool, k: nat, from: nat)
    requires k < from <= |s|
    requires forall j :: 0 <= j <= |s| && j != k ==> !OccursAt(s, needle, j, ignoreCase)
    ensures FindFrom(s, needle, from, ignoreCase).None?
  {
    var r := FindFrom(s, needle, from, ignoreCase);
    if r.Some? {
      assert false;
    }
  }

  /** The scan copies everything before the first occurrence. */
  lemma ReplaceAllFirstFound(s: string, needle: string, t: string, ignoreCase: bool, k: nat)
    requires k + |needle| <= |s| && FindFrom(s, needle, 0, ignoreCase) == Some(k)
    ensures ReplaceAll(s, needle, t, ignoreCase) == s[..k] + AfterMatch(s, needle, t, ignoreCase, k)
  {
    ReplaceAllFromFind(s, needle, t, ignoreCase, 0);
    assert s[0..k] == s[..k];
  }

  /** After a non-empty occurrence with nothing found past it, the rest is copied. */
  lemma AfterLastMatch(s: string, needle: string, t: string, ignoreCase: bool, k: nat)
    requires |needle| > 0 && k + |needle| <= |s|
    requires FindFrom(s, needle, k + |needle|, ignoreCase).None?
    ensures AfterMatch(s, needle, t, ignoreCase, k) == Expand(t, s, k, k + |needle|) + s[k + |needle|..]
  {
    ReplaceAllFromFind(s, needle, t, ignoreCase, k + |needle|);
  }

  /** The first replacement, once the first occurrence is known. */
  lemma ReplaceFirstFound(s: string, needle: string, t: string, ignoreCase: bool, k: nat)
    requires k + |needle| <= |s| && FindFrom(s, needle, 0, ignoreCase) == Some(k)
    ensures ReplaceFirst(s, needle, t, ignoreCase) == s[..k] + Expand(t, s, k, k + |needle|) + s[k + |needle|..]
  {
  }

  /** A first match with nothing found after it is all that either replacement touches. */
  lemma FirstAndLastMatch(s: string, needle: string, t: string, ignoreCase: bool, k: nat)
    requires |needle| > 0 && k + |needle| <= |s|
    requires FindFrom(s, needle, 0, ignoreCase) == Some(k)
    requires FindFrom(s, needle, k + |needle|, ignoreCase).None?
    ensures ReplaceAll(s, needle, t, ignoreCase) == ReplaceFirst(s, needle, t, ignoreCase)
  {
    ReplaceAllFirstFound(s, needle, t, ignoreCase, k);
    AfterLastMatch(s, needle, t, ignoreCase, k);
    ReplaceFirstFound(s, needle, t, ignoreCase, k);
    Regroup(ReplaceAll(s, needle, t, ignoreCase),
            s[..k], AfterMatch(s, needle, t, ignoreCase, k), Expand(t, s, k, k + |needle|), s[k + |needle|..]);
  }

  /**
   * With a single non-empty occurrence, replacing every occurrence and
   * replacing the first one agree.
   */
  lemma ReplaceAllSingle(s: string, needle: string, t: string, ignoreCase: bool, k: nat)
    requires |needle| > 0 && OccursAt(s, needle, k, ignoreCase)
    requires forall j :: 0 <= j <= |s| && j != k ==> !OccursAt(s, needle, j, ignoreCase)
    ensures ReplaceAll(s, needle, t, ignoreCase) == ReplaceFirst(s, needle, t, ignoreCase)
  {
    OnlyOccurrenceFound(s, needle, ignoreCase, k, 0);
    NothingPastOnlyOccurrence(s, needle, ignoreCase, k, k + |needle|);
    FirstAndLastMatch(s, needle, t, ignoreCase, k);
  }

  /** With no occurrence, replacing the first occurrence changes nothing. */
  lemma ReplaceFirstNoMatch(s: string, needle: string, t: string, ignoreCase: bool)
    requires forall j :: 0 <= j <= |s| ==> !OccursAt(s, needle, j, ignoreCase)
    ensures ReplaceFirst(s, needle, t, ignoreCase) == s
  {
  }
}
