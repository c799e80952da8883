/**
 * One metric-name normalization rule: built from a specification record sent
 * by the collector, it holds a compiled pattern, a replacement template, its
 * precedence and its flags, and rewrites a name either segment by segment or
 * as a whole.
 */
module NormalizerRule {
  import opened Wrappers
  import opened Paths
  import opened LiteralPattern
  import opened Regex

  /** A match expression: pattern source text, or an already compiled pattern. */
  datatype Expression = Source(text: string) | Compiled(regex: Regex)

  /** The collector's rule record; every field may be absent. */
  datatype RuleSpec = RuleSpec(
    matchExpression: Option<Expression>,
    replacement: Option<string>,
    eachSegment: Option<bool>,
    evalOrder: Option<int>,
    terminateChain: Option<bool>,
    replaceAll: Option<bool>,
    ignore: Option<bool>)

  /** The record with no field given, which is also what a missing record means. */
  function EmptySpec(): RuleSpec {
    RuleSpec(None, None, None, None, None, None, None)
  }

  datatype Rule = Rule(
    pattern: Regex,
    replacement: string,
    precedence: int,
    isTerminal: bool,
    eachSegment: bool,
    replaceAll: bool,
    ignore: bool)

  /** The template used when none is given: the entire match. */
  const DEFAULT_REPLACEMENT: string := "$0"

  predicate NoDuplicates(s: string) {
    forall i, j :: 0 <= i < j < |s| ==> s[i] != s[j]
  }

  /** The flags every rule pattern gets: case-insensitive, and global for replace-all rules. */
  function Modifiers(replaceAll: bool): (m: string)
    ensures 'i' in m
    ensures 'g' in m <==> replaceAll
    ensures forall c :: c in m ==> c == 'i' || c == 'g'
    ensures NoDuplicates(m)
  {
    if replaceAll then "ig" else "i"
  }

  /**
   * The flags of `existing` followed by each flag of `added` it lacks, so that
   * no flag is given twice.
   */
  function MergeFlags(existing: string, added: string): (r: string)
    ensures existing <= r
    ensures forall c :: c in r <==> c in existing || c in added
    ensures NoDuplicates(existing) ==> NoDuplicates(r)
    decreases |added|
  {
    if added == [] then existing
    else if added[0] in existing then MergeFlags(existing, added[1..])
    else MergeFlags(existing + [added[0]], added[1..])
  }

  /** Merging flags that are all present already changes nothing. */
  lemma {:induction false} MergePresentFlags(existing: string, added: string)
    requires forall c :: c in added ==> c in existing
    ensures MergeFlags(existing, added) == existing
    decreases |added|
  {
    if added != [] {
      assert added[0] in added;
      forall c | c in added[1..] ensures c in existing {
        assert c in added;
      }
      MergePresentFlags(existing, added[1..]);
    }
  }

  /**
   * The rule's pattern: `^$` when no expression is given; a source text that
   * does not compile degrades to the pattern matching everything; a compiled
   * pattern keeps its source and gains the missing modifiers.
   */
  function CompilePattern(host: Host, e: Option<Expression>, mods: string): (re: Regex)
    ensures forall c :: c in mods ==> c in re.flags
    ensures e.None? ==> re.source == EMPTY_ONLY
    ensures e.Some? && e.value.Source? ==>
              re.source == (if Compiles(host, e.value.text) then e.value.text else MATCH_ALL)
    ensures e.Some? && e.value.Compiled? ==>
              re.source == e.value.regex.source && e.value.regex.flags <= re.flags
    ensures !(e.Some? && e.value.Compiled?) ==> re.flags == mods
  {
    match e
    case None => Regex(EMPTY_ONLY, mods)
    case Some(Source(text)) => Regex(if Compiles(host, text) then text else MATCH_ALL, mods)
    case Some(Compiled(given)) => Regex(given.source, MergeFlags(given.flags, mods))
  }

  /** A back-reference `\` followed by a digit starts at index `i` of `t`. */
  predicate BackReferenceAt(t: string, i: nat) {
    i + 1 < |t| && t[i] == '\\' && '0' <= t[i + 1] <= '9'
  }

  /** The replacement template with each back-reference `\n` rewritten to `$n`. */
  function TranslateReplacement(t: string): (r: string)
    ensures |r| == |t|
    decreases |t|
  {
    if t == [] then []
    else [if BackReferenceAt(t, 0) then '$' else t[0]] + TranslateReplacement(t[1..])
  }

  /** The rule a specification record describes, each missing field taking its default. */
  function NewRule(host: Host, spec: RuleSpec): (r: Rule)
    ensures r.pattern.IgnoreCase()
    ensures r.replaceAll ==> r.pattern.Global()
    ensures !(spec.matchExpression.Some? && spec.matchExpression.value.Compiled?) ==>
              (r.pattern.Global() <==> r.replaceAll) && !r.pattern.Multiline() && NoDuplicates(r.pattern.flags)
    ensures spec.matchExpression.Some? && spec.matchExpression.value.Compiled? ==>
              var given := spec.matchExpression.value.regex;
              r.pattern.source == given.source &&
              (r.pattern.Global() <==> r.replaceAll || given.Global()) &&
              (r.pattern.Multiline() <==> given.Multiline()) &&
              (NoDuplicates(given.flags) ==> NoDuplicates(r.pattern.flags))
  {
    var replaceAll := spec.replaceAll.GetOr(false);
    Rule(
      CompilePattern(host, spec.matchExpression, Modifiers(replaceAll)),
      TranslateReplacement(spec.replacement.GetOr(DEFAULT_REPLACEMENT)),
      spec.evalOrder.GetOr(0),
      spec.terminateChain.GetOr(false),
      spec.eachSegment.GetOr(false),
      replaceAll,
      spec.ignore.GetOr(false))
  }

  /** The pieces of `name` the rule works on: its segments, or the name as a whole. */
  function Segments(rule: Rule, name: string): (segs: seq<string>)
    ensures |segs| >= 1
  {
    if rule.eachSegment then Split(name) else [name]
  }

  /** Whether the pattern matches one of `segs`. */
  function AnyMatch(host: Host, re: Regex, segs: seq<string>): (r: bool)
    ensures r <==> exists i :: 0 <= i < |segs| && Test(host, re, segs[i])
    decreases |segs|
  {
    if segs == [] then false
    else Test(host, re, segs[0]) || AnyMatch(host, re, segs[1..])
  }

  /** Whether the rule's pattern matches the name, or one of its segments in each-segment mode. */
  function Matches(host: Host, rule: Rule, name: string): (r: bool)
    ensures !rule.eachSegment ==> (r <==> Test(host, rule.pattern, name))
    ensures rule.eachSegment ==>
              (r <==> exists i :: 0 <= i < |Split(name)| && Test(host, rule.pattern, Split(name)[i]))
  {
    var segs := Segments(rule, name);
    assert rule.eachSegment ==> segs == Split(name);
    AnyMatch(host, rule.pattern, segs)
  }

  /** One segment rewritten: a non-empty segment the pattern matches gets the replacement. */
  function RewriteSegment(host: Host, rule: Rule, seg: string): (r: string)
    ensures r != seg ==> seg != "" && Test(host, rule.pattern, seg)
  {
    if seg != "" && Test(host, rule.pattern, seg) then Replace(host, rule.pattern, seg, rule.replacement)
    else seg
  }

  /** Every segment rewritten on its own. */
  function RewriteEach(host: Host, rule: Rule, segs: seq<string>): (out: seq<string>)
    ensures |out| == |segs|
    ensures forall i :: 0 <= i < |segs| ==> out[i] == RewriteSegment(host, rule, segs[i])
    decreases |segs|
  {
    if segs == [] then []
    else [RewriteSegment(host, rule, segs[0])] + RewriteEach(host, rule, segs[1..])
  }

  /** The name rewritten by the rule: its pieces rewritten and joined back with `/`. */
  function Apply(host: Host, rule: Rule, name: string): (r: string)
    ensures !rule.eachSegment ==> r == RewriteSegment(host, rule, name)
  {
    Join(RewriteEach(host, rule, Segments(rule, name)))
  }

  // ---------------------------------------------------------------------------
  // Construction

  /** A template translates position by position. */
  lemma {:induction false} TranslateAt(t: string)
    ensures forall i :: 0 <= i < |t| ==>
              TranslateReplacement(t)[i] == (if BackReferenceAt(t, i) then '$' else t[i])
    decreases |t|
  {
    if t != [] {
      TranslateAt(t[1..]);
      forall i | 1 <= i < |t| ensures BackReferenceAt(t, i) == BackReferenceAt(t[1..], i - 1) {
      }
    }
  }

  /** A template without a back-reference is kept verbatim. */
  lemma NoBackReferenceVerbatim(t: string)
    requires forall i :: 0 <= i < |t| ==> !BackReferenceAt(t, i)
    ensures TranslateReplacement(t) == t
  {
    TranslateAt(t);
  }

  /** Every field the record gives is copied; every missing one takes its default. */
  lemma FieldsCopied(host: Host, spec: RuleSpec)
    ensures var r := NewRule(host, spec);
            (spec.terminateChain.Some? ==> r.isTerminal == spec.terminateChain.value) &&
            (spec.terminateChain.None? ==> !r.isTerminal) &&
            (spec.evalOrder.Some? ==> r.precedence == spec.evalOrder.value) &&
            (spec.evalOrder.None? ==> r.precedence == 0) &&
            (spec.eachSegment.Some? ==> r.eachSegment == spec.eachSegment.value) &&
            (spec.eachSegment.None? ==> !r.eachSegment) &&
            (spec.replaceAll.Some? ==> r.replaceAll == spec.replaceAll.value) &&
            (spec.replaceAll.None? ==> !r.replaceAll) &&
            (spec.ignore.Some? ==> r.ignore == spec.ignore.value) &&
            (spec.ignore.None? ==> !r.ignore) &&
            (spec.replacement.Some? ==> r.replacement == TranslateReplacement(spec.replacement.value)) &&
            (spec.replacement.None? ==> r.replacement == DEFAULT_REPLACEMENT)
  {
    assert TranslateReplacement(DEFAULT_REPLACEMENT) == DEFAULT_REPLACEMENT by {
      NoBackReferenceVerbatim(DEFAULT_REPLACEMENT);
    }
  }

  /**
   * The pattern a record gives: `^$` when it names none, a source text that
   * compiles as it is given, the pattern matching everything for one that
   * does not, and a compiled pattern with its flags followed by the missing
   * modifiers.
   */
  lemma PatternChosen(host: Host, spec: RuleSpec)
    ensures var r := NewRule(host, spec);
            var mods := Modifiers(spec.replaceAll.GetOr(false));
            (spec.matchExpression.None? ==> r.pattern == Regex(EMPTY_ONLY, mods)) &&
            (spec.matchExpression.Some? && spec.matchExpression.value.Source? ==>
               var text := spec.matchExpression.value.text;
               (Compiles(host, text) ==> r.pattern == Regex(text, mods)) &&
               (!Compiles(host, text) ==> r.pattern == Regex(MATCH_ALL, mods))) &&
            (spec.matchExpression.Some? && spec.matchExpression.value.Compiled? ==>
               var given := spec.matchExpression.value.regex;
               r.pattern == Regex(given.source, MergeFlags(given.flags, mods)))
  {
  }

  /**
   * The rule built from an empty record: pattern `^$` with the flag `i`,
   * template `$0`, precedence 0 and every flag off.
   */
  lemma DefaultRule(host: Host)
    ensures NewRule(host, EmptySpec()) == Rule(Regex(EMPTY_ONLY, "i"), DEFAULT_REPLACEMENT, 0, false, false, false, false)
  {
    FieldsCopied(host, EmptySpec());
  }

  /** A source text that does not compile gives a rule whose pattern matches everything. */
  lemma FallbackMatchesEverything(host: Host, spec: RuleSpec, name: string)
    requires spec.matchExpression.Some? && spec.matchExpression.value.Source?
    requires !Compiles(host, spec.matchExpression.value.text)
    ensures NewRule(host, spec).pattern.source == MATCH_ALL
    ensures Matches(host, NewRule(host, spec), name)
  {
    var r := NewRule(host, spec);
    var segs := Segments(r, name);
    MatchAllMatches(host, r.pattern.flags, segs[0]);
  }

  // ---------------------------------------------------------------------------
  // Application

  /** A name none of whose pieces the pattern matches is returned unchanged. */
  lemma ApplyWithoutMatch(host: Host, rule: Rule, name: string)
    ensures !Matches(host, rule, name) ==> Apply(host, rule, name) == name
  {
    var segs := Segments(rule, name);
    var out := RewriteEach(host, rule, segs);
    if !Matches(host, rule, name) {
      assert !AnyMatch(host, rule.pattern, segs);
      assert out == segs;
      if rule.eachSegment {
        JoinSplit(name);
      }
    }
  }

  /**
   * In each-segment mode, when no rewritten segment holds a `/`, the result
   * splits into exactly the rewritten segments: the count is kept, empty
   * segments stay where they were, and the others are rewritten one by one.
   */
  lemma EachSegmentShape(host: Host, rule: Rule, name: string)
    requires rule.eachSegment
    requires forall i :: 0 <= i < |Split(name)| ==> NoSeparator(RewriteSegment(host, rule, Split(name)[i]))
    ensures Split(Apply(host, rule, name)) == RewriteEach(host, rule, Split(name))
    ensures |Split(Apply(host, rule, name))| == |Split(name)|
    ensures forall i :: 0 <= i < |Split(name)| && Split(name)[i] == "" ==> Split(Apply(host, rule, name))[i] == ""
  {
    var out := RewriteEach(host, rule, Split(name));
    SplitJoin(out);
  }

  /** In each-segment mode, a name built from separator-free segments is rewritten segment by segment. */
  lemma ApplyToJoined(host: Host, rule: Rule, parts: seq<string>)
    requires rule.eachSegment && |parts| >= 1
    requires forall i :: 0 <= i < |parts| ==> NoSeparator(parts[i])
    ensures Apply(host, rule, Join(parts)) == Join(RewriteEach(host, rule, parts))
  {
    SplitJoin(parts);
  }

  /** In each-segment mode, a name without `/` is a single segment. */
  lemma ApplySegment(host: Host, rule: Rule, seg: string)
    requires rule.eachSegment && NoSeparator(seg)
    ensures Apply(host, rule, seg) == RewriteSegment(host, rule, seg)
  {
    SplitSegment(seg);
  }

  /** In each-segment mode, the first segment is rewritten on its own and the rest after the `/`. */
  lemma ApplyCons(host: Host, rule: Rule, head: string, rest: string)
    requires rule.eachSegment && NoSeparator(head)
    ensures Apply(host, rule, head + [SEPARATOR] + rest) ==
              RewriteSegment(host, rule, head) + [SEPARATOR] + Apply(host, rule, rest)
  {
    SplitPrefixed(head, rest);
    var tail := Split(rest);
    assert RewriteEach(host, rule, [head] + tail)[1..] == RewriteEach(host, rule, tail);
    JoinCons(RewriteSegment(host, rule, head), RewriteEach(host, rule, tail));
    assert [RewriteSegment(host, rule, head)] + RewriteEach(host, rule, tail) == RewriteEach(host, rule, [head] + tail);
  }

  /** The rule built from an empty record matches only the empty name and changes no name. */
  lemma DefaultRuleIdentity(host: Host, name: string)
    ensures Matches(host, NewRule(host, EmptySpec()), name) <==> name == ""
    ensures Apply(host, NewRule(host, EmptySpec()), name) == name
  {
    var r := NewRule(host, EmptySpec());
    DefaultRule(host);
    EmptyOnlyMatches(host, "i", name);
  }

  /**
   * A whole-name replace-all rule with a literal pattern replaces every
   * occurrence of its text, ignoring ASCII case. On the empty name this holds
   * for a non-empty text only, since the empty name is never rewritten.
   */
  lemma LiteralReplaceAll(host: Host, spec: RuleSpec, name: string)
    requires spec.matchExpression.Some? && spec.matchExpression.value.Source?
    requires IsLiteral(spec.matchExpression.value.text)
    requires spec.replaceAll == Some(true) && !spec.eachSegment.GetOr(false)
    requires name != "" || spec.matchExpression.value.text != ""
    ensures var r := NewRule(host, spec);
            Apply(host, r, name) == ReplaceAll(name, spec.matchExpression.value.text, r.replacement, true)
  {
    var r := NewRule(host, spec);
    var text := spec.matchExpression.value.text;
    assert r.pattern == Regex(text, "ig");
    if name == "" || !Test(host, r.pattern, name) {
      ReplaceAllNoMatch(name, text, r.replacement, true);
    }
  }
}
