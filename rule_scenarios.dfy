/** The scenarios of the normalization rule's unit tests, stated over the model. */
module RuleScenarios {
  import opened Wrappers
  import opened Paths
  import opened LiteralPattern
  import opened Regex
  import opened NormalizerRule

  /** A source starting with `^` other than `^$` is left to the host engine. */
  lemma AnchoredByHost(re: Regex)
    requires |re.source| > 2 && re.source[0] == '^'
    ensures !Interpreted(re)
  {
    assert !IsLiteral(re.source) by { assert re.source[0] == META[1]; }
  }

  /**
   * With a pattern left to the host, a segment is rewritten exactly when the
   * host matches it and it is not empty.
   */
  lemma HostSegments(host: Host, rule: Rule, parts: seq<string>, out: seq<string>)
    requires !Interpreted(rule.pattern) && |parts| == |out|
    requires forall i :: 0 <= i < |parts| ==>
               if parts[i] != "" && host.test(rule.pattern, parts[i])
               then out[i] == host.replace(rule.pattern, parts[i], rule.replacement)
               else out[i] == parts[i]
    ensures RewriteEach(host, rule, parts) == out
  {
    forall i | 0 <= i < |parts| ensures RewriteSegment(host, rule, parts[i]) == out[i] {
      HostDecides(host, rule.pattern, parts[i], rule.replacement);
    }
  }

  /** A name built from such segments is rewritten segment by segment. */
  lemma HostJoined(host: Host, rule: Rule, parts: seq<string>, out: seq<string>, name: string, result: string)
    requires rule.eachSegment && !Interpreted(rule.pattern)
    requires |parts| == |out| >= 1 && name == Join(parts) && result == Join(out)
    requires forall i :: 0 <= i < |parts| ==> NoSeparator(parts[i])
    requires forall i :: 0 <= i < |parts| ==>
               if parts[i] != "" && host.test(rule.pattern, parts[i])
               then out[i] == host.replace(rule.pattern, parts[i], rule.replacement)
               else out[i] == parts[i]
    ensures Apply(host, rule, name) == result
  {
    ApplyToJoined(host, rule, parts);
    HostSegments(host, rule, parts, out);
  }

  /** A name built from such segments matches exactly when the host matches one of them. */
  lemma HostJoinedMatches(host: Host, rule: Rule, parts: seq<string>, name: string)
    requires rule.eachSegment && !Interpreted(rule.pattern)
    requires |parts| >= 1 && name == Join(parts)
    requires forall i :: 0 <= i < |parts| ==> NoSeparator(parts[i])
    ensures Matches(host, rule, name) <==> exists i :: 0 <= i < |parts| && host.test(rule.pattern, parts[i])
  {
    SplitJoin(parts);
    forall i | 0 <= i < |parts| ensures Test(host, rule.pattern, parts[i]) == host.test(rule.pattern, parts[i]) {
      HostDecides(host, rule.pattern, parts[i], rule.replacement);
    }
  }

  /** Such a name matches when the host matches one of its segments. */
  lemma HostSegmentMatches(host: Host, rule: Rule, parts: seq<string>, name: string, k: nat)
    requires rule.eachSegment && !Interpreted(rule.pattern)
    requires k < |parts| && name == Join(parts)
    requires forall i :: 0 <= i < |parts| ==> NoSeparator(parts[i])
    requires host.test(rule.pattern, parts[k])
    ensures Matches(host, rule, name)
  {
    HostJoinedMatches(host, rule, parts, name);
  }

  lemma JoinThree(p: seq<string>)
    requires |p| == 3
    ensures Join(p) == p[0] + "/" + (p[1] + "/" + p[2])
  {
    assert p == [p[0]] + p[1..] && p[1..] == [p[1]] + [p[2]];
    JoinCons(p[0], p[1..]);
    JoinCons(p[1], [p[2]]);
  }

  // ---------------------------------------------------------------------------
  // A terminal rule with a back-reference template

  const NOTHING: string := "^(test_match_nothing)$"

  function SimpleSpec(): RuleSpec {
    RuleSpec(Some(Source(NOTHING)), Some("\\1"), Some(false), Some(0), Some(true), Some(false), Some(false))
  }

  /** Its flags are copied and `\1` becomes `$1`. */
  lemma SimpleSpecRule(host: Host)
    requires host.compiles(NOTHING)
    ensures NewRule(host, SimpleSpec()) == Rule(Regex(NOTHING, "i"), "$1", 0, true, false, false, false)
  {
  }

  /** A source text that does not compile still gives a rule, and it matches the empty name. */
  lemma MalformedPatternMatchesEmpty(host: Host)
    requires !host.compiles("$[ad^")
    ensures Matches(host, NewRule(host, EmptySpec().(matchExpression := Some(Source("$[ad^")))), "")
  {
    var spec := EmptySpec().(matchExpression := Some(Source("$[ad^")));
    assert !IsLiteral("$[ad^") by { assert "$[ad^"[0] == META[2]; }
    FallbackMatchesEverything(host, spec, "");
  }

  // ---------------------------------------------------------------------------
  // Negative look-ahead patterns applied to each segment

  const SAXON: string := "^(?!account|application).*"

  function SaxonSpec(): RuleSpec {
    EmptySpec().(eachSegment := Some(true), matchExpression := Some(Source(SAXON)), replacement := Some("*"))
  }

  function SaxonRule(): Rule {
    Rule(Regex(SAXON, "i"), "*", 0, false, true, false, false)
  }

  /** The record gives an each-segment rule with template `*` and every other field at its default. */
  lemma SaxonRuleBuilt(host: Host)
    requires host.compiles(SAXON)
    ensures NewRule(host, SaxonSpec()) == SaxonRule()
  {
    NoBackReferenceVerbatim("*");
  }

  /** What the host engine does with the look-ahead pattern on the segments at hand. */
  predicate SaxonEngine(host: Host, re: Regex) {
    && !host.test(re, "account") && !host.test(re, "application")
    && host.test(re, "myacc") && host.replace(re, "myacc", "*") == "*"
    && host.test(re, "test") && host.replace(re, "test", "*") == "*"
    && host.test(re, "oh") && host.replace(re, "oh", "*") == "*"
    && host.test(re, "dude") && host.replace(re, "dude", "*") == "*"
  }

  /** A segment the host matches is replaced by `*`. */
  lemma SaxonStars(host: Host, rule: Rule, seg: string)
    requires rule == SaxonRule() && SaxonEngine(host, rule.pattern)
    requires seg == "myacc" || seg == "test" || seg == "oh" || seg == "dude"
    ensures RewriteSegment(host, rule, seg) == "*"
  {
    AnchoredByHost(rule.pattern);
    HostDecides(host, rule.pattern, seg, rule.replacement);
  }

  /** A segment the look-ahead excludes is kept. */
  lemma SaxonKeeps(host: Host, rule: Rule, seg: string)
    requires rule == SaxonRule() && SaxonEngine(host, rule.pattern)
    requires seg == "account" || seg == "application"
    ensures RewriteSegment(host, rule, seg) == seg
  {
    AnchoredByHost(rule.pattern);
    HostDecides(host, rule.pattern, seg, rule.replacement);
  }

  /** A name of four segments after a leading `/` is rewritten segment by segment. */
  lemma ApplyFour(host: Host, rule: Rule, a: string, b: string, c: string, d: string, name: string,
                  a': string, b': string, c': string, d': string, result: string)
    requires rule.eachSegment && NoSeparator(a) && NoSeparator(b) && NoSeparator(c) && NoSeparator(d)
    requires a' == RewriteSegment(host, rule, a) && b' == RewriteSegment(host, rule, b)
    requires c' == RewriteSegment(host, rule, c) && d' == RewriteSegment(host, rule, d)
    requires name == "/" + (a + "/" + (b + "/" + (c + "/" + d)))
    requires result == "/" + (a' + "/" + (b' + "/" + (c' + "/" + d')))
    ensures Apply(host, rule, name) == result
  {
    ApplySegment(host, rule, d);
    ApplyCons(host, rule, c, d);
    ApplyCons(host, rule, b, c + "/" + d);
    ApplyCons(host, rule, a, b + "/" + (c + "/" + d));
    ApplyCons(host, rule, "", a + "/" + (b + "/" + (c + "/" + d)));
    assert "" + "/" + (a + "/" + (b + "/" + (c + "/" + d))) == name;
  }

  /** A name of five segments after a leading `/` is rewritten segment by segment. */
  lemma ApplyFive(host: Host, rule: Rule, a: string, b: string, c: string, d: string, e: string, name: string,
                  a': string, b': string, c': string, d': string, e': string, result: string)
    requires rule.eachSegment && NoSeparator(a) && NoSeparator(b) && NoSeparator(c) && NoSeparator(d) && NoSeparator(e)
    requires a' == RewriteSegment(host, rule, a) && b' == RewriteSegment(host, rule, b)
    requires c' == RewriteSegment(host, rule, c) && d' == RewriteSegment(host, rule, d)
    requires e' == RewriteSegment(host, rule, e)
    requires name == "/" + (a + "/" + (b + "/" + (c + "/" + (d + "/" + e))))
    requires result == "/" + (a' + "/" + (b' + "/" + (c' + "/" + (d' + "/" + e'))))
    ensures Apply(host, rule, name) == result
  {
    ApplySegment(host, rule, e);
    ApplyCons(host, rule, d, e);
    ApplyCons(host, rule, c, d + "/" + e);
    ApplyCons(host, rule, b, c + "/" + (d + "/" + e));
    ApplyCons(host, rule, a, b + "/" + (c + "/" + (d + "/" + e)));
    ApplyCons(host, rule, "", a + "/" + (b + "/" + (c + "/" + (d + "/" + e))));
    assert "" + "/" + (a + "/" + (b + "/" + (c + "/" + (d + "/" + e)))) == name;
  }

  /** None of the words of the look-ahead scenarios holds a `/`. */
  lemma SaxonWordsPlain()
    ensures NoSeparator("account") && NoSeparator("myacc") && NoSeparator("application") && NoSeparator("test")
    ensures NoSeparator("oh") && NoSeparator("dude")
  {
  }

  lemma SaxonAccountName(name: string)
    requires name == "/account/myacc/application/test"
    ensures name == "/" + ("account" + "/" + ("myacc" + "/" + ("application" + "/" + "test")))
  {
  }

  lemma SaxonAccountResult(result: string)
    requires result == "/account/*/application/*"
    ensures result == "/" + ("account" + "/" + ("*" + "/" + ("application" + "/" + "*")))
  {
  }

  // `/account/myacc/application/test` becomes `/account/*/application/*`.
  lemma SaxonAccountFirst(host: Host, rule: Rule, name: string)
    requires rule == SaxonRule() && SaxonEngine(host, rule.pattern)
    requires name == "/account/myacc/application/test"
    ensures Apply(host, rule, name) == "/account/*/application/*"
  {
    SaxonKeeps(host, rule, "account");
    SaxonStars(host, rule, "myacc");
    SaxonKeeps(host, rule, "application");
    SaxonStars(host, rule, "test");
    SaxonWordsPlain();
    SaxonAccountName(name);
    SaxonAccountResult("/account/*/application/*");
    ApplyFour(host, rule, "account", "myacc", "application", "test", name,
              "account", "*", "application", "*", "/account/*/application/*");
  }

  lemma SaxonLeadingName(name: string)
    requires name == "/oh/dude/account/myacc/application"
    ensures name == "/" + ("oh" + "/" + ("dude" + "/" + ("account" + "/" + ("myacc" + "/" + "application"))))
  {
  }

  lemma SaxonLeadingResult(result: string)
    requires result == "/*/*/account/*/application"
    ensures result == "/" + ("*" + "/" + ("*" + "/" + ("account" + "/" + ("*" + "/" + "application"))))
  {
  }

  lemma SaxonLeadingRewrites(host: Host, rule: Rule)
    requires rule == SaxonRule() && SaxonEngine(host, rule.pattern)
    ensures RewriteSegment(host, rule, "oh") == "*" && RewriteSegment(host, rule, "dude") == "*"
    ensures RewriteSegment(host, rule, "account") == "account" && RewriteSegment(host, rule, "myacc") == "*"
    ensures RewriteSegment(host, rule, "application") == "application"
  {
    SaxonStars(host, rule, "oh");
    SaxonStars(host, rule, "dude");
    SaxonKeeps(host, rule, "account");
    SaxonStars(host, rule, "myacc");
    SaxonKeeps(host, rule, "application");
  }

  // `/oh/dude/account/myacc/application` becomes `/*/*/account/*/application`.
  lemma SaxonLeadingSegments(host: Host, rule: Rule, name: string)
    requires rule == SaxonRule() && SaxonEngine(host, rule.pattern)
    requires name == "/oh/dude/account/myacc/application"
    ensures Apply(host, rule, name) == "/*/*/account/*/application"
  {
    SaxonLeadingRewrites(host, rule);
    SaxonWordsPlain();
    SaxonLeadingName(name);
    SaxonLeadingResult("/*/*/account/*/application");
    ApplyFive(host, rule, "oh", "dude", "account", "myacc", "application", name,
              "*", "*", "account", "*", "application", "/*/*/account/*/application");
  }

  /** The second look-ahead source: a negative look-ahead over eleven section names. */
  const SECTIONS: string := "^(?!" + "channel|download|popups|search|tap|user|related|admin|api|genres|notification" + ").*"

  function SectionsSpec(): RuleSpec {
    EmptySpec().(eachSegment := Some(true), matchExpression := Some(Source(SECTIONS)), replacement := Some("*"))
  }

  function SectionsRule(): Rule {
    Rule(Regex(SECTIONS, "i"), "*", 0, false, true, false, false)
  }

  lemma SectionsRuleBuilt(host: Host)
    requires host.compiles(SECTIONS)
    ensures NewRule(host, SectionsSpec()) == SectionsRule()
  {
    NoBackReferenceVerbatim("*");
  }

  /** What the host engine does with the second look-ahead pattern on the segments at hand. */
  predicate SectionsEngine(host: Host, re: Regex) {
    && !host.test(re, "tap") && !host.test(re, "user")
    && host.test(re, "stuff") && host.replace(re, "stuff", "*") == "*"
    && host.test(re, "gfy77t") && host.replace(re, "gfy77t", "*") == "*"
    && host.test(re, "view") && host.replace(re, "view", "*") == "*"
  }

  lemma SectionsRewrites(host: Host, rule: Rule)
    requires rule == SectionsRule() && SectionsEngine(host, rule.pattern)
    ensures RewriteSegment(host, rule, "tap") == "tap" && RewriteSegment(host, rule, "stuff") == "*"
    ensures RewriteSegment(host, rule, "user") == "user" && RewriteSegment(host, rule, "gfy77t") == "*"
    ensures RewriteSegment(host, rule, "view") == "*"
  {
    assert SECTIONS[0] == '^';
    AnchoredByHost(rule.pattern);
    HostDecides(host, rule.pattern, "tap", rule.replacement);
    HostDecides(host, rule.pattern, "stuff", rule.replacement);
    HostDecides(host, rule.pattern, "user", rule.replacement);
    HostDecides(host, rule.pattern, "gfy77t", rule.replacement);
    HostDecides(host, rule.pattern, "view", rule.replacement);
  }

  lemma SectionsWordsPlain()
    ensures NoSeparator("tap") && NoSeparator("stuff") && NoSeparator("user") && NoSeparator("gfy77t")
    ensures NoSeparator("view")
  {
  }

  lemma SectionsName(name: string)
    requires name == "/tap/stuff/user/gfy77t/view"
    ensures name == "/" + ("tap" + "/" + ("stuff" + "/" + ("user" + "/" + ("gfy77t" + "/" + "view"))))
  {
  }

  lemma SectionsResult(result: string)
    requires result == "/tap/*/user/*/*"
    ensures result == "/" + ("tap" + "/" + ("*" + "/" + ("user" + "/" + ("*" + "/" + "*"))))
  {
  }

  // `/tap/stuff/user/gfy77t/view` becomes `/tap/*/user/*/*`.
  lemma SectionsKept(host: Host, rule: Rule, name: string)
    requires rule == SectionsRule() && SectionsEngine(host, rule.pattern)
    requires name == "/tap/stuff/user/gfy77t/view"
    ensures Apply(host, rule, name) == "/tap/*/user/*/*"
  {
    SectionsRewrites(host, rule);
    SectionsWordsPlain();
    SectionsName(name);
    SectionsResult("/tap/*/user/*/*");
    ApplyFive(host, rule, "tap", "stuff", "user", "gfy77t", "view", name,
              "tap", "*", "user", "*", "*", "/tap/*/user/*/*");
  }

  // ---------------------------------------------------------------------------
  // A non-terminal rule with precedence 1 applied to each segment

  const HEX_ID: string := "^[0-9][0-9a-f_,.-]*$"

  function HexIdSpec(): RuleSpec {
    RuleSpec(Some(Source(HEX_ID)), Some("*"), Some(true), Some(1), Some(false), Some(false), Some(false))
  }

  function HexIdRule(): Rule {
    Rule(Regex(HEX_ID, "i"), "*", 1, false, true, false, false)
  }

  /** Its flags are copied and the template `*` is kept. */
  lemma HexIdRuleBuilt(host: Host)
    requires host.compiles(HEX_ID)
    ensures NewRule(host, HexIdSpec()) == HexIdRule()
  {
    NoBackReferenceVerbatim("*");
  }

  /** A name of three separator-free segments. */
  lemma ThreeSegments(parts: seq<string>, name: string)
    requires |parts| == 3 && name == parts[0] + "/" + (parts[1] + "/" + parts[2])
    requires forall i :: 0 <= i < 3 ==> NoSeparator(parts[i])
    ensures name == Join(parts)
  {
    JoinThree(parts);
  }

  lemma HexIdNames(parts: seq<string>, out: seq<string>, name: string, result: string)
    requires parts == ["", "00dead_beef_00,b", "hamburt"] && out == ["", "*", "hamburt"]
    requires name == "/00dead_beef_00,b/hamburt" && result == "/*/hamburt"
    ensures name == Join(parts) && result == Join(out)
    ensures forall i :: 0 <= i < |parts| ==> NoSeparator(parts[i])
  {
    ThreeSegments(parts, name);
    ThreeSegments(out, result);
  }

  // `/00dead_beef_00,b/hamburt` becomes `/*/hamburt`.
  lemma HexIdApply(host: Host, rule: Rule, name: string)
    requires rule == HexIdRule()
    requires host.test(rule.pattern, "00dead_beef_00,b") && !host.test(rule.pattern, "hamburt")
    requires host.replace(rule.pattern, "00dead_beef_00,b", "*") == "*"
    requires name == "/00dead_beef_00,b/hamburt"
    ensures Apply(host, rule, name) == "/*/hamburt"
  {
    var parts := ["", "00dead_beef_00,b", "hamburt"];
    var out := ["", "*", "hamburt"];
    AnchoredByHost(rule.pattern);
    HexIdNames(parts, out, name, "/*/hamburt");
    HostJoined(host, rule, parts, out, name, "/*/hamburt");
  }

  /** The rule matches a name when it matches one of its segments. */
  lemma HexIdMatchesSegment(host: Host, rule: Rule, name: string)
    requires rule == HexIdRule()
    requires host.test(rule.pattern, "00dead_beef_00,b")
    requires name == "/00dead_beef_00,b/hamburt"
    ensures Matches(host, rule, name)
  {
    var parts := ["", "00dead_beef_00,b", "hamburt"];
    AnchoredByHost(rule.pattern);
    HexIdNames(parts, ["", "*", "hamburt"], name, "/*/hamburt");
    HostSegmentMatches(host, rule, parts, name, 1);
  }

  /** The rule does not match a name when it matches none of its segments. */
  lemma HexIdMissesEverySegment(host: Host, rule: Rule, name: string)
    requires rule == HexIdRule()
    requires forall seg :: seg in ["", "00 dead dad", "nomatch"] ==> !host.test(rule.pattern, seg)
    requires name == "/00 dead dad/nomatch"
    ensures !Matches(host, rule, name)
  {
    var parts := ["", "00 dead dad", "nomatch"];
    AnchoredByHost(rule.pattern);
    ThreeSegments(parts, name);
    HostJoinedMatches(host, rule, parts, name);
    assert forall i :: 0 <= i < |parts| ==> parts[i] in ["", "00 dead dad", "nomatch"];
  }

  // ---------------------------------------------------------------------------
  // Replacing every occurrence of a literal pattern

  function TripleXSpec(): RuleSpec {
    RuleSpec(Some(Source("xXx")), Some("y"), Some(false), Some(0), Some(false), Some(true), Some(false))
  }

  /** The pattern of a replace-all rule is global. */
  lemma TripleXGlobal(host: Host)
    ensures NewRule(host, TripleXSpec()).pattern == Regex("xXx", "ig")
  {
  }

  /** The rule's source is literal and its template is `y`. */
  lemma TripleXTemplate(host: Host)
    ensures IsLiteral("xXx") && NewRule(host, TripleXSpec()).replacement == "y"
  {
    NoBackReferenceVerbatim("y");
  }

  // `/test/xXxxXx0xXxzxxxxXx` becomes `/test/yy0yzyy`.
  lemma TripleXApply(host: Host, name: string)
    requires name == "/test/xXxxXx0xXxzxxxxXx"
    ensures Apply(host, NewRule(host, TripleXSpec()), name) == "/test/yy0yzyy"
  {
    TripleXTemplate(host);
    LiteralReplaceAll(host, TripleXSpec(), name);
    TripleXReplaced(name);
  }

  /** `xXx` occurs at `k`, ignoring case, exactly when the three characters there fold to `x`. */
  lemma TripleXAt(s: string, k: nat)
    requires k + 3 <= |s|
    ensures OccursAt(s, "xXx", k, true) <==> Fold(s[k]) == 'x' && Fold(s[k + 1]) == 'x' && Fold(s[k + 2]) == 'x'
  {
    StartsWithPointwise(s[k..], "xXx", true);
    assert s[k..][0] == s[k] && s[k..][1] == s[k + 1] && s[k..][2] == s[k + 2];
  }

  const TRIPLE_X_INPUT: string := "/test/xXxxXx0xXxzxxxxXx"

  /** One occurrence replaced by `y`, the scan resuming after it. */
  lemma TripleXMatch(s: string, k: nat)
    requires k + 3 <= |s| && Fold(s[k]) == 'x' && Fold(s[k + 1]) == 'x' && Fold(s[k + 2]) == 'x'
    ensures ReplaceAllFrom(s, "xXx", "y", true, k) == "y" + ReplaceAllFrom(s, "xXx", "y", true, k + 3)
  {
    TripleXAt(s, k);
    MatchStep(s, "xXx", "y", true, k);
    ExpandPlain("y", s, k, k + 3);
  }

  /** One character that does not start an occurrence is copied. */
  lemma TripleXCopy(s: string, k: nat)
    requires k + 3 <= |s| && Fold(s[k]) != 'x'
    ensures ReplaceAllFrom(s, "xXx", "y", true, k) == [s[k]] + ReplaceAllFrom(s, "xXx", "y", true, k + 1)
  {
    TripleXAt(s, k);
    ReplaceAllFromStep(s, "xXx", "y", true, k);
  }

  /** What the scan needs to know of the input: where the characters folding to `x` are. */
  predicate TripleXShape(s: string) {
    |s| == 23 && s[..6] == "/test/" && s[12] == '0' && s[16] == 'z' &&
    (forall j :: 6 <= j < 12 ==> Fold(s[j]) == 'x') &&
    (forall j :: 13 <= j < 16 ==> Fold(s[j]) == 'x') &&
    (forall j :: 17 <= j < 23 ==> Fold(s[j]) == 'x')
  }

  lemma TripleXInputShape(s: string)
    requires s == TRIPLE_X_INPUT
    ensures TripleXShape(s)
  {
  }

  /** The scan from index 17 on: `xxx` and `xXx` both become `y`. */
  lemma TripleXFrom17(s: string)
    requires TripleXShape(s)
    ensures ReplaceAllFrom(s, "xXx", "y", true, 17) == "yy"
  {
    ReplaceAllFromStep(s, "xXx", "y", true, 23);
    TripleXMatch(s, 20);
    TripleXMatch(s, 17);
  }

  /** The scan from index 12 on: `0`, `xXx`, `z`, and the rest. */
  lemma TripleXFrom12(s: string)
    requires TripleXShape(s)
    ensures ReplaceAllFrom(s, "xXx", "y", true, 12) == "0yzyy"
  {
    TripleXFrom17(s);
    TripleXCopy(s, 16);
    TripleXMatch(s, 13);
    TripleXCopy(s, 12);
  }

  /** The scan from index 6 on: two adjacent occurrences, then the rest. */
  lemma TripleXFrom6(s: string)
    requires TripleXShape(s)
    ensures ReplaceAllFrom(s, "xXx", "y", true, 6) == "yy0yzyy"
  {
    TripleXFrom12(s);
    TripleXMatch(s, 9);
    TripleXMatch(s, 6);
  }

  lemma TripleXReplaced(s: string)
    requires s == TRIPLE_X_INPUT
    ensures ReplaceAll(s, "xXx", "y", true) == "/test/yy0yzyy"
  {
    TripleXInputShape(s);
    TripleXPrefix(s);
  }

  /** The scan copies `/test/`, where nothing folds to `x`, and goes on from index 6. */
  lemma TripleXPrefix(s: string)
    requires TripleXShape(s)
    ensures ReplaceAll(s, "xXx", "y", true) == "/test/yy0yzyy"
  {
    TripleXFrom6(s);
    forall j | 0 <= j < 6 ensures !OccursAt(s, "xXx", j, true) {
      assert s[j] == s[..6][j];
      TripleXAt(s, j);
    }
    CopyRun(s, "xXx", "y", true, 0, 6);
    assert s[0..6] == "/test/";
  }

  // ---------------------------------------------------------------------------
  // Merging the flags of a compiled pattern

  function CompiledSpec(given: Regex): RuleSpec {
    RuleSpec(Some(Compiled(given)), Some("y"), Some(false), Some(0), Some(false), Some(true), Some(false))
  }

  /** `/foo/m` keeps its multiline flag and gains the case-insensitive and global flags. */
  lemma MultilineKept(host: Host)
    ensures var re := NewRule(host, CompiledSpec(Regex("foo", "m"))).pattern;
            re.IgnoreCase() && re.Multiline() && re.Global()
  {
  }

  /** `/foo/gi` already has both modifiers, and none is given twice. */
  lemma DuplicateFlagsMerged(host: Host)
    ensures NewRule(host, CompiledSpec(Regex("foo", "gi"))).pattern == Regex("foo", "gi")
  {
    MergePresentFlags("gi", Modifiers(true));
  }

  /**
   * `/foo/y` matches only where the previous match ended, so the rule it
   * gives is matched and applied by the host engine, not as a literal.
   */
  lemma StickyLeftToHost(host: Host, name: string)
    ensures var r := NewRule(host, CompiledSpec(Regex("foo", "y")));
            r.pattern.Sticky() &&
            Matches(host, r, name) == host.test(r.pattern, name) &&
            Apply(host, r, name) ==
              (if name != "" && host.test(r.pattern, name) then host.replace(r.pattern, name, "y") else name)
  {
    var r := NewRule(host, CompiledSpec(Regex("foo", "y")));
    assert 'y' in r.pattern.flags by { assert "y" <= r.pattern.flags; }
    NoBackReferenceVerbatim("y");
    HostDecides(host, r.pattern, name, r.replacement);
  }
}
