# Attribute store and metric-name normalization rule

A Dafny model of two parts of an application-performance-monitoring agent, stated
against the unit tests that pin them down (the implementations those tests exercise,
`lib/attributes.js` and `lib/metrics/normalizer/rule.js`, are not part of this model):

- **The attribute store** (`AttributeStore.Attributes`): a per-scope table from keys to
  a primitive value and a destination mask. A write is silently dropped when the value
  is not a string, number or boolean, when the key is longer than 255 UTF-8 bytes, or
  when the key is new and the store already holds `limit` keys. Writing an existing key
  replaces its entry without taking another slot. `get(mask)` builds a fresh map of the
  entries whose mask shares a flag with `mask`, with string values cut to 255 bytes.
  `hasValidDestination` asks the scope's attribute filter whether any requested
  destination lets the key through. `reset` empties the store. The class keeps the map
  as a field that its methods reassign. Its invariant `Valid()` holds throughout: at
  most `limit` keys, and every key short enough. Each method is tied to a pure
  function (`Added`, `AddedAll`, `Visible`) whose properties are proved as lemmas.
- **The normalization rule** (`NormalizerRule`):
  - A rule is a value built by `NewRule` from the collector's rule record. Every field
    of the record is optional: a missing field takes its default.
  - The pattern always gets the case-insensitive flag. It also gets the global flag
    for replace-all rules.
  - A compiled pattern keeps its own flags and gains the missing ones, never twice.
  - A source that does not compile falls back to a pattern that matches everything.
  - The replacement template has its back-references `\n` rewritten to `$n`. The
    default template is `$0`.
  - `Matches` tests the pattern against the name, or against each `/`-separated
    segment in each-segment mode.
  - `Apply` rewrites a non-empty name as a whole, or splits it on `/`, rewrites each
    non-empty segment the pattern matches, and joins the segments back.

Regular expressions are modelled in `Regex`:

- A source with no metacharacter matches its text literally, with ASCII case folding
  under the `i` flag.
- The source `^$` without the multiline flag matches only the empty string.
- A sticky pattern (flag `y`) matches only where the previous match ended, so it is
  never read as a literal.
- Sticky patterns and every other source (look-aheads, anchored character classes)
  are handed to an abstract host engine. The engine is a parameter `Host` of its
  compiler, matcher and replacer.

The scenarios of the unit tests are proved in `AttributeScenarios` and `RuleScenarios`.
A scenario whose pattern needs the host engine states what the engine does on the
segments at hand as a precondition.

Two behaviours the tests leave open, and the choice the model makes for each:

- **Limit on overwrites.** No test writes an existing key into a full store, and the
  overwrite test (`test/unit/attributes.test.js:129-137`) never fills its store. The
  model counts the limit against new keys only: a new key is dropped when the store
  already holds `limit` keys, and an existing key is overwritten whether or not the
  store is full.
- **Default limit.** The tests build stores without a limit and keep at most three
  keys in them, so they do not fix a number. The model makes such a store `Unlimited`.
- **Empty name.** No test applies a rule to the empty name. The segment test skips
  empty segments (`test/unit/metric/normalizer-rule.test.js:89-95`), and the model
  applies the same skip to the whole name: an empty name is never rewritten, in either
  mode, even by a pattern that matches it.

## Model

| member | source | states |
|---|---|---|
| AttributeStore.Attributes.constructor | test/unit/attributes.test.js:83 | a new store holds nothing, keeps the given scope, limit and filter, and satisfies the store invariant |
| AttributeStore.Attributes.AddAttribute | test/unit/attributes.test.js:30-55 | an accepted write stores the primitive value and the mask under the key and changes nothing else; a refused write (non-primitive value, key over 255 bytes, new key in a full store) leaves the store as it was; the invariant is kept |
| AttributeStore.Attributes.AddAttributes | test/unit/attributes.test.js:71-127 | the loop applies the single write to each pair in order: the new store is `AddedAll` of the old one, and the invariant is kept |
| AttributeStore.Attributes.Get | test/unit/attributes.test.js:156-178 | the result holds exactly the keys whose mask overlaps the requested one, each with its value as read back (strings cut to 255 bytes) |
| AttributeStore.Attributes.HasValidDestination | test/unit/attributes.test.js:209-250 | true exactly when some requested destination lets the key pass the filter |
| AttributeStore.Attributes.Reset | test/unit/attributes.test.js:266-277 | the store is empty afterwards and the invariant holds |
| AttributeStore.Added | test/unit/attributes.test.js:30-55 | specification function of one write, without a contract of its own: the store with the key set to the primitive value and the mask when the write is accepted, the store unchanged otherwise; its properties are the lemmas `AddedBounded` to `FullStoreRefusesNewKey` |
| AttributeStore.AddedAll | test/unit/attributes.test.js:71-127 | specification function of a batch of writes, without a contract of its own: the single write applied pair by pair, in order; its properties are the lemmas `AddedAllSnoc` to `FirstArrivedWin` |
| AttributeStore.Visible | test/unit/attributes.test.js:156-178 | specification function of a read, without a contract of its own: the keys whose mask meets the request, each with its value as read back; its properties are `AddThenGet`, `GetSkipsOtherDestinations`, `VisibleHidden`, `VisibleSingle`, `VisibleUnderOneMask` and `EmptyShowsNothing` |
| AttributeStore.ReadBack | test/unit/attributes.test.js:170-175 | specification function, without a contract of its own: a string value is truncated to 255 UTF-8 bytes and any other value is returned as it is; `ReadBackShape` and `LongAsciiValueCut` state what that gives |
| AttributeStore.AddedBounded | test/unit/attributes.test.js:112-124 | a write keeps the store within its limit with every key short enough |
| AttributeStore.AddedOthersUnchanged | test/unit/attributes.test.js:30-35 | a write changes no key other than the one written |
| AttributeStore.AddThenGet | test/unit/attributes.test.js:30-35 | an accepted write is read back under any overlapping mask with its read-back value |
| AttributeStore.LongKeyDropped | test/unit/attributes.test.js:40-52 | a key over 255 UTF-8 bytes is never stored |
| AttributeStore.NonPrimitiveDropped | test/unit/attributes.test.js:82-107 | arrays, objects, `undefined`, `null`, symbols and functions are never stored |
| AttributeStore.Overwrite | test/unit/attributes.test.js:129-137 | writing an existing key keeps the key set and replaces the entry with the new value and mask |
| AttributeStore.FullStoreRefusesNewKey | test/unit/attributes.test.js:112-124 | a store holding `n` keys with limit `n` refuses any new key |
| AttributeStore.AddedAllSnoc | test/unit/attributes.test.js:71-80 | writing one more pair continues from the store the earlier pairs left |
| AttributeStore.AddedAllBounded | test/unit/attributes.test.js:112-124 | any sequence of writes keeps the limit and the key budget |
| AttributeStore.AddedAllOrigin | test/unit/attributes.test.js:82-107 | every key after a sequence of writes was there before or came from a pair with a short key and a primitive value |
| AttributeStore.AddedAllMask | test/unit/attributes.test.js:96-98 | writes under one mask into an empty store leave every entry under that mask |
| AttributeStore.StorableKeysConcat | test/unit/attributes.test.js:84-94 | the storable keys of two runs of pairs are the union of each run's |
| AttributeStore.OnlyStorableKept | test/unit/attributes.test.js:82-107 | with room for every pair and distinct keys, exactly the pairs with a short key and a primitive value are stored |
| AttributeStore.StorableStep | test/unit/attributes.test.js:82-107 | one more pair with a new key, written while there is room, adds its key exactly when the pair is storable |
| AttributeStore.KeptStep | test/unit/attributes.test.js:112-124 | one more new storable key grows the store by that key while there is room, and is dropped otherwise |
| AttributeStore.FirstArrivedWin | test/unit/attributes.test.js:112-124 | distinct storable keys written into an empty store: the store holds `min(limit, count)` keys, and they are exactly the earliest ones |
| AttributeStore.GetSkipsOtherDestinations | test/unit/attributes.test.js:168-172 | an entry whose mask shares no flag with the request is not returned |
| AttributeStore.ReadBackShape | test/unit/attributes.test.js:156-176 | numbers and booleans come back unchanged; a string comes back as a prefix of at most 255 bytes, unchanged when it fits |
| AttributeStore.LongAsciiValueCut | test/unit/attributes.test.js:170-175 | an ASCII string over 255 bytes comes back exactly 255 bytes long |
| AttributeStore.VisibleHidden | test/unit/attributes.test.js:168-173 | adding an entry whose mask misses the request does not change what is read |
| AttributeStore.VisibleSingle | test/unit/attributes.test.js:166-173 | a single entry is read back exactly when its mask meets the request |
| AttributeStore.VisibleUnderOneMask | test/unit/attributes.test.js:112-124 | when every entry is under one non-empty mask, a read through that mask shows every key of the store |
| AttributeStore.EmptyShowsNothing | test/unit/attributes.test.js:266-274 | an emptied store shows nothing to any destination, like a new one |
| AttributeStore.HasValidDestinationUnion | test/unit/attributes.test.js:217-224 | asking about the union of two masks gives true exactly when asking about one of them does |
| ByteLimit.ByteLength | test/unit/attributes.test.js:170 | the UTF-8 length lies between one and four bytes per character |
| ByteLimit.ByteLengthConcat | test/unit/attributes.test.js:157-163 | the byte length of a concatenation is the sum of the byte lengths |
| ByteLimit.AsciiByteLength | test/unit/attributes.test.js:170-175 | ASCII text takes one byte per character |
| ByteLimit.Truncate | test/unit/attributes.test.js:175 | the result is a prefix that fits the budget, and one more character would not fit |
| ByteLimit.TruncateFitting | test/unit/attributes.test.js:173 | a string that fits is returned unchanged |
| ByteLimit.TruncateLongest | test/unit/attributes.test.js:175 | no fitting prefix is longer than the truncation |
| ByteLimit.TruncateAsciiExact | test/unit/attributes.test.js:175 | an ASCII string over the budget is cut to exactly the budget |
| Destinations.Surviving | test/unit/attributes.test.js:209-250 | the surviving destinations are the requested ones the filter allows for the key |
| Destinations.NothingExcluded | test/unit/attributes.test.js:209-224 | with no exclusion rule, every requested destination survives |
| Destinations.OneOfTwoExcluded | test/unit/attributes.test.js:226-237 | excluding the key for one of two requested destinations, requested together as the union of their masks, leaves exactly the other |
| Destinations.GloballyExcluded | test/unit/attributes.test.js:239-250 | a globally excluded key survives no request |
| AttributeScenarios.NineKindsStorable | test/unit/attributes.test.js:84-94 | of the nine pairs of every JavaScript kind, only `first`, `fourth` and `fifth` are storable |
| AttributeScenarios.OnlyPrimitivesSurvive | test/unit/attributes.test.js:82-107 | writing the nine pairs with room for ten leaves exactly `first`, `fourth` and `fifth` readable |
| AttributeScenarios.ShownUnderMask | test/unit/attributes.test.js:112-124 | writes under one non-empty mask into an empty store are all returned by `get` through that mask |
| AttributeScenarios.LimitOfThree | test/unit/attributes.test.js:112-124 | four new keys written with a limit of three: `get` through the write mask returns three keys |
| AttributeScenarios.LimitOfTwo | test/unit/attributes.test.js:180-190 | three new keys written with a limit of two: `get` through the write mask returns two keys, and `third` is not among them |
| AttributeScenarios.RewriteSameKey | test/unit/attributes.test.js:129-137 | writing `Roboto` as 1 and then 99 reads back one entry, `Roboto` = 99 |
| AttributeScenarios.ReadByDestination | test/unit/attributes.test.js:165-175 | of a number and a long ASCII string written for destination 0 and a string written for destination 3, destination 0 reads exactly the first two: the number as 50, the string cut to 255 bytes |
| Paths.Split | test/unit/metric/normalizer-rule.test.js:89-95 | a name splits into at least one segment, none holding `/` |
| Paths.Join | test/unit/metric/normalizer-rule.test.js:89-95 | specification function, without a contract of its own: segments joined with one `/` between two neighbours; `JoinSplit`, `SplitJoin` and `JoinCons` state its relation to `Split` |
| Paths.SplitCount | test/unit/metric/normalizer-rule.test.js:89-95 | there is one more segment than there are separators |
| Paths.JoinSplit | test/unit/metric/normalizer-rule.test.js:218-220 | joining the segments of a name gives the name back |
| Paths.SplitJoin | test/unit/metric/normalizer-rule.test.js:89-95 | splitting joined separator-free segments gives the same segments, in the same positions |
| Paths.SplitSegment | test/unit/metric/normalizer-rule.test.js:89-95 | a separator-free name is a single segment |
| Paths.SplitPrefixed | test/unit/metric/normalizer-rule.test.js:89-95 | a separator-free segment followed by `/` is the first segment of the split |
| Paths.JoinCons | test/unit/metric/normalizer-rule.test.js:89-95 | joining a segment in front of others puts one `/` between them |
| LiteralPattern.StartsWithPointwise | test/unit/metric/normalizer-rule.test.js:167-180 | a case-insensitive occurrence is a character-by-character agreement after ASCII folding |
| LiteralPattern.FindFrom | test/unit/metric/normalizer-rule.test.js:167-180 | the search returns the first occurrence at or after the start, or none when there is none |
| LiteralPattern.Expand | test/unit/metric/normalizer-rule.test.js:175-180 | specification function of JavaScript's replacement template for a pattern without groups, without a contract of its own: `$$` gives `$`, `$&` the match, `` $` `` the text before it, `$'` the text after it, and anything else is copied; `ExpandPlain` states that a template without `$` is copied |
| LiteralPattern.ReplaceFirst | test/unit/metric/normalizer-rule.test.js:218-220 | specification function, without a contract of its own: the first occurrence found by `FindFrom` replaced by the expanded template; `ReplaceFirstFound`, `ReplaceFirstNoMatch` and `ReplaceAllSingle` state its behaviour |
| LiteralPattern.ReplaceAllFrom | test/unit/metric/normalizer-rule.test.js:167-180 | specification function of the left-to-right scan, without a contract of its own: a match at the scan position is replaced and the scan resumes after it, and otherwise one character is copied; `ReplaceAllFromStep`, `ReplaceAllFromFind`, `CopyRun` and `MatchStep` state its behaviour |
| LiteralPattern.ReplaceAll | test/unit/metric/normalizer-rule.test.js:167-180 | specification function, without a contract of its own: the scan from index 0, i.e. every non-overlapping occurrence replaced, left to right; `ReplaceAllNoMatch`, `FirstAndLastMatch` and `ReplaceAllSingle` state its behaviour |
| LiteralPattern.ExpandPlain | test/unit/metric/normalizer-rule.test.js:175-180 | a template without `$` is inserted as it is |
| LiteralPattern.ReplaceAllFromStep | test/unit/metric/normalizer-rule.test.js:167-180 | each step of the scan replaces a match or copies one character |
| LiteralPattern.ReplaceAllFromFind | test/unit/metric/normalizer-rule.test.js:167-180 | the scan copies everything up to the first occurrence, replaces it and continues after it; with no occurrence it copies the rest |
| LiteralPattern.CopyRun | test/unit/metric/normalizer-rule.test.js:167-180 | a stretch without occurrences is copied unchanged |
| LiteralPattern.MatchStep | test/unit/metric/normalizer-rule.test.js:167-180 | a non-empty occurrence is replaced and the scan resumes right after it, so matches never overlap |
| LiteralPattern.ReplaceAllNoMatch | test/unit/metric/normalizer-rule.test.js:218-220 | with no occurrence, replacing every occurrence changes nothing |
| LiteralPattern.ReplaceFirstNoMatch | test/unit/metric/normalizer-rule.test.js:218-220 | with no occurrence, replacing the first occurrence changes nothing |
| LiteralPattern.FirstAndLastMatch | test/unit/metric/normalizer-rule.test.js:167-180 | when nothing is found after the first match, replacing all and replacing the first agree |
| LiteralPattern.ReplaceAllSingle | test/unit/metric/normalizer-rule.test.js:167-180 | with a single non-empty occurrence, replacing all and replacing the first agree |
| Regex.Test | test/unit/metric/normalizer-rule.test.js:167-180 | a literal pattern without the sticky flag matches exactly when its text occurs somewhere in the input, ignoring ASCII case under `i` |
| Regex.Replace | test/unit/metric/normalizer-rule.test.js:167-180 | specification function of JavaScript's `replace`, without a contract of its own: a literal, non-sticky pattern replaces its first occurrence, or every occurrence when global; `^$` rewrites only the empty string; every other pattern is replaced by the host; `ReplaceWithoutMatch` and `GlobalAgreesOnSingleMatch` state its behaviour |
| Regex.HostDecides | test/unit/metric/normalizer-rule.test.js:80-95 | a pattern the model does not interpret, sticky patterns among them, is matched and replaced by the host engine |
| Regex.EmptyOnlyMatches | test/unit/metric/normalizer-rule.test.js:202-203 | `^$` without the multiline or the sticky flag matches exactly the empty string |
| Regex.MatchAllMatches | test/unit/metric/normalizer-rule.test.js:49-56 | the fallback pattern, when not sticky, matches every input |
| Regex.ReplaceWithoutMatch | test/unit/metric/normalizer-rule.test.js:218-220 | an interpreted pattern leaves an input it does not match unchanged |
| Regex.GlobalAgreesOnSingleMatch | test/unit/metric/normalizer-rule.test.js:167-180 | with one occurrence of a literal, non-sticky pattern, the global and the non-global replacement agree |
| NormalizerRule.Modifiers | test/unit/metric/normalizer-rule.test.js:223-238 | the flags always include `i`, include `g` exactly for replace-all rules, hold nothing else, and hold no flag twice |
| NormalizerRule.MergeFlags | test/unit/metric/normalizer-rule.test.js:223-259 | the merged flags start with the existing ones, hold exactly the flags of either side, and hold none twice when the existing ones did not |
| NormalizerRule.MergePresentFlags | test/unit/metric/normalizer-rule.test.js:241-259 | merging flags that are already present changes nothing |
| NormalizerRule.CompilePattern | test/unit/metric/normalizer-rule.test.js:223-259 | with no expression the source is `^$`; a source text is kept when it compiles and becomes the match-everything source when it does not; a compiled pattern keeps its source and its flags as a prefix; every asked-for modifier is among the flags, and a pattern built from text has exactly those flags |
| NormalizerRule.TranslateReplacement | test/unit/metric/normalizer-rule.test.js:66-68 | translation keeps the template's length |
| NormalizerRule.TranslateAt | test/unit/metric/normalizer-rule.test.js:66-68 | each `\` that starts a back-reference becomes `$`; every other character is kept |
| NormalizerRule.NoBackReferenceVerbatim | test/unit/metric/normalizer-rule.test.js:154-156 | a template without back-references is kept verbatim |
| NormalizerRule.NewRule | test/unit/metric/normalizer-rule.test.js:22-41 | the pattern is case-insensitive and global for replace-all rules; a source text gives flags without multiline and without duplicates, global exactly for replace-all; a compiled pattern keeps its source and multiline flag and is global when it was or when the rule replaces all |
| NormalizerRule.FieldsCopied | test/unit/metric/normalizer-rule.test.js:22-41 | each flag, the precedence and the terminal mark are copied when given and take their default (false, 0) when missing; a given template is stored translated, and a missing one is `$0` |
| NormalizerRule.PatternChosen | test/unit/metric/normalizer-rule.test.js:43-56 | the pattern of a rule: `^$` with the modifiers when no expression is given; a source text that compiles, with the modifiers; the match-everything source for one that does not; a compiled pattern with its flags followed by the missing modifiers |
| NormalizerRule.DefaultRule | test/unit/metric/normalizer-rule.test.js:183-216 | the rule of an empty record is `^$` with flag `i`, template `$0`, precedence 0, every flag off |
| NormalizerRule.FallbackMatchesEverything | test/unit/metric/normalizer-rule.test.js:49-56 | a source that does not compile gives the match-everything pattern, and the rule matches every name |
| NormalizerRule.Segments | test/unit/metric/normalizer-rule.test.js:89-95 | a rule works on at least one piece of the name |
| NormalizerRule.AnyMatch | test/unit/metric/normalizer-rule.test.js:140-144 | true exactly when the pattern matches one of the pieces |
| NormalizerRule.Matches | test/unit/metric/normalizer-rule.test.js:140-144 | outside each-segment mode, true exactly when the pattern matches the name; in each-segment mode, true exactly when it matches one of the `/`-separated segments |
| NormalizerRule.RewriteSegment | test/unit/metric/normalizer-rule.test.js:89-95 | a segment, or a whole name, comes out changed only if it is non-empty and the pattern matches it |
| NormalizerRule.RewriteEach | test/unit/metric/normalizer-rule.test.js:89-95 | as many pieces come out as went in, each rewritten on its own |
| NormalizerRule.Apply | test/unit/metric/normalizer-rule.test.js:167-180 | outside each-segment mode the name is rewritten as a whole, as one segment |
| NormalizerRule.ApplyWithoutMatch | test/unit/metric/normalizer-rule.test.js:218-220 | a name the rule does not match is returned unchanged, so a changed name is one the rule matches |
| NormalizerRule.EachSegmentShape | test/unit/metric/normalizer-rule.test.js:89-95 | in each-segment mode the result splits into the rewritten segments: same count, empty segments in the same places |
| NormalizerRule.ApplyToJoined | test/unit/metric/normalizer-rule.test.js:89-95 | a name joined from separator-free segments is rewritten segment by segment and joined back |
| NormalizerRule.ApplySegment | test/unit/metric/normalizer-rule.test.js:89-95 | in each-segment mode a name without `/` is rewritten as one segment |
| NormalizerRule.ApplyCons | test/unit/metric/normalizer-rule.test.js:89-95 | in each-segment mode the first segment is rewritten on its own and the rest after the `/` |
| NormalizerRule.DefaultRuleIdentity | test/unit/metric/normalizer-rule.test.js:218-220 | the rule of an empty record matches only the empty name and returns every name unchanged (the empty one because the empty name is never rewritten) |
| NormalizerRule.LiteralReplaceAll | test/unit/metric/normalizer-rule.test.js:167-180 | a whole-name replace-all rule with a literal pattern replaces every non-overlapping case-insensitive occurrence of a non-empty text, and of an empty text in a non-empty name |
| RuleScenarios.SimpleSpecRule | test/unit/metric/normalizer-rule.test.js:22-41 | the simple record gives a terminal rule, precedence 0, not each-segment, not replace-all, not ignoring, template `$1` |
| RuleScenarios.MalformedPatternMatchesEmpty | test/unit/metric/normalizer-rule.test.js:49-56 | the rule of the source `$[ad^`, which does not compile, matches the empty name |
| RuleScenarios.SaxonRuleBuilt | test/unit/metric/normalizer-rule.test.js:82-86 | the look-ahead record gives an each-segment rule with template `*` and every other field at its default |
| RuleScenarios.ApplyFour | test/unit/metric/normalizer-rule.test.js:89-91 | a name of four segments after a leading `/` is rewritten segment by segment |
| RuleScenarios.ApplyFive | test/unit/metric/normalizer-rule.test.js:93-95 | a name of five segments after a leading `/` is rewritten segment by segment |
| RuleScenarios.SaxonAccountFirst | test/unit/metric/normalizer-rule.test.js:89-91 | `/account/myacc/application/test` becomes `/account/*/application/*` |
| RuleScenarios.SaxonLeadingSegments | test/unit/metric/normalizer-rule.test.js:93-95 | `/oh/dude/account/myacc/application` becomes `/*/*/account/*/application` |
| RuleScenarios.SectionsRuleBuilt | test/unit/metric/normalizer-rule.test.js:98-108 | the eleven-name look-ahead record gives an each-segment rule with template `*` |
| RuleScenarios.SectionsKept | test/unit/metric/normalizer-rule.test.js:110-112 | `/tap/stuff/user/gfy77t/view` becomes `/tap/*/user/*/*` |
| RuleScenarios.HexIdRuleBuilt | test/unit/metric/normalizer-rule.test.js:119-159 | the record gives a non-terminal each-segment rule of precedence 1 with template `*`, not replace-all, not ignoring |
| RuleScenarios.HostJoined | test/unit/metric/normalizer-rule.test.js:162-164 | with a host-engine pattern, a joined name is rewritten exactly in the non-empty segments the host matches |
| RuleScenarios.HostJoinedMatches | test/unit/metric/normalizer-rule.test.js:140-144 | with a host-engine pattern, a joined name matches exactly when the host matches one of its segments |
| RuleScenarios.HostSegmentMatches | test/unit/metric/normalizer-rule.test.js:141 | with a host-engine pattern, a joined name matches when the host matches any one of its segments |
| RuleScenarios.HexIdApply | test/unit/metric/normalizer-rule.test.js:162-164 | `/00dead_beef_00,b/hamburt` becomes `/*/hamburt` |
| RuleScenarios.HexIdMatchesSegment | test/unit/metric/normalizer-rule.test.js:141 | the name matches because its segment `00dead_beef_00,b` does |
| RuleScenarios.HexIdMissesEverySegment | test/unit/metric/normalizer-rule.test.js:143 | `/00 dead dad/nomatch` does not match when none of its segments does |
| RuleScenarios.TripleXGlobal | test/unit/metric/normalizer-rule.test.js:167-179 | the replace-all record gives the pattern `xXx` with flags `i` and `g` |
| RuleScenarios.TripleXAt | test/unit/metric/normalizer-rule.test.js:167-180 | `xXx` occurs case-insensitively at a position exactly when the three characters there fold to `x` |
| RuleScenarios.TripleXReplaced | test/unit/metric/normalizer-rule.test.js:180 | replacing every `xXx` in `/test/xXxxXx0xXxzxxxxXx` by `y`, ignoring case, gives `/test/yy0yzyy` |
| RuleScenarios.TripleXApply | test/unit/metric/normalizer-rule.test.js:167-180 | the replace-all rule turns `/test/xXxxXx0xXxzxxxxXx` into `/test/yy0yzyy` |
| RuleScenarios.MultilineKept | test/unit/metric/normalizer-rule.test.js:224-238 | `/foo/m` in a replace-all rule is case-insensitive, multiline and global |
| RuleScenarios.DuplicateFlagsMerged | test/unit/metric/normalizer-rule.test.js:241-259 | `/foo/gi` in a replace-all rule keeps exactly the flags `gi`: case-insensitive, global, not multiline, none twice |
| RuleScenarios.StickyLeftToHost | test/unit/metric/normalizer-rule.test.js:223-259 | the rule built from the sticky pattern `/foo/y` is sticky, and is matched and applied by the host engine on the whole name, not as a literal |

## Left out

- Regular-expression semantics beyond literal sources and `^$` are not modelled. Look-aheads, anchors and character classes go to the abstract host engine. The scenarios that use them (`^(?!account|application).*`, the eleven-name look-ahead, `^[0-9][0-9a-f_,.-]*$`) take the engine's answers on their segments as preconditions.
- The matches and the apply of the simple terminal rule (test/unit/metric/normalizer-rule.test.js:43-47, 74-76) are not modelled as scenarios. They depend only on what the host engine does with `^(test_match_nothing)$` and a `$1` group reference.
- The single-segment miss `a test_match_nothing` of the hexadecimal rule (test/unit/metric/normalizer-rule.test.js:142) is not modelled as a scenario, for the same reason.
- Capture groups in templates are not modelled: `Expand` knows `$$`, `$&`, `` $` `` and `$'`, and copies `$1` and `$0` literally. The pattern is literal, so there is no group to refer to.
- The `lastIndex` state of a global JavaScript pattern between calls is left out. The model's replace and test carry no state from one call to the next.
- Case folding is ASCII only. Unicode case folding and UTF-16 code units are left out: a Dafny `char` is a Unicode scalar value.
- Numbers are modelled as `int`. JavaScript's floating-point numbers are left out.
- The exact UTF-8 encoding of `Buffer.byteLength` is modelled per code point, one to four bytes. Unpaired surrogates are left out.
- NormalizerRule.NewRule: the flag string of a compiled pattern keeps the order of its merge, while a JavaScript pattern reports its flags in canonical order. The tests read the flags only through `global`, `ignoreCase` and `multiline`.
- NormalizerRule.NewRule: a field given with a falsy value (an empty replacement, say) is taken as given. The implementation's defaulting rule for such values is not visible.
- The `ignore` flag is only copied. What the normalizer chain does with ignored names is left out, as is the chain itself: its ordering by precedence and its stopping at a terminal rule.
- Logging of malformed patterns and of dropped attributes is left out.
- The attribute filter is an abstract function from destination and key to a boolean. How the agent's configuration builds the filter, and how it reloads it, is left out. `ExcludeFilter` covers only the two exclusion lists the tests set.
- Agent mocking (`helper.loadMockedAgent`) is left out.
- The asynchronous trace-tree check in `test/integration/core/verify.js` is left out. It depends on timers and a live agent.
- AttributeStore.Attributes.Get: the order in which JavaScript enumerates the result's keys is not modelled. The result is a map.
