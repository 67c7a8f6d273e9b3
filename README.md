# Omakase core, modelled in Dafny

This project models the core of Omakase, a Java CSS parser and prefixer.

- **Support matrix.** It records which versions of which browsers the emitted CSS must support, as an ascending, duplicate-free version list per browser (the Java `TreeMultimap`). From that, and from the table of the last version of each browser that still needed a vendor prefix for a property or function name, it decides which vendor prefixes are required. The prefixes come back deduplicated and in prefix ordinal order.
- **Groupable contract.** An ordered sibling collection, where every unit points back to its group or is detached. Units support first/last tests, `group()`, insertion before or after a unit, and detaching.
- **Standard refiner.** At-rules are never refined. Function values go to the first strategy that accepts them. Selectors and declarations are refined by a sub-parse of their raw content. Orphaned comments are attached, leftover input is an error, and a missing property value is an error. A selector's broadcasts are held in a paused queue until its parts are stored.
- **Raw at-rule parser.** It reads `@name expression;` or `@name expression { block }` from a character cursor. It declines when the text does not start with `@`. It fails on a missing name, an unclosed block, or a rule with neither expression nor block. Otherwise it broadcasts exactly one at-rule.
- **Selector-group parser (older API).** After whitespace, it declines unless a letter, `*`, `#` or `.` follows. Otherwise it passes one selector group, holding the text up to `{`, to every worker.
- **Conditional at-rule block.** An `@if(condition) { ... }` block. It is writable in passthrough mode or when its condition is true. It produces exact output in both modes, compressed or not.
- **Prefix-info generation.** This computes the last-prefixed-version table from a compatibility feed. For each browser, it takes the largest version flagged `x`, clamps it to the browser's current version, and keeps it only when positive. Each category's browser versions are then expanded against its property or function names.

Browsers, prefixes and properties are values identified by their enumeration ordinal. The browser catalog and the last-prefixed table are values holding functions. Versions are `real`. The character cursor (`Cursor.Source`), the immediate broadcaster (`Syntax.Broadcaster`), the token predicates and the sub-parsers are given the behaviour the core relies on. They are not re-implementations of classes that are not part of this model.

The raw at-rule parser and the selector-group parser both decline only after skipping whitespace (and, for the at-rule parser, comments), and the model keeps those characters consumed. `RawAtRuleParsing.Parse` and `SelectorParsing.Parse` state this in their postconditions.

Where the documentation and the code disagree, the code is followed. The javadoc of `ConditionalAtRuleBlock.condition()` (src/main/java/com/salesforce/omakase/ast/extended/ConditionalAtRuleBlock.java:116) calls the result "the lower-cased condition string", but the method returns the condition as given (lines 118-120). `Conditionals.ConditionalAtRuleBlock.Condition` returns it unchanged, and `IsWritable` compares it with the true conditions exactly, case included.

## Model

| member | source | states |
|---|---|---|
| Support.Insert | src/main/java/com/salesforce/omakase/SupportMatrix.java:43-44 | adding a version to a browser's list keeps it ascending and duplicate-free, and the new list holds exactly the old versions plus the added one |
| Support.InsertAll | src/main/java/com/salesforce/omakase/SupportMatrix.java:119-125 | putting several versions keeps the list ascending, and its elements are the old ones plus the added ones |
| Support.AscendingDeterminedByElements | src/main/java/com/salesforce/omakase/SupportMatrix.java:43-44 | two ascending, duplicate-free lists with the same elements are equal, so a browser's supported versions depend only on which versions were designated |
| Support.InsertionOrderIrrelevant | src/main/java/com/salesforce/omakase/SupportMatrix.java:175-177 | designating the same versions in any order, with any repetitions, yields the same supported versions |
| Support.InsertIdempotent | src/main/java/com/salesforce/omakase/SupportMatrix.java:80-84 | designating an already supported version changes nothing |
| Support.SupportMatrix.constructor | src/main/java/com/salesforce/omakase/SupportMatrix.java:43-44 | a new matrix supports no browser |
| Support.SupportMatrix.AllSupportedVersions | src/main/java/com/salesforce/omakase/SupportMatrix.java:175-177 | a browser's supported versions are ascending, duplicate-free, and among its known versions; empty when none is supported |
| Support.SupportMatrix.SupportsBrowser | src/main/java/com/salesforce/omakase/SupportMatrix.java:135-137 | a browser is supported iff at least one of its versions is |
| Support.SupportMatrix.SupportsVersion | src/main/java/com/salesforce/omakase/SupportMatrix.java:149-165 | a version is supported iff it is among the browser's supported versions; then the browser is supported and the version is a known one |
| Support.SupportMatrix.LowestSupportedVersion | src/main/java/com/salesforce/omakase/SupportMatrix.java:187-189 | the least supported version of the browser, or -1 when the browser is not supported |
| Support.SupportMatrix.SupportedBrowsers | src/main/java/com/salesforce/omakase/SupportMatrix.java:196-198 | exactly the browsers with a supported version |
| Support.SupportMatrix.Put | src/main/java/com/salesforce/omakase/SupportMatrix.java:82 | the multimap put: the browser's list gains the version, keeping the matrix consistent, and no other browser changes |
| Support.SupportMatrix.SupportBrowser | src/main/java/com/salesforce/omakase/SupportMatrix.java:80-84 | fails with "version does not exist" and changes nothing when the browser has no such version; otherwise adds exactly that version; no other browser changes |
| Support.SupportMatrix.SupportLatest | src/main/java/com/salesforce/omakase/SupportMatrix.java:99-102 | adds exactly the browser's current version (the first of its known versions); no other browser changes |
| Support.SupportMatrix.SupportLast | src/main/java/com/salesforce/omakase/SupportMatrix.java:119-125 | fails and changes nothing when n exceeds the number of known versions; otherwise adds exactly the n newest versions, none when n <= 0; no other browser changes |
| Support.SupportMatrix.PrefixesFor | src/main/java/com/salesforce/omakase/SupportMatrix.java:208-217 | a prefix is in the result iff some supported browser using it has its lowest supported version at or below its last prefixed version; no repeats, in prefix ordinal order |
| Support.SupportMatrix.PrefixesForProperty | src/main/java/com/salesforce/omakase/SupportMatrix.java:208-217 | the same, with the property's last prefixed versions |
| Support.SupportMatrix.PrefixesForFunction | src/main/java/com/salesforce/omakase/SupportMatrix.java:228-237 | the same, with the function name's last prefixed versions |
| Support.SupportMatrix.RequiresPrefixForProperty | src/main/java/com/salesforce/omakase/SupportMatrix.java:252-254 | true iff the table knows the property and the prefix is among those the property requires |
| Support.SupportMatrix.RequiresPrefixForFunction | src/main/java/com/salesforce/omakase/SupportMatrix.java:267-269 | true iff the table knows the function name and the prefix is among those it requires |
| Support.OrdinalOrder | src/main/java/com/salesforce/omakase/SupportMatrix.java:216 | the enum-set copy: the same prefixes, each once, in strictly increasing ordinal order |
| Support.EmptyMatrixRequiresNothing | src/test/java/com/salesforce/omakase/plugin/basic/PrefixerUnitTest.java:31-33 | a matrix that supports nothing has no supported browsers and requires no prefix |
| Support.SingleVersionPrefixes | src/main/java/com/salesforce/omakase/SupportMatrix.java:208-217 | with one browser supported at one version v, a prefix is required iff it is that browser's prefix and v is at or below its last prefixed version |
| Collections.SyntaxCollection.Append | src/test/java/com/salesforce/omakase/ast/atrule/FontFaceBlockTest.java:57-58 | appending a detached unit puts it at the end and links it to the collection; appending to an empty collection yields exactly that unit |
| Collections.SyntaxCollection.Insert | src/main/java/com/salesforce/omakase/ast/collection/Groupable.java:84-106 | placing a detached unit at a position shifts the later units by one, keeps the others in order, links the unit, and keeps the collection consistent |
| Collections.Unit.constructor | src/main/java/com/salesforce/omakase/ast/collection/Groupable.java:113-119 | a unit never added to a collection is detached |
| Collections.Unit.IsDetached | src/main/java/com/salesforce/omakase/ast/collection/Groupable.java:113-119 | true iff the unit has no group: never added, or detached since |
| Collections.Unit.IsFirst | src/main/java/com/salesforce/omakase/ast/collection/Groupable.java:36-53 | false when detached; when attached, true iff the unit is at index 0 of its group |
| Collections.Unit.IsLast | src/main/java/com/salesforce/omakase/ast/collection/Groupable.java:55-72 | false when detached; when attached, true iff the unit is at the last index of its group |
| Collections.Unit.Group | src/main/java/com/salesforce/omakase/ast/collection/Groupable.java:74-82 | a state error iff the unit is detached; otherwise the owning collection |
| Collections.Unit.Prepend | src/main/java/com/salesforce/omakase/ast/collection/Groupable.java:84-94 | a state error when this unit is detached; otherwise the new unit is inserted immediately before this one and linked to the group |
| Collections.Unit.Append | src/main/java/com/salesforce/omakase/ast/collection/Groupable.java:96-106 | a state error when this unit is detached; otherwise the new unit is inserted immediately after this one and linked to the group |
| Collections.Unit.Detach | src/main/java/com/salesforce/omakase/ast/collection/Groupable.java:108-111 | the unit becomes detached and leaves its former collection, whose other units keep their order and stay consistent |
| Refinement.RefineAtRule | src/main/java/com/salesforce/omakase/parser/refiner/StandardRefiner.java:50-54 | always declines, changing nothing |
| Refinement.RefineFunctionValue | src/main/java/com/salesforce/omakase/parser/refiner/StandardRefiner.java:108-114 | true iff some standard strategy accepts the value; the strategies are asked in order, stopping at the first that accepts |
| Refinement.SelectorParts | src/main/java/com/salesforce/omakase/parser/refiner/StandardRefiner.java:76 | the filter keeps exactly the selector parts among the emitted nodes |
| Refinement.SelectorPartsDistributes | src/main/java/com/salesforce/omakase/parser/refiner/StandardRefiner.java:76 | filtering keeps emission order: the parts of two runs are the parts of the first, then those of the second |
| Refinement.SelectorPartsKeepsParts | src/main/java/com/salesforce/omakase/parser/refiner/StandardRefiner.java:76 | a run of selector parts passes the filter unchanged |
| Refinement.FirstValue | src/main/java/com/salesforce/omakase/parser/refiner/StandardRefiner.java:101 | absent iff no property value was emitted; otherwise the property value emitted first |
| Refinement.AttachToSelector | src/main/java/com/salesforce/omakase/parser/refiner/StandardRefiner.java:67-70 | every flushed comment becomes an orphaned comment of the selector, in order |
| Refinement.AttachToDeclaration | src/main/java/com/salesforce/omakase/parser/refiner/StandardRefiner.java:92-95 | every flushed comment becomes an orphaned comment of the declaration, in order |
| Refinement.BroadcastAll | src/main/java/com/salesforce/omakase/parser/refiner/StandardRefiner.java:79 | releasing the queue delivers every held node, in order, and logs one delivery event per node |
| Refinement.RefineSelector | src/main/java/com/salesforce/omakase/parser/refiner/StandardRefiner.java:56-82 | orphaned comments are attached in either case; leftover input raises UnparsableSelector, and neither parts nor broadcasts reach anyone; otherwise the emitted selector parts are appended in order before anything is delivered (the broadcaster's event log gains the parts-stored event, then one delivery per emitted node), then everything emitted is delivered, and the result is true |
| Refinement.RefineDeclaration | src/main/java/com/salesforce/omakase/parser/refiner/StandardRefiner.java:84-106 | emitted nodes are delivered at once and comments attached; leftover input raises UnparsableDeclarationValue; no property value raises ExpectedValue; otherwise the value is the first property value emitted and the result is true |
| RawAtRuleParsing.RuleStart | src/main/java/com/salesforce/omakase/parser/raw/RawAtRuleParser.java:44-45 | the rule starts after the whitespace and complete comments at the read position: not on whitespace, and right after the whitespace when no comment was skipped |
| RawAtRuleParsing.ExpressionEnd | src/main/java/com/salesforce/omakase/parser/raw/RawAtRuleParser.java:61 | no expression-end character lies between the expression's start and its end, and one lies at the end unless input is exhausted |
| RawAtRuleParsing.BlockClose | src/main/java/com/salesforce/omakase/parser/raw/RawAtRuleParser.java:71-74 | a block is closed only where one opens: no termination character there, and a block-begin character; its close lies within the input |
| RawAtRuleParsing.RuleEnd | src/main/java/com/salesforce/omakase/parser/raw/RawAtRuleParser.java:71-76 | reading stops at or after the expression's end and within the input |
| RawAtRuleParsing.RuleEndCases | src/main/java/com/salesforce/omakase/parser/raw/RawAtRuleParser.java:71-76 | reading stops one past the block's matching close when a block closes there; otherwise one past a termination character right after the expression; otherwise right after the expression |
| RawAtRuleParsing.ReadBlock | src/main/java/com/salesforce/omakase/parser/raw/RawAtRuleParser.java:68-76 | a termination character is consumed and no block is read; otherwise a block that opens is read as its trimmed content, absent when empty; a block never closed raises ExpectedClosing at the end of input |
| RawAtRuleParsing.ParseAfterAt | src/main/java/com/salesforce/omakase/parser/raw/RawAtRuleParser.java:54-88 | once the '@' is consumed: no name raises MissingAtRuleName; an unclosed block raises ExpectedClosing; neither expression nor block raises MissingAtRuleValue; otherwise the one at-rule, with the comments buffered before the name, is broadcast and the read position ends where the rule ends; no failure broadcasts anything |
| RawAtRuleParsing.Parse | src/main/java/com/salesforce/omakase/parser/raw/RawAtRuleParser.java:41-89 | declines, broadcasting nothing, iff no '@' follows the whitespace and comments; '@' without a name raises MissingAtRuleName; an unclosed block raises ExpectedClosing; neither expression nor block raises MissingAtRuleValue; otherwise exactly one at-rule is broadcast with the position before '@', the name, the trimmed expression and block, and the comments read before the block, and comments inside the block are dropped; no failure broadcasts anything |
| SelectorParsing.Notify | src/main/java/com/salesforce/omakase/parser/SelectorParser.java:37 | every worker receives the node once for each time it is listed, and nothing else |
| SelectorParsing.CountPositiveIffPresent | src/main/java/com/salesforce/omakase/parser/SelectorParser.java:37 | a worker is notified iff it is listed |
| SelectorParsing.DistinctCountsOne | src/main/java/com/salesforce/omakase/parser/SelectorParser.java:37 | with no worker listed twice, each worker receives the selector group exactly once |
| SelectorParsing.Parse | src/main/java/com/salesforce/omakase/parser/SelectorParser.java:21-40 | accepts iff the first character after whitespace is a letter, '*', '#' or '.'; a decline notifies no one; otherwise one selector group, at the line and column of that character and holding the text up to the next '{', goes to the workers, and the read position is at that '{' |
| Conditionals.ConditionalAtRuleBlock.constructor | src/main/java/com/salesforce/omakase/ast/extended/ConditionalAtRuleBlock.java:105-111 | the block keeps the given position, manager, condition and statements |
| Conditionals.ConditionalAtRuleBlock.WithoutPosition | src/main/java/com/salesforce/omakase/ast/extended/ConditionalAtRuleBlock.java:75-78 | a block created without a position records line and column -1 |
| Conditionals.ConditionalAtRuleBlock.Condition | src/main/java/com/salesforce/omakase/ast/extended/ConditionalAtRuleBlock.java:118-120 | the condition as given, unchanged |
| Conditionals.ConditionalAtRuleBlock.IsWritable | src/main/java/com/salesforce/omakase/ast/extended/ConditionalAtRuleBlock.java:131-134 | always writable in passthrough mode; otherwise writable iff the condition, exactly as given, is among the manager's true conditions |
| Conditionals.Wrap | src/main/java/com/salesforce/omakase/ast/extended/ConditionalAtRuleBlock.java:138-152 | compressed: `@if(c){body}`; otherwise `@if(c) {`, newline, body, newline, `}` |
| Conditionals.Concat | src/main/java/com/salesforce/omakase/ast/extended/ConditionalAtRuleBlock.java:145-147 | a single statement is written as itself |
| Conditionals.ConcatAppend | src/main/java/com/salesforce/omakase/ast/extended/ConditionalAtRuleBlock.java:145-147 | writing two runs of statements writes the first, then the second |
| Conditionals.ConcatContainsEach | src/main/java/com/salesforce/omakase/ast/extended/ConditionalAtRuleBlock.java:145-147 | each statement's output appears once, between the output of the statements before it and after it |
| Conditionals.WriteStatements | src/main/java/com/salesforce/omakase/ast/extended/ConditionalAtRuleBlock.java:145-147 | writing the statements one by one appends exactly their concatenated output |
| Conditionals.ConditionalAtRuleBlock.Write | src/main/java/com/salesforce/omakase/ast/extended/ConditionalAtRuleBlock.java:137-153 | in passthrough mode, the statements in order inside the `@if(condition)` wrapper; otherwise exactly the statements in order, with no wrapper |
| PrefixInfoGeneration.LastSegment | src/test/java/com/salesforce/omakase/test/util/tool/GeneratePrefixInfoClass.java:124 | the part of a version key after its last '-' (the whole key when it has none), itself free of '-' |
| PrefixInfoGeneration.MaxFlagged | src/test/java/com/salesforce/omakase/test/util/tool/GeneratePrefixInfoClass.java:121-127 | at least 0, at least every flagged entry's version, and either 0 or one of those versions |
| PrefixInfoGeneration.NoFlagsNoVersion | src/test/java/com/salesforce/omakase/test/util/tool/GeneratePrefixInfoClass.java:121-127 | a browser with no entry flagged 'x' gets 0 |
| PrefixInfoGeneration.LatestPrefixed | src/test/java/com/salesforce/omakase/test/util/tool/GeneratePrefixInfoClass.java:121-127 | the scan over the entries computes that maximum |
| PrefixInfoGeneration.Clamped | src/test/java/com/salesforce/omakase/test/util/tool/GeneratePrefixInfoClass.java:128 | the maximum, clamped to at most the browser's current version |
| PrefixInfoGeneration.VersionsFrom | src/test/java/com/salesforce/omakase/test/util/tool/GeneratePrefixInfoClass.java:116-135 | at most one record per browser position |
| PrefixInfoGeneration.VersionsFromFails | src/test/java/com/salesforce/omakase/test/util/tool/GeneratePrefixInfoClass.java:117-118 | fails iff some browser has no stats, naming the first such browser |
| PrefixInfoGeneration.MissingStatsFail | src/test/java/com/salesforce/omakase/test/util/tool/GeneratePrefixInfoClass.java:117-118 | a browser without stats makes the computation fail |
| PrefixInfoGeneration.FailureNamesFirstMissing | src/test/java/com/salesforce/omakase/test/util/tool/GeneratePrefixInfoClass.java:116-118 | a failure names a browser without stats before which every browser has stats |
| PrefixInfoGeneration.VersionsStep | src/test/java/com/salesforce/omakase/test/util/tool/GeneratePrefixInfoClass.java:116-134 | one more browser adds its record exactly when its clamped version is positive, and otherwise leaves the records as they were |
| PrefixInfoGeneration.VersionsFromRecords | src/test/java/com/salesforce/omakase/test/util/tool/GeneratePrefixInfoClass.java:128-134 | on success, a browser is recorded iff its clamped version is positive, and it is recorded with that version, which lies in (0, current version] |
| PrefixInfoGeneration.VersionsFailureSticks | src/test/java/com/salesforce/omakase/test/util/tool/GeneratePrefixInfoClass.java:117-118 | once a browser is missing, the whole computation fails with that error |
| PrefixInfoGeneration.VersionsFollowBrowserOrder | src/test/java/com/salesforce/omakase/test/util/tool/GeneratePrefixInfoClass.java:116-135 | the recorded browsers are a subsequence of the browser list walked |
| PrefixInfoGeneration.VersionsAscend | src/test/java/com/salesforce/omakase/test/util/tool/GeneratePrefixInfoClass.java:116-135 | when the browser list is in increasing ordinal order, every recorded browser comes from it and the records are in strictly increasing ordinal order |
| PrefixInfoGeneration.VersionsWithin | src/test/java/com/salesforce/omakase/test/util/tool/GeneratePrefixInfoClass.java:116-134 | every recorded browser is one of the browsers walked |
| PrefixInfoGeneration.LastPrefixedBrowsersDistinct | src/test/java/com/salesforce/omakase/test/util/tool/GeneratePrefixInfoClass.java:116-135 | walking Browser.values() yields at most one record per browser, in enumeration order |
| PrefixInfoGeneration.LastPrefixedBrowserVersions | src/test/java/com/salesforce/omakase/test/util/tool/GeneratePrefixInfoClass.java:109-139 | the loop over the browsers computes exactly those records, or that failure |
| PrefixInfoGeneration.ResolveAll | src/test/java/com/salesforce/omakase/test/util/tool/GeneratePrefixInfoClass.java:83 | when every name resolves, the resolved items, one per name, in order |
| PrefixInfoGeneration.FirstUnresolved | src/test/java/com/salesforce/omakase/test/util/tool/GeneratePrefixInfoClass.java:83-84 | the first name that is not a known property |
| PrefixInfoGeneration.FirstUnresolvedAt | src/test/java/com/salesforce/omakase/test/util/tool/GeneratePrefixInfoClass.java:83-84 | an unresolved name after resolved ones is the first unresolved name |
| PrefixInfoGeneration.Row | src/test/java/com/salesforce/omakase/test/util/tool/GeneratePrefixInfoClass.java:82-86 | one record per item for a browser version, in item order |
| PrefixInfoGeneration.RecordsLength | src/test/java/com/salesforce/omakase/test/util/tool/GeneratePrefixInfoClass.java:79-88 | a category yields browser versions times items records |
| PrefixInfoGeneration.RecordsAt | src/test/java/com/salesforce/omakase/test/util/tool/GeneratePrefixInfoClass.java:79-88 | the record for browser version i and item k is at position i * items + k: browser versions outer, items inner |
| PrefixInfoGeneration.LoadedCount | src/test/java/com/salesforce/omakase/test/util/tool/GeneratePrefixInfoClass.java:79-88 | a successful load has the sum over categories of browser versions times names records |
| PrefixInfoGeneration.LoadedFailureSticks | src/test/java/com/salesforce/omakase/test/util/tool/GeneratePrefixInfoClass.java:79-88 | once a category fails, the whole load fails with that error |
| PrefixInfoGeneration.FunctionsFailOnlyOnStats | src/test/java/com/salesforce/omakase/test/util/tool/GeneratePrefixInfoClass.java:97-104 | loading function names fails only for a browser missing from the stats |
| PrefixInfoGeneration.AppendRow | src/test/java/com/salesforce/omakase/test/util/tool/GeneratePrefixInfoClass.java:82-86 | looks the names up in order, failing at the first unknown one; otherwise appends one record per name |
| PrefixInfoGeneration.AppendCategory | src/test/java/com/salesforce/omakase/test/util/tool/GeneratePrefixInfoClass.java:80-87 | appends the category's records, browser versions outer; an unknown name fails only when some browser needs the prefix |
| PrefixInfoGeneration.LoadProperties | src/test/java/com/salesforce/omakase/test/util/tool/GeneratePrefixInfoClass.java:76-91 | the nested loops compute exactly the table the categories define, or its failure |
| PrefixInfoGeneration.LoadFunctions | src/test/java/com/salesforce/omakase/test/util/tool/GeneratePrefixInfoClass.java:94-107 | the same for function names, each recorded as written |

## Left out

- Source.java, Stream.java, the broadcasters, ParserFactory, PrefixInfo, Browser, Prefix, ConditionalsManager and StyleWriter are not part of this model. Each is given only the behaviour the core relies on:
  - `Cursor.Source` skips ASCII whitespace.
  - It collects complete `/* */` comments, without their delimiters, and leaves an unterminated comment unread.
  - It reads identifiers `-?[A-Za-z_][A-Za-z0-9_-]*` and reads up to a token.
  - It reads a balanced region, skipping quoted strings.
  - Lines and columns are counted from 1.
  - Escapes, the older `Stream`'s own whitespace and quoting rules, and original-line offsets are not modelled.
- The token factory's at-rule tokens are parameters (`RawAtRuleParsing.AtRuleTokens`). The `refiner` passed to the new `AtRule` is not modelled.
- The sub-parsers used by the refiner (the complex selector parser and the term list parser) are a parameter, a function from content to what they emitted. Errors raised inside them are not modelled.
- The standard function strategies are a parameter, a list of predicates. UrlFunctionRefiner is not part of this model, and any side effects a strategy has are not modelled.
- Support.SupportMatrix.SupportedBrowsers: returns a set. The Java key set iterates in browser ordinal order, and that order is not modelled; nothing in the core depends on it.
- The `int` overloads of `browser` and `supportsVersion` only convert to `double`. Only the `double` forms are modelled. Versions are exact reals, not floating point.
- Collections.SyntaxCollection.Append: requires the unit to be detached. What the collection does with a unit that still belongs to another group is not shown.
- Collections.SyntaxCollection.Insert: requires the unit to be detached, for the same reason.
- Collections.Unit.Append: requires the inserted unit to be detached, for the same reason. The same applies to Collections.Unit.Prepend.
- The internal `parent(group)` setter is a plain field assignment inside the collection and unit methods.
- The null checks in the ConditionalAtRuleBlock constructor cannot fail here, because Dafny references are non-null. Statements are already-rendered strings. Whatever the writer does inside `writeInner` is not modelled.
- Workers listed more than once are notified once per listing (`SelectorParsing.Notify`).
- The I/O of GeneratePrefixInfoClass is left out:
  - downloading the feed (`loadUrl`, with its timeouts and unbounded retries) becomes the parameter `statsFor`
  - reading YAML and writing the generated class (`run`, `main`) are left out
  - console logging is left out
- Version parsing (`Double.valueOf`) is the parameter `parse`, and its NumberFormatException is not modelled. Categories are a list in the order the configuration map iterates.
- The generator's Java `assert`s become failures (`BrowserNotFound`, `PropertyNotFound`), as when assertions are enabled. With assertions disabled, a missing browser still fails (a null map), but an unknown property name would produce a record with no property.
- PrefixInfoGeneration.VersionsFrom: its own contract states only the record count. What it records, and when it fails, are in VersionsFromRecords, VersionsFromFails, VersionsFollowBrowserOrder and VersionsAscend.
- The EchoLogger classes, the unfinished AtRuleParser and StandardDeclaration stubs, constant tables (MediaRestriction, SubscribableRequirement, AttributeSelector, AbstractSelectorPart, UnquotedIEFilterPlugin, Util), annotation-driven dispatch and `toString` helpers have no behaviour to state.
