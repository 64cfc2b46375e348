# ForbidCertainMethods in Dafny

A model of the sevntu-checkstyle check `ForbidCertainMethodsCheck` and its
`ForbidCertainMethodsLoader`. The check reports calls to methods and
constructors that a configuration file forbids. Each rule in that file gives
a name pattern and, optionally, an argument-count pattern. A call is reported
under the first rule, in file order, whose patterns match the whole called
name and the whole decimal argument count.

The model is written as pure functions over immutable data. It is split into
these modules:

| file | module | models |
|---|---|---|
| `wrappers.dfy` | `Wrappers` | `Option` (a Java null) and `Result` (a value or a thrown exception) |
| `java_regex.dfy` | `JavaRegex` | `Pattern.compile` as a parser over a subset of Java's pattern syntax, and `Matcher.matches()` as whole-input matching (`FullMatch`) |
| `decimal.dfy` | `Decimal` | `Integer.toString` for argument counts |
| `rules.dfy` | `Rules` | `ForbidCertainMethodsCheck.Rule`: `of`, `matches`, and the `findFirst` over the rule list |
| `ast.dfy` | `Ast` | the parts of `DetailAST` the check reads: token type, text, children, `getChildCount(type)`, `findFirstToken(type)` |
| `loader.dfy` | `ForbidCertainMethodsLoader` | `startElement` as a fold over element events, and the exception-to-message mapping of `loadConfigValue(InputSource, String)` |
| `check.dfy` | `ForbidCertainMethodsCheck` | `checkForbiddenMethod`, the extraction in `visitToken`, and `finishLocalSetup` |
| `scenarios.dfy` | `ForbidCertainMethodsScenarios` | the check's own test: the configuration rules, the calls of the input file, and the setup cases |

I/O is not modelled; it enters the model as parameters:
- The XML parser is a `Document`: the start-element events it delivers, then the exception it raises, if any.
- Whether the configuration file exists (`configFileExists`) is a boolean input of `FinishLocalSetup`.
- A reported violation is its message key and its arguments. Checkstyle's `log` adds the line and column; those are left out.

Three behaviours of the code that the model keeps as written:
- **Empty method name.** An empty `methodName` is accepted, because `Pattern.compile("")` succeeds; the rule then matches only the empty name.
- **Invalid pattern.** An uncompilable pattern raises `PatternSyntaxException`. None of the catch clauses of `loadConfigValue` names it, so it leaves the loader unmapped (`LoadError.Unchecked`), not as a `CheckstyleException`.
- **Constructor name.** The constructor name is the text of the `new` node's first child. So `new java.io.File(..)` is checked under the DOT's text `.` (`QualifiedConstructorNamedByDot`), not under `File`.

## Model

| member | source | states |
|---|---|---|
| JavaRegex.CompilePlain | sevntu-checks/src/main/java/com/github/sevntu/checkstyle/checks/coding/ForbidCertainMethodsCheck.java:237 | a pattern text without metacharacters compiles, to the chain of its own characters |
| JavaRegex.PlainPatternMatchesExactly | sevntu-checks/src/main/java/com/github/sevntu/checkstyle/checks/coding/ForbidCertainMethodsCheck.java:265 | `matches()` with a compiled plain pattern holds for exactly one name: the pattern text itself |
| JavaRegex.AnchoringRejectsLongerName | sevntu-checks/src/main/java/com/github/sevntu/checkstyle/checks/coding/ForbidCertainMethodsCheck.java:265-266 | a plain pattern occurs inside any longer name that starts with it (`find()` would succeed), yet `matches()` fails on that name: a substring match is not enough |
| JavaRegex.GroupedChoiceCompiles | sevntu-checks/src/main/java/com/github/sevntu/checkstyle/checks/coding/ForbidCertainMethodsCheck.java:237 | `w(a|b)` with plain `w`, `a`, `b` compiles to the prefix chain followed by the two-way choice |
| JavaRegex.GroupedChoiceMatches | sevntu-checks/src/main/java/com/github/sevntu/checkstyle/checks/coding/ForbidCertainMethodsCheck.java:265 | the compiled `w(a|b)` matches exactly `w+a` and `w+b`, and no other name |
| Decimal.ToDecimalString | sevntu-checks/src/main/java/com/github/sevntu/checkstyle/checks/coding/ForbidCertainMethodsCheck.java:196 | the rendered count is a non-empty digit string with no leading zero, one digit exactly when the count is below ten |
| Decimal.DecimalRoundTrip | sevntu-checks/src/main/java/com/github/sevntu/checkstyle/checks/coding/ForbidCertainMethodsCheck.java:196 | reading the rendered count back gives the count, so the count pattern sees the count without loss |
| Decimal.DecimalInjective | sevntu-checks/src/main/java/com/github/sevntu/checkstyle/checks/coding/ForbidCertainMethodsCheck.java:196 | two counts render alike if and only if they are equal |
| Rules.Of | sevntu-checks/src/main/java/com/github/sevntu/checkstyle/checks/coding/ForbidCertainMethodsCheck.java:236-255 | `Rule.of` succeeds if and only if the name pattern compiles and the count is absent, empty or compiles; the rule keeps both pattern texts and has no count pattern exactly when the count is absent or empty; a failure is the name pattern's error first, else the count pattern's |
| Rules.OfMatches | sevntu-checks/src/main/java/com/github/sevntu/checkstyle/checks/coding/ForbidCertainMethodsCheck.java:264-267 | a rule built from configuration text matches a call if and only if its name pattern matches the whole name and, unless the count is unconstrained, its count pattern matches the whole rendered count |
| Rules.NoCountConstraintIgnoresCount | sevntu-checks/src/main/java/com/github/sevntu/checkstyle/checks/coding/ForbidCertainMethodsCheck.java:238-240 | a rule whose count attribute is absent or empty decides the same for every argument count |
| Rules.FirstMatch | sevntu-checks/src/main/java/com/github/sevntu/checkstyle/checks/coding/ForbidCertainMethodsCheck.java:198-201 | the result is the index of a matching rule with no matching rule before it, and it is absent if and only if no rule matches |
| Rules.EarlierRuleWins | sevntu-checks/src/main/java/com/github/sevntu/checkstyle/checks/coding/ForbidCertainMethodsCheck.java:198-203 | when two rules match, the winner is never after the earlier one |
| Rules.FirstMatchAppend | sevntu-checks/src/main/java/com/github/sevntu/checkstyle/checks/coding/ForbidCertainMethodsCheck.java:198-201 | appending rules keeps every decision the shorter list made, and otherwise the winner is the appended list's winner, shifted |
| Ast.CountOfType | sevntu-checks/src/main/java/com/github/sevntu/checkstyle/checks/coding/ForbidCertainMethodsCheck.java:155 | `getChildCount(EXPR)` is at most the number of children, zero exactly when no child is an EXPR, and all of them exactly when every child is |
| Ast.CountOfTypeCountsPositions | sevntu-checks/src/main/java/com/github/sevntu/checkstyle/checks/coding/ForbidCertainMethodsCheck.java:155 | `getChildCount(EXPR)` is the number of positions among the children that hold an EXPR node |
| Ast.CountOfTypeAppend | sevntu-checks/src/main/java/com/github/sevntu/checkstyle/checks/coding/ForbidCertainMethodsCheck.java:155 | the count of a concatenation is the sum of the counts of its parts |
| Ast.FindFirstToken | sevntu-checks/src/main/java/com/github/sevntu/checkstyle/checks/coding/ForbidCertainMethodsCheck.java:175 | `findFirstToken(ELIST)` finds a child if and only if one has that type, and then the earliest such child |
| ForbidCertainMethodsCheck.CheckForbiddenMethod | sevntu-checks/src/main/java/com/github/sevntu/checkstyle/checks/coding/ForbidCertainMethodsCheck.java:195-215 | with no rule list nothing is reported; otherwise a report exists if and only if some rule matches, and it is for the earliest matching rule, in the with-count shape (name, name pattern, count, count pattern) exactly when that rule has a count pattern and in the two-argument shape otherwise |
| ForbidCertainMethodsCheck.CallSiteOf | sevntu-checks/src/main/java/com/github/sevntu/checkstyle/checks/coding/ForbidCertainMethodsCheck.java:149-186 | a method call always yields a call site counted by the EXPR children of its argument list, named by the identifier of `m(..)` or by the DOT's last child in `a.m(..)`; a `new` yields a call site if and only if it has a first child and an ELIST, named by the first child's text and counted in the first ELIST; other nodes yield nothing |
| ForbidCertainMethodsCheck.VisitToken | sevntu-checks/src/main/java/com/github/sevntu/checkstyle/checks/coding/ForbidCertainMethodsCheck.java:148-187 | at most one report per node; a report exists only for an extracted call site, and exactly when some rule matches it, for the earliest such rule |
| ForbidCertainMethodsCheck.FinishLocalSetup | sevntu-checks/src/main/java/com/github/sevntu/checkstyle/checks/coding/ForbidCertainMethodsCheck.java:110-124 | no file leaves the list null; an optional file that is missing gives the empty list; in every other case, whether the file is required or optional and present, setup succeeds exactly when loading does, with the loaded rules, and otherwise fails with the loader's error |
| ForbidCertainMethodsCheck.NoRulesNoReports | sevntu-checks/src/main/java/com/github/sevntu/checkstyle/checks/coding/ForbidCertainMethodsCheck.java:110-124 | without a file, or with an optional file that is missing, setup succeeds and no node is ever reported |
| ForbidCertainMethodsCheck.ReceiverIsIrrelevant | sevntu-checks/src/main/java/com/github/sevntu/checkstyle/checks/coding/ForbidCertainMethodsCheck.java:159-165 | two qualified calls that end in the same name node and pass the same arguments get the same report, whatever their receivers |
| ForbidCertainMethodsCheck.QualifiedCallLikePlainCall | sevntu-checks/src/main/java/com/github/sevntu/checkstyle/checks/coding/ForbidCertainMethodsCheck.java:150-165 | `a.m(..)` is reported exactly like `m(..)` |
| ForbidCertainMethodsCheck.DegenerateNewNeverReported | sevntu-checks/src/main/java/com/github/sevntu/checkstyle/checks/coding/ForbidCertainMethodsCheck.java:168-182 | a `new` without a first child (`File::new`) or without an argument list (`new int[4]`) is never reported, whatever the rules |
| ForbidCertainMethodsCheck.CommasAreNotArguments | sevntu-checks/src/main/java/com/github/sevntu/checkstyle/checks/coding/ForbidCertainMethodsCheck.java:155 | `m(a, b)` counts two arguments, not the three children of its list |
| ForbidCertainMethodsCheck.QualifiedConstructorNamedByDot | sevntu-checks/src/main/java/com/github/sevntu/checkstyle/checks/coding/ForbidCertainMethodsCheck.java:169-174 | a `new` of a qualified type is checked under the DOT's text `.` |
| ForbidCertainMethodsLoader.ElementRule | sevntu-checks/src/main/java/com/github/sevntu/checkstyle/checks/coding/ForbidCertainMethodsLoader.java:86-93 | an element yields a rule if and only if it has `methodName` and `Rule.of` succeeds on its attributes, and then that rule; a missing `methodName` throws a SAXException with `missing methodName attribute`; otherwise a failure carries `Rule.of`'s pattern error, as a `PatternSyntaxException` or, for syntax outside the modelled subset, as `BeyondSubset` |
| ForbidCertainMethodsLoader.StartElement | sevntu-checks/src/main/java/com/github/sevntu/checkstyle/checks/coding/ForbidCertainMethodsLoader.java:84-94 | a non-`ForbiddenMethod` element leaves the list unchanged; a `ForbiddenMethod` element appends its rule after the earlier ones, or throws exactly what building its rule throws |
| ForbidCertainMethodsLoader.FoldFromAccumulator | sevntu-checks/src/main/java/com/github/sevntu/checkstyle/checks/coding/ForbidCertainMethodsLoader.java:122-124 | loading into a non-empty list succeeds or fails as a fresh load does, and then yields that list followed by the fresh load's rules |
| ForbidCertainMethodsLoader.FoldDescribesElements | sevntu-checks/src/main/java/com/github/sevntu/checkstyle/checks/coding/ForbidCertainMethodsLoader.java:84-94 | the element fold succeeds if and only if every `ForbiddenMethod` element describes a rule, and then yields those rules position by position in document order |
| ForbidCertainMethodsLoader.FoldStopsAtFirstFaulty | sevntu-checks/src/main/java/com/github/sevntu/checkstyle/checks/coding/ForbidCertainMethodsLoader.java:84-94 | a failing fold fails with what the first faulty `ForbiddenMethod` element throws |
| ForbidCertainMethodsLoader.DescribeIsFirstCatchingClause | sevntu-checks/src/main/java/com/github/sevntu/checkstyle/checks/coding/ForbidCertainMethodsLoader.java:126-141 | every caught exception gets the message of the first catch clause, in source order, whose classes it is an instance of under Java's subclass relation |
| ForbidCertainMethodsLoader.FileNotFoundCaughtBeforeIo | sevntu-checks/src/main/java/com/github/sevntu/checkstyle/checks/coding/ForbidCertainMethodsLoader.java:126-135 | a `FileNotFoundException` is caught by both the file-not-found and the `IOException` clause, gets `Unable to find: <source>` from the first, and that differs from what the second would give |
| ForbidCertainMethodsLoader.DescribeDistinguishesKinds | sevntu-checks/src/main/java/com/github/sevntu/checkstyle/checks/coding/ForbidCertainMethodsLoader.java:126-141 | file-not-found, other I/O and number-format failures never share a message with a different class |
| ForbidCertainMethodsLoader.LoadConfigValue | sevntu-checks/src/main/java/com/github/sevntu/checkstyle/checks/coding/ForbidCertainMethodsLoader.java:119-141 | loading succeeds exactly when parsing does, with the parsed rule list; a caught exception becomes a `CheckstyleException` with its catch-clause message; a `PatternSyntaxException` propagates unmapped with its pattern error |
| ForbidCertainMethodsLoader.DocumentFaultIsDescribed | sevntu-checks/src/main/java/com/github/sevntu/checkstyle/checks/coding/ForbidCertainMethodsLoader.java:119-141 | a document whose elements all describe rules, but whose parser then raises an exception, fails with that exception's catch-clause message |
| ForbidCertainMethodsLoader.LoadYieldsDocumentRules | sevntu-checks/src/main/java/com/github/sevntu/checkstyle/checks/coding/ForbidCertainMethodsLoader.java:119-125 | loading succeeds if and only if the parser raises nothing and every `ForbiddenMethod` element describes a rule, and then returns those rules in document order |
| ForbidCertainMethodsLoader.MissingMethodNameAbortsLoad | sevntu-checks/src/main/java/com/github/sevntu/checkstyle/checks/coding/ForbidCertainMethodsLoader.java:88-132 | the first element without `methodName` aborts loading with `Unable to parse <source> - missing methodName attribute` |
| ForbidCertainMethodsLoader.InvalidPatternFailsAtLoad | sevntu-checks/src/main/java/com/github/sevntu/checkstyle/checks/coding/ForbidCertainMethodsLoader.java:92-93 | when the first faulty element has a `methodName`, its pattern error fails the load itself: unmapped as `Unchecked` for a `PatternSyntaxException`, as `UnsupportedPattern` for syntax outside the modelled subset |
| ForbidCertainMethodsLoader.LoadedRulesAreValid | sevntu-checks/src/main/java/com/github/sevntu/checkstyle/checks/coding/ForbidCertainMethodsLoader.java:92-93 | every loaded rule holds patterns compiled from the document's text, so matching never meets an invalid pattern |
| ForbidCertainMethodsScenarios.PlainElementRule | sevntu-checks/src/main/java/com/github/sevntu/checkstyle/checks/coding/ForbidCertainMethodsLoader.java:86-93 | an element with plain texts yields the rule matching exactly those texts; without `argCount` the rule has no count pattern |
| ForbidCertainMethodsScenarios.TestSetupLoadsRules | sevntu-checks/src/test/java/com/github/sevntu/checkstyle/checks/coding/ForbidCertainMethodsCheckTest.java:43-47 | with the configuration present, setup yields its four rules in document order, optional or not |
| ForbidCertainMethodsScenarios.TestDocumentLoads | sevntu-checks/src/test/java/com/github/sevntu/checkstyle/checks/coding/ForbidCertainMethodsCheckTest.java:45-47 | the configuration document loads to `exit`, `ForbiddenConstructor`/`1`, `assert(True|False)`/`1`, `exit2`, in that order |
| ForbidCertainMethodsScenarios.CountPatternOne | sevntu-checks/src/main/java/com/github/sevntu/checkstyle/checks/coding/ForbidCertainMethodsCheck.java:264-267 | the count pattern `1` accepts a call with one argument and no other count |
| ForbidCertainMethodsScenarios.SystemExitReported | sevntu-checks/src/test/java/com/github/sevntu/checkstyle/checks/coding/ForbidCertainMethodsCheckTest.java:49 | `System.exit(1)` is reported as `exit`/`exit` without a count |
| ForbidCertainMethodsScenarios.ForbiddenConstructorReported | sevntu-checks/src/test/java/com/github/sevntu/checkstyle/checks/coding/ForbidCertainMethodsCheckTest.java:50 | `new ForbiddenConstructor("oneArgument")` is reported with count 1 and count pattern `1` |
| ForbidCertainMethodsScenarios.OneArgumentAssertReported | sevntu-checks/src/test/java/com/github/sevntu/checkstyle/checks/coding/ForbidCertainMethodsCheckTest.java:51 | `Assert.assertTrue(1 != 2)` is reported under `assert(True|False)` with count 1 |
| ForbidCertainMethodsScenarios.TwoArgumentAssertNotReported | sevntu-checks/src/test/resources/com/github/sevntu/checkstyle/checks/coding/InputForbidCertainMethodsCheck.java:28 | the two-argument `assertTrue` is not reported |
| ForbidCertainMethodsScenarios.Exit2ReportedUnderItsOwnRule | sevntu-checks/src/test/java/com/github/sevntu/checkstyle/checks/coding/ForbidCertainMethodsCheckTest.java:52 | `ForbiddenMethods.exit2()` escapes the earlier rule `exit` and is reported under `exit2` |
| ForbidCertainMethodsScenarios.PlainCallNotReported | sevntu-checks/src/test/resources/com/github/sevntu/checkstyle/checks/coding/InputForbidCertainMethodsCheck.java:31 | the unqualified call `method("")` breaks no rule |
| ForbidCertainMethodsScenarios.ExitNowNotReported | sevntu-checks/src/main/java/com/github/sevntu/checkstyle/checks/coding/ForbidCertainMethodsCheck.java:265 | a call to `exitNow` breaks no rule, whatever its argument count |
| ForbidCertainMethodsScenarios.ArrayCreationNotReported | sevntu-checks/src/test/resources/com/github/sevntu/checkstyle/checks/coding/InputForbidCertainMethodsCheck.java:33 | `new int[4]` is not reported, even with a rule in front that matches every name and count |
| ForbidCertainMethodsScenarios.RequiredMissingFileFailsSetup | sevntu-checks/src/test/java/com/github/sevntu/checkstyle/checks/coding/ForbidCertainMethodsCheckTest.java:65-68 | a required file that does not exist fails setup with `Unable to find: <file>` |
| ForbidCertainMethodsScenarios.WrongConfigFailsSetup | sevntu-checks/src/test/java/com/github/sevntu/checkstyle/checks/coding/ForbidCertainMethodsCheckTest.java:78-86 | a required file that is not a configuration document fails setup with the parser's `Unable to parse` message |

## Left out

- XML parsing, DTD resolution and `AbstractLoader.parseInputSource` are library code. A `Document` stands for the events they deliver and the exception they raise.
- `configFileExists`, `CommonUtils.getUriByFilename`, URL handling and stream opening (ForbidCertainMethodsCheck.java:132-145, ForbidCertainMethodsLoader.java:104-109) are I/O. File existence is a boolean input. The `CheckstyleException` that `getUriByFilename` raises for an unusable file name is not modelled.
- JavaRegex.Compile: models only literal characters, `.`, `|`, groups and `*`. Pattern text with any other metacharacter of Java's syntax (`\ ^ $ ? + [ ] { }`) fails with `UnsupportedConstruct`, although Java accepts most such patterns. This keeps the regex engine, a foreign library, out of the model.
- Rules.Of: fails, with `UnsupportedConstruct`, on a pattern outside the modelled subset that Java compiles, such as `[0-9]` or `System\.exit`, because it relies on `JavaRegex.Compile`.
- ForbidCertainMethodsLoader.ElementRule: for such a pattern throws `BeyondSubset`, which stands for "outside the model" and is not a Java exception; Java would build the rule.
- ForbidCertainMethodsLoader.LoadConfigValue: fails with `UnsupportedPattern` on a document holding such a pattern, where Java would load it; `InvalidPatternFailsAtLoad` keeps that outcome apart from the `PatternSyntaxException` case.
- Line and column of a report, the message bundle and `log` belong to Checkstyle. A report is its key and arguments.
- The token arrays (`getDefaultTokens`, `getAcceptableTokens`, `getRequiredTokens`) are registration glue. `VisitToken` takes any node and ignores types other than METHOD_CALL and LITERAL_NEW.
- ForbidCertainMethodsCheck.VisitToken: requires a well-formed method-call node, one that has a callee and an argument list, and a qualified callee with at least one child. On other nodes the Java code throws a `NullPointerException`, and the parser never builds such nodes.
- ForbidCertainMethodsCheck.CallSiteOf: requires the same well-formed node as `VisitToken`, for the same reason.
- The configuration file of the check's own test is not part of this model. The scenarios assume it lists `exit`, `ForbiddenConstructor` with count `1`, `assert(True|False)` with count `1`, and `exit2`, in that order. That order is consistent with the four expected reports.
- Loading the same input twice gives equal rule lists because `LoadConfigValue` is a function. This needs no lemma. `FoldFromAccumulator` shows what the fresh loader prevents: a reused list would keep its old rules in front.
