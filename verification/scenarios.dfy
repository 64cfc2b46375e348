/** The check's own test, end to end: the rules of its configuration file
    and the call sites of its input file, each with the report it gets. */
module ForbidCertainMethodsScenarios {
  import opened Wrappers
  import opened JavaRegex
  import opened Decimal
  import opened Rules
  import opened Ast
  import opened ForbidCertainMethodsLoader
  import opened ForbidCertainMethodsCheck

  // ---------------------------------------------------------------------------
  // The configuration file
  // ---------------------------------------------------------------------------

  /** The pattern compiled from a text without metacharacters. */
  function PlainPattern(w: string): Pattern {
    Pattern(w, LiteralThen(w, Epsilon))
  }

  function PlainRule(w: string, count: Option<string>): Rule {
    Rule(PlainPattern(w), if count.Some? then Some(PlainPattern(count.value)) else None)
  }

  /** A `ForbiddenMethod` element with a `methodName` and, optionally, an `argCount`. */
  function MethodElement(name: string, count: Option<string>): Element {
    Element(FORBIDDEN_METHOD_ELEMENT,
      if count.Some? then map[METHOD_NAME_ATTRIBUTE := name, ARG_COUNT_ATTRIBUTE := count.value]
      else map[METHOD_NAME_ATTRIBUTE := name])
  }

  /** An element whose texts have no metacharacters describes the rule that
      matches exactly those texts. */
  lemma PlainElementRule(w: string, count: Option<string>)
    requires IsPlain(w)
    requires count.Some? ==> count.value != [] && IsPlain(count.value)
    ensures ElementRule(MethodElement(w, count)) == Success(PlainRule(w, count))
  {
    CompilePlain(w);
    if count.Some? {
      CompilePlain(count.value);
    }
  }

  /** An element whose name pattern is `w(a|b)`. */
  lemma GroupedElementRule(w: string, a: string, b: string, count: string)
    requires w != [] && a != [] && b != [] && IsPlain(w) && IsPlain(a) && IsPlain(b)
    requires count != [] && IsPlain(count)
    ensures ElementRule(MethodElement(w + "(" + a + "|" + b + ")", Some(count))) ==
      Success(Rule(Pattern(w + "(" + a + "|" + b + ")", GroupedChoice(w, a, b)), Some(PlainPattern(count))))
  {
    GroupedChoiceCompiles(w, a, b);
    CompilePlain(count);
  }

  const ExitRule := PlainRule("exit", None)
  const ConstructorRule := PlainRule("ForbiddenConstructor", Some("1"))
  /** The text `assert(True|False)`, spelled as the plain prefix and the two
      plain alternatives it is made of. */
  const AssertPattern := "assert" + "(" + "True" + "|" + "False" + ")"
  const AssertRule := Rule(Pattern(AssertPattern, GroupedChoice("assert", "True", "False")), Some(PlainPattern("1")))
  const Exit2Rule := PlainRule("exit2", None)

  const TestRules := [ExitRule, ConstructorRule, AssertRule, Exit2Rule]

  const MethodElements := [
    MethodElement("exit", None),
    MethodElement("ForbiddenConstructor", Some("1")),
    MethodElement(AssertPattern, Some("1")),
    MethodElement("exit2", None)
  ]

  /** The element events of the configuration file: the root element, then
      one `ForbiddenMethod` element per rule. */
  const TestDocument := Document([Element("ForbiddenMethods", map[])] + MethodElements, None)

  lemma ExitElementRule()
    ensures ElementRule(MethodElement("exit", None)) == Success(ExitRule)
  {
    PlainElementRule("exit", None);
  }

  lemma ConstructorElementRule()
    ensures ElementRule(MethodElement("ForbiddenConstructor", Some("1"))) == Success(ConstructorRule)
  {
    PlainElementRule("ForbiddenConstructor", Some("1"));
  }

  lemma AssertElementRule()
    ensures ElementRule(MethodElement(AssertPattern, Some("1"))) == Success(AssertRule)
  {
    GroupedElementRule("assert", "True", "False", "1");
  }

  lemma Exit2ElementRule()
    ensures ElementRule(MethodElement("exit2", None)) == Success(Exit2Rule)
  {
    PlainElementRule("exit2", None);
  }

  /** A run of `ForbiddenMethod` elements that all describe rules appends
      those rules, in order. */
  lemma {:induction false} FoldOfRuleElements(acc: seq<Rule>, es: seq<Element>, rules: seq<Rule>)
    requires |es| == |rules|
    requires forall i | 0 <= i < |es| :: es[i].qName == FORBIDDEN_METHOD_ELEMENT && ElementRule(es[i]) == Success(rules[i])
    ensures Fold(acc, es) == Success(acc + rules)
    decreases |es|
  {
    if es == [] {
      assert acc + rules == acc;
    } else {
      assert StartElement(acc, es[0]) == Success(acc + [rules[0]]);
      FoldOfRuleElements(acc + [rules[0]], es[1..], rules[1..]);
      assert acc + [rules[0]] + rules[1..] == acc + rules;
    }
  }

  lemma FoldOfFourRuleElements(e1: Element, e2: Element, e3: Element, e4: Element, r1: Rule, r2: Rule, r3: Rule, r4: Rule)
    requires e1.qName == FORBIDDEN_METHOD_ELEMENT && ElementRule(e1) == Success(r1)
    requires e2.qName == FORBIDDEN_METHOD_ELEMENT && ElementRule(e2) == Success(r2)
    requires e3.qName == FORBIDDEN_METHOD_ELEMENT && ElementRule(e3) == Success(r3)
    requires e4.qName == FORBIDDEN_METHOD_ELEMENT && ElementRule(e4) == Success(r4)
    ensures Fold([], [e1, e2, e3, e4]) == Success([r1, r2, r3, r4])
  {
    FoldOfRuleElements([], [e1, e2, e3, e4], [r1, r2, r3, r4]);
    assert [] + [r1, r2, r3, r4] == [r1, r2, r3, r4];
  }

  lemma MethodElementsFold()
    ensures Fold([], MethodElements) == Success(TestRules)
  {
    ExitElementRule();
    ConstructorElementRule();
    AssertElementRule();
    Exit2ElementRule();
    FoldOfFourRuleElements(MethodElement("exit", None), MethodElement("ForbiddenConstructor", Some("1")),
      MethodElement(AssertPattern, Some("1")), MethodElement("exit2", None),
      ExitRule, ConstructorRule, AssertRule, Exit2Rule);
  }

  /** The root element adds nothing. */
  lemma RootElementSkipped(es: seq<Element>)
    requires es == TestDocument.elements
    ensures Fold([], es) == Fold([], MethodElements)
  {
    assert es[1..] == MethodElements;
  }

  /** Loading the configuration yields its four rules, in document order. */
  lemma TestDocumentLoads(sourceName: string)
    ensures LoadConfigValue(TestDocument, sourceName) == Success(TestRules)
  {
    MethodElementsFold();
    RootElementSkipped(TestDocument.elements);
  }

  // ---------------------------------------------------------------------------
  // Setup
  // ---------------------------------------------------------------------------

  /** With the configuration file present, setup uses its four rules whether
      or not the file is optional. */
  lemma TestSetupLoadsRules(file: string, optional: bool)
    ensures FinishLocalSetup(Config(Some(file), optional), true, TestDocument) == Success(Some(TestRules))
  {
    TestDocumentLoads(file);
  }

  /** A required file that does not exist aborts setup with the loader's
      file-not-found message; existence is not even asked. */
  lemma RequiredMissingFileFailsSetup(file: string, fileExists: bool)
    ensures FinishLocalSetup(Config(Some(file), false), fileExists, Document([], Some(FileNotFound))) ==
      Failure(CheckstyleException(UNABLE_TO_FIND_ERROR_MESSAGE + file))
  {
  }

  /** A required file that is not a configuration document (a Java source
      file, say) aborts setup with the parser's message. */
  lemma WrongConfigFailsSetup(file: string, message: Option<string>)
    ensures FinishLocalSetup(Config(Some(file), false), true, Document([], Some(Sax(message)))) ==
      Failure(CheckstyleException("Unable to parse " + file + " - " + MessageText(message)))
  {
  }

  /** The count pattern `1` accepts one argument and no other count. */
  lemma CountPatternOne(n: nat)
    ensures FullMatch(LiteralThen("1", Epsilon), ToDecimalString(n)) <==> n == 1
  {
    LiteralMatchesExactly("1", ToDecimalString(n));
    assert ToDecimalString(1) == "1";
    DecimalInjective(n, 1);
  }

  // ---------------------------------------------------------------------------
  // The call sites of the input file
  // ---------------------------------------------------------------------------

  function Id(text: string): DetailAst {
    DetailAst(Ident, text, [])
  }

  /** An argument expression; what it contains does not matter to the check. */
  const Argument := DetailAst(Expr, "", [])
  const Separator := DetailAst(Comma, ",", [])
  const Close := DetailAst(RParen, ")", [])

  function Args(children: seq<DetailAst>): DetailAst {
    DetailAst(Elist, "", children)
  }

  function QualifiedCall(receiver: string, name: string, args: seq<DetailAst>): DetailAst {
    DetailAst(MethodCall, "(", [DetailAst(Dot, ".", [Id(receiver), Id(name)]), Args(args), Close])
  }

  function NewCall(typeName: string, args: seq<DetailAst>): DetailAst {
    DetailAst(LiteralNew, "new", [Id(typeName), DetailAst(LParen, "(", []), Args(args), Close])
  }

  const ArrayCreation := DetailAst(LiteralNew, "new", [DetailAst(LiteralInt, "int", []), DetailAst(ArrayDeclarator, "[", [Argument])])

  lemma OneArgumentCallSite(receiver: string, name: string)
    ensures CallSiteOf(QualifiedCall(receiver, name, [Argument])) == Some(CallSite(name, 1))
  {
    assert [Argument][..0] == [];
  }

  lemma TwoArgumentCallSite(receiver: string, name: string)
    ensures CallSiteOf(QualifiedCall(receiver, name, [Argument, Separator, Argument])) == Some(CallSite(name, 2))
  {
    CommasAreNotArguments(Id(name), Argument, Separator, Argument);
    assert ChildCount(Args([Argument, Separator, Argument]), Expr) ==
      CallSiteOf(DetailAst(MethodCall, "(", [Id(name), Args([Argument, Separator, Argument])])).value.argCount;
  }

  lemma OneArgumentNewSite(typeName: string)
    ensures CallSiteOf(NewCall(typeName, [Argument])) == Some(CallSite(typeName, 1))
  {
    assert NewCall(typeName, [Argument]).children[2].tokenType == Elist;
    assert [Argument][..0] == [];
  }

  /** A plain rule matches its own name, and its own count when it has one. */
  lemma PlainRuleMatches(w: string, count: Option<string>, name: string, c: string)
    ensures PlainRule(w, count).Matches(name, c) <==> name == w && (count.None? || c == count.value)
  {
    LiteralMatchesExactly(w, name);
    if count.Some? {
      LiteralMatchesExactly(count.value, c);
    }
  }

  /** `assert(True|False)` with count `1` matches the two assertion names with
      one argument and nothing else: not `assert`, not `assertNull`. */
  lemma AssertRuleMatches(name: string, c: string)
    ensures AssertRule.Matches(name, c) <==> (name == "assertTrue" || name == "assertFalse") && c == "1"
  {
    GroupedChoiceMatches("assert", "True", "False", name);
    LiteralMatchesExactly("1", c);
    assert "assert" + "True" == "assertTrue";
    assert "assert" + "False" == "assertFalse";
  }

  /** The rules of the configuration are tried in their order. */
  lemma FirstMatchOfFour(r0: Rule, r1: Rule, r2: Rule, r3: Rule, name: string, c: string)
    ensures FirstMatch([r0, r1, r2, r3], name, c) ==
      if r0.Matches(name, c) then Some(0)
      else if r1.Matches(name, c) then Some(1)
      else if r2.Matches(name, c) then Some(2)
      else if r3.Matches(name, c) then Some(3)
      else None
  {
    assert [r3][1..] == [];
    assert FirstMatch([r3], name, c) == if r3.Matches(name, c) then Some(0) else None;
    assert [r2, r3][1..] == [r3];
    assert FirstMatch([r2, r3], name, c) ==
      if r2.Matches(name, c) then Some(0) else if r3.Matches(name, c) then Some(1) else None;
    assert [r1, r2, r3][1..] == [r2, r3];
    assert FirstMatch([r1, r2, r3], name, c) ==
      if r1.Matches(name, c) then Some(0) else if r2.Matches(name, c) then Some(1)
      else if r3.Matches(name, c) then Some(2) else None;
    assert [r0, r1, r2, r3][1..] == [r1, r2, r3];
  }

  /** Which rules of the configuration a name and a rendered count match. */
  lemma TestRulesMatches(name: string, c: string)
    ensures ExitRule.Matches(name, c) <==> name == "exit"
    ensures ConstructorRule.Matches(name, c) <==> name == "ForbiddenConstructor" && c == "1"
    ensures AssertRule.Matches(name, c) <==> (name == "assertTrue" || name == "assertFalse") && c == "1"
    ensures Exit2Rule.Matches(name, c) <==> name == "exit2"
    ensures FirstMatch(TestRules, name, c) ==
      if ExitRule.Matches(name, c) then Some(0)
      else if ConstructorRule.Matches(name, c) then Some(1)
      else if AssertRule.Matches(name, c) then Some(2)
      else if Exit2Rule.Matches(name, c) then Some(3)
      else None
  {
    PlainRuleMatches("exit", None, name, c);
    PlainRuleMatches("ForbiddenConstructor", Some("1"), name, c);
    AssertRuleMatches(name, c);
    PlainRuleMatches("exit2", None, name, c);
    FirstMatchOfFour(ExitRule, ConstructorRule, AssertRule, Exit2Rule, name, c);
  }

  /** The decimal texts of the argument counts in the input file. */
  lemma SmallCounts()
    ensures ToDecimalString(0) == "0" && ToDecimalString(1) == "1" && ToDecimalString(2) == "2"
  {
  }

  // The `...Decision` lemmas below state the check's decision for one name
  // of the input file.  The name is a parameter fixed by `requires` rather
  // than written as a literal in the `ensures`: with a literal there, the
  // verifier would evaluate the whole pattern compilation and rule search
  // eagerly instead of through `TestRulesMatches`.

  /** `exit` with one argument is reported under `exit`, without a count. */
  lemma ExitDecision(name: string)
    requires name == "exit"
    ensures CheckForbiddenMethod(Some(TestRules), name, 1) == Some(Violation(MSG_KEY_WITHOUT_ARG, [Text(name), Text(name)]))
  {
    SmallCounts();
    TestRulesMatches(name, "1");
  }

  /** `System.exit(1)` breaks `exit`, which has no count pattern. */
  lemma SystemExitReported()
    ensures VisitToken(Some(TestRules), QualifiedCall("System", "exit", [Argument])) ==
      Some(Violation(MSG_KEY_WITHOUT_ARG, [Text("exit"), Text("exit")]))
  {
    OneArgumentCallSite("System", "exit");
    ExitDecision("exit");
  }

  /** `ForbiddenConstructor` with one argument is reported with its count. */
  lemma ConstructorDecision(name: string)
    requires name == "ForbiddenConstructor"
    ensures CheckForbiddenMethod(Some(TestRules), name, 1) ==
      Some(Violation(MSG_KEY_WITH_ARG, [Text(name), Text(name), Count(1), Text("1")]))
  {
    SmallCounts();
    TestRulesMatches(name, "1");
  }

  /** `new ForbiddenConstructor("oneArgument")` breaks the constructor rule,
      reported with its count. */
  lemma ForbiddenConstructorReported()
    ensures VisitToken(Some(TestRules), NewCall("ForbiddenConstructor", [Argument])) ==
      Some(Violation(MSG_KEY_WITH_ARG, [Text("ForbiddenConstructor"), Text("ForbiddenConstructor"), Count(1), Text("1")]))
  {
    OneArgumentNewSite("ForbiddenConstructor");
    ConstructorDecision("ForbiddenConstructor");
  }

  /** `assertTrue` with one argument is reported under `assert(True|False)`. */
  lemma OneArgumentAssertDecision(name: string)
    requires name == "assertTrue"
    ensures CheckForbiddenMethod(Some(TestRules), name, 1) ==
      Some(Violation(MSG_KEY_WITH_ARG, [Text(name), Text(AssertPattern), Count(1), Text("1")]))
  {
    SmallCounts();
    TestRulesMatches(name, "1");
  }

  /** `assertTrue` with two arguments fails the count pattern `1`. */
  lemma TwoArgumentAssertDecision(name: string)
    requires name == "assertTrue"
    ensures CheckForbiddenMethod(Some(TestRules), name, 2).None?
  {
    SmallCounts();
    TestRulesMatches(name, "2");
  }

  /** `Assert.assertTrue(1 != 2)` breaks `assert(True|False)` with one argument. */
  lemma OneArgumentAssertReported()
    ensures VisitToken(Some(TestRules), QualifiedCall("Assert", "assertTrue", [Argument])) ==
      Some(Violation(MSG_KEY_WITH_ARG, [Text("assertTrue"), Text(AssertPattern), Count(1), Text("1")]))
  {
    OneArgumentCallSite("Assert", "assertTrue");
    OneArgumentAssertDecision("assertTrue");
  }

  /** `Assert.assertTrue("Good assert with some reason.", true)` has two
      arguments, so the count pattern `1` lets it through. */
  lemma TwoArgumentAssertNotReported()
    ensures VisitToken(Some(TestRules), QualifiedCall("Assert", "assertTrue", [Argument, Separator, Argument])).None?
  {
    TwoArgumentCallSite("Assert", "assertTrue");
    TwoArgumentAssertDecision("assertTrue");
  }

  /** `exit2` escapes `exit` by anchoring and is reported under its own rule. */
  lemma Exit2Decision(name: string)
    requires name == "exit2"
    ensures CheckForbiddenMethod(Some(TestRules), name, 0) == Some(Violation(MSG_KEY_WITHOUT_ARG, [Text(name), Text(name)]))
  {
    SmallCounts();
    TestRulesMatches(name, "0");
  }

  /** `ForbiddenMethods.exit2()` is not caught by `exit`, which must match the
      whole name, but by the later rule `exit2`. */
  lemma Exit2ReportedUnderItsOwnRule()
    ensures VisitToken(Some(TestRules), QualifiedCall("ForbiddenMethods", "exit2", [])) ==
      Some(Violation(MSG_KEY_WITHOUT_ARG, [Text("exit2"), Text("exit2")]))
  {
    assert CallSiteOf(QualifiedCall("ForbiddenMethods", "exit2", [])) == Some(CallSite("exit2", 0));
    Exit2Decision("exit2");
  }

  /** `method` matches no rule. */
  lemma PlainCallDecision(name: string)
    requires name == "method"
    ensures CheckForbiddenMethod(Some(TestRules), name, 1).None?
  {
    SmallCounts();
    TestRulesMatches(name, "1");
  }

  /** `method("")` breaks no rule. */
  lemma PlainCallNotReported()
    ensures VisitToken(Some(TestRules), DetailAst(MethodCall, "(", [Id("method"), Args([Argument]), Close])).None?
  {
    assert [Argument][..0] == [];
    assert CallSiteOf(DetailAst(MethodCall, "(", [Id("method"), Args([Argument]), Close])) == Some(CallSite("method", 1));
    PlainCallDecision("method");
  }

  /** Anchoring at work: `exitNow` contains `exit` and `exit2` shares its first
      four letters, yet no rule matches it, whatever the argument count. */
  lemma ExitNowNotReported(name: string, argCount: nat)
    requires name == "exitNow"
    ensures CheckForbiddenMethod(Some(TestRules), name, argCount).None?
  {
    TestRulesMatches(name, ToDecimalString(argCount));
  }

  /** `new int[4]` is no constructor call: it is never reported, even under a
      rule that would match any name and any count. */
  lemma ArrayCreationNotReported()
    ensures VisitToken(Some([Rule(Pattern(".*", Star(AnyChar)), None)] + TestRules), ArrayCreation).None?
  {
    assert forall i | 0 <= i < |ArrayCreation.children| :: ArrayCreation.children[i].tokenType != Elist;
  }
}
