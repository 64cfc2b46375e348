/** `ForbidCertainMethodsLoader`: turns the element events of a
    forbidden-methods configuration document into an ordered rule list, and
    maps the exceptions raised while loading to configuration errors.

    The XML parser is not modelled: a document is the sequence of start-element
    events it delivers, followed by the exception it raises, if any. */
module ForbidCertainMethodsLoader {
  import opened Wrappers
  import opened JavaRegex
  import opened Rules

  const FORBIDDEN_METHOD_ELEMENT := "ForbiddenMethod"
  const METHOD_NAME_ATTRIBUTE := "methodName"
  const ARG_COUNT_ATTRIBUTE := "argCount"
  const MISSING_METHOD_NAME_MESSAGE := "missing methodName attribute"
  const UNABLE_TO_FIND_ERROR_MESSAGE := "Unable to find: "

  /** One `startElement` event: the qualified name and the attributes present. */
  datatype Element = Element(qName: string, attributes: map<string, string>) {
    /** `Attributes.getValue(name)`: null when the attribute is absent. */
    function GetValue(name: string): Option<string> {
      if name in attributes then Some(attributes[name]) else None
    }
  }

  /** The checked exceptions `loadConfigValue` catches.  A message is `None`
      when `getMessage()` returns null. */
  datatype JavaException =
    | FileNotFound                                   // java.io.FileNotFoundException
    | OtherIo                                        // any other java.io.IOException
    | ParserConfiguration(message: Option<string>)   // ParserConfigurationException
    | Sax(message: Option<string>)                   // org.xml.sax.SAXException
    | NumberFormat(message: Option<string>)          // NumberFormatException

  /** What parsing a document throws: one of the caught exceptions, or a
      `PatternSyntaxException`, which no catch clause names.  `BeyondSubset`
      is a pattern written in syntax this model does not compile: Java may
      well accept it, so the model claims no outcome for it. */
  datatype Thrown =
    | Checked(exception: JavaException)
    | PatternSyntaxException(error: PatternError)
    | BeyondSubset(error: PatternError)

  /** The events the parser delivers for one input source, and the exception
      it raises after them (an unreadable or malformed document), if any. */
  datatype Document = Document(elements: seq<Element>, fault: Option<JavaException>)

  /** How loading fails, as the caller of `loadConfigValue` sees it. */
  datatype LoadError =
    | CheckstyleException(message: string)   // a caught exception, mapped to a message
    | Unchecked(error: PatternError)         // a PatternSyntaxException, propagated as is
    | UnsupportedPattern(error: PatternError) // a pattern outside the modelled syntax

  // ---------------------------------------------------------------------------
  // startElement
  // ---------------------------------------------------------------------------

  /** The rule one `ForbiddenMethod` element describes, or what building it throws. */
  function ElementRule(e: Element): (r: Result<Rule, Thrown>)
    ensures r.Success? <==>
      e.GetValue(METHOD_NAME_ATTRIBUTE).Some?
      && Of(e.GetValue(METHOD_NAME_ATTRIBUTE).value, e.GetValue(ARG_COUNT_ATTRIBUTE)).Success?
    ensures r.Success? ==>
      r.value == Of(e.GetValue(METHOD_NAME_ATTRIBUTE).value, e.GetValue(ARG_COUNT_ATTRIBUTE)).value
    ensures e.GetValue(METHOD_NAME_ATTRIBUTE).None? ==>
      r == Failure(Checked(Sax(Some(MISSING_METHOD_NAME_MESSAGE))))
    ensures r.Failure? && e.GetValue(METHOD_NAME_ATTRIBUTE).Some? ==>
      && (r.error.PatternSyntaxException? || r.error.BeyondSubset?)
      && r.error.error == Of(e.GetValue(METHOD_NAME_ATTRIBUTE).value, e.GetValue(ARG_COUNT_ATTRIBUTE)).error
      && (r.error.BeyondSubset? <==> r.error.error.kind == UnsupportedConstruct)
  {
    match e.GetValue(METHOD_NAME_ATTRIBUTE)
    case None => Failure(Checked(Sax(Some(MISSING_METHOD_NAME_MESSAGE))))
    case Some(methodName) =>
      match Of(methodName, e.GetValue(ARG_COUNT_ATTRIBUTE))
      case Success(rule) => Success(rule)
      case Failure(pe) =>
        if pe.kind == UnsupportedConstruct then Failure(BeyondSubset(pe)) else Failure(PatternSyntaxException(pe))
  }

  /** `startElement`: a `ForbiddenMethod` element appends its rule to the list;
      any other element leaves the list as it is. */
  function StartElement(ruleList: seq<Rule>, e: Element): (r: Result<seq<Rule>, Thrown>)
    ensures e.qName != FORBIDDEN_METHOD_ELEMENT ==> r == Success(ruleList)
    ensures e.qName == FORBIDDEN_METHOD_ELEMENT ==> (r.Success? <==> ElementRule(e).Success?)
    ensures r.Success? && e.qName == FORBIDDEN_METHOD_ELEMENT ==>
      |r.value| == |ruleList| + 1 && r.value[..|ruleList|] == ruleList
      && r.value[|ruleList|] == ElementRule(e).value
    ensures r.Failure? ==> e.qName == FORBIDDEN_METHOD_ELEMENT && r.error == ElementRule(e).error
  {
    if e.qName == FORBIDDEN_METHOD_ELEMENT then
      match ElementRule(e)
      case Success(rule) => assert (ruleList + [rule])[..|ruleList|] == ruleList; Success(ruleList + [rule])
      case Failure(t) => Failure(t)
    else
      Success(ruleList)
  }

  /** The parser delivering `elements` in document order to `startElement`,
      stopping at the first exception the handler throws. */
  function Fold(ruleList: seq<Rule>, elements: seq<Element>): Result<seq<Rule>, Thrown>
    decreases |elements|
  {
    if elements == [] then Success(ruleList)
    else
      match StartElement(ruleList, elements[0])
      case Failure(t) => Failure(t)
      case Success(next) => Fold(next, elements[1..])
  }

  /** `parseInputSource` on a fresh loader, whose rule list starts empty. */
  function ParseInputSource(doc: Document): Result<seq<Rule>, Thrown> {
    match Fold([], doc.elements)
    case Failure(t) => Failure(t)
    case Success(rules) =>
      if doc.fault.Some? then Failure(Checked(doc.fault.value)) else Success(rules)
  }

  // ---------------------------------------------------------------------------
  // loadConfigValue
  // ---------------------------------------------------------------------------

  /** `String.format("%s", message)` renders a null message as `null`. */
  function MessageText(message: Option<string>): string {
    if message.Some? then message.value else "null"
  }

  /** The Java classes the catch clauses of `loadConfigValue` name. */
  datatype ExceptionClass =
    | FileNotFoundExceptionClass
    | IoExceptionClass
    | ParserConfigurationExceptionClass
    | SaxExceptionClass
    | NumberFormatExceptionClass

  /** The class an exception is an instance of at run time. */
  function ClassOf(e: JavaException): ExceptionClass {
    match e
    case FileNotFound => FileNotFoundExceptionClass
    case OtherIo => IoExceptionClass
    case ParserConfiguration(_) => ParserConfigurationExceptionClass
    case Sax(_) => SaxExceptionClass
    case NumberFormat(_) => NumberFormatExceptionClass
  }

  /** Java's subclass relation among these classes: `FileNotFoundException`
      extends `IOException`; the others are unrelated. */
  predicate SubclassOf(c: ExceptionClass, d: ExceptionClass) {
    c == d || (c == FileNotFoundExceptionClass && d == IoExceptionClass)
  }

  /** `e instanceof d`. */
  predicate InstanceOf(e: JavaException, d: ExceptionClass) {
    SubclassOf(ClassOf(e), d)
  }

  /** `getMessage()` of the exceptions whose message a handler prints. */
  function MessageOf(e: JavaException): Option<string> {
    if e.FileNotFound? || e.OtherIo? then None else e.message
  }

  /** The body of a catch clause: the message of the `CheckstyleException` it throws. */
  datatype Handler = UnableToFind | UnableToParse | UnableToRead | NumberFormatMessage

  /** `catch (C1 | C2 ex) { handler }`. */
  datatype CatchClause = CatchClause(classes: seq<ExceptionClass>, handler: Handler)

  /** The catch clauses of `loadConfigValue`, in source order. */
  const CATCH_CLAUSES: seq<CatchClause> := [
    CatchClause([FileNotFoundExceptionClass], UnableToFind),
    CatchClause([ParserConfigurationExceptionClass, SaxExceptionClass], UnableToParse),
    CatchClause([IoExceptionClass], UnableToRead),
    CatchClause([NumberFormatExceptionClass], NumberFormatMessage)
  ]

  /** `e` is an instance of one of `classes`. */
  predicate InstanceOfAny(e: JavaException, classes: seq<ExceptionClass>) {
    classes != [] && (InstanceOf(e, classes[0]) || InstanceOfAny(e, classes[1..]))
  }

  /** A clause naming one or two classes catches exactly their instances. */
  lemma InstanceOfShortList(e: JavaException, classes: seq<ExceptionClass>)
    requires 1 <= |classes| <= 2
    ensures InstanceOfAny(e, classes) <==>
      InstanceOf(e, classes[0]) || (|classes| == 2 && InstanceOf(e, classes[1]))
  {
    if |classes| == 1 {
      assert classes[1..] == [];
    } else {
      assert classes[1..][1..] == [];
    }
  }

  predicate Catches(clause: CatchClause, e: JavaException) {
    InstanceOfAny(e, clause.classes)
  }

  /** The clause the JVM runs for `e`: the first whose classes `e` is an instance of. */
  function FirstCatching(clauses: seq<CatchClause>, e: JavaException): (r: Option<nat>)
    ensures r.Some? ==> r.value < |clauses| && Catches(clauses[r.value], e)
    ensures r.Some? ==> forall j | 0 <= j < r.value :: !Catches(clauses[j], e)
    ensures r.None? <==> forall j | 0 <= j < |clauses| :: !Catches(clauses[j], e)
  {
    if clauses == [] then None
    else if Catches(clauses[0], e) then Some(0)
    else
      match FirstCatching(clauses[1..], e)
      case None => None
      case Some(k) => assert forall j | 1 <= j < |clauses| :: clauses[j] == clauses[1..][j - 1]; Some(k + 1)
  }

  /** The message a handler formats for `sourceName`. */
  function HandlerMessage(h: Handler, sourceName: string, message: Option<string>): string {
    match h
    case UnableToFind => UNABLE_TO_FIND_ERROR_MESSAGE + sourceName
    case UnableToParse => "Unable to parse " + sourceName + " - " + MessageText(message)
    case UnableToRead => "Unable to read " + sourceName
    case NumberFormatMessage => "Number format exception " + sourceName + " - " + MessageText(message)
  }

  /** The message `loadConfigValue` gives a caught exception, one arm per
      exception class.  That it is the message of the first catch clause
      that catches the exception is `DescribeIsFirstCatchingClause`. */
  function Describe(sourceName: string, e: JavaException): (msg: string)
  {
    match e
    case FileNotFound => UNABLE_TO_FIND_ERROR_MESSAGE + sourceName
    case ParserConfiguration(m) => "Unable to parse " + sourceName + " - " + MessageText(m)
    case Sax(m) => "Unable to parse " + sourceName + " - " + MessageText(m)
    case OtherIo => "Unable to read " + sourceName
    case NumberFormat(m) => "Number format exception " + sourceName + " - " + MessageText(m)
  }

  /** Every caught exception is described by the first catch clause, in
      source order, whose classes it is an instance of. */
  lemma DescribeIsFirstCatchingClause(sourceName: string, e: JavaException)
    ensures FirstCatching(CATCH_CLAUSES, e).Some?
    ensures Describe(sourceName, e) ==
      HandlerMessage(CATCH_CLAUSES[FirstCatching(CATCH_CLAUSES, e).value].handler, sourceName, MessageOf(e))
  {
    var c0, c1, c2, c3 := CATCH_CLAUSES[0], CATCH_CLAUSES[1], CATCH_CLAUSES[2], CATCH_CLAUSES[3];
    assert CATCH_CLAUSES[1..][1..][1..] == [c3];
    InstanceOfShortList(e, c0.classes);
    InstanceOfShortList(e, c1.classes);
    InstanceOfShortList(e, c2.classes);
    InstanceOfShortList(e, c3.classes);
    match e
    case FileNotFound =>
      assert Catches(c0, e);
    case OtherIo =>
      assert !Catches(c0, e) && !Catches(c1, e) && Catches(c2, e);
    case ParserConfiguration(_) =>
      assert !Catches(c0, e) && Catches(c1, e);
    case Sax(_) =>
      assert !Catches(c0, e) && Catches(c1, e);
    case NumberFormat(_) =>
      assert !Catches(c0, e) && !Catches(c1, e) && !Catches(c2, e) && Catches(c3, e);
  }

  /** The order of the clauses matters: a `FileNotFoundException` is also an
      `IOException`, so the general I/O clause would catch it too, with a
      different message, were it not placed after the file-not-found clause. */
  lemma FileNotFoundCaughtBeforeIo(sourceName: string)
    ensures Catches(CATCH_CLAUSES[0], FileNotFound) && Catches(CATCH_CLAUSES[2], FileNotFound)
    ensures Describe(sourceName, FileNotFound) == UNABLE_TO_FIND_ERROR_MESSAGE + sourceName
    ensures Describe(sourceName, FileNotFound) != HandlerMessage(CATCH_CLAUSES[2].handler, sourceName, None)
  {
  }

  /** The message tells the exception classes apart: the file-not-found case
      never reads like the general I/O case, and neither reads like a parse or
      number-format failure. */
  lemma DescribeDistinguishesKinds(sourceName: string, e1: JavaException, e2: JavaException)
    requires e1.FileNotFound? != e2.FileNotFound? || e1.OtherIo? != e2.OtherIo? || e1.NumberFormat? != e2.NumberFormat?
    ensures Describe(sourceName, e1) != Describe(sourceName, e2)
  {
    var m1, m2 := Describe(sourceName, e1), Describe(sourceName, e2);
    assert m1[0] == 'N' <==> e1.NumberFormat?;
    assert m2[0] == 'N' <==> e2.NumberFormat?;
    if !e1.NumberFormat? && !e2.NumberFormat? {
      assert m1[10] == 'f' <==> e1.FileNotFound?;
      assert m2[10] == 'f' <==> e2.FileNotFound?;
      assert m1[10] == 'r' <==> e1.OtherIo?;
      assert m2[10] == 'r' <==> e2.OtherIo?;
    }
  }

  /** `loadConfigValue(source, sourceName)`: the rules of the document, or the
      caught exception turned into a `CheckstyleException` message. */
  function LoadConfigValue(doc: Document, sourceName: string): (r: Result<seq<Rule>, LoadError>)
    ensures r.Success? <==> ParseInputSource(doc).Success?
    ensures r.Success? ==> r.value == ParseInputSource(doc).value
    ensures ParseInputSource(doc).Failure? && ParseInputSource(doc).error.Checked? ==>
      r == Failure(CheckstyleException(Describe(sourceName, ParseInputSource(doc).error.exception)))
    ensures ParseInputSource(doc).Failure? && ParseInputSource(doc).error.PatternSyntaxException? ==>
      r == Failure(Unchecked(ParseInputSource(doc).error.error))
    ensures ParseInputSource(doc).Failure? && ParseInputSource(doc).error.BeyondSubset? ==>
      r == Failure(UnsupportedPattern(ParseInputSource(doc).error.error))
  {
    match ParseInputSource(doc)
    case Success(rules) => Success(rules)
    case Failure(Checked(e)) => Failure(CheckstyleException(Describe(sourceName, e)))
    case Failure(PatternSyntaxException(pe)) => Failure(Unchecked(pe))
    case Failure(BeyondSubset(pe)) => Failure(UnsupportedPattern(pe))
  }

  // ---------------------------------------------------------------------------
  // What loading produces
  // ---------------------------------------------------------------------------

  /** The `ForbiddenMethod` elements of a document, in document order. */
  function ForbiddenMethods(elements: seq<Element>): (fm: seq<Element>)
    ensures |fm| <= |elements|
    ensures forall i | 0 <= i < |fm| :: fm[i].qName == FORBIDDEN_METHOD_ELEMENT
  {
    if elements == [] then []
    else if elements[0].qName == FORBIDDEN_METHOD_ELEMENT then [elements[0]] + ForbiddenMethods(elements[1..])
    else ForbiddenMethods(elements[1..])
  }

  /** Every `ForbiddenMethod` element describes a rule. */
  predicate AllDescribeRules(elements: seq<Element>) {
    forall i | 0 <= i < |elements| :: elements[i].qName == FORBIDDEN_METHOD_ELEMENT ==> ElementRule(elements[i]).Success?
  }

  /** `rules` is, position by position, the rules of the `ForbiddenMethod`
      elements of `elements`. */
  predicate RulesOf(rules: seq<Rule>, elements: seq<Element>) {
    var fm := ForbiddenMethods(elements);
    |rules| == |fm| && forall i | 0 <= i < |fm| :: ElementRule(fm[i]) == Success(rules[i])
  }

  /** The element at which loading aborts: the first `ForbiddenMethod` element
      that describes no rule. */
  predicate FirstFaulty(elements: seq<Element>, i: int) {
    && 0 <= i < |elements|
    && elements[i].qName == FORBIDDEN_METHOD_ELEMENT && ElementRule(elements[i]).Failure?
    && AllDescribeRules(elements[..i])
  }

  /** The fold appends to the list it starts from and never reads it, so a
      fresh loader yields exactly the rules of the document. */
  lemma {:induction false} FoldFromAccumulator(acc: seq<Rule>, elements: seq<Element>)
    ensures Fold(acc, elements).Success? <==> Fold([], elements).Success?
    ensures Fold(acc, elements).Success? ==> Fold(acc, elements).value == acc + Fold([], elements).value
    ensures Fold(acc, elements).Failure? ==> Fold(acc, elements) == Fold([], elements)
    decreases |elements|
  {
    if elements != [] {
      var e := elements[0];
      if e.qName == FORBIDDEN_METHOD_ELEMENT && ElementRule(e).Success? {
        var rule := ElementRule(e).value;
        FoldFromAccumulator(acc + [rule], elements[1..]);
        FoldFromAccumulator([rule], elements[1..]);
        assert [] + [rule] == [rule];
        if Fold([], elements[1..]).Success? {
          var rs := Fold([], elements[1..]).value;
          assert acc + [rule] + rs == acc + ([rule] + rs);
        }
      } else {
        FoldFromAccumulator(acc, elements[1..]);
      }
    }
  }

  /** The fold succeeds exactly when every `ForbiddenMethod` element describes a
      rule, and then yields those rules in document order. */
  lemma {:induction false} FoldDescribesElements(elements: seq<Element>)
    ensures Fold([], elements).Success? <==> AllDescribeRules(elements)
    ensures Fold([], elements).Success? ==> RulesOf(Fold([], elements).value, elements)
  {
    if elements != [] {
      var e := elements[0];
      var rest := elements[1..];
      FoldDescribesElements(rest);
      assert forall i | 1 <= i < |elements| :: elements[i] == rest[i - 1];
      assert AllDescribeRules(elements) <==>
        (e.qName == FORBIDDEN_METHOD_ELEMENT ==> ElementRule(e).Success?) && AllDescribeRules(rest);
      if e.qName == FORBIDDEN_METHOD_ELEMENT && ElementRule(e).Success? {
        var rule := ElementRule(e).value;
        FoldFromAccumulator([rule], rest);
        if Fold([], rest).Success? {
          var rs := Fold([], rest).value;
          var fm := ForbiddenMethods(rest);
          assert ForbiddenMethods(elements) == [e] + fm;
          assert forall i | 1 <= i < |fm| + 1 :: ([e] + fm)[i] == fm[i - 1] && ([rule] + rs)[i] == rs[i - 1];
        }
      } else if e.qName != FORBIDDEN_METHOD_ELEMENT {
        assert ForbiddenMethods(elements) == ForbiddenMethods(rest);
      }
    }
  }

  /** When the fold fails, it fails with what the first faulty element throws. */
  lemma {:induction false} FoldStopsAtFirstFaulty(elements: seq<Element>)
    ensures Fold([], elements).Failure? ==>
      exists i :: FirstFaulty(elements, i) && Fold([], elements).error == ElementRule(elements[i]).error
  {
    if elements != [] && Fold([], elements).Failure? {
      var e := elements[0];
      var rest := elements[1..];
      if e.qName == FORBIDDEN_METHOD_ELEMENT && ElementRule(e).Failure? {
        assert FirstFaulty(elements, 0);
      } else {
        FoldStopsAtFirstFaulty(rest);
        if e.qName == FORBIDDEN_METHOD_ELEMENT {
          FoldFromAccumulator([ElementRule(e).value], rest);
        }
        var i :| FirstFaulty(rest, i) && Fold([], rest).error == ElementRule(rest[i]).error;
        assert elements[i + 1] == rest[i];
        assert elements[..i + 1] == [e] + rest[..i];
        assert forall k | 0 <= k < i :: elements[..i + 1][k + 1] == rest[..i][k];
        assert FirstFaulty(elements, i + 1);
      }
    }
  }

  /** Loading a document: it succeeds exactly when the document raises nothing
      and every `ForbiddenMethod` element describes a rule, and then returns
      those rules in document order. */
  lemma LoadYieldsDocumentRules(doc: Document, sourceName: string)
    ensures LoadConfigValue(doc, sourceName).Success? <==>
      doc.fault.None? && AllDescribeRules(doc.elements)
    ensures LoadConfigValue(doc, sourceName).Success? ==>
      RulesOf(LoadConfigValue(doc, sourceName).value, doc.elements)
  {
    FoldDescribesElements(doc.elements);
  }

  /** A document whose elements all describe rules, but whose parser then
      raises an exception, fails with that exception's catch-clause message. */
  lemma DocumentFaultIsDescribed(doc: Document, sourceName: string)
    requires AllDescribeRules(doc.elements)
    requires doc.fault.Some?
    ensures LoadConfigValue(doc, sourceName) == Failure(CheckstyleException(Describe(sourceName, doc.fault.value)))
  {
    FoldDescribesElements(doc.elements);
  }

  /** Only one element can be the first faulty one. */
  lemma FirstFaultyUnique(elements: seq<Element>, i: int, j: int)
    requires FirstFaulty(elements, i) && FirstFaulty(elements, j)
    ensures i == j
  {
  }

  /** A `ForbiddenMethod` element without `methodName` aborts loading with a
      message naming the source, unless an earlier element already aborted it. */
  lemma MissingMethodNameAbortsLoad(doc: Document, sourceName: string, i: nat)
    requires i < |doc.elements|
    requires doc.elements[i].qName == FORBIDDEN_METHOD_ELEMENT
    requires METHOD_NAME_ATTRIBUTE !in doc.elements[i].attributes
    requires AllDescribeRules(doc.elements[..i])
    ensures LoadConfigValue(doc, sourceName) ==
      Failure(CheckstyleException("Unable to parse " + sourceName + " - " + MISSING_METHOD_NAME_MESSAGE))
  {
    assert FirstFaulty(doc.elements, i);
    assert !AllDescribeRules(doc.elements);
    FoldDescribesElements(doc.elements);
    FoldStopsAtFirstFaulty(doc.elements);
    var j :| FirstFaulty(doc.elements, j) && Fold([], doc.elements).error == ElementRule(doc.elements[j]).error;
    FirstFaultyUnique(doc.elements, i, j);
    assert ParseInputSource(doc) == Failure(Checked(Sax(Some(MISSING_METHOD_NAME_MESSAGE))));
  }

  /** A pattern that does not compile fails the load itself, as an unchecked
      `PatternSyntaxException` carrying that pattern's error: no rule list with
      an invalid pattern exists.  A pattern outside the modelled syntax fails
      as `UnsupportedPattern`, never as a `PatternSyntaxException`. */
  lemma InvalidPatternFailsAtLoad(doc: Document, sourceName: string, i: nat)
    requires FirstFaulty(doc.elements, i)
    requires METHOD_NAME_ATTRIBUTE in doc.elements[i].attributes
    ensures ElementRule(doc.elements[i]).error.PatternSyntaxException? ==>
      LoadConfigValue(doc, sourceName) == Failure(Unchecked(ElementRule(doc.elements[i]).error.error))
    ensures ElementRule(doc.elements[i]).error.BeyondSubset? ==>
      LoadConfigValue(doc, sourceName) == Failure(UnsupportedPattern(ElementRule(doc.elements[i]).error.error))
  {
    assert !AllDescribeRules(doc.elements);
    FoldDescribesElements(doc.elements);
    FoldStopsAtFirstFaulty(doc.elements);
    var j :| FirstFaulty(doc.elements, j) && Fold([], doc.elements).error == ElementRule(doc.elements[j]).error;
    FirstFaultyUnique(doc.elements, i, j);
  }

  /** Every rule a successful load returns carries patterns compiled from the
      document's own text, so matching with it cannot raise a pattern error. */
  lemma LoadedRulesAreValid(doc: Document, sourceName: string)
    requires LoadConfigValue(doc, sourceName).Success?
    ensures forall r | r in LoadConfigValue(doc, sourceName).value :: r.Valid()
  {
    LoadYieldsDocumentRules(doc, sourceName);
    var rules := LoadConfigValue(doc, sourceName).value;
    var fm := ForbiddenMethods(doc.elements);
    forall r | r in rules ensures r.Valid() {
      var i :| 0 <= i < |rules| && rules[i] == r;
      assert ElementRule(fm[i]) == Success(rules[i]);
    }
  }
}
