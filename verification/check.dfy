/** `ForbidCertainMethodsCheck`: extracts the called name and argument count
    from a method call or `new` expression, looks up the first rule that
    matches, and reports it in one of two message shapes.  `finishLocalSetup`
    decides where the rule list comes from. */
module ForbidCertainMethodsCheck {
  import opened Wrappers
  import opened Decimal
  import opened Rules
  import opened Ast
  import opened ForbidCertainMethodsLoader

  const MSG_KEY_WITH_ARG := "forbid.certain.methods"
  const MSG_KEY_WITHOUT_ARG := "forbid.certain.methods.noarg"

  /** An argument of a `log` call: a string, a pattern (printed as its source
      text) or the argument count. */
  datatype MessageArg = Text(text: string) | Count(count: nat)

  /** One `log` call: the message key and its arguments.  Line and column are
      the host's and are not modelled. */
  datatype Violation = Violation(key: string, args: seq<MessageArg>)

  /** `v` reports `rule` as the rule broken by a call to `name` with
      `argCount` arguments: the count and the count pattern appear exactly
      when the rule constrains the count. */
  predicate Reports(v: Violation, name: string, argCount: nat, rule: Rule) {
    && |v.args| >= 2
    && v.args[0] == Text(name)
    && v.args[1] == Text(rule.nameRegex.source)
    && (rule.argCountRegex.Some? <==> v.key == MSG_KEY_WITH_ARG)
    && (rule.argCountRegex.None? <==> v.key == MSG_KEY_WITHOUT_ARG)
    && (rule.argCountRegex.Some? ==> v.args[2..] == [Count(argCount), Text(rule.argCountRegex.value.source)])
    && (rule.argCountRegex.None? ==> |v.args| == 2)
  }

  /** `checkForbiddenMethod`: the report for the earliest rule in list order
      that matches the name and the decimal argument count; nothing when no
      rule matches or when no rule list was ever set up. */
  function CheckForbiddenMethod(rules: Option<seq<Rule>>, name: string, argCount: nat): (r: Option<Violation>)
    ensures rules.None? ==> r.None?
    ensures rules.Some? ==>
      (r.Some? <==> exists i | 0 <= i < |rules.value| :: rules.value[i].Matches(name, ToDecimalString(argCount)))
    ensures r.Some? ==> exists i | 0 <= i < |rules.value| ::
      && rules.value[i].Matches(name, ToDecimalString(argCount))
      && (forall j | 0 <= j < i :: !rules.value[j].Matches(name, ToDecimalString(argCount)))
      && Reports(r.value, name, argCount, rules.value[i])
  {
    var argCountStr := ToDecimalString(argCount);
    if rules.None? then None
    else
      match FirstMatch(rules.value, name, argCountStr)
      case None => None
      case Some(i) =>
        var violation := rules.value[i];
        if violation.argCountRegex.Some? then
          Some(Violation(MSG_KEY_WITH_ARG,
            [Text(name), Text(violation.nameRegex.source), Count(argCount), Text(violation.argCountRegex.value.source)]))
        else
          Some(Violation(MSG_KEY_WITHOUT_ARG, [Text(name), Text(violation.nameRegex.source)]))
  }

  // ---------------------------------------------------------------------------
  // visitToken
  // ---------------------------------------------------------------------------

  /** What `visitToken` relies on the parser for: a method call has the called
      expression and the argument list as its first two children, and a
      qualified callee has at least one child. */
  predicate WellFormed(ast: DetailAst) {
    ast.tokenType == MethodCall ==>
      |ast.children| >= 2 && (ast.children[0].tokenType != Ident ==> |ast.children[0].children| >= 1)
  }

  /** The name and argument count `visitToken` hands to `checkForbiddenMethod`. */
  datatype CallSite = CallSite(name: string, argCount: nat)

  /** The called name of a method call: the identifier of `m(..)`, or the last
      child of the DOT in `a.m(..)`. */
  function CalledName(callee: DetailAst): string
    requires callee.tokenType != Ident ==> |callee.children| >= 1
  {
    if callee.tokenType == Ident then callee.text else callee.children[|callee.children| - 1].text
  }

  /** The extraction half of `visitToken`, or `None` where it breaks out
      without checking anything. */
  function CallSiteOf(ast: DetailAst): (r: Option<CallSite>)
    requires WellFormed(ast)
    ensures ast.tokenType != MethodCall && ast.tokenType != LiteralNew ==> r.None?
    ensures ast.tokenType == MethodCall ==> r.Some? && r.value.argCount == ChildCount(ast.children[1], Expr)
    ensures ast.tokenType == MethodCall && ast.children[0].tokenType == Ident ==>
      r.value.name == ast.children[0].text
    ensures ast.tokenType == MethodCall && ast.children[0].tokenType != Ident ==>
      r.value.name == ast.children[0].children[|ast.children[0].children| - 1].text
    ensures ast.tokenType == LiteralNew ==>
      (r.Some? <==> |ast.children| > 0 && exists i | 0 <= i < |ast.children| :: ast.children[i].tokenType == Elist)
    ensures ast.tokenType == LiteralNew && r.Some? ==> r.value.name == ast.children[0].text
    ensures ast.tokenType == LiteralNew && r.Some? ==>
      r.value.argCount == ChildCount(FindFirstToken(ast, Elist).value, Expr)
  {
    if ast.tokenType == MethodCall then
      var dot := ast.children[0];
      var numParams := ChildCount(ast.children[1], Expr);
      Some(CallSite(CalledName(dot), numParams))
    else if ast.tokenType == LiteralNew then
      // `File::new` has no first child; `new int[4]` has no argument list
      if |ast.children| == 0 then None
      else
        var constructorName := ast.children[0].text;
        match FindFirstToken(ast, Elist)
        case None => None
        case Some(arguments) => Some(CallSite(constructorName, ChildCount(arguments, Expr)))
    else
      None
  }

  /** `visitToken`: at most one violation per visited node. */
  function VisitToken(rules: Option<seq<Rule>>, ast: DetailAst): (r: Option<Violation>)
    requires WellFormed(ast)
    ensures r.Some? ==> rules.Some? && CallSiteOf(ast).Some?
    ensures r.Some? ==> var site := CallSiteOf(ast).value;
      exists i | 0 <= i < |rules.value| ::
        && rules.value[i].Matches(site.name, ToDecimalString(site.argCount))
        && (forall j | 0 <= j < i :: !rules.value[j].Matches(site.name, ToDecimalString(site.argCount)))
        && Reports(r.value, site.name, site.argCount, rules.value[i])
    ensures rules.Some? && CallSiteOf(ast).Some? ==> var site := CallSiteOf(ast).value;
      (r.Some? <==> exists i | 0 <= i < |rules.value| :: rules.value[i].Matches(site.name, ToDecimalString(site.argCount)))
  {
    match CallSiteOf(ast)
    case None => None
    case Some(site) => CheckForbiddenMethod(rules, site.name, site.argCount)
  }

  // ---------------------------------------------------------------------------
  // finishLocalSetup
  // ---------------------------------------------------------------------------

  /** The check's properties `file` (null when unset) and `optional`. */
  datatype Config = Config(file: Option<string>, optional: bool)

  /** `finishLocalSetup`: the rule list the check will use (`None` is the
      null list of a check without a file), or the error that aborts setup.
      `fileExists` is what `configFileExists` finds and `doc` what the parser
      delivers for the file; both are I/O and so are inputs here. */
  function FinishLocalSetup(config: Config, fileExists: bool, doc: Document): (r: Result<Option<seq<Rule>>, LoadError>)
    ensures config.file.None? ==> r == Success(None)
    ensures r.Failure? ==>
      config.file.Some? && (!config.optional || fileExists)
      && LoadConfigValue(doc, config.file.value) == Failure(r.error)
    ensures config.file.Some? && config.optional && !fileExists ==> r == Success(Some([]))
    ensures config.file.Some? && (!config.optional || fileExists) ==>
      && (r.Success? <==> LoadConfigValue(doc, config.file.value).Success?)
      && (r.Success? ==> r.value == Some(LoadConfigValue(doc, config.file.value).value))
  {
    if config.file.Some? then
      var file := config.file.value;
      if config.optional then
        if fileExists then
          match LoadConfigValue(doc, file)
          case Success(rules) => Success(Some(rules))
          case Failure(e) => Failure(e)
        else
          Success(Some([]))
      else
        match LoadConfigValue(doc, file)
        case Success(rules) => Success(Some(rules))
        case Failure(e) => Failure(e)
    else
      Success(None)
  }

  // ---------------------------------------------------------------------------
  // Properties of the check
  // ---------------------------------------------------------------------------

  /** Without a configured file, and with an optional file that is missing,
      setup succeeds and no node is ever reported. */
  lemma NoRulesNoReports(config: Config, fileExists: bool, doc: Document, ast: DetailAst)
    requires WellFormed(ast)
    requires config.file.None? || (config.optional && !fileExists)
    ensures FinishLocalSetup(config, fileExists, doc).Success?
    ensures VisitToken(FinishLocalSetup(config, fileExists, doc).value, ast).None?
  {
  }

  /** The receiver of a qualified call never affects the decision: two calls
      whose DOTs end in the same name node and that pass the same argument list
      are reported alike, whatever stands before the name. */
  lemma ReceiverIsIrrelevant(rules: Option<seq<Rule>>, receiver1: seq<DetailAst>, receiver2: seq<DetailAst>,
                             nameNode: DetailAst, dotText: string, argList: DetailAst, rest1: seq<DetailAst>, rest2: seq<DetailAst>)
    ensures var call1 := DetailAst(MethodCall, "(", [DetailAst(Dot, dotText, receiver1 + [nameNode]), argList] + rest1);
            var call2 := DetailAst(MethodCall, "(", [DetailAst(Dot, dotText, receiver2 + [nameNode]), argList] + rest2);
            WellFormed(call1) && WellFormed(call2) && VisitToken(rules, call1) == VisitToken(rules, call2)
  {
    var call1 := DetailAst(MethodCall, "(", [DetailAst(Dot, dotText, receiver1 + [nameNode]), argList] + rest1);
    var call2 := DetailAst(MethodCall, "(", [DetailAst(Dot, dotText, receiver2 + [nameNode]), argList] + rest2);
    assert call1.children[0].children[|call1.children[0].children| - 1] == nameNode;
    assert call2.children[0].children[|call2.children[0].children| - 1] == nameNode;
  }

  /** A qualified call `a.m(..)` is decided exactly like the plain call `m(..)`. */
  lemma QualifiedCallLikePlainCall(rules: Option<seq<Rule>>, receiver: DetailAst, nameNode: DetailAst, argList: DetailAst)
    requires nameNode.tokenType == Ident
    ensures var plain := DetailAst(MethodCall, "(", [nameNode, argList]);
            var qualified := DetailAst(MethodCall, "(", [DetailAst(Dot, ".", [receiver, nameNode]), argList]);
            WellFormed(plain) && WellFormed(qualified) && VisitToken(rules, plain) == VisitToken(rules, qualified)
  {
  }

  /** `File::new` (a `new` node without children) and `new int[4]` (no
      argument list) are never reported, whatever the rules. */
  lemma DegenerateNewNeverReported(rules: Option<seq<Rule>>, ast: DetailAst)
    requires ast.tokenType == LiteralNew
    requires |ast.children| == 0 || forall i | 0 <= i < |ast.children| :: ast.children[i].tokenType != Elist
    ensures VisitToken(rules, ast).None?
  {
  }

  /** Commas and other non-EXPR children of the argument list are not counted:
      `m(a, b)` has two arguments although its list has three children. */
  lemma CommasAreNotArguments(callee: DetailAst, a: DetailAst, comma: DetailAst, b: DetailAst)
    requires callee.tokenType == Ident
    requires a.tokenType == Expr && b.tokenType == Expr && comma.tokenType == Comma
    ensures CallSiteOf(DetailAst(MethodCall, "(", [callee, DetailAst(Elist, "", [a, comma, b])])).value.argCount == 2
  {
    assert [a, comma, b][..2] == [a, comma];
    assert [a, comma][..1] == [a];
    assert [a][..0] == [];
    assert CountOfType([a], Expr) == 1;
    assert CountOfType([a, comma], Expr) == 1;
  }

  /** The constructor name is the text of the `new` node's first child, so a
      qualified type such as `new java.io.File(..)` is checked under the DOT's
      text `.`, not under `File`. */
  lemma QualifiedConstructorNamedByDot(qualifiedType: DetailAst, argList: DetailAst, rest: seq<DetailAst>)
    requires qualifiedType.tokenType == Dot && qualifiedType.text == "."
    requires argList.tokenType == Elist
    ensures var ast := DetailAst(LiteralNew, "new", [qualifiedType, argList] + rest);
            CallSiteOf(ast).Some? && CallSiteOf(ast).value.name == "."
  {
    var ast := DetailAst(LiteralNew, "new", [qualifiedType, argList] + rest);
    assert ast.children[1].tokenType == Elist;
  }
}
