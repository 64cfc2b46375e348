/** `ForbidCertainMethodsCheck.Rule`: a compiled method-name pattern and an
    optional compiled argument-count pattern, and the first-match search the
    check runs over an ordered rule list. */
module Rules {
  import opened Wrappers
  import opened JavaRegex

  /** A `java.util.regex.Pattern`: the text it was compiled from (what its
      `toString()` prints) and the compiled form. */
  datatype Pattern = Pattern(source: string, regex: Regex) {
    /** The compiled form is what `Pattern.compile(source)` produces. */
    predicate Valid() {
      Compile(source) == Success(regex)
    }
  }

  function CompilePattern(source: string): (r: Result<Pattern, PatternError>)
    ensures r.Success? <==> Compile(source).Success?
    ensures r.Success? ==> r.value.source == source && r.value.Valid()
    ensures r.Failure? ==> r.error == Compile(source).error
  {
    match Compile(source)
    case Success(re) => Success(Pattern(source, re))
    case Failure(e) => Failure(e)
  }

  /** An argument-count attribute that is absent (`null`) or empty imposes no
      constraint on the number of arguments. */
  predicate NoCountConstraint(argCount: Option<string>) {
    argCount.None? || argCount.value == ""
  }

  /** `argCountRegex == null` is `None`: the rule matches any number of arguments. */
  datatype Rule = Rule(nameRegex: Pattern, argCountRegex: Option<Pattern>) {

    predicate Valid() {
      nameRegex.Valid() && (argCountRegex.Some? ==> argCountRegex.value.Valid())
    }

    /** `Rule.matches`: the whole name matches, and the whole rendered count
        matches too unless there is no count pattern. */
    predicate Matches(name: string, argCount: string) {
      FullMatch(nameRegex.regex, name)
      && (argCountRegex.None? || FullMatch(argCountRegex.value.regex, argCount))
    }
  }

  /** `Rule.of(methodName, argCount)`: compiles the name pattern, then the count
      pattern unless it is absent or empty.  A `PatternSyntaxException` from
      either compilation is the failure; no rule is built. */
  function Of(methodName: string, argCount: Option<string>): (r: Result<Rule, PatternError>)
    ensures r.Success? <==>
      Compile(methodName).Success? && (NoCountConstraint(argCount) || Compile(argCount.value).Success?)
    ensures r.Success? ==> r.value.Valid() && r.value.nameRegex.source == methodName
    ensures r.Success? ==> (r.value.argCountRegex.None? <==> NoCountConstraint(argCount))
    ensures r.Success? && r.value.argCountRegex.Some? ==> r.value.argCountRegex.value.source == argCount.value
    ensures r.Failure? && Compile(methodName).Failure? ==> r.error == Compile(methodName).error
    ensures r.Failure? && Compile(methodName).Success? ==> r.error == Compile(argCount.value).error
  {
    match CompilePattern(methodName)
    case Failure(e) => Failure(e)
    case Success(nameRegex) =>
      if NoCountConstraint(argCount) then
        Success(Rule(nameRegex, None))
      else
        match CompilePattern(argCount.value)
        case Failure(e) => Failure(e)
        case Success(countRegex) => Success(Rule(nameRegex, Some(countRegex)))
  }

  /** What a rule built from configuration text decides, in terms of that text. */
  lemma OfMatches(methodName: string, argCount: Option<string>, name: string, count: string)
    requires Of(methodName, argCount).Success?
    ensures Of(methodName, argCount).value.Matches(name, count) <==>
      FullMatch(Compile(methodName).value, name)
      && (NoCountConstraint(argCount) || FullMatch(Compile(argCount.value).value, count))
  {
  }

  /** A rule without a count constraint decides on the name alone. */
  lemma NoCountConstraintIgnoresCount(methodName: string, argCount: Option<string>, name: string, c1: string, c2: string)
    requires NoCountConstraint(argCount)
    requires Of(methodName, argCount).Success?
    ensures Of(methodName, argCount).value.Matches(name, c1) == Of(methodName, argCount).value.Matches(name, c2)
  {
  }

  // ---------------------------------------------------------------------------
  // First match
  // ---------------------------------------------------------------------------

  /** The stream `filter(rule.matches).findFirst()`: the index of the earliest
      rule that matches, or `None` when none does. */
  function FirstMatch(rules: seq<Rule>, name: string, argCount: string): (r: Option<nat>)
    ensures r.Some? ==> r.value < |rules| && rules[r.value].Matches(name, argCount)
    ensures r.Some? ==> forall j | 0 <= j < r.value :: !rules[j].Matches(name, argCount)
    ensures r.None? <==> forall j | 0 <= j < |rules| :: !rules[j].Matches(name, argCount)
  {
    if rules == [] then None
    else if rules[0].Matches(name, argCount) then Some(0)
    else
      match FirstMatch(rules[1..], name, argCount)
      case None => None
      case Some(k) => Some(k + 1)
  }

  /** Declaration order decides: when two rules match, the later one never wins,
      however specific it is. */
  lemma EarlierRuleWins(rules: seq<Rule>, name: string, argCount: string, i: nat, j: nat)
    requires i < j < |rules|
    requires rules[i].Matches(name, argCount) && rules[j].Matches(name, argCount)
    ensures FirstMatch(rules, name, argCount).Some?
    ensures FirstMatch(rules, name, argCount).value <= i
  {
  }

  /** Putting a rule in front of a list: it wins if it matches, and otherwise
      every position the list reports moves back by one. */
  lemma FirstMatchCons(rule: Rule, rules: seq<Rule>, name: string, argCount: string)
    ensures FirstMatch([rule] + rules, name, argCount) ==
      if rule.Matches(name, argCount) then Some(0)
      else match FirstMatch(rules, name, argCount)
        case None => None
        case Some(k) => Some(k + 1)
  {
    assert ([rule] + rules)[0] == rule;
    assert ([rule] + rules)[1..] == rules;
  }

  /** Appending rules never changes a decision that the shorter list already
      made: the winner of a prefix is the winner of the whole list. */
  lemma {:induction false} FirstMatchAppend(rules: seq<Rule>, more: seq<Rule>, name: string, argCount: string)
    ensures FirstMatch(rules, name, argCount).Some? ==>
      FirstMatch(rules + more, name, argCount) == FirstMatch(rules, name, argCount)
    ensures FirstMatch(rules, name, argCount).None? && FirstMatch(more, name, argCount).Some? ==>
      FirstMatch(rules + more, name, argCount) == Some(|rules| + FirstMatch(more, name, argCount).value)
  {
    if rules == [] {
      assert rules + more == more;
    } else {
      var tail := rules[1..];
      assert rules == [rules[0]] + tail;
      assert rules + more == [rules[0]] + (tail + more);
      FirstMatchCons(rules[0], tail, name, argCount);
      FirstMatchCons(rules[0], tail + more, name, argCount);
      FirstMatchAppend(tail, more, name, argCount);
    }
  }
}
