/** A small subset of `java.util.regex`: the syntax tree of a compiled pattern,
    `Pattern.compile` as a parser over the pattern text, and the whole-input
    matching that `Matcher.matches()` performs.

    The subset covers literal characters, `.`, alternation `|`, grouping
    `( … )` and the postfix closure `*`.  Pattern text that uses any other
    metacharacter of Java's syntax is rejected with `UnsupportedConstruct`. */
module JavaRegex {
  import opened Wrappers

  datatype Regex =
    | Epsilon                          // the empty sequence
    | Char(c: char)                    // one literal character
    | AnyChar                          // `.`
    | Cat(left: Regex, right: Regex)   // concatenation
    | Alt(left: Regex, right: Regex)   // `left|right`
    | Star(body: Regex)                // `body*`

  /** `.` does not match a line terminator unless DOTALL is set, which
      `Pattern.compile(String)` never does. */
  predicate IsLineTerminator(c: char) {
    c == '\n' || c == '\r' || c == '\U{0085}' || c == '\U{2028}' || c == '\U{2029}'
  }

  /** `Matcher.matches()`: the WHOLE of `s` is in the language of `r`. */
  predicate FullMatch(r: Regex, s: string)
    decreases |s|, r, 1, 0
  {
    match r
    case Epsilon => s == []
    case Char(c) => s == [c]
    case AnyChar => |s| == 1 && !IsLineTerminator(s[0])
    case Cat(a, b) => SplitMatch(a, b, s, 0)
    case Alt(a, b) => FullMatch(a, s) || FullMatch(b, s)
    case Star(a) => s == [] || StarSplit(a, s, 1)
  }

  /** Some cut point `k`, at `from` or later, splits `s` into a part that `a`
      matches followed by a part that `b` matches. */
  predicate SplitMatch(a: Regex, b: Regex, s: string, from: nat)
    requires from <= |s|
    decreases |s|, Cat(a, b), 0, |s| - from
  {
    (FullMatch(a, s[..from]) && FullMatch(b, s[from..]))
    || (from < |s| && SplitMatch(a, b, s, from + 1))
  }

  /** Some cut point `k`, at `from` or later, splits the non-empty `s` into a
      non-empty part that `a` matches followed by a part that `a*` matches. */
  predicate StarSplit(a: Regex, s: string, from: nat)
    requires 1 <= from <= |s|
    decreases |s|, Star(a), 0, |s| - from
  {
    (FullMatch(a, s[..from]) && FullMatch(Star(a), s[from..]))
    || (from < |s| && StarSplit(a, s, from + 1))
  }

  lemma {:induction false} SplitMatchFrom(a: Regex, b: Regex, s: string, from: nat)
    requires from <= |s|
    ensures SplitMatch(a, b, s, from) <==>
      exists k | from <= k <= |s| :: FullMatch(a, s[..k]) && FullMatch(b, s[k..])
    decreases |s| - from
  {
    if from < |s| {
      SplitMatchFrom(a, b, s, from + 1);
    }
  }

  /** Concatenation: some cut of `s` into a part for `a` and a part for `b`. */
  lemma CatMatches(a: Regex, b: Regex, s: string)
    ensures FullMatch(Cat(a, b), s) <==>
      exists k | 0 <= k <= |s| :: FullMatch(a, s[..k]) && FullMatch(b, s[k..])
  {
    SplitMatchFrom(a, b, s, 0);
  }

  lemma {:induction false} StarSplitFrom(a: Regex, s: string, from: nat)
    requires 1 <= from <= |s|
    ensures StarSplit(a, s, from) <==>
      exists k | from <= k <= |s| :: FullMatch(a, s[..k]) && FullMatch(Star(a), s[k..])
    decreases |s| - from
  {
    if from < |s| {
      StarSplitFrom(a, s, from + 1);
    }
  }

  /** Closure: the empty string, or a non-empty part for `a` followed by more
      of `a*`. */
  lemma StarMatches(a: Regex, s: string)
    ensures FullMatch(Star(a), s) <==>
      s == [] || exists k | 1 <= k <= |s| :: FullMatch(a, s[..k]) && FullMatch(Star(a), s[k..])
  {
    if s != [] {
      StarSplitFrom(a, s, 1);
    }
  }

  /** `Matcher.find()`: SOME slice of `s` is in the language of `r`.  The
      rule engine never uses it; it is here to state what anchoring rules out. */
  predicate FindsIn(r: Regex, s: string) {
    exists i, j | 0 <= i <= j <= |s| :: FullMatch(r, s[i..j])
  }

  // ---------------------------------------------------------------------------
  // Pattern.compile
  // ---------------------------------------------------------------------------

  datatype PatternErrorKind =
    | DanglingMetaCharacter      // a `*` with nothing before it to repeat
    | UnclosedGroup              // a `(` without its `)`
    | UnmatchedClosingParen      // a `)` without its `(`
    | UnsupportedConstruct       // syntax outside the modelled subset

  /** A `PatternSyntaxException`: what went wrong, in which pattern text. */
  datatype PatternError = PatternError(kind: PatternErrorKind, pattern: string)

  /** Metacharacters of Java's pattern syntax that this model does not interpret. */
  predicate IsUnsupportedMeta(c: char) {
    c == '\\' || c == '^' || c == '$' || c == '?' || c == '+' ||
    c == '[' || c == ']' || c == '{' || c == '}'
  }

  predicate IsMeta(c: char) {
    c == '(' || c == ')' || c == '|' || c == '*' || c == '.' || IsUnsupportedMeta(c)
  }

  /** A pattern text in which every character stands for itself. */
  predicate IsPlain(w: string) {
    forall k | 0 <= k < |w| :: !IsMeta(w[k])
  }

  /** A parsed fragment and the index of the first character after it. */
  datatype Parsed = Parsed(re: Regex, next: nat)

  /** alternation := concatenation ( `|` concatenation )* */
  function ParseAlt(p: string, i: nat): (r: Result<Parsed, PatternErrorKind>)
    requires i <= |p|
    ensures r.Success? ==> i <= r.value.next <= |p|
    ensures r.Success? ==> r.value.next == |p| || p[r.value.next] == ')'
    decreases |p| - i, 3
  {
    match ParseCat(p, i)
    case Failure(e) => Failure(e)
    case Success(left) =>
      if left.next < |p| && p[left.next] == '|' then
        match ParseAlt(p, left.next + 1)
        case Failure(e) => Failure(e)
        case Success(right) => Success(Parsed(Alt(left.re, right.re), right.next))
      else
        Success(left)
  }

  /** concatenation := repetition*, ending before `|`, `)` or the end. */
  function ParseCat(p: string, i: nat): (r: Result<Parsed, PatternErrorKind>)
    requires i <= |p|
    ensures r.Success? ==> i <= r.value.next <= |p|
    ensures r.Success? ==> r.value.next == |p| || p[r.value.next] == '|' || p[r.value.next] == ')'
    decreases |p| - i, 2
  {
    if i == |p| || p[i] == '|' || p[i] == ')' then
      Success(Parsed(Epsilon, i))
    else
      match ParseRepeat(p, i)
      case Failure(e) => Failure(e)
      case Success(head) =>
        match ParseCat(p, head.next)
        case Failure(e) => Failure(e)
        case Success(tail) => Success(Parsed(Cat(head.re, tail.re), tail.next))
  }

  /** repetition := atom `*`?  (a second `*` is dangling, as in Java) */
  function ParseRepeat(p: string, i: nat): (r: Result<Parsed, PatternErrorKind>)
    requires i < |p| && p[i] != '|' && p[i] != ')'
    ensures r.Success? ==> i < r.value.next <= |p|
    decreases |p| - i, 1
  {
    match ParseAtom(p, i)
    case Failure(e) => Failure(e)
    case Success(atom) =>
      if atom.next < |p| && p[atom.next] == '*' then
        Success(Parsed(Star(atom.re), atom.next + 1))
      else
        Success(atom)
  }

  /** atom := `(` alternation `)` | `.` | a plain character */
  function ParseAtom(p: string, i: nat): (r: Result<Parsed, PatternErrorKind>)
    requires i < |p| && p[i] != '|' && p[i] != ')'
    ensures r.Success? ==> i < r.value.next <= |p|
    decreases |p| - i, 0
  {
    if p[i] == '(' then
      match ParseAlt(p, i + 1)
      case Failure(e) => Failure(e)
      case Success(inner) =>
        if inner.next < |p| then Success(Parsed(inner.re, inner.next + 1))
        else Failure(UnclosedGroup)
    else if p[i] == '*' then
      Failure(DanglingMetaCharacter)
    else if IsUnsupportedMeta(p[i]) then
      Failure(UnsupportedConstruct)
    else if p[i] == '.' then
      Success(Parsed(AnyChar, i + 1))
    else
      Success(Parsed(Char(p[i]), i + 1))
  }

  /** `Pattern.compile(p)`: the whole text must parse; a `)` left over is unmatched. */
  function Compile(p: string): (r: Result<Regex, PatternError>)
  {
    match ParseAlt(p, 0)
    case Failure(kind) => Failure(PatternError(kind, p))
    case Success(top) =>
      if top.next == |p| then Success(top.re)
      else Failure(PatternError(UnmatchedClosingParen, p))
  }

  // ---------------------------------------------------------------------------
  // Parser facts
  // ---------------------------------------------------------------------------

  /** The regex for a plain text `w` followed by `rest`. */
  function LiteralThen(w: string, rest: Regex): Regex {
    if w == [] then rest else Cat(Char(w[0]), LiteralThen(w[1..], rest))
  }

  /** A run of plain characters parses to a chain of `Char`s in front of
      whatever the text after the run parses to. */
  lemma {:induction false} ParseCatPlainRun(p: string, i: nat, j: nat)
    requires i <= j <= |p|
    requires forall k | i <= k < j :: !IsMeta(p[k])
    requires j < |p| ==> p[j] != '*'
    ensures ParseCat(p, j).Success? ==>
      ParseCat(p, i) == Success(Parsed(LiteralThen(p[i..j], ParseCat(p, j).value.re), ParseCat(p, j).value.next))
    ensures ParseCat(p, j).Failure? ==> ParseCat(p, i) == ParseCat(p, j)
    decreases j - i
  {
    if i < j {
      assert p[i..j][0] == p[i] && p[i..j][1..] == p[i + 1..j];
      assert i + 1 < |p| ==> p[i + 1] != '*';
      assert ParseAtom(p, i) == Success(Parsed(Char(p[i]), i + 1));
      assert ParseRepeat(p, i) == Success(Parsed(Char(p[i]), i + 1));
      ParseCatPlainRun(p, i + 1, j);
    }
  }

  /** A plain pattern compiles to the chain of its characters. */
  lemma CompilePlain(w: string)
    requires IsPlain(w)
    ensures Compile(w) == Success(LiteralThen(w, Epsilon))
  {
    assert w[0..|w|] == w;
    ParseCatPlainRun(w, 0, |w|);
  }

  // ---------------------------------------------------------------------------
  // Matching facts
  // ---------------------------------------------------------------------------

  /** A literal character in front of `t` consumes exactly that character. */
  lemma CharThenMatches(c: char, t: Regex, s: string)
    ensures FullMatch(Cat(Char(c), t), s) <==> |s| >= 1 && s[0] == c && FullMatch(t, s[1..])
  {
    CatMatches(Char(c), t, s);
    if FullMatch(Cat(Char(c), t), s) {
      var k :| 0 <= k <= |s| && FullMatch(Char(c), s[..k]) && FullMatch(t, s[k..]);
      assert s[..k] == [c];
      assert k == 1;
    }
    if |s| >= 1 && s[0] == c && FullMatch(t, s[1..]) {
      assert s[..1] == [c];
      assert FullMatch(Char(c), s[..1]);
    }
  }

  /** A chain of literal characters consumes exactly those characters. */
  lemma {:induction false} LiteralThenMatches(w: string, rest: Regex, s: string)
    ensures FullMatch(LiteralThen(w, rest), s) <==>
            |w| <= |s| && s[..|w|] == w && FullMatch(rest, s[|w|..])
    decreases |w|
  {
    if w == [] {
      assert s[..0] == [] && s[0..] == s;
    } else {
      CharThenMatches(w[0], LiteralThen(w[1..], rest), s);
      if |s| >= 1 {
        LiteralThenMatches(w[1..], rest, s[1..]);
        if |w| <= |s| {
          assert s[1..][..|w| - 1] == s[1..|w|];
          assert s[1..][|w| - 1..] == s[|w|..];
          assert s[..|w|] == [s[0]] + s[1..|w|];
          assert w == [w[0]] + w[1..];
        }
      }
    }
  }

  /** The chain of the characters of `w` matches `w` and nothing else. */
  lemma LiteralMatchesExactly(w: string, s: string)
    ensures FullMatch(LiteralThen(w, Epsilon), s) <==> s == w
  {
    LiteralThenMatches(w, Epsilon, s);
    if |w| <= |s| && s[..|w|] == w && s[|w|..] == [] {
      assert s == s[..|w|] + s[|w|..];
    }
  }

  /** A plain pattern matches exactly its own text and nothing else. */
  lemma PlainPatternMatchesExactly(w: string, s: string)
    requires IsPlain(w)
    ensures Compile(w).Success?
    ensures FullMatch(Compile(w).value, s) <==> s == w
  {
    CompilePlain(w);
    LiteralMatchesExactly(w, s);
  }

  /** Anchoring: a plain pattern occurs inside any longer text that starts
      with it (so `find()` would succeed, as `exit` does in `exitNow`), but
      does not match the whole of it, so `matches()` fails. */
  lemma AnchoringRejectsLongerName(w: string, suffix: string)
    requires IsPlain(w) && suffix != []
    ensures Compile(w).Success?
    ensures FindsIn(Compile(w).value, w + suffix)
    ensures !FullMatch(Compile(w).value, w + suffix)
  {
    PlainPatternMatchesExactly(w, w + suffix);
    PlainPatternMatchesExactly(w, (w + suffix)[0..|w|]);
    assert (w + suffix)[0..|w|] == w;
  }

  /** A trailing `Epsilon` in a concatenation consumes nothing. */
  lemma CatEpsilonMatches(a: Regex, s: string)
    ensures FullMatch(Cat(a, Epsilon), s) <==> FullMatch(a, s)
  {
    CatMatches(a, Epsilon, s);
    if FullMatch(Cat(a, Epsilon), s) {
      var k :| 0 <= k <= |s| && FullMatch(a, s[..k]) && FullMatch(Epsilon, s[k..]);
      assert k == |s| && s[..k] == s;
    }
    if FullMatch(a, s) {
      assert s[..|s|] == s && s[|s|..] == [];
    }
  }

  /** `w(a|b)` for plain `w`, `a` and `b`: the pattern the check's own test
      uses for `assert(True|False)`. */
  function GroupedChoice(w: string, a: string, b: string): Regex {
    LiteralThen(w, Cat(Alt(LiteralThen(a, Epsilon), LiteralThen(b, Epsilon)), Epsilon))
  }

  /** A plain run that ends the pattern, or stops at `|` or `)`, parses to
      the chain of its characters. */
  lemma ParseCatPlainToStop(p: string, i: nat, j: nat)
    requires i <= j <= |p|
    requires forall k | i <= k < j :: !IsMeta(p[k])
    requires j == |p| || p[j] == '|' || p[j] == ')'
    ensures ParseCat(p, i) == Success(Parsed(LiteralThen(p[i..j], Epsilon), j))
  {
    ParseCatPlainRun(p, i, j);
  }

  /** `a|b)` with plain `a` and `b` parses to the choice, up to the `)`. */
  lemma ParseChoice(p: string, i: nat, j: nat, k: nat)
    requires i <= j < k < |p|
    requires forall m | i <= m < j :: !IsMeta(p[m])
    requires forall m | j + 1 <= m < k :: !IsMeta(p[m])
    requires p[j] == '|' && p[k] == ')'
    ensures ParseAlt(p, i) ==
      Success(Parsed(Alt(LiteralThen(p[i..j], Epsilon), LiteralThen(p[j + 1..k], Epsilon)), k))
  {
    ParseCatPlainToStop(p, i, j);
    ParseCatPlainToStop(p, j + 1, k);
  }

  /** `(a|b)` closing the pattern parses to the choice followed by `Epsilon`. */
  lemma ParseFinalGroup(p: string, o: nat, j: nat)
    requires o < j < |p| - 1
    requires p[o] == '(' && p[j] == '|' && p[|p| - 1] == ')'
    requires forall m | o + 1 <= m < j :: !IsMeta(p[m])
    requires forall m | j + 1 <= m < |p| - 1 :: !IsMeta(p[m])
    ensures ParseCat(p, o) == Success(Parsed(
      Cat(Alt(LiteralThen(p[o + 1..j], Epsilon), LiteralThen(p[j + 1..|p| - 1], Epsilon)), Epsilon), |p|))
  {
    ParseChoice(p, o + 1, j, |p| - 1);
    var alt := Alt(LiteralThen(p[o + 1..j], Epsilon), LiteralThen(p[j + 1..|p| - 1], Epsilon));
    assert ParseAtom(p, o) == Success(Parsed(alt, |p|));
    assert ParseRepeat(p, o) == Success(Parsed(alt, |p|));
    assert ParseCat(p, |p|) == Success(Parsed(Epsilon, |p|));
  }

  /** A plain prefix followed by a group of two plain alternatives compiles to
      the prefix chain in front of the choice. */
  lemma GroupedChoiceCompiles(w: string, a: string, b: string)
    requires IsPlain(w) && IsPlain(a) && IsPlain(b)
    ensures Compile(w + "(" + a + "|" + b + ")") == Success(GroupedChoice(w, a, b))
  {
    var p := w + "(" + a + "|" + b + ")";
    var open, bar := |w|, |w| + 1 + |a|;
    assert |p| == bar + |b| + 2;
    assert p[open] == '(' && p[bar] == '|' && p[|p| - 1] == ')';
    assert p[0..open] == w && p[open + 1..bar] == a && p[bar + 1..|p| - 1] == b;
    assert forall m | 0 <= m < open :: p[m] == w[m];
    assert forall m | open + 1 <= m < bar :: p[m] == a[m - open - 1];
    assert forall m | bar + 1 <= m < |p| - 1 :: p[m] == b[m - bar - 1];
    ParseFinalGroup(p, open, bar);
    ParseCatPlainRun(p, 0, open);
  }

  /** A choice between two plain texts matches exactly those two texts. */
  lemma LiteralChoiceMatches(a: string, b: string, t: string)
    ensures FullMatch(Alt(LiteralThen(a, Epsilon), LiteralThen(b, Epsilon)), t) <==> t == a || t == b
  {
    LiteralMatchesExactly(a, t);
    LiteralMatchesExactly(b, t);
  }

  /** What `w(a|b)` matches: `w` followed by `a`, or `w` followed by `b`. */
  lemma GroupedChoiceMatches(w: string, a: string, b: string, s: string)
    ensures FullMatch(GroupedChoice(w, a, b), s) <==> s == w + a || s == w + b
  {
    var alt := Alt(LiteralThen(a, Epsilon), LiteralThen(b, Epsilon));
    LiteralThenMatches(w, Cat(alt, Epsilon), s);
    if |w| <= |s| && s[..|w|] == w {
      var t := s[|w|..];
      assert s == w + t;
      CatEpsilonMatches(alt, t);
      LiteralChoiceMatches(a, b, t);
    }
    if s == w + a || s == w + b {
      assert s[..|w|] == w;
      assert s[|w|..] == a || s[|w|..] == b;
    }
  }
}
