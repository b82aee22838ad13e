/** Alias generators: rewriting field names between snake_case, camelCase,
    PascalCase and kebab-case.

    Each generator is modelled the way it is written: `to_pascal` is `str.title`
    followed by one `re.sub`, `to_camel` guards an early return with two regular
    expressions and then lower-cases a leading capital, and `to_snake` is four
    `re.sub` passes, a hyphen replacement and `str.lower`. Every `re.sub` is a
    left-to-right scan that consumes what it matched and resumes after it.
    Beside each generator stands a reference definition that decides every output
    position from the input position and its two neighbours; the main theorems
    say that the scans compute the references. Characters are ASCII here. */
module AliasGenerators {

  // ---------------------------------------------------------------------------
  // Character classes and case mappings (ASCII)
  // ---------------------------------------------------------------------------

  predicate IsLower(c: char) { 'a' <= c <= 'z' }
  predicate IsUpper(c: char) { 'A' <= c <= 'Z' }
  predicate IsDigit(c: char) { '0' <= c <= '9' }
  predicate IsAlnum(c: char) { IsLower(c) || IsUpper(c) || IsDigit(c) }
  /** A character that has case; `str.title` starts a new word after any other. */
  predicate IsCased(c: char) { IsLower(c) || IsUpper(c) }

  function LowerChar(c: char): char
  {
    if IsUpper(c) then (c as int + 32) as char else c
  }

  function UpperChar(c: char): char
  {
    if IsLower(c) then (c as int - 32) as char else c
  }

  /** `str.lower` */
  function Lower(s: string): string
  {
    if s == [] then [] else [LowerChar(s[0])] + Lower(s[1..])
  }

  /** The number of underscores `s` starts with. */
  function LeadingUnderscores(s: string): (n: nat)
    ensures n <= |s|
  {
    if s != [] && s[0] == '_' then 1 + LeadingUnderscores(s[1..]) else 0
  }

  /** The number of underscores `s` ends with. */
  function TrailingUnderscores(s: string): (n: nat)
    ensures n <= |s|
  {
    if s != [] && s[|s| - 1] == '_' then 1 + TrailingUnderscores(s[..|s| - 1]) else 0
  }

  /** `s` with every underscore taken out: what stays the same when separators
      are added or removed. */
  function WithoutUnderscores(s: string): string
  {
    if s == [] then []
    else (if s[0] == '_' then [] else [s[0]]) + WithoutUnderscores(s[1..])
  }

  // ---------------------------------------------------------------------------
  // to_pascal
  // ---------------------------------------------------------------------------

  /** `str.title`: a cased character is upper-cased when the character before it
      is not cased (or there is none) and lower-cased otherwise. CPython keeps a
      `previous_is_cased` flag while it walks the string; here the flag is read
      off the previous character, `s[0]` of the window. */
  function Title(s: string): string
  {
    if s == [] then [] else [UpperChar(s[0])] + TitleRest(s)
  }

  /** How `str.title` writes `c` when `prev` comes before it. */
  function TitleCased(prev: char, c: char): char
  {
    if IsCased(prev) then LowerChar(c) else UpperChar(c)
  }

  /** The title-cased characters `s[1..]`, each decided with its predecessor. */
  function TitleRest(s: string): string
  {
    if |s| < 2 then [] else [TitleCased(s[0], s[1])] + TitleRest(s[1..])
  }

  /** `re.sub('([0-9A-Za-z])_(?=[0-9A-Z])', lambda m: m.group(1), s)`: an
      alphanumeric followed by `_` is replaced by the alphanumeric alone when a
      digit or capital follows; the scan resumes after the underscore. */
  function DropJoiningUnderscores(s: string): string
  {
    if |s| < 3 then s
    else if IsAlnum(s[0]) && s[1] == '_' && (IsDigit(s[2]) || IsUpper(s[2])) then
      [s[0]] + DropJoiningUnderscores(s[2..])
    else
      [s[0]] + DropJoiningUnderscores(s[1..])
  }

  /** Whether position 1 of the window `t` is an underscore the substitution of
      `to_pascal` removes. */
  predicate JoiningUnderscore(t: string)
  {
    |t| >= 3 && IsAlnum(t[0]) && t[1] == '_' && (IsDigit(t[2]) || IsUpper(t[2]))
  }

  /** Reference for the substitution: every joining underscore removed, each
      decided on the whole string. */
  function WithoutJoiningUnderscores(t: string): string
  {
    if t == [] then [] else [t[0]] + WithoutJoiningRest(t)
  }

  function WithoutJoiningRest(t: string): string
  {
    if |t| < 2 then []
    else (if JoiningUnderscore(t) then [] else [t[1]]) + WithoutJoiningRest(t[1..])
  }

  /** `to_pascal(snake)` */
  function ToPascal(snake: string): string
  {
    DropJoiningUnderscores(Title(snake))
  }

  /** Whether position 1 of the window `s` is an inner underscore: one with an
      alphanumeric on both sides. */
  predicate InnerUnderscore(s: string)
  {
    |s| >= 3 && IsAlnum(s[0]) && s[1] == '_' && IsAlnum(s[2])
  }

  /** Reference for `to_pascal`: every inner underscore disappears and every
      other character is title-cased against its original predecessor. */
  function PascalCase(s: string): string
  {
    if s == [] then [] else [UpperChar(s[0])] + PascalRest(s)
  }

  function PascalRest(s: string): string
  {
    if |s| < 2 then []
    else
      (if InnerUnderscore(s) then [] else [TitleCased(s[0], s[1])]) + PascalRest(s[1..])
  }

  // ---------------------------------------------------------------------------
  // to_camel
  // ---------------------------------------------------------------------------

  /** Every character of `s` is a lower-case ASCII letter. */
  predicate AllLower(s: string)
  {
    |s| == 0 || (IsLower(s[0]) && AllLower(s[1..]))
  }

  /** Every character of `s` is an ASCII letter or digit. */
  predicate AllAlnum(s: string)
  {
    |s| == 0 || (IsAlnum(s[0]) && AllAlnum(s[1..]))
  }

  /** `^[a-z]+[A-Za-z0-9]*`: a lower-case letter followed by alphanumerics. */
  predicate CamelWord(w: string)
  {
    |w| > 0 && IsLower(w[0]) && AllAlnum(w)
  }

  /** `re.match('^[a-z]+[A-Za-z0-9]*$', s)`; Python's `$` also matches just
      before a final newline. */
  predicate MatchesCamel(s: string)
  {
    CamelWord(s) || (|s| > 0 && s[|s| - 1] == '\n' && CamelWord(s[..|s| - 1]))
  }

  /** `re.search(r'\d[a-z]', s)`: a digit directly followed by a lower-case
      letter somewhere in `s`. */
  predicate HasDigitThenLower(s: string)
  {
    |s| >= 2 && ((IsDigit(s[0]) && IsLower(s[1])) || HasDigitThenLower(s[1..]))
  }

  /** The early return of `to_camel`: input already in camelCase. */
  predicate AlreadyCamel(s: string)
  {
    MatchesCamel(s) && !HasDigitThenLower(s)
  }

  /** `re.sub('(^_*[A-Z])', lambda m: m.group(1).lower(), s)`: lower-case the
      first character after the leading underscores if it is a capital. */
  function LowerLeadingCapital(s: string): string
  {
    if s == [] then []
    else if s[0] == '_' then ['_'] + LowerLeadingCapital(s[1..])
    else if IsUpper(s[0]) then [LowerChar(s[0])] + s[1..]
    else s
  }

  /** `to_camel(snake)` */
  function ToCamel(snake: string): string
  {
    if AlreadyCamel(snake) then snake else LowerLeadingCapital(ToPascal(snake))
  }

  // ---------------------------------------------------------------------------
  // to_snake
  // ---------------------------------------------------------------------------

  /** The rules by which `to_snake` puts an underscore between two characters. */
  datatype SeparatorRule =
    | AcronymEnd  // r'([A-Z]+)([A-Z][a-z])': before the last capital of a run that a lower-case letter ends
    | LowerUpper  // r'([a-z])([A-Z])'
    | DigitUpper  // r'([0-9])([A-Z])'
    | LowerDigit  // r'([a-z])([0-9])'

  /** Whether `rule` separates `x` from the following `y`; `rest` is what comes
      after `y`. */
  predicate Fires(rule: SeparatorRule, x: char, y: char, rest: string)
  {
    match rule
    case AcronymEnd => IsUpper(x) && IsUpper(y) && |rest| > 0 && IsLower(rest[0])
    case LowerUpper => IsLower(x) && IsUpper(y)
    case DigitUpper => IsDigit(x) && IsUpper(y)
    case LowerDigit => IsLower(x) && IsDigit(y)
  }

  predicate AnyFires(rules: set<SeparatorRule>, x: char, y: char, rest: string)
  {
    || (AcronymEnd in rules && Fires(AcronymEnd, x, y, rest))
    || (LowerUpper in rules && Fires(LowerUpper, x, y, rest))
    || (DigitUpper in rules && Fires(DigitUpper, x, y, rest))
    || (LowerDigit in rules && Fires(LowerDigit, x, y, rest))
  }

  /** The rules that look at two characters only. */
  predicate PairRule(rule: SeparatorRule)
  {
    rule != AcronymEnd
  }

  const AllRules: set<SeparatorRule> := {AcronymEnd, LowerUpper, DigitUpper, LowerDigit}

  /** Reference: `s` with an underscore between every two neighbours that one of
      `rules` separates, all decided on `s` itself. */
  function Separated(s: string, rules: set<SeparatorRule>): string
  {
    if s == [] then [] else [s[0]] + SeparatedRest(s, rules)
  }

  function SeparatedRest(s: string, rules: set<SeparatorRule>): string
  {
    if |s| < 2 then []
    else (if AnyFires(rules, s[0], s[1], s[2..]) then "_" else "") + [s[1]] + SeparatedRest(s[1..], rules)
  }

  /** The length of the run of capitals `s` starts with. */
  function UpperRun(s: string): (n: nat)
    ensures n <= |s|
  {
    if s != [] && IsUpper(s[0]) then 1 + UpperRun(s[1..]) else 0
  }

  /** `re.sub(r'([A-Z]+)([A-Z][a-z])', r'\1_\2', s)`: the greedy run of capitals
      gives back its last capital to the second group; the scan resumes after
      the lower-case letter. */
  function SplitAcronyms(s: string): string
  {
    if s == [] then []
    else
      var n := UpperRun(s);
      if 2 <= n < |s| && IsLower(s[n]) then
        s[..n - 1] + "_" + s[n - 1..n + 1] + SplitAcronyms(s[n + 1..])
      else
        [s[0]] + SplitAcronyms(s[1..])
  }

  /** `re.sub(p, r'\1_\2', s)` for a two-character pattern `p` of a pair rule:
      a match consumes both characters. */
  function InsertSeparators(s: string, rule: SeparatorRule): string
  {
    if |s| < 2 then s
    else if Fires(rule, s[0], s[1], s[2..]) then [s[0], '_', s[1]] + InsertSeparators(s[2..], rule)
    else [s[0]] + InsertSeparators(s[1..], rule)
  }

  /** `s.replace('-', '_')` */
  function HyphensToUnderscores(s: string): string
  {
    if s == [] then [] else [if s[0] == '-' then '_' else s[0]] + HyphensToUnderscores(s[1..])
  }

  /** `to_snake(camel)` */
  function ToSnake(camel: string): string
  {
    var acronyms := SplitAcronyms(camel);
    var words := InsertSeparators(acronyms, LowerUpper);
    var digitsBefore := InsertSeparators(words, DigitUpper);
    var digitsAfter := InsertSeparators(digitsBefore, LowerDigit);
    Lower(HyphensToUnderscores(digitsAfter))
  }

  /** The character `to_snake` writes for `c`. */
  function SnakeChar(c: char): char
  {
    if c == '-' then '_' else LowerChar(c)
  }

  /** Reference for `to_snake`: every character mapped by `SnakeChar`, with an
      underscore wherever one of the four rules separates two neighbours of the
      input. */
  function SnakeCase(s: string): string
  {
    if s == [] then [] else [SnakeChar(s[0])] + SnakeRest(s)
  }

  function SnakeRest(s: string): string
  {
    if |s| < 2 then []
    else SnakeSeparator(s[0], s[1], s[2..]) + [SnakeChar(s[1])] + SnakeRest(s[1..])
  }

  // ---------------------------------------------------------------------------
  // to_snake: the four scans compute the reference
  // ---------------------------------------------------------------------------

  /** A window nothing separates contributes its next character and moves on. */
  lemma {:induction false} QuietWindow(s: string, rules: set<SeparatorRule>)
    requires |s| >= 1
    requires |s| >= 2 ==> !AnyFires(rules, s[0], s[1], s[2..])
    ensures SeparatedRest(s, rules) == Separated(s[1..], rules)
  {
    if |s| >= 2 {
      assert s[1..][0] == s[1];
      assert SeparatedRest(s, rules) == [s[1]] + SeparatedRest(s[1..], rules);
    }
  }

  /** A pass of a two-character pattern computes the reference for its rule:
      a match consumes both characters, and no pair rule can fire again on the
      second character of a match. */
  lemma {:induction false} InsertSeparatorsIsSeparated(s: string, rule: SeparatorRule)
    requires PairRule(rule)
    ensures InsertSeparators(s, rule) == Separated(s, {rule})
    decreases |s|, 1
  {
    if |s| == 1 {
      assert Separated(s, {rule}) == [s[0]] + SeparatedRest(s, {rule});
    } else if |s| >= 2 {
      if Fires(rule, s[0], s[1], s[2..]) {
        InsertAtMatch(s, rule);
      } else {
        InsertSeparatorsIsSeparated(s[1..], rule);
        QuietWindow(s, {rule});
      }
    }
  }

  /** A match consumes both characters: the pair rule cannot fire again on the
      second one. */
  lemma {:induction false} InsertAtMatch(s: string, rule: SeparatorRule)
    requires PairRule(rule) && |s| >= 2 && Fires(rule, s[0], s[1], s[2..])
    ensures InsertSeparators(s, rule) == Separated(s, {rule})
    decreases |s|, 0
  {
    InsertSeparatorsIsSeparated(s[2..], rule);
    assert s[1..][1..] == s[2..];
    QuietWindow(s[1..], {rule});
    var x := Separated(s[2..], {rule});
    assert SeparatedRest(s, {rule}) == "_" + [s[1]] + x;
    PrependThree(s[0], '_', s[1], x);
  }

  lemma PrependThree(a: char, b: char, c: char, x: string)
    ensures [a] + ([b] + [c] + x) == [a, b, c] + x
  {
  }

  /** Inside a run of capitals that a lower-case letter ends, only the last
      capital is separated from its predecessor. */
  lemma {:induction false} AcronymRun(u: string)
    requires 2 <= UpperRun(u) < |u| && IsLower(u[UpperRun(u)])
    ensures var n := UpperRun(u);
      Separated(u, {AcronymEnd}) == u[..n - 1] + "_" + u[n - 1..n + 1] + Separated(u[n + 1..], {AcronymEnd})
    decreases |u|
  {
    var n := UpperRun(u);
    if n == 2 {
      AcronymPair(u);
    } else {
      assert UpperRun(u[1..]) == n - 1;
      AcronymRun(u[1..]);
      assert u[1..][..n - 2] == u[1..n - 1];
      assert u[1..][n - 2..n] == u[n - 1..n + 1];
      assert u[1..][n..] == u[n + 1..];
      AcronymLonger(u, Separated(u[n + 1..], {AcronymEnd}));
    }
  }

  /** A capital before a capital: nothing separates them. */
  lemma AcronymKeepsFirst(u: string)
    requires |u| >= 3 && IsUpper(u[0]) && IsUpper(u[1]) && IsUpper(u[2])
    ensures Separated(u, {AcronymEnd}) == [u[0]] + Separated(u[1..], {AcronymEnd})
  {
    assert u[1..][0] == u[1];
    QuietWindow(u, {AcronymEnd});
  }

  lemma AcronymLonger(u: string, tail: string)
    requires 3 <= UpperRun(u) < |u|
    requires var n := UpperRun(u);
      Separated(u[1..], {AcronymEnd}) == u[1..n - 1] + "_" + u[n - 1..n + 1] + tail
    ensures var n := UpperRun(u);
      Separated(u, {AcronymEnd}) == u[..n - 1] + "_" + u[n - 1..n + 1] + tail
  {
    var n := UpperRun(u);
    assert IsUpper(u[2]);
    AcronymKeepsFirst(u);
    PrependFour(u[0], u[1..n - 1], "_", u[n - 1..n + 1], tail);
    assert [u[0]] + u[1..n - 1] == u[..n - 1];
  }

  lemma PrependFour(c: char, a: string, b: string, d: string, e: string)
    ensures [c] + (a + b + d + e) == ([c] + a) + b + d + e
  {
  }

  /** A run of exactly two capitals: the underscore goes between them. */
  lemma AcronymPair(u: string)
    requires UpperRun(u) == 2 < |u| && IsLower(u[2])
    ensures Separated(u, {AcronymEnd}) == u[..1] + "_" + u[1..3] + Separated(u[3..], {AcronymEnd})
  {
    var r := {AcronymEnd};
    assert IsUpper(u[0]) && IsUpper(u[1]);
    assert u[1..][1..] == u[2..];
    assert u[2..][1..] == u[3..];
    QuietWindow(u[1..], r);
    QuietWindow(u[2..], r);
    AcronymPairShape(u, Separated(u[3..], r));
  }

  lemma AcronymPairShape(u: string, tail: string)
    requires |u| >= 3 && IsUpper(u[0]) && IsUpper(u[1]) && IsLower(u[2])
    requires SeparatedRest(u[1..], {AcronymEnd}) == Separated(u[2..], {AcronymEnd})
    requires SeparatedRest(u[2..], {AcronymEnd}) == tail
    ensures Separated(u, {AcronymEnd}) == u[..1] + "_" + u[1..3] + tail
  {
    assert Separated(u[2..], {AcronymEnd}) == [u[2]] + tail;
    assert SeparatedRest(u, {AcronymEnd}) == "_" + [u[1]] + ([u[2]] + tail);
    assert u[..1] == [u[0]];
    assert u[1..3] == [u[1], u[2]];
  }

  /** `AcronymEnd` separates the first two characters only where the acronym
      pass matches a run of exactly two capitals at the start. */
  lemma AcronymEndAtStart(s: string)
    requires |s| >= 2
    ensures AnyFires({AcronymEnd}, s[0], s[1], s[2..]) ==> UpperRun(s) == 2 && IsLower(s[2])
  {
    if |s| >= 3 && IsUpper(s[0]) && IsUpper(s[1]) && IsLower(s[2]) {
      assert UpperRun(s[2..]) == 0;
    }
  }

  /** The acronym pass computes the reference for `AcronymEnd`. */
  lemma {:induction false} SplitAcronymsIsSeparated(s: string)
    ensures SplitAcronyms(s) == Separated(s, {AcronymEnd})
    decreases |s|, 1
  {
    if s != [] {
      if 2 <= UpperRun(s) < |s| && IsLower(s[UpperRun(s)]) {
        AcronymStep(s);
      } else {
        QuietStep(s);
      }
    }
  }

  lemma {:induction false} AcronymStep(s: string)
    requires 2 <= UpperRun(s) < |s| && IsLower(s[UpperRun(s)])
    ensures SplitAcronyms(s) == Separated(s, {AcronymEnd})
    decreases |s|, 0
  {
    SplitAcronymsIsSeparated(s[UpperRun(s) + 1..]);
    AcronymRun(s);
  }

  lemma {:induction false} QuietStep(s: string)
    requires s != [] && !(2 <= UpperRun(s) < |s| && IsLower(s[UpperRun(s)]))
    ensures SplitAcronyms(s) == Separated(s, {AcronymEnd})
    decreases |s|, 0
  {
    SplitAcronymsIsSeparated(s[1..]);
    NoAcronymStep(s);
  }

  lemma NoAcronymStep(s: string)
    requires s != [] && !(2 <= UpperRun(s) < |s| && IsLower(s[UpperRun(s)]))
    requires SplitAcronyms(s[1..]) == Separated(s[1..], {AcronymEnd})
    ensures SplitAcronyms(s) == Separated(s, {AcronymEnd})
  {
    if |s| >= 2 {
      AcronymEndAtStart(s);
    }
    QuietWindow(s, {AcronymEnd});
  }

  /** A pair rule looks at two characters only and never at an underscore. */
  lemma PairRuleFacts(rule: SeparatorRule, x: char, y: char, r1: string, r2: string)
    requires PairRule(rule)
    ensures AnyFires({rule}, x, y, r1) == Fires(rule, x, y, r2)
    ensures !Fires(rule, x, '_', r1) && !Fires(rule, '_', y, r1)
  {
  }

  lemma AnyFiresUnion(rules: set<SeparatorRule>, rule: SeparatorRule, x: char, y: char, r: string)
    ensures AnyFires(rules + {rule}, x, y, r) == (AnyFires(rules, x, y, r) || Fires(rule, x, y, r))
  {
  }

  /** One step of `SeparatedRest`. */
  lemma SeparatedRestStep(t: string, rules: set<SeparatorRule>)
    requires |t| >= 2
    ensures SeparatedRest(t, rules)
      == (if AnyFires(rules, t[0], t[1], t[2..]) then "_" else "") + [t[1]] + SeparatedRest(t[1..], rules)
  {
  }

  /** After an underscore the pair rule sees the next character's own window. */
  lemma PairAfterUnderscore(t: string, rule: SeparatorRule)
    requires PairRule(rule) && |t| >= 3 && t[1] == '_'
    ensures SeparatedRest(t, {rule}) == ['_', t[2]] + SeparatedRest(t[2..], {rule})
  {
    var u := t[1..];
    PairRuleFacts(rule, t[0], t[1], t[2..], t[2..]);
    SeparatedRestStep(t, {rule});
    assert u[0] == '_' && u[1] == t[2] && u[2..] == t[3..] && u[1..] == t[2..];
    PairRuleFacts(rule, u[0], u[1], u[2..], u[2..]);
    SeparatedRestStep(u, {rule});
  }

  lemma PairWithoutUnderscore(s0: char, s1: char, tail: string, rule: SeparatorRule)
    requires PairRule(rule)
    ensures SeparatedRest([s0, s1] + tail, {rule})
      == (if Fires(rule, s0, s1, tail) then "_" else "") + [s1] + SeparatedRest([s1] + tail, {rule})
  {
    var t := [s0, s1] + tail;
    assert t[1..] == [s1] + tail;
    PairRuleFacts(rule, s0, s1, t[2..], tail);
  }

  /** Separating by a pair rule after separating by `rules` is separating by
      both at once: the inserted underscores are never part of a pair the rule
      separates. Stated on the part after the first character. */
  lemma {:induction false} SeparatedRestThenPair(s: string, rules: set<SeparatorRule>, rule: SeparatorRule)
    requires |s| >= 1 && PairRule(rule)
    ensures SeparatedRest([s[0]] + SeparatedRest(s, rules), {rule}) == SeparatedRest(s, rules + {rule})
    decreases |s|
  {
    if |s| >= 2 {
      SeparatedRestThenPair(s[1..], rules, rule);
      if AnyFires(rules, s[0], s[1], s[2..]) {
        ThenPairAtSeparator(s, rules, rule);
      } else {
        ThenPairWithoutSeparator(s, rules, rule);
      }
    }
  }

  lemma ThenPairAtSeparator(s: string, rules: set<SeparatorRule>, rule: SeparatorRule)
    requires |s| >= 2 && PairRule(rule) && AnyFires(rules, s[0], s[1], s[2..])
    requires SeparatedRest([s[1]] + SeparatedRest(s[1..], rules), {rule}) == SeparatedRest(s[1..], rules + {rule})
    ensures SeparatedRest([s[0]] + SeparatedRest(s, rules), {rule}) == SeparatedRest(s, rules + {rule})
  {
    var tail := SeparatedRest(s[1..], rules);
    AnyFiresUnion(rules, rule, s[0], s[1], s[2..]);
    var t := [s[0]] + SeparatedRest(s, rules);
    assert t == [s[0], '_', s[1]] + tail;
    PairAfterUnderscore(t, rule);
    assert t[2..] == [s[1]] + tail;
  }

  lemma ThenPairWithoutSeparator(s: string, rules: set<SeparatorRule>, rule: SeparatorRule)
    requires |s| >= 2 && PairRule(rule) && !AnyFires(rules, s[0], s[1], s[2..])
    requires SeparatedRest([s[1]] + SeparatedRest(s[1..], rules), {rule}) == SeparatedRest(s[1..], rules + {rule})
    ensures SeparatedRest([s[0]] + SeparatedRest(s, rules), {rule}) == SeparatedRest(s, rules + {rule})
  {
    var tail := SeparatedRest(s[1..], rules);
    AnyFiresUnion(rules, rule, s[0], s[1], s[2..]);
    PairRuleFacts(rule, s[0], s[1], tail, s[2..]);
    assert [s[0]] + SeparatedRest(s, rules) == [s[0], s[1]] + tail;
    PairWithoutUnderscore(s[0], s[1], tail, rule);
  }

  lemma SeparatedThenPair(s: string, rules: set<SeparatorRule>, rule: SeparatorRule)
    requires PairRule(rule)
    ensures Separated(Separated(s, rules), {rule}) == Separated(s, rules + {rule})
  {
    if s != [] {
      SeparatedRestThenPair(s, rules, rule);
    }
  }

  /** The character mapping of `to_snake` distributes over concatenation. */
  lemma {:induction false} SnakeCharsAppend(a: string, b: string)
    ensures Lower(HyphensToUnderscores(a + b)) == Lower(HyphensToUnderscores(a)) + Lower(HyphensToUnderscores(b))
    decreases |a|
  {
    HyphensAppend(a, b);
    LowerAppend(HyphensToUnderscores(a), HyphensToUnderscores(b));
  }

  lemma {:induction false} HyphensAppend(a: string, b: string)
    ensures HyphensToUnderscores(a + b) == HyphensToUnderscores(a) + HyphensToUnderscores(b)
    decreases |a|
  {
    if a == [] {
      assert a + b == b;
    } else {
      HyphensAppend(a[1..], b);
      assert (a + b)[0] == a[0];
      assert (a + b)[1..] == a[1..] + b;
    }
  }

  lemma {:induction false} LowerAppend(a: string, b: string)
    ensures Lower(a + b) == Lower(a) + Lower(b)
    decreases |a|
  {
    if a == [] {
      assert a + b == b;
    } else {
      LowerAppend(a[1..], b);
      assert (a + b)[0] == a[0];
      assert (a + b)[1..] == a[1..] + b;
    }
  }

  lemma {:induction false} SeparatedRestMapsToSnakeRest(s: string)
    ensures Lower(HyphensToUnderscores(SeparatedRest(s, AllRules))) == SnakeRest(s)
    decreases |s|
  {
    if |s| >= 2 {
      var sep := SnakeSeparator(s[0], s[1], s[2..]);
      SeparatedRestMapsToSnakeRest(s[1..]);
      SnakeCharsAppend(sep + [s[1]], SeparatedRest(s[1..], AllRules));
      SnakeCharsAppend(sep, [s[1]]);
    }
  }

  /** `to_snake` puts an underscore exactly where one of its four rules
      separates two neighbours of the input, and maps every character by
      `SnakeChar`. */
  lemma ToSnakeIsSnakeCase(s: string)
    ensures ToSnake(s) == SnakeCase(s)
  {
    var acronyms := SplitAcronyms(s);
    SplitAcronymsIsSeparated(s);
    InsertSeparatorsIsSeparated(acronyms, LowerUpper);
    SeparatedThenPair(s, {AcronymEnd}, LowerUpper);
    var words := InsertSeparators(acronyms, LowerUpper);
    assert {AcronymEnd} + {LowerUpper} == {AcronymEnd, LowerUpper};
    assert {AcronymEnd, LowerUpper} + {DigitUpper} == {AcronymEnd, LowerUpper, DigitUpper};
    assert {AcronymEnd, LowerUpper, DigitUpper} + {LowerDigit} == AllRules;
    assert words == Separated(s, {AcronymEnd, LowerUpper});
    InsertSeparatorsIsSeparated(words, DigitUpper);
    SeparatedThenPair(s, {AcronymEnd, LowerUpper}, DigitUpper);
    var digitsBefore := InsertSeparators(words, DigitUpper);
    assert digitsBefore == Separated(s, {AcronymEnd, LowerUpper, DigitUpper});
    InsertSeparatorsIsSeparated(digitsBefore, LowerDigit);
    SeparatedThenPair(s, {AcronymEnd, LowerUpper, DigitUpper}, LowerDigit);
    assert InsertSeparators(digitsBefore, LowerDigit) == Separated(s, AllRules);
    if s != [] {
      SnakeCharsAppend([s[0]], SeparatedRest(s, AllRules));
      SeparatedRestMapsToSnakeRest(s);
    }
  }

  /** `to_snake` never writes a capital or a hyphen. */
  lemma {:induction false} SnakeRestClean(s: string)
    ensures forall i :: 0 <= i < |SnakeRest(s)| ==> !IsUpper(SnakeRest(s)[i]) && SnakeRest(s)[i] != '-'
    decreases |s|
  {
    if |s| >= 2 {
      SnakeRestClean(s[1..]);
    }
  }

  lemma ToSnakeClean(s: string)
    ensures var r := ToSnake(s); forall i :: 0 <= i < |r| ==> !IsUpper(r[i]) && r[i] != '-'
  {
    ToSnakeIsSnakeCase(s);
    SnakeRestClean(s);
  }

  lemma {:induction false} WithoutUnderscoresAppend(a: string, b: string)
    ensures WithoutUnderscores(a + b) == WithoutUnderscores(a) + WithoutUnderscores(b)
    decreases |a|
  {
    if a == [] {
      assert a + b == b;
    } else {
      WithoutUnderscoresAppend(a[1..], b);
      assert (a + b)[1..] == a[1..] + b;
    }
  }

  lemma {:induction false} SnakeRestOnlyAddsUnderscores(s: string)
    requires |s| >= 1
    ensures WithoutUnderscores(SnakeRest(s)) == WithoutUnderscores(Lower(HyphensToUnderscores(s[1..])))
    decreases |s|
  {
    if |s| >= 2 {
      var sep := SnakeSeparator(s[0], s[1], s[2..]);
      SnakeRestOnlyAddsUnderscores(s[1..]);
      assert s[1..][1..] == s[2..];
      WithoutUnderscoresAppend(sep + [SnakeChar(s[1])], SnakeRest(s[1..]));
      WithoutUnderscoresAppend(sep, [SnakeChar(s[1])]);
      WithoutUnderscoresAppend([SnakeChar(s[1])], Lower(HyphensToUnderscores(s[2..])));
    }
  }

  /** Apart from underscores, `to_snake` writes the input lower-cased with its
      hyphens replaced: it only adds separators. */
  lemma ToSnakeOnlyAddsUnderscores(s: string)
    ensures WithoutUnderscores(ToSnake(s)) == WithoutUnderscores(Lower(HyphensToUnderscores(s)))
  {
    ToSnakeIsSnakeCase(s);
    if s != [] {
      SnakeRestOnlyAddsUnderscores(s);
      WithoutUnderscoresAppend([SnakeChar(s[0])], SnakeRest(s));
      WithoutUnderscoresAppend([SnakeChar(s[0])], Lower(HyphensToUnderscores(s[1..])));
    }
  }

  /** Whether `rules` separate `x` from `y` depends on what follows `y` only
      through its first character. */
  lemma AnyFiresLooksOneAhead(rules: set<SeparatorRule>, x: char, y: char, r1: string, r2: string)
    requires |r1| > 0 <==> |r2| > 0
    requires |r1| > 0 ==> r1[0] == r2[0]
    ensures AnyFires(rules, x, y, r1) == AnyFires(rules, x, y, r2)
  {
  }

  /** The separator `to_snake` writes between `x` and `y`. */
  function SnakeSeparator(x: char, y: char, rest: string): string
  {
    if AnyFires(AllRules, x, y, rest) then "_" else ""
  }

  lemma SnakeSeparatorAtCut(x: char, y: char, b: string, a2: string)
    requires |b| >= 1 && (|a2| == 0 ==> !Fires(AcronymEnd, x, y, b))
    ensures SnakeSeparator(x, y, a2 + b) == SnakeSeparator(x, y, a2)
  {
    if |a2| > 0 {
      AnyFiresLooksOneAhead(AllRules, x, y, a2 + b, a2);
    } else {
      assert a2 + b == b;
    }
  }

  lemma {:induction false} SnakeRestAppendStep(a: string, b: string, t: string)
    requires |a| >= 2 && |b| >= 1
    requires !(|a| == 2 && Fires(AcronymEnd, a[0], a[1], b))
    requires SnakeRest(a[1..] + b) == SnakeRest(a[1..]) + t
    ensures SnakeRest(a + b) == SnakeRest(a) + t
  {
    var c := a + b;
    assert c[1..] == a[1..] + b;
    assert c[2..] == a[2..] + b;
    var head := SnakeSeparator(a[0], a[1], a[2..]) + [SnakeChar(a[1])];
    SnakeSeparatorAtCut(a[0], a[1], b, a[2..]);
    calc {
      SnakeRest(c);
      SnakeSeparator(a[0], a[1], c[2..]) + [SnakeChar(a[1])] + SnakeRest(c[1..]);
      head + (SnakeRest(a[1..]) + t);
      (head + SnakeRest(a[1..])) + t;
    }
  }

  lemma {:induction false} SnakeRestAppend(a: string, b: string)
    requires |a| >= 1 && |b| >= 1
    requires !(|a| >= 2 && Fires(AcronymEnd, a[|a| - 2], a[|a| - 1], b))
    ensures SnakeRest(a + b) == SnakeRest(a) + SnakeRest([a[|a| - 1]] + b)
    decreases |a|
  {
    if |a| == 1 {
      assert a + b == [a[0]] + b;
    } else {
      SnakeRestAppend(a[1..], b);
      assert a[1..][|a| - 2] == a[|a| - 1];
      SnakeRestAppendStep(a, b, SnakeRest([a[|a| - 1]] + b));
    }
  }

  lemma {:induction false} SnakeRestAfter(x: char, b: string)
    requires |b| >= 1
    ensures SnakeRest([x] + b) == SnakeSeparator(x, b[0], b[1..]) + SnakeCase(b)
  {
    assert ([x] + b)[1..] == b;
    assert ([x] + b)[2..] == b[1..];
  }

  /** `to_snake` of a concatenation is decided piecewise: only the window across
      the cut can add an underscore there, as long as the cut does not fall
      between the last capital of an acronym and the lower-case letter that ends
      it. */
  lemma {:induction false} SnakeCaseAppend(a: string, b: string)
    requires |a| >= 1 && |b| >= 1
    requires !(|a| >= 2 && Fires(AcronymEnd, a[|a| - 2], a[|a| - 1], b))
    ensures SnakeCase(a + b) == SnakeCase(a) + SnakeSeparator(a[|a| - 1], b[0], b[1..]) + SnakeCase(b)
  {
    var cut := SnakeSeparator(a[|a| - 1], b[0], b[1..]);
    SnakeRestAppend(a, b);
    SnakeRestAfter(a[|a| - 1], b);
    assert (a + b)[0] == a[0];
    SnakeCaseUnfold(a + b, SnakeRest(a) + (cut + SnakeCase(b)));
    Regroup([SnakeChar(a[0])], SnakeRest(a), cut, SnakeCase(b));
  }

  lemma Regroup(p: string, q: string, r: string, t: string)
    ensures p + (q + (r + t)) == (p + q) + r + t
  {
  }

  lemma SnakeCaseUnfold(s: string, t: string)
    requires |s| >= 1 && SnakeRest(s) == t
    ensures SnakeCase(s) == [SnakeChar(s[0])] + t
  {
  }

  // ---------------------------------------------------------------------------
  // to_pascal: the scan computes the reference
  // ---------------------------------------------------------------------------

  lemma {:induction false} DropJoiningIsReference(t: string)
    ensures DropJoiningUnderscores(t) == WithoutJoiningUnderscores(t)
    decreases |t|
  {
    if |t| >= 3 {
      if JoiningUnderscore(t) {
        DropJoiningIsReference(t[2..]);
        assert t[1..][1..] == t[2..];
        assert WithoutJoiningRest(t[1..]) == [t[2]] + WithoutJoiningRest(t[2..]);
      } else {
        DropJoiningIsReference(t[1..]);
      }
    } else if |t| == 2 {
      assert WithoutJoiningRest(t) == [t[1]];
    }
  }

  /** Title-casing keeps the class of a character: alphanumeric, digit,
      underscore. */
  lemma TitleCasedFacts(prev: char, c: char)
    ensures IsAlnum(TitleCased(prev, c)) == IsAlnum(c)
    ensures (TitleCased(prev, c) == '_') == (c == '_')
    ensures IsDigit(TitleCased(prev, c)) == IsDigit(c)
    ensures !IsCased(prev) ==> (IsUpper(TitleCased(prev, c)) == IsCased(c))
  {
  }

  lemma {:induction false} TitleThenJoin(c: char, s: string)
    requires |s| >= 1 && IsAlnum(c) == IsAlnum(s[0])
    ensures WithoutJoiningRest([c] + TitleRest(s)) == PascalRest(s)
    decreases |s|
  {
    if |s| >= 2 {
      var t := [c] + TitleRest(s);
      var t1 := TitleCased(s[0], s[1]);
      TitleCasedFacts(s[0], s[1]);
      assert t[1..] == [t1] + TitleRest(s[1..]);
      if |s| >= 3 {
        TitleCasedFacts(s[1], s[2]);
        assert t[2] == TitleCased(s[1], s[2]);
      }
      assert JoiningUnderscore(t) == InnerUnderscore(s);
      TitleThenJoin(t1, s[1..]);
    }
  }

  /** `to_pascal` removes exactly the inner underscores and title-cases every
      other character against its original predecessor. */
  lemma ToPascalIsPascalCase(s: string)
    ensures ToPascal(s) == PascalCase(s)
  {
    DropJoiningIsReference(Title(s));
    if s != [] {
      TitleThenJoin(UpperChar(s[0]), s);
    }
  }

  lemma {:induction false} PascalRestAppend(a: string, b: string)
    requires |a| >= 1 && |b| >= 1
    requires !(|a| >= 2 && InnerUnderscore([a[|a| - 2], a[|a| - 1], b[0]]))
    ensures PascalRest(a + b) == PascalRest(a) + PascalRest([a[|a| - 1]] + b)
    decreases |a|
  {
    if |a| == 1 {
      assert a + b == [a[0]] + b;
    } else {
      assert a[1..][|a| - 2] == a[|a| - 1];
      PascalRestAppend(a[1..], b);
      PascalRestAppendStep(a, b, PascalRest([a[|a| - 1]] + b));
    }
  }

  lemma PascalRestAppendStep(a: string, b: string, t: string)
    requires |a| >= 2 && |b| >= 1
    requires !(|a| == 2 && InnerUnderscore([a[0], a[1], b[0]]))
    requires PascalRest(a[1..] + b) == PascalRest(a[1..]) + t
    ensures PascalRest(a + b) == PascalRest(a) + t
  {
    var c := a + b;
    DropOneOfAppend(a, b);
    assert c[0] == a[0] && c[1] == a[1];
    if |a| >= 3 {
      assert c[2] == a[2];
      assert InnerUnderscore(c) == InnerUnderscore(a);
    } else {
      assert c[2] == b[0];
      assert InnerUnderscore(c) == InnerUnderscore([a[0], a[1], b[0]]);
    }
    var h := if InnerUnderscore(a) then [] else [TitleCased(a[0], a[1])];
    Regroup3(h, PascalRest(a[1..]), t);
  }

  lemma DropOneOfAppend(a: string, b: string)
    requires |a| >= 1
    ensures (a + b)[1..] == a[1..] + b
  {
  }

  lemma Regroup3(h: string, p: string, t: string)
    ensures h + (p + t) == (h + p) + t
  {
  }

  /** Where the character before the cut is not cased and no inner underscore
      touches the cut, `to_pascal` works on the two parts separately. */
  lemma PascalCaseAppend(a: string, b: string)
    requires |a| >= 1 && |b| >= 1 && !IsCased(a[|a| - 1])
    requires !(|a| >= 2 && InnerUnderscore([a[|a| - 2], a[|a| - 1], b[0]]))
    requires !(|b| >= 2 && InnerUnderscore([a[|a| - 1], b[0], b[1]]))
    ensures PascalCase(a + b) == PascalCase(a) + PascalCase(b)
  {
    PascalRestAppend(a, b);
    var x := a[|a| - 1];
    assert ([x] + b)[1..] == b;
    if |b| >= 2 {
      assert InnerUnderscore([x] + b) == InnerUnderscore([x, b[0], b[1]]);
    }
    assert (a + b)[0] == a[0];
  }

  /** An underscore between two alphanumerics disappears and the part after it
      is title-cased on its own. */
  lemma PascalCaseJoin(a: string, b: string)
    requires |a| >= 1 && |b| >= 1 && IsAlnum(a[|a| - 1]) && IsAlnum(b[0])
    ensures PascalCase(a + "_" + b) == PascalCase(a) + PascalCase(b)
  {
    var x := a[|a| - 1];
    var u := ['_'] + b;
    assert a + "_" + b == a + u;
    PascalRestAppend(a, u);
    assert [x] + u == [x, '_'] + b;
    PascalRestAcrossUnderscore(x, b);
    PascalCaseOfAppend(a, u, PascalCase(b));
  }

  lemma PascalCaseOfAppend(a: string, u: string, r: string)
    requires |a| >= 1 && PascalRest(a + u) == PascalRest(a) + r
    ensures PascalCase(a + u) == PascalCase(a) + r
  {
    assert (a + u)[0] == a[0];
  }

  lemma PascalRestAcrossUnderscore(x: char, b: string)
    requires |b| >= 1 && IsAlnum(x) && IsAlnum(b[0])
    ensures PascalRest([x, '_'] + b) == PascalCase(b)
  {
    var w := [x, '_'] + b;
    assert w[1..] == ['_'] + b;
    assert w[2] == b[0];
    PascalRestSkips(w);
    PascalRestAfterUnderscore(w[1..]);
    assert w[1..][1..] == b;
  }

  /** An inner underscore contributes nothing. */
  lemma PascalRestSkips(w: string)
    requires InnerUnderscore(w)
    ensures PascalRest(w) == PascalRest(w[1..])
  {
  }

  /** After an underscore the next character is capitalised. */
  lemma PascalRestAfterUnderscore(w: string)
    requires |w| >= 2 && w[0] == '_'
    ensures PascalRest(w) == PascalCase(w[1..])
  {
    assert !InnerUnderscore(w);
    assert TitleCased(w[0], w[1]) == UpperChar(w[1]);
    assert w[1..][0] == w[1];
  }

  /** A leading underscore is kept and does not change the rest. */
  lemma PascalCaseAfterUnderscore(b: string)
    requires |b| >= 1
    ensures PascalCase("_" + b) == "_" + PascalCase(b)
  {
    PascalCaseAppend("_", b);
  }

  /** A trailing underscore is kept and does not change the rest. */
  lemma {:induction false} PascalCaseBeforeUnderscore(a: string)
    requires |a| >= 1
    ensures PascalCase(a + "_") == PascalCase(a) + "_"
  {
    var x := a[|a| - 1];
    PascalRestAppend(a, "_");
    assert PascalRest([x] + "_") == "_";
    assert (a + "_")[0] == a[0];
  }

  /** The last character is never removed: it has no right neighbour. */
  lemma {:induction false} PascalRestLast(s: string)
    requires |s| >= 2
    ensures var r := PascalRest(s); |r| > 0 && r[|r| - 1] == TitleCased(s[|s| - 2], s[|s| - 1])
    decreases |s|
  {
    var t := s[1..];
    var h := if InnerUnderscore(s) then [] else [TitleCased(s[0], s[1])];
    assert PascalRest(s) == h + PascalRest(t);
    if |s| > 2 {
      PascalRestLast(t);
      assert t[|t| - 2] == s[|s| - 2] && t[|t| - 1] == s[|s| - 1];
      LastOfAppend(h, PascalRest(t));
    } else {
      assert PascalRest(t) == [];
    }
  }

  lemma LastOfAppend(h: string, r: string)
    requires |r| > 0
    ensures |h + r| > 0 && (h + r)[|h + r| - 1] == r[|r| - 1]
  {
  }

  /** `to_pascal` keeps the underscores a name starts with. */
  lemma {:induction false} ToPascalKeepsLeadingUnderscores(s: string)
    ensures LeadingUnderscores(ToPascal(s)) == LeadingUnderscores(s)
    decreases |s|
  {
    ToPascalIsPascalCase(s);
    if |s| >= 2 && s[0] == '_' {
      ToPascalKeepsLeadingUnderscores(s[1..]);
      ToPascalIsPascalCase(s[1..]);
      assert s == "_" + s[1..];
      PascalCaseAfterUnderscore(s[1..]);
      assert ("_" + PascalCase(s[1..]))[1..] == PascalCase(s[1..]);
    } else if s != [] {
      TitleCasedFacts(' ', s[0]);
    }
  }

  /** `to_pascal` keeps the underscores a name ends with. */
  lemma ToPascalKeepsTrailingUnderscores(s: string)
    ensures TrailingUnderscores(ToPascal(s)) == TrailingUnderscores(s)
  {
    ToPascalIsPascalCase(s);
    PascalCaseKeepsTrailing(s);
  }

  lemma {:induction false} PascalCaseKeepsTrailing(s: string)
    ensures TrailingUnderscores(PascalCase(s)) == TrailingUnderscores(s)
    decreases |s|
  {
    if |s| >= 2 && s[|s| - 1] == '_' {
      var a := s[..|s| - 1];
      PascalCaseKeepsTrailing(a);
      assert s == a + "_";
      PascalCaseBeforeUnderscore(a);
      TrailingAfterUnderscore(PascalCase(a));
      TrailingAfterUnderscore(a);
    } else if s != [] {
      PascalCaseLastKept(s);
    }
  }

  lemma TrailingAfterUnderscore(p: string)
    ensures TrailingUnderscores(p + "_") == 1 + TrailingUnderscores(p)
  {
    assert (p + "_")[..|p|] == p;
  }

  /** `to_pascal` ends in an underscore exactly when its input does. */
  lemma PascalCaseLastKept(s: string)
    requires |s| >= 1
    ensures var p := PascalCase(s); |p| >= 1 && (p[|p| - 1] == '_') == (s[|s| - 1] == '_')
  {
    if |s| >= 2 {
      PascalRestLast(s);
      TitleCasedFacts(s[|s| - 2], s[|s| - 1]);
      LastOfAppend([UpperChar(s[0])], PascalRest(s));
    } else {
      TitleCasedFacts(' ', s[0]);
      assert PascalRest(s) == [];
    }
  }

  // ---------------------------------------------------------------------------
  // to_camel
  // ---------------------------------------------------------------------------

  /** The substitution of `to_camel` changes one character at most: the first one
      after the leading underscores, which it lower-cases. */
  lemma {:induction false} LowerLeadingCapitalAt(s: string)
    ensures var r := LowerLeadingCapital(s); var k := LeadingUnderscores(s);
      |r| == |s| && LeadingUnderscores(r) == k
      && (forall i :: 0 <= i < |s| && i != k ==> r[i] == s[i])
      && (k < |s| ==> r[k] == LowerChar(s[k]))
    decreases |s|
  {
    if s != [] && s[0] == '_' {
      LowerLeadingCapitalAt(s[1..]);
    }
  }

  /** Two strings with underscores in the same places start and end with the
      same number of them. */
  lemma {:induction false} SameUnderscoresSameEnds(x: string, y: string)
    requires |x| == |y| && forall i :: 0 <= i < |x| ==> (x[i] == '_') == (y[i] == '_')
    ensures LeadingUnderscores(x) == LeadingUnderscores(y)
    ensures TrailingUnderscores(x) == TrailingUnderscores(y)
    decreases |x|
  {
    if x != [] {
      SameUnderscoresSameEnds(x[1..], y[1..]);
      SameUnderscoresSameEnds(x[..|x| - 1], y[..|y| - 1]);
    }
  }

  /** Unless its input is already camelCase, `to_camel` is `to_pascal` with the
      first character after the leading underscores lower-cased. */
  lemma ToCamelFromPascal(s: string)
    requires !AlreadyCamel(s)
    ensures var p := ToPascal(s); var r := ToCamel(s); var k := LeadingUnderscores(p);
      |r| == |p| && (forall i :: 0 <= i < |p| && i != k ==> r[i] == p[i])
      && (k < |p| ==> r[k] == LowerChar(p[k]))
  {
    LowerLeadingCapitalAt(ToPascal(s));
  }

  /** The output of `to_camel` never has a capital right after its leading
      underscores, and it keeps the underscores the input starts and ends
      with. */
  lemma ToCamelShape(s: string)
    ensures var r := ToCamel(s); var k := LeadingUnderscores(r);
      (k < |r| ==> !IsUpper(r[k]))
      && LeadingUnderscores(r) == LeadingUnderscores(s)
      && TrailingUnderscores(r) == TrailingUnderscores(s)
  {
    if !AlreadyCamel(s) {
      var p := ToPascal(s);
      LowerLeadingCapitalAt(p);
      ToPascalKeepsLeadingUnderscores(s);
      ToPascalKeepsTrailingUnderscores(s);
      var r := LowerLeadingCapital(p);
      var k := LeadingUnderscores(p);
      if k < |p| {
        assert p[k] != '_' by {
          LeadingUnderscoresStop(p);
        }
      }
      SameUnderscoresSameEnds(r, p);
    }
  }

  lemma {:induction false} LeadingUnderscoresStop(s: string)
    ensures LeadingUnderscores(s) < |s| ==> s[LeadingUnderscores(s)] != '_'
    decreases |s|
  {
    if s != [] && s[0] == '_' {
      LeadingUnderscoresStop(s[1..]);
    }
  }

  lemma {:induction false} PascalRestOfLowerWord(w: string)
    requires |w| >= 1 && AllLower(w)
    ensures PascalRest(w) == w[1..]
    decreases |w|
  {
    if |w| >= 2 {
      assert w[1..][1..] == w[2..];
      PascalRestOfLowerWord(w[1..]);
    }
  }

  /** `to_pascal` capitalises a lower-case word and changes nothing else. */
  lemma ToPascalOfLowerWord(w: string)
    requires |w| >= 1 && AllLower(w)
    ensures ToPascal(w) == [UpperChar(w[0])] + w[1..]
  {
    ToPascalIsPascalCase(w);
    PascalCaseOfLowerWord(w);
  }

  lemma PascalCaseOfLowerWord(w: string)
    requires |w| >= 1 && AllLower(w)
    ensures PascalCase(w) == [UpperChar(w[0])] + w[1..]
  {
    PascalRestOfLowerWord(w);
  }

  /** Appending to a name: the part after the cut is title-cased against the
      last character before it. */
  lemma PascalCaseAppendRest(a: string, b: string)
    requires |a| >= 1 && |b| >= 1
    requires !(|a| >= 2 && InnerUnderscore([a[|a| - 2], a[|a| - 1], b[0]]))
    ensures PascalCase(a + b) == PascalCase(a) + PascalRest([a[|a| - 1]] + b)
  {
    PascalRestAppend(a, b);
    PascalCaseOfAppend(a, b, PascalRest([a[|a| - 1]] + b));
  }

  lemma {:induction false} AllAlnumAt(s: string, i: int)
    requires AllAlnum(s) && 0 <= i < |s|
    ensures IsAlnum(s[i])
    decreases i
  {
    if i > 0 {
      AllAlnumAt(s[1..], i - 1);
    }
  }

  lemma {:induction false} DigitThenLowerAt(s: string, i: int)
    requires 0 <= i < |s| - 1 && IsDigit(s[i]) && IsLower(s[i + 1])
    ensures HasDigitThenLower(s)
    decreases i
  {
    if i > 0 {
      DigitThenLowerAt(s[1..], i - 1);
    }
  }

  /** A string holding an underscore is never taken to be camel case already,
      so `to_camel` always rewrites it. */
  lemma UnderscoreIsNotCamel(s: string, i: int)
    requires 0 <= i < |s| && s[i] == '_'
    ensures !AlreadyCamel(s)
  {
    if CamelWord(s) {
      AllAlnumAt(s, i);
    } else if |s| > 0 && s[|s| - 1] == '\n' && CamelWord(s[..|s| - 1]) {
      AllAlnumAt(s[..|s| - 1], i);
    }
  }

  /** A digit followed by a lower-case letter also sends a string through
      `to_pascal`. */
  lemma DigitThenLowerIsNotCamel(s: string, i: int)
    requires 0 <= i < |s| - 1 && IsDigit(s[i]) && IsLower(s[i + 1])
    ensures !AlreadyCamel(s)
  {
    DigitThenLowerAt(s, i);
  }

  /** `to_camel`'s final step lower-cases the capital right after the leading
      underscores and leaves every other character in place. */
  lemma {:induction false} LowerLeadingCapitalAfterUnderscores(u: string, c: char, rest: string)
    requires forall k | 0 <= k < |u| :: u[k] == '_'
    requires IsUpper(c)
    ensures LowerLeadingCapital(u + [c] + rest) == u + [LowerChar(c)] + rest
    decreases |u|
  {
    if u != [] {
      assert (u + [c] + rest)[1..] == u[1..] + [c] + rest;
      LowerLeadingCapitalAfterUnderscores(u[1..], c, rest);
    }
  }

  lemma {:induction false} AllAlnumAppend(a: string, b: string)
    requires AllAlnum(a) && AllAlnum(b)
    ensures AllAlnum(a + b)
    decreases |a|
  {
    if a == [] {
      assert a + b == b;
    } else {
      assert (a + b)[0] == a[0];
      assert (a + b)[1..] == a[1..] + b;
      AllAlnumAppend(a[1..], b);
    }
  }

  lemma {:induction false} NoDigitThenLowerAppend(a: string, b: string)
    requires !HasDigitThenLower(a) && !HasDigitThenLower(b)
    requires !(|a| > 0 && |b| > 0 && IsDigit(a[|a| - 1]) && IsLower(b[0]))
    ensures !HasDigitThenLower(a + b)
    decreases |a|
  {
    if a == [] {
      assert a + b == b;
    } else {
      assert (a + b)[1..] == a[1..] + b;
      NoDigitThenLowerAppend(a[1..], b);
      if |a + b| >= 2 {
        assert (a + b)[0] == a[0];
        assert (a + b)[1] == if |a| >= 2 then a[1] else b[0];
      }
    }
  }

  /** A string of letters is alphanumeric and has no digit before a
      lower-case letter. */
  lemma {:induction false} LettersAreCamelSafe(w: string)
    requires forall i | 0 <= i < |w| :: IsCased(w[i])
    ensures AllAlnum(w) && !HasDigitThenLower(w)
    decreases |w|
  {
    if w != [] {
      assert forall i | 0 <= i < |w[1..]| :: w[1..][i] == w[i + 1];
      LettersAreCamelSafe(w[1..]);
    }
  }

  /** Two camel-case words written one after the other, with no digit right
      before a lower-case letter at the seam, are left alone by `to_camel`. */
  lemma CamelWordsAppend(a: string, b: string)
    requires CamelWord(a) && AllAlnum(b)
    requires !HasDigitThenLower(a) && !HasDigitThenLower(b)
    requires !(|b| > 0 && IsDigit(a[|a| - 1]) && IsLower(b[0]))
    ensures AlreadyCamel(a + b) && ToCamel(a + b) == a + b
  {
    AllAlnumAppend(a, b);
    NoDigitThenLowerAppend(a, b);
  }

  // ---------------------------------------------------------------------------
  // to_snake on single words
  // ---------------------------------------------------------------------------

  /** Nothing separates two lower-case letters. */
  lemma {:induction false} SnakeRestOfLowerWord(w: string)
    requires |w| >= 1 && AllLower(w)
    ensures SnakeRest(w) == w[1..]
    decreases |w|
  {
    if |w| >= 2 {
      assert AllLower(w[1..]) && IsLower(w[1]);
      SnakeRestOfLowerWord(w[1..]);
      assert SnakeSeparator(w[0], w[1], w[2..]) == "";
      assert w[1..][1..] == w[2..];
      ConsOfDrop(w[1..]);
    }
  }

  lemma ConsOfDrop(w: string)
    requires |w| >= 1
    ensures "" + [w[0]] + w[1..] == w
  {
  }

  /** `to_snake` leaves a lower-case word alone. */
  lemma SnakeCaseOfLowerWord(w: string)
    requires |w| >= 1 && AllLower(w)
    ensures SnakeCase(w) == w
  {
    SnakeRestOfLowerWord(w);
  }

  /** `to_snake` lower-cases the capital of a capitalised word and adds no
      underscore. */
  lemma SnakeCaseOfCapitalWord(w: string)
    requires |w| >= 1 && IsUpper(w[0]) && AllLower(w[1..])
    ensures SnakeCase(w) == [LowerChar(w[0])] + w[1..]
  {
    if |w| >= 2 {
      SnakeRestOfLowerWord(w[1..]);
      assert w[1..][0] == w[1];
      assert SnakeSeparator(w[0], w[1], w[2..]) == "";
      assert w[1..][1..] == w[2..];
      ConsOfDrop(w[1..]);
    }
  }
}
