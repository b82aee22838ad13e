/** The validation pipeline on the concrete inputs the test suite uses. */
module PipelineExamples {
  import opened Pipeline
  import T = PipelineText
  import A = AliasGenerators

  /** `validate_python(x) == x`, with nothing logged. */
  predicate Accepts(p: Pipe, field: Type, v: Value)
  {
    Eval(p, field, v) == Run(Valid(v), [])
  }

  /** `validate_python(x)` raises a validation error. */
  predicate Rejects(p: Pipe, field: Type, v: Value)
  {
    Eval(p, field, v).outcome == Invalid
  }

  // ---------------------------------------------------------------------------
  // Pipelines of a parse and one more step
  // ---------------------------------------------------------------------------

  /** `validate_as(target)` followed by one step: a step that folds into the
      type's schema is checked by pydantic-core with it; any other runs on
      the parsed value, and only if parsing succeeded. */
  lemma ParseThenStep(target: Target, strict: bool, s: Step, field: Type, v: Value)
    ensures var schema := ParseSchema(target, strict, field);
      Eval(ValidateAs(target, strict).Then(s), field, v)
      == if Folds(schema, s) then Run(RunSchema(Fold(schema, s), v), [])
         else (var parsed := ParseStep(target, strict, field, v);
               if parsed.Invalid? then Run(Invalid, []) else EvalStep(s, field, parsed.value))
  {
    var p := ValidateAs(target, strict);
    assert p.steps[1..] == [];
    assert Built(p, field) == T.Some(ParseSchema(target, strict, field));
    ValidateAsRuns(target, strict, field, v);
    ThenRunsAfter(p, s, field, v);
    var parsed := ParseStep(target, strict, field, v);
    if parsed.Valid? {
      var r := EvalStep(s, field, parsed.value);
      assert [] + r.calls == r.calls;
    }
  }

  /** On a value of the parsed type, a folded step other than `str.strip`
      does what the step does: the schema starts with no bounds, and its
      lower- and upper-casing are Python's on ASCII. */
  lemma FreshFoldIsStep(t: Type, strict: bool, s: Step, field: Type, v: Value)
    requires HasType(v, t) && Folds(TypeSchema(t, strict), s)
    requires !(s.Transform? && s.fn.StrStrip?)
    ensures Run(RunSchema(Fold(TypeSchema(t, strict), s), v), []) == EvalStep(s, field, v)
  {
    var schema := TypeSchema(t, strict);
    if s.Constrain? && t == IntType {
      FoldedBoundIsCheck(schema, s.c, v);
    } else if s.Constrain? {
      FoldedLenIsCheck(schema, s.c.minLen, s.c.maxLen, v);
    }
  }

  /** A step after parsing a value that already has the parsed type sees the
      value unchanged. `str.strip` is the exception: folded, it trims as
      `str::trim` does. */
  lemma StepAfterParse(target: Target, strict: bool, s: Step, field: Type, v: Value)
    requires HasType(v, field) && (target == FieldType || target == As(field))
    requires !(s.Transform? && s.fn.StrStrip?)
    ensures Eval(ValidateAs(target, strict).Then(s), field, v) == EvalStep(s, field, v)
  {
    ParseThenStep(target, strict, s, field, v);
    var schema := ParseSchema(target, strict, field);
    if Folds(schema, s) {
      FreshFoldIsStep(field, if target == FieldType then false else strict, s, field, v);
    }
  }

  // ---------------------------------------------------------------------------
  // Strip, then lower-case
  // ---------------------------------------------------------------------------

  const StripLower: Pipe := ValidateAs(FieldType, false).Then(Transform(StrStrip)).Then(Transform(StrLower))

  /** Both methods fold into the `str` schema: the string is trimmed as
      `str::trim` does it, then lower-cased. */
  lemma StripLowerRuns(x: string)
    ensures Eval(StripLower, StrType, StrV(x)) == Run(Valid(StrV(A.Lower(T.Strip(T.RustSpace, x)))), [])
  {
    var s1 := StrSchema(false, true, false, false, T.None, T.None);
    var s2 := StrSchema(false, true, true, false, T.None, T.None);
    assert FoldPrefix(s1, [Transform(StrLower)]) == (s2, 1) by {
      assert [Transform(StrLower)][1..] == [];
    }
    assert StripLower.steps[1..] == [Transform(StrStrip), Transform(StrLower)];
    assert FoldPrefix(ParseSchema(FieldType, false, StrType), StripLower.steps[1..]) == (s2, 2) by {
      assert [Transform(StrStrip), Transform(StrLower)][1..] == [Transform(StrLower)];
    }
    BuiltRuns(StripLower, StrType, StrV(x));
  }

  /** Spaces, tabs and line breaks around a word are dropped and the word
      lower-cased. */
  lemma StripLowerOfPadded(a: string, w: string, b: string)
    requires T.AllSpace(T.RustSpace, a) && T.AllSpace(T.RustSpace, b) && T.Trimmed(T.RustSpace, w)
    ensures Eval(StripLower, StrType, StrV(a + w + b)) == Run(Valid(StrV(A.Lower(w))), [])
  {
    StripLowerRuns(a + w + b);
    T.StripPadded(T.RustSpace, a, w, b);
  }

  lemma PotatoSpellings()
    ensures A.Lower("potato") == "potato"
    ensures A.Lower("POTATO") == "potato"
    ensures A.Lower("PoTatO") == "potato"
    ensures T.Upper("potato") == "POTATO"
  {
    T.LowerAt("potato");
    T.LowerAt("POTATO");
    T.LowerAt("PoTatO");
    T.UpperAt("potato");
  }

  /** The test's spellings of "potato", with any whitespace around them. */
  lemma ParseStrRows(a: string, b: string)
    requires T.AllSpace(T.RustSpace, a) && T.AllSpace(T.RustSpace, b)
    ensures Eval(StripLower, StrType, StrV(a + "potato" + b)) == Run(Valid(StrV("potato")), [])
    ensures Eval(StripLower, StrType, StrV(a + "POTATO" + b)) == Run(Valid(StrV("potato")), [])
    ensures Eval(StripLower, StrType, StrV(a + "PoTatO" + b)) == Run(Valid(StrV("potato")), [])
  {
    PotatoSpellings();
    StripLowerOfPadded(a, "potato", b);
    StripLowerOfPadded(a, "POTATO", b);
    StripLowerOfPadded(a, "PoTatO", b);
  }

  // ---------------------------------------------------------------------------
  // Bounds, divisibility, intervals and lengths
  // ---------------------------------------------------------------------------

  /** `validate_as(...)` followed by one constraint. */
  function Constrained(c: Constraint): Pipe
  {
    ValidateAs(FieldType, false).Then(Constrain(c))
  }

  /** `validate_as(tp)` followed by one constraint. */
  function ParsedThen(t: Type, c: Constraint): Pipe
  {
    ValidateAs(As(t), false).Then(Constrain(c))
  }

  /** `constrain(c)` after parsing an integer as an integer: the value passes
      unchanged exactly when it meets `c`. */
  lemma ConstrainedInt(target: Target, strict: bool, c: Constraint, i: int)
    requires target == FieldType || target == As(IntType)
    ensures Accepts(ValidateAs(target, strict).Then(Constrain(c)), IntType, IntV(i)) <==> Meets(c, IntV(i))
    ensures Rejects(ValidateAs(target, strict).Then(Constrain(c)), IntType, IntV(i)) <==> !Meets(c, IntV(i))
  {
    StepAfterParse(target, strict, Constrain(c), IntType, IntV(i));
  }

  /** The same for strings. */
  lemma ConstrainedStr(target: Target, c: Constraint, w: string)
    requires target == FieldType || target == As(StrType)
    ensures Accepts(ValidateAs(target, false).Then(Constrain(c)), StrType, StrV(w)) <==> Meets(c, StrV(w))
    ensures Rejects(ValidateAs(target, false).Then(Constrain(c)), StrType, StrV(w)) <==> !Meets(c, StrV(w))
  {
    StepAfterParse(target, false, Constrain(c), StrType, StrV(w));
  }

  /** `ge(0)`, `le(5)`, `gt(0)` and `lt(5)` on every integer. */
  lemma ComparisonRows(i: int)
    ensures Accepts(Constrained(Ge(0)), IntType, IntV(i)) <==> i >= 0
    ensures Rejects(Constrained(Ge(0)), IntType, IntV(i)) <==> i < 0
    ensures Accepts(Constrained(Le(5)), IntType, IntV(i)) <==> i <= 5
    ensures Rejects(Constrained(Le(5)), IntType, IntV(i)) <==> i > 5
    ensures Accepts(Constrained(Gt(0)), IntType, IntV(i)) <==> i > 0
    ensures Rejects(Constrained(Gt(0)), IntType, IntV(i)) <==> i <= 0
    ensures Accepts(Constrained(Lt(5)), IntType, IntV(i)) <==> i < 5
    ensures Rejects(Constrained(Lt(5)), IntType, IntV(i)) <==> i >= 5
  {
    ConstrainedInt(FieldType, false, Ge(0), i);
    ConstrainedInt(FieldType, false, Le(5), i);
    ConstrainedInt(FieldType, false, Gt(0), i);
    ConstrainedInt(FieldType, false, Lt(5), i);
  }

  /** `multiple_of(5)` on every integer. */
  lemma MultipleOfRows(i: int)
    ensures Accepts(ParsedThen(IntType, MultipleOf(5)), IntType, IntV(i)) <==> i % 5 == 0
    ensures Rejects(ParsedThen(IntType, MultipleOf(5)), IntType, IntV(i)) <==> i % 5 != 0
  {
    ConstrainedInt(As(IntType), false, MultipleOf(5), i);
  }

  const ZeroToTen: Constraint := Interval(T.None, T.Some(0), T.None, T.Some(10))
  const OneToFiveOpen: Constraint := Interval(T.Some(1), T.None, T.Some(5), T.None)

  /** `Interval(ge=0, le=10)` and `Interval(gt=1, lt=5)` on every integer. */
  lemma IntervalRows(i: int)
    ensures Accepts(ParsedThen(IntType, ZeroToTen), IntType, IntV(i)) <==> 0 <= i <= 10
    ensures Rejects(ParsedThen(IntType, ZeroToTen), IntType, IntV(i)) <==> i < 0 || i > 10
    ensures Accepts(ParsedThen(IntType, OneToFiveOpen), IntType, IntV(i)) <==> 1 < i < 5
    ensures Rejects(ParsedThen(IntType, OneToFiveOpen), IntType, IntV(i)) <==> i <= 1 || i >= 5
  {
    ConstrainedInt(As(IntType), false, ZeroToTen, i);
    ConstrainedInt(As(IntType), false, OneToFiveOpen, i);
  }

  /** As `_apply_constraint` is written, `Interval(ge=0, le=10)` applies only
      `le(10)`, so -1 gets through although the interval excludes it. */
  lemma IntervalZeroBoundAsWritten()
    ensures Eval(Pipe([Parse(As(IntType), false)] + Constraints(TruthyBounds(T.None, T.Some(0), T.None, T.Some(10)))),
                 IntType, IntV(-1)) == Run(Valid(IntV(-1)), [])
    ensures Rejects(ParsedThen(IntType, ZeroToTen), IntType, IntV(-1))
  {
    ZeroBoundDropped();
    assert Constraints([Le(10)]) == [Constrain(Le(10))];
    assert [Parse(As(IntType), false)] + [Constrain(Le(10))] == ParsedThen(IntType, Le(10)).steps;
    ConstrainedInt(As(IntType), false, Le(10), -1);
    IntervalRows(-1);
  }

  /** A bound folded into an `int` schema replaces one of the same kind
      folded before it: `validate_as(int).gt(5).gt(1)` accepts every integer
      above 1. */
  lemma LaterBoundReplaces(i: int)
    ensures Accepts(ParsedThen(IntType, Gt(5)).Then(Constrain(Gt(1))), IntType, IntV(i)) <==> i > 1
  {
    var p := ParsedThen(IntType, Gt(5));
    assert p.steps[1..] == [Constrain(Gt(5))];
    var s1 := IntSchema(false, T.Some(5), T.None, T.None, T.None, T.None);
    assert FoldPrefix(s1, []) == (s1, 0);
    assert FoldPrefix(TypeSchema(IntType, false), [Constrain(Gt(5))]) == (s1, 1) by {
      assert [Constrain(Gt(5))][1..] == [];
    }
    ThenRunsAfter(p, Constrain(Gt(1)), IntType, IntV(i));
  }

  /** `len(lo, hi)` on every string: with an upper bound the length must lie
      between the two, without one it must only reach `lo`. */
  lemma LenRows(lo: nat, hi: T.Option<nat>, w: string)
    ensures Accepts(ParsedThen(StrType, Len(lo, hi)), StrType, StrV(w))
        <==> lo <= |w| && (hi.None? || |w| <= hi.value)
    ensures Rejects(ParsedThen(StrType, Len(lo, hi)), StrType, StrV(w))
        <==> |w| < lo || (hi.Some? && |w| > hi.value)
  {
    ConstrainedStr(As(StrType), Len(lo, hi), w);
  }

  // ---------------------------------------------------------------------------
  // String methods
  // ---------------------------------------------------------------------------

  /** `validate_as(str).str_<method>()` */
  function StrMethod(f: Fn): Pipe
  {
    ValidateAs(As(StrType), false).Then(Transform(f))
  }

  /** `str.title` leaves the rest of a lower-case word alone. */
  lemma {:induction false} TitleRestOfLowerWord(w: string)
    requires |w| >= 1 && A.AllLower(w)
    ensures A.TitleRest(w) == w[1..]
    decreases |w|
  {
    if |w| >= 2 {
      assert w[1..][1..] == w[2..];
      TitleRestOfLowerWord(w[1..]);
    }
  }

  /** Two lower-case words with a space between: the second word's first
      letter is upper-cased, as it follows an uncased character. */
  lemma {:induction false} TitleRestOfLowerWords(a: string, b: string)
    requires |a| >= 1 && |b| >= 1 && A.AllLower(a) && A.AllLower(b)
    ensures A.TitleRest(a + " " + b) == a[1..] + " " + [A.UpperChar(b[0])] + b[1..]
    decreases |a|
  {
    var s := a + " " + b;
    if |a| == 1 {
      assert s[1..] == " " + b;
      assert (" " + b)[1..] == b;
      TitleRestOfLowerWord(b);
    } else {
      assert s[1..] == a[1..] + " " + b;
      TitleRestOfLowerWords(a[1..], b);
      assert a[1..][1..] == a[2..];
    }
  }

  /** `str.title` of two lower-case words with a space between capitalises
      each word. */
  lemma TitleOfLowerWords(a: string, b: string)
    requires |a| >= 1 && |b| >= 1 && A.AllLower(a) && A.AllLower(b)
    ensures A.Title(a + " " + b) == [A.UpperChar(a[0])] + a[1..] + " " + [A.UpperChar(b[0])] + b[1..]
  {
    TitleRestOfLowerWords(a, b);
    assert (a + " " + b)[0] == a[0];
  }

  lemma TitleSpelling()
    ensures A.Title("potato potato") == "Potato Potato"
  {
    var w := "potato";
    assert A.AllLower(w) by {
      assert w[1..] == "otato" && w[1..][1..] == "tato" && w[1..][1..][1..] == "ato";
      assert w[1..][1..][1..][1..] == "to" && w[1..][1..][1..][1..][1..] == "o";
    }
    TitleOfLowerWords(w, w);
    assert w + " " + w == "potato potato";
    assert A.UpperChar('p') == 'P';
    assert ['P'] + w[1..] + " " + ['P'] + w[1..] == "Potato Potato";
  }

  /** A string method after `validate_as(str)` applies the method to the
      string; `str.strip` folds into the schema and trims as `str::trim`
      does. */
  lemma StrMethodRuns(w: string)
    ensures Eval(StrMethod(StrLower), StrType, StrV(w)) == Run(Valid(StrV(A.Lower(w))), [])
    ensures Eval(StrMethod(StrUpper), StrType, StrV(w)) == Run(Valid(StrV(T.Upper(w))), [])
    ensures Eval(StrMethod(StrTitle), StrType, StrV(w)) == Run(Valid(StrV(A.Title(w))), [])
    ensures Eval(StrMethod(StrStrip), StrType, StrV(w)) == Run(Valid(StrV(T.Strip(T.RustSpace, w))), [])
  {
    StepAfterParse(As(StrType), false, Transform(StrLower), StrType, StrV(w));
    StepAfterParse(As(StrType), false, Transform(StrUpper), StrType, StrV(w));
    StepAfterParse(As(StrType), false, Transform(StrTitle), StrType, StrV(w));
    StrStripRuns(StrType, w);
  }

  /** `validate_as(str).str_strip()` trims the string as `str::trim` does,
      whatever the field type. */
  lemma StrStripRuns(field: Type, w: string)
    ensures Eval(StrMethod(StrStrip), field, StrV(w)) == Run(Valid(StrV(T.Strip(T.RustSpace, w))), [])
  {
    var schema := ParseSchema(As(StrType), false, field);
    ParseThenStep(As(StrType), false, Transform(StrStrip), field, StrV(w));
    assert Fold(schema, Transform(StrStrip)) == StrSchema(false, true, false, false, T.None, T.None);
  }

  /** `str_lower`, `str_upper` and `str_title` on the test's strings. */
  lemma StringCaseRows()
    ensures Eval(StrMethod(StrLower), StrType, StrV("POTATO")) == Run(Valid(StrV("potato")), [])
    ensures Eval(StrMethod(StrUpper), StrType, StrV("potato")) == Run(Valid(StrV("POTATO")), [])
    ensures Eval(StrMethod(StrTitle), StrType, StrV("potato potato")) == Run(Valid(StrV("Potato Potato")), [])
  {
    PotatoSpellings();
    TitleSpelling();
    StrMethodRuns("POTATO");
    StrMethodRuns("potato");
    StrMethodRuns("potato potato");
  }

  /** `str_strip` on the test's word, with any spaces, tabs or line breaks
      around it. */
  lemma StringStripRow(a: string, b: string)
    requires T.AllSpace(T.RustSpace, a) && T.AllSpace(T.RustSpace, b)
    ensures Eval(StrMethod(StrStrip), StrType, StrV(a + "potato" + b)) == Run(Valid(StrV("potato")), [])
  {
    StrMethodRuns(a + "potato" + b);
    T.StripPadded(T.RustSpace, a, "potato", b);
  }

  /** A separator `\x1c`-`\x1f` in front of a word survives the folded
      `str_strip`, although `str.strip` itself would remove it. */
  lemma SeparatorSurvivesStrip(c: char, w: string)
    requires c in T.Separators && w != [] && T.Trimmed(T.PythonSpace, w)
    ensures Eval(StrMethod(StrStrip), StrType, StrV([c] + w)) == Run(Valid(StrV([c] + w)), [])
    ensures ApplyFn(StrStrip, StrV([c] + w)) == Run(Valid(StrV(w)), [])
  {
    StrMethodRuns([c] + w);
    T.SeparatorKeptByTrim(c, w);
    assert [c] + w == [c] + w + [];
    T.StripPadded(T.PythonSpace, [c], w, []);
  }

  const LenThenStrip: Pipe := ValidateAs(As(StrType), false).Then(Constrain(Len(2, T.Some(5)))).Then(Transform(StrStrip))

  /** Once folded, a length is checked on the trimmed string even when
      `str_strip` comes after it in `validate_as(str).len(2, 5).str_strip()`. */
  lemma LenThenStripRuns(a: string, w: string, b: string)
    requires T.AllSpace(T.RustSpace, a) && T.AllSpace(T.RustSpace, b) && T.Trimmed(T.RustSpace, w)
    ensures Eval(LenThenStrip, StrType, StrV(a + w + b))
         == Run(if 2 <= |w| <= 5 then Valid(StrV(w)) else Invalid, [])
  {
    var s1 := StrSchema(false, false, false, false, T.Some(2), T.Some(5));
    var s2 := StrSchema(false, true, false, false, T.Some(2), T.Some(5));
    assert FoldPrefix(s1, [Transform(StrStrip)]) == (s2, 1) by {
      assert [Transform(StrStrip)][1..] == [];
    }
    assert LenThenStrip.steps[1..] == [Constrain(Len(2, T.Some(5))), Transform(StrStrip)];
    assert FoldPrefix(ParseSchema(As(StrType), false, StrType), LenThenStrip.steps[1..]) == (s2, 2) by {
      assert [Constrain(Len(2, T.Some(5))), Transform(StrStrip)][1..] == [Transform(StrStrip)];
    }
    BuiltRuns(LenThenStrip, StrType, StrV(a + w + b));
    T.StripPadded(T.RustSpace, a, w, b);
  }

  /** The length check and `str.strip` run one after another, as they would
      without folding, check the length before stripping. */
  lemma LenThenStripInOrder(y: string)
    ensures EvalSteps([Constrain(Len(2, T.Some(5))), Transform(StrStrip)], StrType, StrV(y)).outcome
         == if 2 <= |y| <= 5 then Valid(StrV(T.Strip(T.PythonSpace, y))) else Invalid
  {
    var x := StrV(y);
    var steps := [Constrain(Len(2, T.Some(5))), Transform(StrStrip)];
    var first := EvalStep(steps[0], StrType, x);
    assert first.outcome == Check(Len(2, T.Some(5)), x);
    assert first.outcome.Valid? <==> 2 <= |y| <= 5;
    if 2 <= |y| <= 5 {
      assert steps[1..] == [Transform(StrStrip)];
      assert first.outcome.value == x;
      OneStep(Transform(StrStrip), StrType, x);
      assert EvalSteps(steps, StrType, x).outcome == EvalSteps([Transform(StrStrip)], StrType, x).outcome;
    }
  }

  /** So the pipeline refuses " a ", which the steps in order would turn into
      "a". */
  lemma StripFoldedBeforeLen()
    ensures Eval(LenThenStrip, StrType, StrV(" a ")) == Run(Invalid, [])
    ensures EvalSteps([Constrain(Len(2, T.Some(5))), Transform(StrStrip)], StrType, StrV(" a ")).outcome == Valid(StrV("a"))
  {
    assert " a " == " " + "a" + " ";
    LenThenStripRuns(" ", "a", " ");
    LenThenStripInOrder(" " + "a" + " ");
    T.StripPadded(T.PythonSpace, " ", "a", " ");
  }

  /** With both case flags folded in, lower-casing wins whatever the order
      of the steps: `str_upper().str_lower()` and `str_lower().str_upper()`
      both give the lower-cased string. */
  lemma LowerWinsOverUpper(w: string)
    ensures Eval(StrMethod(StrUpper).Then(Transform(StrLower)), StrType, StrV(w)) == Run(Valid(StrV(A.Lower(w))), [])
    ensures Eval(StrMethod(StrLower).Then(Transform(StrUpper)), StrType, StrV(w)) == Run(Valid(StrV(A.Lower(w))), [])
  {
    assert StrMethod(StrUpper).steps[1..] == [Transform(StrUpper)];
    assert StrMethod(StrLower).steps[1..] == [Transform(StrLower)];
    ThenRunsAfter(StrMethod(StrUpper), Transform(StrLower), StrType, StrV(w));
    ThenRunsAfter(StrMethod(StrLower), Transform(StrUpper), StrType, StrV(w));
  }

  /** `str_starts_with(p)`, `str_ends_with(p)` and `str_contains(p)` accept
      every string that starts with, ends with or contains `p`. */
  lemma StringPredicateAccepts(p: string, x: string, y: string)
    ensures Accepts(ParsedThen(StrType, StrStartsWith(p)), StrType, StrV(p + x))
    ensures Accepts(ParsedThen(StrType, StrEndsWith(p)), StrType, StrV(x + p))
    ensures Accepts(ParsedThen(StrType, StrContains(p)), StrType, StrV(x + p + y))
  {
    ConstrainedStr(As(StrType), StrStartsWith(p), p + x);
    ConstrainedStr(As(StrType), StrEndsWith(p), x + p);
    ConstrainedStr(As(StrType), StrContains(p), x + p + y);
    assert (p + x)[..|p|] == p;
    assert (x + p)[|x|..] == p;
    assert (x + p + y)[|x|..|x| + |p|] == p;
    assert T.OccursAt(x + p + y, p, |x|);
  }

  /** A string as long as `p` but different from it fails all three, as
      "tomato" does for "potato". */
  lemma StringPredicateRejects(p: string, w: string)
    requires |w| == |p| && w != p
    ensures Rejects(ParsedThen(StrType, StrContains(p)), StrType, StrV(w))
    ensures Rejects(ParsedThen(StrType, StrStartsWith(p)), StrType, StrV(w))
    ensures Rejects(ParsedThen(StrType, StrEndsWith(p)), StrType, StrV(w))
  {
    ConstrainedStr(As(StrType), StrContains(p), w);
    ConstrainedStr(As(StrType), StrStartsWith(p), w);
    ConstrainedStr(As(StrType), StrEndsWith(p), w);
    T.SameLengthTests(w, p);
  }

  /** The test's rows: "potato" contains "pot", starts with "pot" and ends
      with "ato"; "tomato" fails each test against "potato". */
  lemma StringPredicateRows()
    ensures Accepts(ParsedThen(StrType, StrStartsWith("pot")), StrType, StrV("pot" + "ato"))
    ensures Accepts(ParsedThen(StrType, StrEndsWith("ato")), StrType, StrV("pot" + "ato"))
    ensures Accepts(ParsedThen(StrType, StrContains("pot")), StrType, StrV([] + "pot" + "ato"))
    ensures Rejects(ParsedThen(StrType, StrContains("potato")), StrType, StrV("tomato"))
  {
    StringPredicateAccepts("pot", "ato", []);
    StringPredicateAccepts("ato", "pot", []);
    StringPredicateAccepts("pot", [], "ato");
    assert "tomato"[0] != "potato"[0];
    StringPredicateRejects("potato", "tomato");
  }

  // ---------------------------------------------------------------------------
  // Parsing integers
  // ---------------------------------------------------------------------------

  const PositiveLax: Pipe := ParsedThen(IntType, Gt(0))
  const PositiveStrict: Pipe := ValidateAs(As(IntType), true).Then(Constrain(Gt(0)))

  /** The string "1" parses as 1 in lax mode. */
  lemma ParsesOne()
    ensures T.ParseInt("1") == T.Some(1)
  {
    assert T.Decimal(1) == "1";
    T.ParseIntOfBareDecimal(1);
  }

  /** `validate_as(int).gt(0)`, lax and strict: on integers both check the
      bound. */
  lemma ParseIntRows(i: int)
    ensures Accepts(PositiveLax, IntType, IntV(i)) <==> i > 0
    ensures Accepts(PositiveStrict, IntType, IntV(i)) <==> i > 0
  {
    ConstrainedInt(As(IntType), false, Gt(0), i);
    ConstrainedInt(As(IntType), true, Gt(0), i);
  }

  /** The lax pipeline takes the string "1" as 1; the strict one takes no
      string at all. */
  lemma ParseIntStrRows(w: string)
    ensures Eval(PositiveLax, IntType, StrV("1")) == Run(Valid(IntV(1)), [])
    ensures Rejects(PositiveStrict, IntType, StrV(w))
  {
    PositiveLaxTakesOne();
    PositiveStrictRejects(w);
  }

  lemma PositiveLaxTakesOne()
    ensures Eval(PositiveLax, IntType, StrV("1")) == Run(Valid(IntV(1)), [])
  {
    var schema := ParseSchema(As(IntType), false, IntType);
    ParseThenStep(As(IntType), false, Constrain(Gt(0)), IntType, StrV("1"));
    FoldedBoundIsCheck(schema, Gt(0), StrV("1"));
    BareSchemaParses(As(IntType), false, IntType, StrV("1"));
    ParsesOne();
  }

  lemma PositiveStrictRejects(w: string)
    ensures Rejects(PositiveStrict, IntType, StrV(w))
  {
    var schema := ParseSchema(As(IntType), true, IntType);
    ParseThenStep(As(IntType), true, Constrain(Gt(0)), IntType, StrV(w));
    FoldedBoundIsCheck(schema, Gt(0), StrV(w));
    BareSchemaParses(As(IntType), true, IntType, StrV(w));
  }

  const StrippedInt: Pipe := ValidateAs(As(StrType), false).Then(Transform(StrStrip)).Then(Parse(As(IntType), false))

  /** `validate_as(str).str_strip().validate_as(int)` */
  lemma StrippedIntRuns(w: string)
    ensures Eval(StrippedInt, IntType, StrV(w)) == Run(ParseAs(IntType, false, StrV(T.Strip(T.RustSpace, w))), [])
  {
    StrStripRuns(IntType, w);
    ParseAfterValid(StrMethod(StrStrip), As(IntType), false, IntType, StrV(w), StrV(T.Strip(T.RustSpace, w)));
  }

  /** A `validate_as` after a pipeline that gives `u` and logs nothing
      parses `u`. */
  lemma ParseAfterValid(p: Pipe, target: Target, strict: bool, field: Type, v: Value, u: Value)
    requires Eval(p, field, v) == Run(Valid(u), [])
    ensures Eval(p.Then(Parse(target, strict)), field, v) == Run(ParseStep(target, strict, field, u), [])
  {
    ThenRunsAfter(p, Parse(target, strict), field, v);
  }

  /** Every integer written in decimal, with or without whitespace around it,
      comes out as that integer. */
  lemma StrippedIntOfDecimal(n: int, pad: string)
    requires T.AllSpace(T.RustSpace, pad) && |T.Decimal(n)| <= T.MaxIntDigits
    ensures Eval(StrippedInt, IntType, StrV(pad + T.Decimal(n) + pad)) == Run(Valid(IntV(n)), [])
  {
    var x := pad + T.Decimal(n) + pad;
    assert ParseAs(IntType, false, StrV(T.Strip(T.RustSpace, x))) == Valid(IntV(n)) by {
      T.ParseIntIgnoresPadding(x);
      T.ParseIntOfDecimal(n, pad, pad);
    }
    StrippedIntRuns(x);
  }

  /** A string without a digit fails. */
  lemma StrippedIntNeedsDigit(w: string)
    requires forall i | 0 <= i < |w| :: !A.IsDigit(w[i])
    ensures Rejects(StrippedInt, IntType, StrV(w))
  {
    assert ParseAs(IntType, false, StrV(T.Strip(T.RustSpace, w))) == Invalid by {
      T.ParseIntIgnoresPadding(w);
      T.ParseIntNeedsDigit(w);
    }
    StrippedIntRuns(w);
  }

  /** A separator `\x1c`-`\x1f` in front of a number is not trimmed by the
      lax integer parse, so `validate_as(int)` refuses the string. */
  lemma SeparatorBlocksIntParse(c: char, n: int)
    requires c in T.Separators
    ensures Rejects(ValidateAs(As(IntType), false), IntType, StrV([c] + T.Decimal(n)))
  {
    T.SeparatorBlocksParse(c, n);
    ValidateAsRuns(As(IntType), false, IntType, StrV([c] + T.Decimal(n)));
  }

  /** `validate_as(str).transform(f).validate_as(...)` on an integer field:
      the `...` at the end parses `f`'s result as the field's own type, so
      the steps before it are kept. */
  function EllipsisAfter(f: Value -> Outcome): Pipe
  {
    ValidateAs(As(StrType), false).Then(Transform(Apply(f))).Then(Parse(FieldType, false))
  }

  lemma EllipsisAfterRuns(f: Value -> Outcome, w: string)
    ensures Eval(EllipsisAfter(f), IntType, StrV(w))
         == Run(if f(StrV(w)).Invalid? then Invalid else ParseAs(IntType, false, f(StrV(w)).value), [])
  {
    var first := ValidateAs(As(StrType), false).Then(Transform(Apply(f)));
    ParseThenStep(As(StrType), false, Transform(Apply(f)), IntType, StrV(w));
    ThenRunsAfter(first, Parse(FieldType, false), IntType, StrV(w));
  }

  /** When the transform leaves a number written in decimal, the field gets
      that number. */
  lemma EllipsisKeepsTransform(f: Value -> Outcome, w: string, n: int)
    requires f(StrV(w)) == Valid(StrV(T.Decimal(n))) && |T.Decimal(n)| <= T.MaxIntDigits
    ensures Eval(EllipsisAfter(f), IntType, StrV(w)) == Run(Valid(IntV(n)), [])
  {
    T.ParseIntOfBareDecimal(n);
    EllipsisAfterRuns(f, w);
  }

  // ---------------------------------------------------------------------------
  // Predicates, equality and membership
  // ---------------------------------------------------------------------------

  const Even: Constraint := Predicate((v: Value) => v.IntV? && v.i % 2 == 0)
  const NotPotato: Constraint := Predicate((v: Value) => v != StrV("potato"))

  /** `predicate(lambda x: x % 2 == 0)` and `predicate(lambda x: x != 'potato')` */
  lemma PredicateRows(i: int, w: string)
    ensures Accepts(ParsedThen(IntType, Even), IntType, IntV(i)) <==> i % 2 == 0
    ensures Accepts(ParsedThen(StrType, NotPotato), StrType, StrV(w)) <==> w != "potato"
  {
    ConstrainedInt(As(IntType), false, Even, i);
    ConstrainedStr(As(StrType), NotPotato, w);
  }

  const PotatoTomato: seq<Value> := [StrV("potato"), StrV("tomato")]

  /** `eq` and `not_eq` on every string. */
  lemma EqualityRows(w: string)
    ensures Accepts(ParsedThen(StrType, Eq(StrV("potato"))), StrType, StrV(w)) <==> w == "potato"
    ensures Accepts(ParsedThen(StrType, NotEq(StrV("potato"))), StrType, StrV(w)) <==> w != "potato"
  {
    ConstrainedStr(As(StrType), Eq(StrV("potato")), w);
    ConstrainedStr(As(StrType), NotEq(StrV("potato")), w);
  }

  /** `in_` and `not_in` on every string. */
  lemma MembershipRows(w: string)
    ensures Accepts(ParsedThen(StrType, In(PotatoTomato)), StrType, StrV(w)) <==> w == "potato" || w == "tomato"
    ensures Accepts(ParsedThen(StrType, NotIn(PotatoTomato)), StrType, StrV(w)) <==> w != "potato" && w != "tomato"
  {
    ConstrainedStr(As(StrType), In(PotatoTomato), w);
    ConstrainedStr(As(StrType), NotIn(PotatoTomato), w);
    assert StrV(w) in PotatoTomato <==> StrV(w) == PotatoTomato[0] || StrV(w) == PotatoTomato[1];
  }

  /** `lambda x: x + 1`, which raises on anything but a number. */
  const AddOne: Fn := Apply((v: Value) => if v.IntV? then Valid(IntV(v.i + 1)) else Invalid)

  /** `transform(lambda x: x + 1)` on its own parses as the field type first,
      so the string "1" becomes 2. */
  lemma TransformFirstStepRow()
    ensures Eval(TransformFirst(AddOne), IntType, StrV("1")) == Run(Valid(IntV(2)), [])
  {
    assert ParseStep(FieldType, false, IntType, StrV("1")) == Valid(IntV(1)) by {
      ParsesOne();
    }
    assert TransformFirst(AddOne) == ValidateAs(FieldType, false).Then(Transform(AddOne));
    ParseThenStep(FieldType, false, Transform(AddOne), IntType, StrV("1"));
  }

  // ---------------------------------------------------------------------------
  // Composition
  // ---------------------------------------------------------------------------

  const Either: Pipe := ParsedThen(IntType, Gt(10)).Or(ParsedThen(IntType, Lt(5)))
  const Both: Pipe := ParsedThen(IntType, Gt(10)).And(ParsedThen(IntType, Le(20)))

  /** `gt(10) | lt(5)` and `gt(10) & le(20)` on every integer. */
  lemma CompositionRows(i: int)
    ensures Accepts(Either, IntType, IntV(i)) <==> i > 10 || i < 5
    ensures Rejects(Either, IntType, IntV(i)) <==> 5 <= i <= 10
    ensures Accepts(Both, IntType, IntV(i)) <==> 10 < i <= 20
    ensures Rejects(Both, IntType, IntV(i)) <==> i <= 10 || i > 20
  {
    var gt10 := ParsedThen(IntType, Gt(10));
    StepAfterParse(As(IntType), false, Constrain(Gt(10)), IntType, IntV(i));
    StepAfterParse(As(IntType), false, Constrain(Lt(5)), IntType, IntV(i));
    StepAfterParse(As(IntType), false, Constrain(Le(20)), IntType, IntV(i));
    OrAcceptsIffEither(gt10, ParsedThen(IntType, Lt(5)), IntType, IntV(i));
    AndAcceptsIffBoth(gt10, ParsedThen(IntType, Le(20)), IntType, IntV(i));
  }

  /** `validate_as(str) & validate_as(str).str_strip()`: each side builds its
      own schema, so the strip folds into the right one. */
  lemma AndOfStripRuns(y: string)
    ensures Eval(ValidateAs(As(StrType), false).And(StrMethod(StrStrip)), StrType, StrV(y))
         == Run(Valid(StrV(T.Strip(T.RustSpace, y))), [])
  {
    var x := StrV(y);
    ValidateAsRuns(As(StrType), false, StrType, x);
    assert ParseStep(As(StrType), false, StrType, x) == Valid(x);
    AndAfterValid(ValidateAs(As(StrType), false), StrMethod(StrStrip), StrType, x, x);
    StrStripRuns(StrType, y);
  }

  /** The right side of `l & r` runs on what the left side gives. */
  lemma AndAfterValid(l: Pipe, r: Pipe, field: Type, v: Value, u: Value)
    requires Eval(l, field, v) == Run(Valid(u), [])
    ensures Eval(l.And(r), field, v) == Eval(r, field, u)
  {
    AndRunsRightOnLeft(l, r, field, v);
    assert [] + Eval(r, field, u).calls == Eval(r, field, u).calls;
  }

  /** The same three steps in one pipeline: the second `validate_as` ends
      the folding, so `str.strip` runs as Python's. */
  lemma ConcatenatedStripRuns(y: string)
    ensures Eval(Pipe(ValidateAs(As(StrType), false).steps + StrMethod(StrStrip).steps), StrType, StrV(y))
         == Run(Valid(StrV(T.Strip(T.PythonSpace, y))), [])
  {
    var x := StrV(y);
    var steps := ValidateAs(As(StrType), false).steps + StrMethod(StrStrip).steps;
    assert steps[0] == Parse(As(StrType), false);
    assert steps[1..] == [Parse(As(StrType), false), Transform(StrStrip)];
    assert steps[1..][1..] == [Transform(StrStrip)];
    BareSchemaParses(As(StrType), false, StrType, x);
    assert EvalFolded(ParseSchema(As(StrType), false, StrType), steps[1..], StrType, x)
        == EvalSteps(steps[1..], StrType, x);
    OneStep(Transform(StrStrip), StrType, x);
    assert EvalStep(Parse(As(StrType), false), StrType, x) == Run(Valid(x), []);
  }

  /** So `&` is not the concatenation of steps: on a word with a separator
      `\x1c`-`\x1f` in front, the chain keeps the separator and the
      concatenated steps remove it. */
  lemma AndIsNotConcatenation(c: char, w: string)
    requires c in T.Separators && w != [] && T.Trimmed(T.PythonSpace, w)
    ensures Eval(ValidateAs(As(StrType), false).And(StrMethod(StrStrip)), StrType, StrV([c] + w))
         == Run(Valid(StrV([c] + w)), [])
    ensures Eval(Pipe(ValidateAs(As(StrType), false).steps + StrMethod(StrStrip).steps), StrType, StrV([c] + w))
         == Run(Valid(StrV(w)), [])
  {
    AndOfStripRuns([c] + w);
    ConcatenatedStripRuns([c] + w);
    T.SeparatorKeptByTrim(c, w);
    T.SeparatorStrippedByPython(c, w);
  }

  /** `validate_as(int).transform(tf(first)).<bound>.transform(tf(second))` */
  function Logged(first: string, bound: Constraint, second: string): Pipe
  {
    ValidateAs(As(IntType), false).Then(Transform(Record(first))).Then(Constrain(bound)).Then(Transform(Record(second)))
  }

  /** The first transform logs its input; the second logs it only when the
      bound lets the value through. */
  lemma LoggedRuns(first: string, bound: Constraint, second: string, i: int)
    ensures Eval(Logged(first, bound, second), IntType, IntV(i))
         == if Meets(bound, IntV(i)) then Run(Valid(IntV(i)), [Call(first, IntV(i)), Call(second, IntV(i))])
            else Run(Invalid, [Call(first, IntV(i))])
  {
    var v := IntV(i);
    var p1 := ValidateAs(As(IntType), false).Then(Transform(Record(first)));
    var p2 := p1.Then(Constrain(bound));
    ParseThenStep(As(IntType), false, Transform(Record(first)), IntType, v);
    ThenRunsAfter(p1, Constrain(bound), IntType, v);
    ThenRunsAfter(p2, Transform(Record(second)), IntType, v);
    assert [Call(first, v)] + [] == [Call(first, v)];
    assert [Call(first, v)] + [Call(second, v)] == [Call(first, v), Call(second, v)];
  }

  const LoggedEither: Pipe := Logged("1", Gt(10), "2").Or(Logged("3", Lt(5), "4"))
  const LoggedBoth: Pipe := Logged("1", Gt(10), "2").And(Logged("3", Le(20), "4"))

  /** In `l | r` the right side runs only after the left has failed, so its
      transforms log only for values the left rejects. */
  lemma LoggedEitherRows(i: int)
    ensures Eval(LoggedEither, IntType, IntV(i))
         == if i > 10 then Run(Valid(IntV(i)), [Call("1", IntV(i)), Call("2", IntV(i))])
            else if i < 5 then Run(Valid(IntV(i)), [Call("1", IntV(i)), Call("3", IntV(i)), Call("4", IntV(i))])
            else Run(Invalid, [Call("1", IntV(i)), Call("3", IntV(i))])
  {
    var v := IntV(i);
    LoggedRuns("1", Gt(10), "2", i);
    LoggedRuns("3", Lt(5), "4", i);
    OrAcceptsIffEither(Logged("1", Gt(10), "2"), Logged("3", Lt(5), "4"), IntType, v);
    assert [Call("1", v)] + [Call("3", v), Call("4", v)] == [Call("1", v), Call("3", v), Call("4", v)];
    assert [Call("1", v)] + [Call("3", v)] == [Call("1", v), Call("3", v)];
  }

  /** In `l & r` the right side runs only after the left has succeeded, so
      its transforms log only for values the left accepts. */
  lemma LoggedBothRows(i: int)
    ensures Eval(LoggedBoth, IntType, IntV(i))
         == if i <= 10 then Run(Invalid, [Call("1", IntV(i))])
            else if i <= 20 then Run(Valid(IntV(i)), [Call("1", IntV(i)), Call("2", IntV(i)), Call("3", IntV(i)), Call("4", IntV(i))])
            else Run(Invalid, [Call("1", IntV(i)), Call("2", IntV(i)), Call("3", IntV(i))])
  {
    var v := IntV(i);
    LoggedRuns("1", Gt(10), "2", i);
    LoggedRuns("3", Le(20), "4", i);
    AndRunsRightOnLeft(Logged("1", Gt(10), "2"), Logged("3", Le(20), "4"), IntType, v);
    assert [Call("1", v), Call("2", v)] + [Call("3", v), Call("4", v)]
        == [Call("1", v), Call("2", v), Call("3", v), Call("4", v)];
    assert [Call("1", v), Call("2", v)] + [Call("3", v)] == [Call("1", v), Call("2", v), Call("3", v)];
  }

  /** The union rows run against one shared log, cleared after each. */
  method LoggedEitherInPlace() returns (first: seq<Call>, second: seq<Call>, third: seq<Call>)
    ensures first == [Call("1", IntV(1)), Call("3", IntV(1)), Call("4", IntV(1))]
    ensures second == [Call("1", IntV(20)), Call("2", IntV(20))]
    ensures third == [Call("1", IntV(9)), Call("3", IntV(9))]
  {
    LoggedEitherRows(1);
    LoggedEitherRows(20);
    LoggedEitherRows(9);
    var validator := new Validator();
    var o := validator.ValidatePython(LoggedEither, IntType, IntV(1));
    first := validator.calls;
    validator.Clear();
    o := validator.ValidatePython(LoggedEither, IntType, IntV(20));
    second := validator.calls;
    validator.Clear();
    o := validator.ValidatePython(LoggedEither, IntType, IntV(9));
    third := validator.calls;
    validator.Clear();
  }
}
