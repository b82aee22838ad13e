/** The experimental validation pipeline, on integers and strings.

    A pipeline is a chain of steps built from `validate_as(...)` or
    `transform(...)`: parse the input as a type, transform it, check a
    constraint. Two pipelines combine with `|` into a union tried left first
    and with `&` into a chain in which the right runs on the left's output.
    Validation either produces a value or fails.

    A pipeline that starts with `validate_as` builds a core schema for the
    type, and the steps right after it that the schema can express are folded
    into it instead of running as functions: bounds and divisors into an
    `int` schema; lengths and the `strip`, `lower` and `upper` methods into a
    `str` schema. The first step that does not fold ends the folding, and it
    and all later steps run one after another on what the schema produced.

    User transforms may record the values they see in a call log, which shows
    in what order the steps ran; `Eval` returns the log alongside the outcome,
    and the `Validator` class keeps it as a list that validation appends to
    and `Clear` empties. */
module Pipeline {
  import T = PipelineText
  import A = AliasGenerators

  // ---------------------------------------------------------------------------
  // Values, types and steps
  // ---------------------------------------------------------------------------

  datatype Value = IntV(i: int) | StrV(s: string)

  datatype Type = IntType | StrType

  /** The argument of `validate_as`: a type, or `...` for the annotated field's
      own type. */
  datatype Target = As(t: Type) | FieldType

  /** The callables handed to `transform`: the four string methods behind
      `str_strip`, `str_lower`, `str_upper` and `str_title`; an arbitrary
      function, which gives `Invalid` where the Python callable raises; and a function that appends `(tag, x)` to the call log and
      returns `x` unchanged. */
  datatype Fn =
    | StrStrip | StrLower | StrUpper | StrTitle
    | Apply(f: Value -> Outcome)
    | Record(tag: string)

  /** The constraints of `constrain(...)` and its shorthands. `Len` has an
      optional upper bound; `Interval` has four optional bounds. */
  datatype Constraint =
    | Gt(gt: int) | Ge(ge: int) | Lt(lt: int) | Le(le: int)
    | MultipleOf(n: int)
    | Len(minLen: nat, maxLen: T.Option<nat>)
    | Interval(gtOpt: T.Option<int>, geOpt: T.Option<int>, ltOpt: T.Option<int>, leOpt: T.Option<int>)
    | Eq(value: Value) | NotEq(value: Value)
    | In(values: seq<Value>) | NotIn(values: seq<Value>)
    | StrContains(sub: string) | StrStartsWith(prefix: string) | StrEndsWith(suffix: string)
    | Predicate(p: Value -> bool)

  datatype Step =
    | Parse(target: Target, strict: bool)
    | Transform(fn: Fn)
    | Constrain(c: Constraint)
    | Union(left: Pipe, right: Pipe)
    | Chain(left: Pipe, right: Pipe)

  /** A pipeline: its steps in the order they were added. */
  datatype Pipe = Pipe(steps: seq<Step>)
  {
    /** Appending one step, as every builder method does. */
    function Then(s: Step): Pipe
    {
      Pipe(steps + [s])
    }

    /** `self | other` */
    function Or(other: Pipe): Pipe
    {
      Pipe([Union(this, other)])
    }

    /** `self & other` */
    function And(other: Pipe): Pipe
    {
      Pipe([Chain(this, other)])
    }
  }

  /** `validate_as(tp, strict=...)` */
  function ValidateAs(target: Target, strict: bool): Pipe
  {
    Pipe([Parse(target, strict)])
  }

  /** The module-level `transform(f)`: parse as the field's type, then `f`. */
  function TransformFirst(f: Fn): Pipe
  {
    Pipe([Parse(FieldType, false), Transform(f)])
  }

  // ---------------------------------------------------------------------------
  // One step
  // ---------------------------------------------------------------------------

  datatype Outcome = Valid(value: Value) | Invalid

  /** One entry of the call log. */
  datatype Call = Call(tag: string, arg: Value)

  /** What validation produced, and the calls it logged on the way. */
  datatype Run = Run(outcome: Outcome, calls: seq<Call>)

  predicate HasType(v: Value, t: Type)
  {
    match t
    case IntType => v.IntV?
    case StrType => v.StrV?
  }

  /** Validating `v` as `t`. A value of the type is kept. In lax mode a
      string is parsed as an integer; in strict mode nothing but an integer
      is one. Strings are never made out of integers. */
  function ParseAs(t: Type, strict: bool, v: Value): (r: Outcome)
    ensures r.Valid? ==> HasType(r.value, t)
    ensures HasType(v, t) ==> r == Valid(v)
    ensures strict || t == StrType ==> (r.Valid? <==> HasType(v, t))
    ensures !strict && t == IntType && v.StrV? ==>
      (r.Valid? <==> T.ParseInt(v.s).Some?) && (r.Valid? ==> r.value == IntV(T.ParseInt(v.s).value))
  {
    if HasType(v, t) then Valid(v)
    else if strict || t == StrType then Invalid
    else match T.ParseInt(v.s)
      case Some(n) => Valid(IntV(n))
      case None => Invalid
  }

  /** The type `validate_as` parses as; with `...` the strict flag is not
      used. */
  function ParseStep(target: Target, strict: bool, field: Type, v: Value): Outcome
  {
    match target
    case As(t) => ParseAs(t, strict, v)
    case FieldType => ParseAs(field, false, v)
  }

  /** Calling a transform on `v`. A string method called on an integer fails. */
  function ApplyFn(f: Fn, v: Value): (r: Run)
    ensures f.Record? ==> r == Run(Valid(v), [Call(f.tag, v)])
    ensures !f.Record? ==> r.calls == []
    ensures f.Apply? ==> r.outcome == f.f(v)
    ensures !f.Apply? && !f.Record? ==> (r.outcome.Valid? <==> v.StrV?)
  {
    match f
    case StrStrip => OnString(v, x => T.Strip(T.PythonSpace, x))
    case StrLower => OnString(v, A.Lower)
    case StrUpper => OnString(v, T.Upper)
    case StrTitle => OnString(v, A.Title)
    case Apply(g) => Run(g(v), [])
    case Record(tag) => Run(Valid(v), [Call(tag, v)])
  }

  /** A string method called on `v`. */
  function OnString(v: Value, m: string -> string): Run
  {
    if v.StrV? then Run(Valid(StrV(m(v.s))), []) else Run(Invalid, [])
  }

  function Above(v: int, bound: T.Option<int>, strictly: bool): bool
  {
    bound.None? || (if strictly then v > bound.value else v >= bound.value)
  }

  function Below(v: int, bound: T.Option<int>, strictly: bool): bool
  {
    bound.None? || (if strictly then v < bound.value else v <= bound.value)
  }

  /** Whether `v` meets `c`. A bound, a divisor or an interval only applies to
      integers and a length or a substring test only to strings; on any other
      value the check fails, as the comparison would raise. `MultipleOf(0)`
      fails for every value, as the remainder would raise. */
  predicate Meets(c: Constraint, v: Value)
  {
    match c
    case Gt(n) => v.IntV? && v.i > n
    case Ge(n) => v.IntV? && v.i >= n
    case Lt(n) => v.IntV? && v.i < n
    case Le(n) => v.IntV? && v.i <= n
    case MultipleOf(n) => v.IntV? && n != 0 && v.i % n == 0
    case Len(lo, hi) => v.StrV? && lo <= |v.s| && (hi.None? || |v.s| <= hi.value)
    case Interval(gt, ge, lt, le) =>
      v.IntV? && Above(v.i, gt, true) && Above(v.i, ge, false) && Below(v.i, lt, true) && Below(v.i, le, false)
    case Eq(w) => v == w
    case NotEq(w) => v != w
    case In(ws) => v in ws
    case NotIn(ws) => v !in ws
    case StrContains(sub) => v.StrV? && T.Contains(v.s, sub)
    case StrStartsWith(p) => v.StrV? && T.StartsWith(v.s, p)
    case StrEndsWith(p) => v.StrV? && T.EndsWith(v.s, p)
    case Predicate(p) => p(v)
  }

  /** A constraint passes the value through unchanged or fails. */
  function Check(c: Constraint, v: Value): (r: Outcome)
    ensures r == Valid(v) || r == Invalid
    ensures r.Valid? <==> Meets(c, v)
  {
    if Meets(c, v) then Valid(v) else Invalid
  }

  // ---------------------------------------------------------------------------
  // Schemas
  // ---------------------------------------------------------------------------

  /** The core schema a leading `validate_as` builds, with what the steps
      after it folded into it: the bounds and the divisor of an `int` schema;
      the `strip_whitespace`, `to_lower` and `to_upper` flags and the length
      bounds of a `str` schema. */
  datatype Schema =
    | IntSchema(strict: bool, gt: T.Option<int>, ge: T.Option<int>, lt: T.Option<int>, le: T.Option<int>,
                multipleOf: T.Option<int>)
    | StrSchema(strict: bool, strip: bool, toLower: bool, toUpper: bool,
                minLen: T.Option<nat>, maxLen: T.Option<nat>)

  /** The schema of a type, with nothing folded into it yet. */
  function TypeSchema(t: Type, strict: bool): Schema
  {
    match t
    case IntType => IntSchema(strict, T.None, T.None, T.None, T.None, T.None)
    case StrType => StrSchema(strict, false, false, false, T.None, T.None)
  }

  /** The schema `validate_as(target, strict=...)` builds; `...` builds the
      field type's schema and does not use the strict flag. */
  function ParseSchema(target: Target, strict: bool, field: Type): Schema
  {
    match target
    case As(t) => TypeSchema(t, strict)
    case FieldType => TypeSchema(field, false)
  }

  /** Whether `step` folds into `s`: `str.strip`, `str.lower` and `str.upper`
      and a length into a `str` schema; a bound, a divisor or an interval into
      an `int` schema. Every other step runs as a function. */
  predicate Folds(s: Schema, step: Step)
  {
    match step
    case Transform(f) => s.StrSchema? && (f.StrStrip? || f.StrLower? || f.StrUpper?)
    case Constrain(c) =>
      if s.StrSchema? then c.Len?
      else c.Gt? || c.Ge? || c.Lt? || c.Le? || c.MultipleOf? || c.Interval?
    case _ => false
  }

  /** `b` when it is set, `current` otherwise. */
  function Override<X>(b: T.Option<X>, current: T.Option<X>): T.Option<X>
  {
    if b.Some? then b else current
  }

  /** Folding `step` into `s`. A bound or a divisor replaces one of the same
      kind folded before it; an interval sets each of its bounds that is
      given. A length sets the minimum only when it is not 0 and the maximum
      only when there is one. */
  function Fold(s: Schema, step: Step): Schema
    requires Folds(s, step)
  {
    match step
    case Transform(f) =>
      if f.StrStrip? then s.(strip := true)
      else if f.StrLower? then s.(toLower := true)
      else s.(toUpper := true)
    case Constrain(c) =>
      (match c
      case Gt(n) => s.(gt := T.Some(n))
      case Ge(n) => s.(ge := T.Some(n))
      case Lt(n) => s.(lt := T.Some(n))
      case Le(n) => s.(le := T.Some(n))
      case MultipleOf(n) => s.(multipleOf := T.Some(n))
      case Interval(gt, ge, lt, le) =>
        s.(gt := Override(gt, s.gt), ge := Override(ge, s.ge), lt := Override(lt, s.lt), le := Override(le, s.le))
      case Len(lo, hi) =>
        s.(minLen := if lo != 0 then T.Some(lo) else s.minLen, maxLen := Override(hi, s.maxLen))
      case _ => s)
  }

  /** The integer `i` meets every bound and the divisor of an `int` schema. */
  predicate WithinSchema(s: Schema, i: int)
    requires s.IntSchema?
  {
    Above(i, s.gt, true) && Above(i, s.ge, false) && Below(i, s.lt, true) && Below(i, s.le, false)
    && (s.multipleOf.None? || Meets(MultipleOf(s.multipleOf.value), IntV(i)))
  }

  /** pydantic-core validating `v` with `s`. An `int` schema parses the
      integer and then checks its bounds and divisor. A `str` schema trims
      the string with `str::trim` when it strips, checks the trimmed length,
      and then lower-cases or, failing that, upper-cases it. */
  function RunSchema(s: Schema, v: Value): Outcome
  {
    match s
    case IntSchema(strict, _, _, _, _, _) =>
      (match ParseAs(IntType, strict, v)
       case Invalid => Invalid
       case Valid(w) => if WithinSchema(s, w.i) then Valid(w) else Invalid)
    case StrSchema(strict, strip, toLower, toUpper, minLen, maxLen) =>
      match ParseAs(StrType, strict, v)
      case Invalid => Invalid
      case Valid(w) =>
        var t := if strip then T.Strip(T.RustSpace, w.s) else w.s;
        if (minLen.Some? && |t| < minLen.value) || (maxLen.Some? && |t| > maxLen.value) then Invalid
        else Valid(StrV(if toLower then A.Lower(t) else if toUpper then T.Upper(t) else t))
  }

  /** The schema after folding the longest run of leading steps of `rest`
      that fold, and the length of that run. */
  function FoldPrefix(s: Schema, rest: seq<Step>): (r: (Schema, nat))
    ensures r.1 <= |rest|
    decreases rest
  {
    if rest != [] && Folds(s, rest[0]) then
      var (t, k) := FoldPrefix(Fold(s, rest[0]), rest[1..]);
      (t, k + 1)
    else (s, 0)
  }

  /** The one schema `p` builds when it is a `validate_as` whose every later
      step folds into it. */
  function Built(p: Pipe, field: Type): T.Option<Schema>
  {
    if p.steps != [] && p.steps[0].Parse? then
      var (t, k) := FoldPrefix(ParseSchema(p.steps[0].target, p.steps[0].strict, field), p.steps[1..]);
      if k == |p.steps| - 1 then T.Some(t) else T.None
    else T.None
  }

  /** A step appended to `p` folds into the schema `p` builds. */
  predicate Absorbs(p: Pipe, s: Step, field: Type)
  {
    Built(p, field).Some? && Folds(Built(p, field).value, s)
  }

  // ---------------------------------------------------------------------------
  // Evaluation
  // ---------------------------------------------------------------------------

  /** `TypeAdapter(Annotated[field, p]).validate_python(v)` */
  function Eval(p: Pipe, field: Type, v: Value): Run
  {
    EvalPipe(p.steps, field, v)
  }

  /** A pipeline's steps: a leading `validate_as` builds a schema and folds
      what follows into it; otherwise the steps run one after another. */
  function EvalPipe(steps: seq<Step>, field: Type, v: Value): Run
    decreases steps, 2
  {
    if steps != [] && steps[0].Parse? then
      EvalFolded(ParseSchema(steps[0].target, steps[0].strict, field), steps[1..], field, v)
    else EvalSteps(steps, field, v)
  }

  /** Folding the leading steps of `rest` that fold into `s`, then running the
      schema and, on its output, the steps that are left. */
  function EvalFolded(s: Schema, rest: seq<Step>, field: Type, v: Value): Run
    decreases rest, 1
  {
    if rest != [] && Folds(s, rest[0]) then EvalFolded(Fold(s, rest[0]), rest[1..], field, v)
    else match RunSchema(s, v)
      case Invalid => Run(Invalid, [])
      case Valid(w) => EvalSteps(rest, field, w)
  }

  /** Validating `v` with the steps in order; the first failing step ends it.
      `field` is the annotated type that `...` stands for. */
  function EvalSteps(steps: seq<Step>, field: Type, v: Value): Run
    decreases steps, 0
  {
    if steps == [] then Run(Valid(v), [])
    else
      var first := EvalStep(steps[0], field, v);
      if first.outcome.Invalid? then first
      else
        var rest := EvalSteps(steps[1..], field, first.outcome.value);
        Run(rest.outcome, first.calls + rest.calls)
  }

  /** One step run as a function. The two sides of a union or a chain are
      pipelines of their own, each with its own schema. */
  function EvalStep(step: Step, field: Type, v: Value): Run
    decreases step
  {
    match step
    case Parse(target, strict) => Run(ParseStep(target, strict, field, v), [])
    case Transform(f) => ApplyFn(f, v)
    case Constrain(c) => Run(Check(c, v), [])
    case Union(l, r) =>
      var left := EvalPipe(l.steps, field, v);
      if left.outcome.Valid? then left
      else
        var right := EvalPipe(r.steps, field, v);
        Run(right.outcome, left.calls + right.calls)
    case Chain(l, r) =>
      var left := EvalPipe(l.steps, field, v);
      if left.outcome.Invalid? then left
      else
        var right := EvalPipe(r.steps, field, left.outcome.value);
        Run(right.outcome, left.calls + right.calls)
  }

  /** Running `steps` after the run `first`: only if it succeeded, and on
      what it produced; the logs are joined. */
  function Continue(first: Run, steps: seq<Step>, field: Type): Run
  {
    if first.outcome.Invalid? then first
    else var rest := EvalSteps(steps, field, first.outcome.value); Run(rest.outcome, first.calls + rest.calls)
  }

  /** Running the pipeline `p` after the run `first`. */
  function ContinueWith(first: Run, p: Pipe, field: Type): Run
  {
    if first.outcome.Invalid? then first
    else var rest := Eval(p, field, first.outcome.value); Run(rest.outcome, first.calls + rest.calls)
  }

  // ---------------------------------------------------------------------------
  // Folding
  // ---------------------------------------------------------------------------

  /** A bare `validate_as` schema parses exactly as the parse step does. */
  lemma BareSchemaParses(target: Target, strict: bool, field: Type, v: Value)
    ensures RunSchema(ParseSchema(target, strict, field), v) == ParseStep(target, strict, field, v)
  {
  }

  /** While the next step folds, folding goes on. */
  lemma FoldingContinues(s: Schema, rest: seq<Step>, field: Type, v: Value)
    requires rest != [] && Folds(s, rest[0])
    ensures EvalFolded(s, rest, field, v) == EvalFolded(Fold(s, rest[0]), rest[1..], field, v)
  {
  }

  /** Where folding stops, the schema runs and then the steps left. */
  lemma FoldingStops(s: Schema, rest: seq<Step>, field: Type, v: Value)
    requires rest == [] || !Folds(s, rest[0])
    ensures var r := RunSchema(s, v);
      EvalFolded(s, rest, field, v) == if r.Invalid? then Run(Invalid, []) else EvalSteps(rest, field, r.value)
  {
  }

  /** Once every step of `rest` has folded into `s`, validation is the
      resulting schema alone, and nothing is logged. */
  lemma {:induction false} EvalFoldedAll(s: Schema, rest: seq<Step>, field: Type, v: Value)
    requires FoldPrefix(s, rest).1 == |rest|
    ensures EvalFolded(s, rest, field, v) == Run(RunSchema(FoldPrefix(s, rest).0, v), [])
    decreases |rest|
  {
    if rest != [] {
      EvalFoldedAll(Fold(s, rest[0]), rest[1..], field, v);
    }
  }

  /** A pipeline that folds into one schema is validated by that schema. */
  lemma BuiltRuns(p: Pipe, field: Type, v: Value)
    requires Built(p, field).Some?
    ensures Eval(p, field, v) == Run(RunSchema(Built(p, field).value, v), [])
  {
    EvalFoldedAll(ParseSchema(p.steps[0].target, p.steps[0].strict, field), p.steps[1..], field, v);
  }

  /** A step appended after the folded steps: it folds too when everything
      before it folded and it can; otherwise it runs on the output of what
      came before. */
  lemma {:induction false} EvalFoldedSnoc(s: Schema, rest: seq<Step>, step: Step, field: Type, v: Value)
    ensures var (t, k) := FoldPrefix(s, rest);
      if k == |rest| && Folds(t, step) then
        EvalFolded(s, rest + [step], field, v) == Run(RunSchema(Fold(t, step), v), [])
      else
        EvalFolded(s, rest + [step], field, v) == StepAfter(EvalFolded(s, rest, field, v), step, field)
    decreases |rest|
  {
    if rest == [] {
      assert rest + [step] == [step];
      if !Folds(s, step) {
        var r := RunSchema(s, v);
        if r.Valid? {
          OneStep(step, field, r.value);
          StepAfterValid(step, field, r.value);
        }
      } else {
        EvalFoldedAll(Fold(s, step), [], field, v);
      }
    } else {
      assert (rest + [step])[0] == rest[0];
      assert (rest + [step])[1..] == rest[1..] + [step];
      if Folds(s, rest[0]) {
        EvalFoldedSnoc(Fold(s, rest[0]), rest[1..], step, field, v);
      } else {
        var r := RunSchema(s, v);
        if r.Valid? {
          EvalStepsAppend(rest, [step], field, r.value);
          var mid := EvalSteps(rest, field, r.value);
          if mid.outcome.Valid? {
            OneStep(step, field, mid.outcome.value);
          }
        }
      }
    }
  }

  /** The run `r` followed by `step` on its output. */
  function StepAfter(r: Run, step: Step, field: Type): Run
  {
    if r.outcome.Invalid? then r
    else var last := EvalStep(step, field, r.outcome.value); Run(last.outcome, r.calls + last.calls)
  }

  lemma StepAfterValid(step: Step, field: Type, v: Value)
    ensures StepAfter(Run(Valid(v), []), step, field) == EvalSteps([step], field, v)
  {
    OneStep(step, field, v);
    var last := EvalStep(step, field, v);
    assert [] + last.calls == last.calls;
  }

  /** Folding a bound, a divisor or an interval into an `int` schema that
      has none of its bounds yet checks it after the schema's own checks. */
  lemma FoldedBoundIsCheck(s: Schema, c: Constraint, v: Value)
    requires s.IntSchema? && Folds(s, Constrain(c)) && Unset(s, c)
    ensures RunSchema(Fold(s, Constrain(c)), v)
         == (match RunSchema(s, v) case Invalid => Invalid case Valid(w) => Check(c, w))
  {
  }

  /** None of the bounds `c` sets is set in `s` yet. */
  predicate Unset(s: Schema, c: Constraint)
    requires s.IntSchema?
  {
    match c
    case Gt(_) => s.gt.None?
    case Ge(_) => s.ge.None?
    case Lt(_) => s.lt.None?
    case Le(_) => s.le.None?
    case MultipleOf(_) => s.multipleOf.None?
    case Interval(gt, ge, lt, le) =>
      (gt.Some? ==> s.gt.None?) && (ge.Some? ==> s.ge.None?) && (lt.Some? ==> s.lt.None?) && (le.Some? ==> s.le.None?)
    case _ => true
  }

  /** A length folded into a `str` schema with no length bounds yet checks
      the length of what the schema outputs: stripping comes before the
      length check, and case mapping keeps the length. */
  lemma FoldedLenIsCheck(s: Schema, lo: nat, hi: T.Option<nat>, v: Value)
    requires s.StrSchema? && s.minLen.None? && s.maxLen.None?
    ensures RunSchema(Fold(s, Constrain(Len(lo, hi))), v)
         == (match RunSchema(s, v) case Invalid => Invalid case Valid(w) => Check(Len(lo, hi), w))
  {
    var folded := s.(minLen := if lo != 0 then T.Some(lo) else T.None, maxLen := hi);
    assert Fold(s, Constrain(Len(lo, hi))) == folded;
    if v.StrV? {
      assert ParseAs(StrType, s.strict, v) == Valid(v);
      var t := if s.strip then T.Strip(T.RustSpace, v.s) else v.s;
      var out := if s.toLower then A.Lower(t) else if s.toUpper then T.Upper(t) else t;
      assert RunSchema(s, v) == Valid(StrV(out));
      T.CaseKeepsLength(t);
      assert Meets(Len(lo, hi), StrV(out)) <==> lo <= |t| && (hi.None? || |t| <= hi.value);
      assert RunSchema(folded, v) == if lo <= |t| && (hi.None? || |t| <= hi.value) then Valid(StrV(out)) else Invalid;
    }
  }

  // ---------------------------------------------------------------------------
  // Composition
  // ---------------------------------------------------------------------------

  /** Running the steps `a + b` is running `a`, then `b` on its result. */
  lemma {:induction false} EvalStepsAppend(a: seq<Step>, b: seq<Step>, field: Type, v: Value)
    ensures EvalSteps(a + b, field, v) == Continue(EvalSteps(a, field, v), b, field)
    decreases |a|
  {
    if a == [] {
      assert a + b == b;
    } else {
      assert (a + b)[0] == a[0];
      assert (a + b)[1..] == a[1..] + b;
      var first := EvalStep(a[0], field, v);
      if first.outcome.Valid? {
        EvalStepsAppend(a[1..], b, field, first.outcome.value);
        var mid := EvalSteps(a[1..], field, first.outcome.value);
        if mid.outcome.Valid? {
          var last := EvalSteps(b, field, mid.outcome.value);
          assert first.calls + (mid.calls + last.calls) == first.calls + mid.calls + last.calls;
        }
      }
    }
  }

  /** `p.Then(s)` runs `p` and then `s` on its result, unless `s` folds into
      the schema `p` builds; then that schema, with `s` folded in, is the
      whole validation. */
  lemma ThenRunsAfter(p: Pipe, s: Step, field: Type, v: Value)
    ensures !Absorbs(p, s, field) ==> Eval(p.Then(s), field, v) == StepAfter(Eval(p, field, v), s, field)
    ensures Absorbs(p, s, field) ==> Eval(p.Then(s), field, v) == Run(RunSchema(Fold(Built(p, field).value, s), v), [])
  {
    if p.steps == [] {
      ThenOnEmpty(p, s, field, v);
    } else if p.steps[0].Parse? {
      ThenAfterParse(p, s, field, v);
    } else {
      ThenWithoutParse(p, s, field, v);
    }
  }

  lemma ThenOnEmpty(p: Pipe, s: Step, field: Type, v: Value)
    requires p.steps == []
    ensures !Absorbs(p, s, field) ==> Eval(p.Then(s), field, v) == StepAfter(Eval(p, field, v), s, field)
    ensures Absorbs(p, s, field) ==> Eval(p.Then(s), field, v) == Run(RunSchema(Fold(Built(p, field).value, s), v), [])
  {
    assert p.Then(s).steps == [s];
    assert !Absorbs(p, s, field);
    assert Eval(p, field, v) == Run(Valid(v), []);
    if s.Parse? {
      ParseAlone(p.Then(s), field, v);
    } else {
      StepAfterValid(s, field, v);
    }
  }

  /** A pipeline that is one `validate_as` step runs as that parse. */
  lemma ParseAlone(p: Pipe, field: Type, v: Value)
    requires |p.steps| == 1 && p.steps[0].Parse?
    ensures Eval(p, field, v) == Run(ParseStep(p.steps[0].target, p.steps[0].strict, field, v), [])
  {
    var ps := ParseSchema(p.steps[0].target, p.steps[0].strict, field);
    assert p.steps[1..] == [];
    assert Eval(p, field, v) == EvalFolded(ps, [], field, v);
    EvalFoldedAll(ps, [], field, v);
    BareSchemaParses(p.steps[0].target, p.steps[0].strict, field, v);
  }

  lemma ThenAfterParse(p: Pipe, s: Step, field: Type, v: Value)
    requires p.steps != [] && p.steps[0].Parse?
    ensures !Absorbs(p, s, field) ==> Eval(p.Then(s), field, v) == StepAfter(Eval(p, field, v), s, field)
    ensures Absorbs(p, s, field) ==> Eval(p.Then(s), field, v) == Run(RunSchema(Fold(Built(p, field).value, s), v), [])
  {
    var steps := p.steps + [s];
    assert p.Then(s).steps == steps;
    assert steps[0] == p.steps[0] && steps[1..] == p.steps[1..] + [s];
    EvalFoldedSnoc(ParseSchema(p.steps[0].target, p.steps[0].strict, field), p.steps[1..], s, field, v);
  }

  lemma ThenWithoutParse(p: Pipe, s: Step, field: Type, v: Value)
    requires p.steps != [] && !p.steps[0].Parse?
    ensures !Absorbs(p, s, field) ==> Eval(p.Then(s), field, v) == StepAfter(Eval(p, field, v), s, field)
    ensures Absorbs(p, s, field) ==> Eval(p.Then(s), field, v) == Run(RunSchema(Fold(Built(p, field).value, s), v), [])
  {
    var steps := p.steps + [s];
    assert p.Then(s).steps == steps;
    assert steps[0] == p.steps[0];
    EvalStepsAppend(p.steps, [s], field, v);
    var r := Eval(p, field, v);
    if r.outcome.Valid? {
      OneStep(s, field, r.outcome.value);
    }
  }

  /** `validate_as(...)` alone parses and logs nothing. */
  lemma ValidateAsRuns(target: Target, strict: bool, field: Type, v: Value)
    ensures Eval(ValidateAs(target, strict), field, v) == Run(ParseStep(target, strict, field, v), [])
  {
    var p := ValidateAs(target, strict);
    assert p.steps[1..] == [];
    EvalFoldedAll(ParseSchema(target, strict, field), [], field, v);
    BareSchemaParses(target, strict, field, v);
  }

  /** `l & r` validates as the steps of `l` followed by the steps of `r` when
      neither starts with `validate_as`, so that nothing folds. */
  lemma AndIsConcatenation(l: Pipe, r: Pipe, field: Type, v: Value)
    requires l.steps == [] || !l.steps[0].Parse?
    requires r.steps == [] || !r.steps[0].Parse?
    ensures Eval(l.And(r), field, v) == EvalSteps(l.steps + r.steps, field, v)
  {
    EvalStepsAppend(l.steps, r.steps, field, v);
    OneStep(Chain(l, r), field, v);
    if l.steps == [] {
      assert l.steps + r.steps == r.steps;
    } else {
      assert (l.steps + r.steps)[0] == l.steps[0];
    }
  }

  /** `l & r` runs `l` and then `r` on its result. */
  lemma AndRunsRightOnLeft(l: Pipe, r: Pipe, field: Type, v: Value)
    ensures Eval(l.And(r), field, v) == ContinueWith(Eval(l, field, v), r, field)
  {
    OneStep(Chain(l, r), field, v);
  }

  /** `l & r` succeeds iff `l` succeeds and `r` succeeds on what `l`
      produced; the right never runs after the left has failed. */
  lemma AndAcceptsIffBoth(l: Pipe, r: Pipe, field: Type, v: Value)
    ensures var run := Eval(l.And(r), field, v);
      var left := Eval(l, field, v);
      (run.outcome.Valid? <==> left.outcome.Valid? && Eval(r, field, left.outcome.value).outcome.Valid?)
      && (left.outcome.Invalid? ==> run == left)
      && (left.outcome.Valid? ==> run.calls == left.calls + Eval(r, field, left.outcome.value).calls)
  {
    AndRunsRightOnLeft(l, r, field, v);
  }

  /** `l | r` succeeds iff either side does. The left runs first; the right
      runs only after the left has failed, and then on the original input. */
  lemma OrAcceptsIffEither(l: Pipe, r: Pipe, field: Type, v: Value)
    ensures var run := Eval(l.Or(r), field, v);
      var left := Eval(l, field, v);
      var right := Eval(r, field, v);
      (run.outcome.Valid? <==> left.outcome.Valid? || right.outcome.Valid?)
      && (left.outcome.Valid? ==> run == left)
      && (left.outcome.Invalid? ==> run == Run(right.outcome, left.calls + right.calls))
  {
    OneStep(Union(l, r), field, v);
  }

  /** How `|` nests makes no difference: the alternatives are tried in the
      same order, with the same log. */
  lemma OrAssociative(a: Pipe, b: Pipe, c: Pipe, field: Type, v: Value)
    ensures Eval(a.Or(b).Or(c), field, v) == Eval(a.Or(b.Or(c)), field, v)
  {
    OrAcceptsIffEither(a.Or(b), c, field, v);
    OrAcceptsIffEither(a, b.Or(c), field, v);
    OrAcceptsIffEither(a, b, field, v);
    OrAcceptsIffEither(b, c, field, v);
  }

  /** How `&` nests makes no difference either. */
  lemma AndAssociative(a: Pipe, b: Pipe, c: Pipe, field: Type, v: Value)
    ensures Eval(a.And(b).And(c), field, v) == Eval(a.And(b.And(c)), field, v)
  {
    AndRunsRightOnLeft(a.And(b), c, field, v);
    AndRunsRightOnLeft(a, b.And(c), field, v);
    AndRunsRightOnLeft(a, b, field, v);
    var x := Eval(a, field, v);
    if x.outcome.Valid? {
      AndRunsRightOnLeft(b, c, field, x.outcome.value);
      var y := Eval(b, field, x.outcome.value);
      if y.outcome.Valid? {
        var z := Eval(c, field, y.outcome.value);
        assert x.calls + y.calls + z.calls == x.calls + (y.calls + z.calls);
      }
    }
  }

  /** Every constraint of `cs` is met by `v`. */
  predicate AllMeet(cs: seq<Constraint>, v: Value)
  {
    forall i | 0 <= i < |cs| :: Meets(cs[i], v)
  }

  lemma AllMeetAppend(a: seq<Constraint>, b: seq<Constraint>, v: Value)
    ensures AllMeet(a + b, v) <==> AllMeet(a, v) && AllMeet(b, v)
  {
    if AllMeet(a, v) && AllMeet(b, v) {
      forall i | 0 <= i < |a + b|
        ensures Meets((a + b)[i], v)
      {
        if i >= |a| {
          assert (a + b)[i] == b[i - |a|];
        }
      }
    }
    if AllMeet(a + b, v) {
      assert forall i | 0 <= i < |a| :: (a + b)[i] == a[i];
      assert forall i | 0 <= i < |b| :: (a + b)[|a| + i] == b[i];
    }
  }

  function Constraints(cs: seq<Constraint>): (steps: seq<Step>)
    ensures |steps| == |cs|
    ensures forall i | 0 <= i < |cs| :: steps[i] == Constrain(cs[i])
  {
    if cs == [] then [] else [Constrain(cs[0])] + Constraints(cs[1..])
  }

  /** Steps that only check constraints pass the value through unchanged when
      it meets all of them and fail otherwise, and log nothing. */
  lemma {:induction false} ConstraintsOnlyFilter(cs: seq<Constraint>, field: Type, v: Value)
    ensures var r := EvalSteps(Constraints(cs), field, v);
      r.calls == [] && r.outcome == (if AllMeet(cs, v) then Valid(v) else Invalid)
    decreases |cs|
  {
    if cs != [] {
      assert Constraints(cs)[0] == Constrain(cs[0]);
      assert Constraints(cs)[1..] == Constraints(cs[1..]);
      ConstraintsOnlyFilter(cs[1..], field, v);
      assert cs == [cs[0]] + cs[1..];
      AllMeetAppend([cs[0]], cs[1..], v);
    }
  }

  /** The bounds of an interval, each as a constraint of its own, in the
      order `gt`, `ge`, `lt`, `le`. */
  function Bounds(gt: T.Option<int>, ge: T.Option<int>, lt: T.Option<int>, le: T.Option<int>): seq<Constraint>
  {
    (if gt.Some? then [Gt(gt.value)] else [])
    + (if ge.Some? then [Ge(ge.value)] else [])
    + (if lt.Some? then [Lt(lt.value)] else [])
    + (if le.Some? then [Le(le.value)] else [])
  }

  /** An integer is in an `Interval` iff it meets each of its bounds. */
  lemma IntervalMeetsBounds(gt: T.Option<int>, ge: T.Option<int>, lt: T.Option<int>, le: T.Option<int>, i: int)
    ensures Meets(Interval(gt, ge, lt, le), IntV(i)) <==> AllMeet(Bounds(gt, ge, lt, le), IntV(i))
  {
    var v := IntV(i);
    var g1: seq<Constraint> := if gt.Some? then [Gt(gt.value)] else [];
    var g2: seq<Constraint> := if ge.Some? then [Ge(ge.value)] else [];
    var l1: seq<Constraint> := if lt.Some? then [Lt(lt.value)] else [];
    var l2: seq<Constraint> := if le.Some? then [Le(le.value)] else [];
    AllMeetAppend(g1, g2, v);
    AllMeetAppend(g1 + g2, l1, v);
    AllMeetAppend(g1 + g2 + l1, l2, v);
    assert Bounds(gt, ge, lt, le) == g1 + g2 + l1 + l2;
    if gt.Some? { MeetsOne(Gt(gt.value), v); }
    if ge.Some? { MeetsOne(Ge(ge.value), v); }
    if lt.Some? { MeetsOne(Lt(lt.value), v); }
    if le.Some? { MeetsOne(Le(le.value), v); }
  }

  lemma MeetsOne(c: Constraint, v: Value)
    ensures AllMeet([c], v) == Meets(c, v)
  {
    assert [c][0] == c;
  }

  /** An `Interval` step validates exactly as its bounds applied one by one. */
  lemma IntervalIsItsBounds(gt: T.Option<int>, ge: T.Option<int>, lt: T.Option<int>, le: T.Option<int>, i: int, field: Type)
    ensures Eval(Pipe([Constrain(Interval(gt, ge, lt, le))]), field, IntV(i))
         == EvalSteps(Constraints(Bounds(gt, ge, lt, le)), field, IntV(i))
  {
    IntervalMeetsBounds(gt, ge, lt, le, i);
    ConstraintsOnlyFilter(Bounds(gt, ge, lt, le), field, IntV(i));
    ConstraintsOnlyFilter([Interval(gt, ge, lt, le)], field, IntV(i));
    assert Constraints([Interval(gt, ge, lt, le)]) == [Constrain(Interval(gt, ge, lt, le))];
  }

  /** A bound that is given and not 0. */
  function Truthy(b: T.Option<int>): T.Option<int>
  {
    if b.Some? && b.value != 0 then b else T.None
  }

  /** The bounds of an interval as `_apply_constraint` applies them: it tests
      each bound for truth before applying it, so a bound of 0 is dropped
      along with the absent ones. With no bound of 0 these are the interval's
      bounds. */
  function TruthyBounds(gt: T.Option<int>, ge: T.Option<int>, lt: T.Option<int>, le: T.Option<int>): (r: seq<Constraint>)
    ensures |r| <= |Bounds(gt, ge, lt, le)|
    ensures gt != T.Some(0) && ge != T.Some(0) && lt != T.Some(0) && le != T.Some(0) ==> r == Bounds(gt, ge, lt, le)
  {
    Bounds(Truthy(gt), Truthy(ge), Truthy(lt), Truthy(le))
  }

  /** As written, `Interval(ge=0, le=10)` lets -1 through, which the
      interval excludes. */
  lemma ZeroBoundDropped()
    ensures TruthyBounds(T.None, T.Some(0), T.None, T.Some(10)) == [Le(10)]
    ensures AllMeet(TruthyBounds(T.None, T.Some(0), T.None, T.Some(10)), IntV(-1))
    ensures !Meets(Interval(T.None, T.Some(0), T.None, T.Some(10)), IntV(-1))
  {
    assert Bounds(T.None, T.None, T.None, T.Some(10)) == [Le(10)];
    MeetsOne(Le(10), IntV(-1));
  }

  /** On integers, `ge(n)` is `gt(n - 1)`, `le(n)` is `lt(n + 1)`, and
      `Interval(gt=a, lt=b)` is `Interval(ge=a + 1, le=b - 1)`. */
  lemma IntegerBoundsShift(n: int, a: int, b: int, i: int)
    ensures Check(Ge(n), IntV(i)) == Check(Gt(n - 1), IntV(i))
    ensures Check(Le(n), IntV(i)) == Check(Lt(n + 1), IntV(i))
    ensures Check(Interval(T.Some(a), T.None, T.Some(b), T.None), IntV(i))
         == Check(Interval(T.None, T.Some(a + 1), T.None, T.Some(b - 1)), IntV(i))
  {
  }

  /** `eq(w)` is `in_([w])` and `not_eq(w)` is `not_in([w])`; `in_` and
      `not_in` of the same values accept complementary inputs. */
  lemma MembershipForms(w: Value, ws: seq<Value>, v: Value)
    ensures Check(Eq(w), v) == Check(In([w]), v)
    ensures Check(NotEq(w), v) == Check(NotIn([w]), v)
    ensures Check(In(ws), v).Valid? != Check(NotIn(ws), v).Valid?
  {
  }

  /** A value whose string starts or ends with the text passes
      `str_contains` of it too. */
  lemma AffixChecksImplyContains(p: string, v: Value)
    ensures Check(StrStartsWith(p), v).Valid? ==> Check(StrContains(p), v).Valid?
    ensures Check(StrEndsWith(p), v).Valid? ==> Check(StrContains(p), v).Valid?
  {
    if v.StrV? {
      T.AffixesAreContained(v.s, p);
    }
  }

  /** Trimming then lower-casing, as a `str` schema with both flags does,
      gives what it gives once when run twice. */
  lemma StripLowerIdempotent(s: string)
    ensures var once := A.Lower(T.Strip(T.RustSpace, s)); A.Lower(T.Strip(T.RustSpace, once)) == once
  {
    var t := T.Strip(T.RustSpace, s);
    T.LowerKeepsTrimmed(T.RustSpace, t);
    T.StripKeepsTrimmed(T.RustSpace, A.Lower(t));
    T.CaseMappingsForget(t);
  }

  /** A strict integer step accepts integers and nothing else; a lax one also
      accepts every integer written in decimal, within the length limit, with
      spaces, tabs or line breaks around it. */
  lemma ParseIntModes(n: int, pad: string, s: string)
    requires T.AllSpace(T.RustSpace, pad) && |T.Decimal(n)| <= T.MaxIntDigits
    ensures ParseAs(IntType, true, StrV(s)) == Invalid
    ensures ParseAs(IntType, true, IntV(n)) == Valid(IntV(n))
    ensures ParseAs(IntType, false, StrV(pad + T.Decimal(n) + pad)) == Valid(IntV(n))
  {
    T.ParseIntOfDecimal(n, pad, pad);
    LaxParse(pad + T.Decimal(n) + pad);
  }

  /** A lax integer step on a string gives what the string parses to. */
  lemma LaxParse(s: string)
    ensures T.ParseInt(s).Some? ==> ParseAs(IntType, false, StrV(s)) == Valid(IntV(T.ParseInt(s).value))
    ensures T.ParseInt(s).None? ==> ParseAs(IntType, false, StrV(s)) == Invalid
  {
  }

  // ---------------------------------------------------------------------------
  // The call log kept in place
  // ---------------------------------------------------------------------------

  /** Folding the steps from `start` on into `s0` for as long as they
      fold: the schema built and the index of the first step left. */
  method FoldSteps(s0: Schema, steps: seq<Step>, start: nat, field: Type, v: Value) returns (s: Schema, i: nat)
    requires start <= |steps|
    ensures start <= i <= |steps| && (i == |steps| || !Folds(s, steps[i]))
    ensures EvalFolded(s, steps[i..], field, v) == EvalFolded(s0, steps[start..], field, v)
  {
    s, i := s0, start;
    while i < |steps| && Folds(s, steps[i])
      invariant start <= i <= |steps|
      invariant EvalFolded(s, steps[i..], field, v) == EvalFolded(s0, steps[start..], field, v)
    {
      assert steps[i..][0] == steps[i] && steps[i..][1..] == steps[i + 1..];
      FoldingContinues(s, steps[i..], field, v);
      s := Fold(s, steps[i]);
      i := i + 1;
    }
  }

  /** A validator whose user transforms append to a shared list, as a test
      closure appends to a list it closes over. */
  class Validator {
    var calls: seq<Call>

    constructor ()
      ensures calls == []
    {
      calls := [];
    }

    /** `calls.clear()` */
    method Clear()
      modifies this
      ensures calls == []
    {
      calls := [];
    }

    /** `validate_python(v)` on `Annotated[field, p]`: the outcome is what
        `Eval` gives, and the log grows by exactly the calls `Eval` lists. */
    method ValidatePython(p: Pipe, field: Type, v: Value) returns (o: Outcome)
      modifies this
      ensures o == Eval(p, field, v).outcome
      ensures calls == old(calls) + Eval(p, field, v).calls
    {
      o := RunPipe(p.steps, field, v);
    }

    /** A pipeline: a leading parse builds its schema and folds the steps
        after it for as long as they fold; the schema runs, and then the
        steps that are left. */
    method RunPipe(steps: seq<Step>, field: Type, v: Value) returns (o: Outcome)
      modifies this
      decreases steps, 2
      ensures o == EvalPipe(steps, field, v).outcome
      ensures calls == old(calls) + EvalPipe(steps, field, v).calls
    {
      if steps == [] || !steps[0].Parse? {
        o := RunSteps(steps, field, v);
        return;
      }
      var s, i := FoldSteps(ParseSchema(steps[0].target, steps[0].strict, field), steps, 1, field, v);
      var r := RunSchema(s, v);
      FoldingStops(s, steps[i..], field, v);
      if r.Invalid? {
        assert calls == old(calls) + [];
        return Invalid;
      }
      o := RunSteps(steps[i..], field, r.value);
    }

    /** The steps one after another, stopping at the first failure. */
    method RunSteps(steps: seq<Step>, field: Type, v: Value) returns (o: Outcome)
      modifies this
      decreases steps, 1
      ensures o == EvalSteps(steps, field, v).outcome
      ensures calls == old(calls) + EvalSteps(steps, field, v).calls
    {
      var cur := v;
      var i := 0;
      ghost var done := Run(Valid(v), []);
      while i < |steps|
        invariant 0 <= i <= |steps|
        invariant done == EvalSteps(steps[..i], field, v)
        invariant done.outcome == Valid(cur) && calls == old(calls) + done.calls
      {
        ghost var before := calls;
        var r := RunStep(steps[i], field, cur);
        PrefixStep(steps, i, field, v, cur);
        ghost var step := EvalStep(steps[i], field, cur);
        assert calls == old(calls) + (done.calls + step.calls) by {
          assert calls == before + step.calls;
          assert old(calls) + done.calls + step.calls == old(calls) + (done.calls + step.calls);
        }
        if r.Invalid? {
          return Invalid;
        }
        done := Run(step.outcome, done.calls + step.calls);
        cur := r.value;
        i := i + 1;
      }
      assert steps[..i] == steps;
      o := Valid(cur);
    }

    /** One step. A union runs its left pipeline and, if that fails, its
        right one on the same input; a chain feeds the left's result to the
        right. */
    method RunStep(step: Step, field: Type, v: Value) returns (o: Outcome)
      modifies this
      decreases step, 0
      ensures o == EvalStep(step, field, v).outcome
      ensures calls == old(calls) + EvalStep(step, field, v).calls
    {
      match step
      case Parse(target, strict) =>
        o := ParseStep(target, strict, field, v);
      case Transform(f) =>
        if f.Record? {
          calls := calls + [Call(f.tag, v)];
        }
        o := ApplyFn(f, v).outcome;
      case Constrain(c) =>
        o := Check(c, v);
      case Union(l, r) =>
        o := RunPipe(l.steps, field, v);
        if o.Invalid? {
          ghost var left := calls;
          o := RunPipe(r.steps, field, v);
          ghost var right := EvalPipe(r.steps, field, v).calls;
          assert calls == left + right;
          assert old(calls) + EvalPipe(l.steps, field, v).calls + right
              == old(calls) + (EvalPipe(l.steps, field, v).calls + right);
        }
      case Chain(l, r) =>
        o := RunPipe(l.steps, field, v);
        if o.Valid? {
          ghost var left := calls;
          o := RunPipe(r.steps, field, o.value);
          ghost var right := EvalPipe(r.steps, field, EvalPipe(l.steps, field, v).outcome.value).calls;
          assert calls == left + right;
          assert old(calls) + EvalPipe(l.steps, field, v).calls + right
              == old(calls) + (EvalPipe(l.steps, field, v).calls + right);
        }
    }
  }

  /** Running the first `i + 1` steps is running the first `i` and then step
      `i`; once step `i` fails, the later steps never run. */
  lemma PrefixStep(steps: seq<Step>, i: nat, field: Type, v: Value, cur: Value)
    requires i < |steps|
    requires EvalSteps(steps[..i], field, v).outcome == Valid(cur)
    ensures var r := EvalStep(steps[i], field, cur);
      EvalSteps(steps[..i + 1], field, v) == Run(r.outcome, EvalSteps(steps[..i], field, v).calls + r.calls)
      && (r.outcome.Invalid? ==> EvalSteps(steps, field, v) == EvalSteps(steps[..i + 1], field, v))
  {
    EvalStepsAppend(steps[..i], [steps[i]], field, v);
    assert steps[..i + 1] == steps[..i] + [steps[i]];
    OneStep(steps[i], field, cur);
    if EvalStep(steps[i], field, cur).outcome.Invalid? {
      EvalStepsAppend(steps[..i + 1], steps[i + 1..], field, v);
      assert steps[..i + 1] + steps[i + 1..] == steps;
    }
  }

  /** Running a single step as a one-step pipeline. */
  lemma OneStep(s: Step, field: Type, v: Value)
    ensures EvalSteps([s], field, v).outcome == EvalStep(s, field, v).outcome
    ensures EvalSteps([s], field, v).calls == EvalStep(s, field, v).calls
  {
    var r := EvalStep(s, field, v);
    if r.outcome.Valid? {
      assert [s][1..] == [];
      assert r.calls + [] == r.calls;
    }
  }
}
