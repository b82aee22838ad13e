/** The string operations the validation pipeline is built from: the
    `str.strip`, `str.lower`, `str.upper` and `str.title` transforms, the
    trimming pydantic-core does in their place once they are folded into a
    `str` schema, the `in`, `startswith` and `endswith` tests behind
    `str_contains`, `str_starts_with` and `str_ends_with`, and pydantic-core's
    lax parse of a string as an integer. Characters are ASCII; case mappings
    come from the alias generators. */
module PipelineText {
  import A = AliasGenerators

  datatype Option<T> = None | Some(value: T)

  // ---------------------------------------------------------------------------
  // str.strip and str::trim
  // ---------------------------------------------------------------------------

  /** Which characters count as whitespace: Python's `str.isspace`, behind
      `str.strip`, or Rust's `char::is_whitespace`, behind the `str::trim`
      that pydantic-core applies. */
  datatype Blanks = PythonSpace | RustSpace

  /** Space, `\t`, `\n`, `\v`, `\f` and `\r`: whitespace to both. */
  const WhiteChars: set<char> := {' ', '\t', '\n', '\U{B}', '\U{C}', '\r'}

  /** The four separators `\x1c`-`\x1f`: whitespace to Python only. */
  const Separators: set<char> := {'\U{1C}', '\U{1D}', '\U{1E}', '\U{1F}'}

  /** On ASCII, both take the white characters; only Python's also takes the
      separators. */
  predicate IsSpace(ws: Blanks, c: char)
  {
    c in WhiteChars || (ws == PythonSpace && c in Separators)
  }

  predicate AllSpace(ws: Blanks, s: string)
  {
    forall i | 0 <= i < |s| :: IsSpace(ws, s[i])
  }

  /** `s` neither starts nor ends with whitespace. */
  predicate Trimmed(ws: Blanks, s: string)
  {
    s == [] || (!IsSpace(ws, s[0]) && !IsSpace(ws, s[|s| - 1]))
  }

  /** `str.lstrip()`: the suffix of `s` left once its leading whitespace is
      gone. */
  function StripStart(ws: Blanks, s: string): (r: string)
    ensures |r| <= |s| && r == s[|s| - |r|..]
    ensures AllSpace(ws, s[..|s| - |r|])
    ensures r == [] || !IsSpace(ws, r[0])
  {
    if s != [] && IsSpace(ws, s[0]) then
      var r := StripStart(ws, s[1..]);
      assert s[..|s| - |r|] == [s[0]] + s[1..][..|s| - 1 - |r|];
      r
    else s
  }

  /** `str.rstrip()`: the prefix of `s` left once its trailing whitespace is
      gone. */
  function StripEnd(ws: Blanks, s: string): (r: string)
    ensures |r| <= |s| && r == s[..|r|]
    ensures AllSpace(ws, s[|r|..])
    ensures r == [] || !IsSpace(ws, r[|r| - 1])
  {
    if s != [] && IsSpace(ws, s[|s| - 1]) then
      var r := StripEnd(ws, s[..|s| - 1]);
      assert s[|r|..] == s[..|s| - 1][|r|..] + [s[|s| - 1]];
      r
    else s
  }

  /** `str.strip()` with `PythonSpace`, `str::trim` with `RustSpace`. */
  function Strip(ws: Blanks, s: string): (r: string)
    ensures |r| <= |s|
    ensures Trimmed(ws, r)
  {
    var t := StripStart(ws, s);
    var r := StripEnd(ws, t);
    assert r != [] ==> r[0] == t[0];
    r
  }

  lemma StripStartSpaces(ws: Blanks, a: string, t: string)
    requires AllSpace(ws, a)
    requires t == [] || !IsSpace(ws, t[0])
    ensures StripStart(ws, a + t) == t
  {
    var s := a + t;
    assert forall i | 0 <= i < |a| :: s[i] == a[i];
    assert |a| < |s| ==> s[|a|] == t[0];
    StripStartFrom(ws, s, |a|);
    assert s[|a|..] == t;
  }

  /** When `k` spaces open `s` and no space follows them, `str.lstrip()`
      leaves what is after them. */
  lemma {:induction false} StripStartFrom(ws: Blanks, s: string, k: nat)
    requires k <= |s| && (forall i | 0 <= i < k :: IsSpace(ws, s[i]))
    requires k == |s| || !IsSpace(ws, s[k])
    ensures StripStart(ws, s) == s[k..]
    decreases k
  {
    if k == 0 {
      assert s[k..] == s;
    } else {
      var s' := s[1..];
      assert IsSpace(ws, s[0]);
      assert StripStart(ws, s) == StripStart(ws, s');
      assert forall i | 0 <= i < k - 1 :: s'[i] == s[i + 1];
      StripStartFrom(ws, s', k - 1);
      assert s'[k - 1..] == s[k..];
    }
  }

  lemma {:induction false} StripEndSpaces(ws: Blanks, t: string, b: string)
    requires AllSpace(ws, b)
    requires t == [] || !IsSpace(ws, t[|t| - 1])
    ensures StripEnd(ws, t + b) == t
    decreases |b|
  {
    if b == [] {
      assert t + b == t;
    } else {
      assert (t + b)[..|t + b| - 1] == t + b[..|b| - 1];
      StripEndSpaces(ws, t, b[..|b| - 1]);
    }
  }

  /** Whitespace around a word that neither starts nor ends with whitespace
      is exactly what stripping removes. */
  lemma StripPadded(ws: Blanks, a: string, w: string, b: string)
    requires AllSpace(ws, a) && AllSpace(ws, b) && Trimmed(ws, w)
    ensures Strip(ws, a + w + b) == w
  {
    if w == [] {
      assert a + w + b == (a + b) + [];
      StripStartSpaces(ws, a + b, []);
      assert StripEnd(ws, []) == [];
    } else {
      assert a + w + b == a + (w + b);
      StripStartSpaces(ws, a, w + b);
      StripEndSpaces(ws, w, b);
    }
  }

  /** A string that neither starts nor ends with whitespace is left alone. */
  lemma StripKeepsTrimmed(ws: Blanks, r: string)
    requires Trimmed(ws, r)
    ensures Strip(ws, r) == r
  {
    assert [] + r + [] == r;
    StripPadded(ws, [], r, []);
  }

  /** Stripping twice is stripping once. */
  lemma StripIdempotent(ws: Blanks, s: string)
    ensures Strip(ws, Strip(ws, s)) == Strip(ws, s)
  {
    StripKeepsTrimmed(ws, Strip(ws, s));
  }

  /** Padding of spaces, tabs and line breaks around a word that neither
      starts nor ends with Python whitespace: `str.strip` and `str::trim`
      both give back the word. */
  lemma StripsAgreeOnPadded(a: string, w: string, b: string)
    requires AllSpace(RustSpace, a) && AllSpace(RustSpace, b) && Trimmed(PythonSpace, w)
    ensures Strip(PythonSpace, a + w + b) == w
    ensures Strip(RustSpace, a + w + b) == w
  {
    StripPadded(RustSpace, a, w, b);
    assert AllSpace(PythonSpace, a) && AllSpace(PythonSpace, b);
    StripPadded(PythonSpace, a, w, b);
  }

  /** The separators `\x1c`-`\x1f` are whitespace to `str.strip` but not to
      `str::trim`. */
  lemma SeparatorsOnlyPythonStrips(c: char)
    requires c in Separators
    ensures Strip(PythonSpace, [c]) == []
    ensures Strip(RustSpace, [c]) == [c]
  {
    assert Strip(PythonSpace, [c]) == [] by {
      assert [c] == [c] + [] + [];
      StripPadded(PythonSpace, [c], [], []);
    }
    StripKeepsTrimmed(RustSpace, [c]);
  }

  // ---------------------------------------------------------------------------
  // str.lower, str.upper, str.title
  // ---------------------------------------------------------------------------

  /** `str.upper` */
  function Upper(s: string): string
  {
    if s == [] then [] else [A.UpperChar(s[0])] + Upper(s[1..])
  }

  lemma {:induction false} LowerAt(s: string)
    ensures |A.Lower(s)| == |s|
    ensures forall i | 0 <= i < |s| :: A.Lower(s)[i] == A.LowerChar(s[i])
    decreases |s|
  {
    if s != [] {
      LowerAt(s[1..]);
    }
  }

  lemma {:induction false} UpperAt(s: string)
    ensures |Upper(s)| == |s|
    ensures forall i | 0 <= i < |s| :: Upper(s)[i] == A.UpperChar(s[i])
    decreases |s|
  {
    if s != [] {
      UpperAt(s[1..]);
    }
  }
  /** Lower-casing a string that neither starts nor ends with whitespace
      keeps it so. */
  lemma LowerKeepsTrimmed(ws: Blanks, t: string)
    requires Trimmed(ws, t)
    ensures Trimmed(ws, A.Lower(t))
  {
    LowerAt(t);
    if t != [] {
      assert A.Lower(t)[0] == A.LowerChar(t[0]);
      assert A.Lower(t)[|t| - 1] == A.LowerChar(t[|t| - 1]);
    }
  }

  /** Changing case keeps the length. */
  lemma CaseKeepsLength(s: string)
    ensures |A.Lower(s)| == |s| && |Upper(s)| == |s|
  {
    LowerAt(s);
    UpperAt(s);
  }


  lemma TitleAt(s: string)
    ensures |A.Title(s)| == |s|
    ensures s != [] ==> A.Title(s)[0] == A.UpperChar(s[0])
    ensures forall i | 0 < i < |s| :: A.Title(s)[i] == A.TitleCased(s[i - 1], s[i])
  {
    if s != [] {
      TitleRestAt(s);
    }
  }

  lemma {:induction false} TitleRestAt(s: string)
    requires s != []
    ensures |A.TitleRest(s)| == |s| - 1
    ensures forall i | 0 <= i < |s| - 1 :: A.TitleRest(s)[i] == A.TitleCased(s[i], s[i + 1])
    decreases |s|
  {
    if |s| >= 2 {
      TitleRestAt(s[1..]);
    }
  }

  /** Lower-casing forgets an earlier upper-casing, and the other way round. */
  lemma CaseMappingsForget(s: string)
    ensures A.Lower(Upper(s)) == A.Lower(s)
    ensures Upper(A.Lower(s)) == Upper(s)
    ensures A.Lower(A.Lower(s)) == A.Lower(s)
    ensures Upper(Upper(s)) == Upper(s)
  {
    LowerAt(s);
    UpperAt(s);
    LowerAt(Upper(s));
    UpperAt(A.Lower(s));
    LowerAt(A.Lower(s));
    UpperAt(Upper(s));
    forall i | 0 <= i < |s| {
      CharCaseFacts(s[i]);
    }
  }

  /** What the two ASCII case mappings do to one character. */
  lemma CharCaseFacts(c: char)
    ensures A.IsCased(A.UpperChar(c)) == A.IsCased(c) && A.IsCased(A.LowerChar(c)) == A.IsCased(c)
    ensures A.LowerChar(A.UpperChar(c)) == A.LowerChar(c) && A.LowerChar(A.LowerChar(c)) == A.LowerChar(c)
    ensures A.UpperChar(A.LowerChar(c)) == A.UpperChar(c) && A.UpperChar(A.UpperChar(c)) == A.UpperChar(c)
  {
  }

  /** `str.title` only changes case, and title-casing twice is title-casing
      once: whether a character has case survives either mapping, so every
      word boundary stays where it was. */
  lemma TitleOnlyChangesCase(s: string)
    ensures A.Lower(A.Title(s)) == A.Lower(s)
    ensures A.Title(A.Title(s)) == A.Title(s)
  {
    var t := A.Title(s);
    TitleAt(s);
    TitleAt(t);
    LowerAt(s);
    LowerAt(t);
    forall j | 0 <= j < |s|
      ensures A.IsCased(t[j]) == A.IsCased(s[j])
      ensures A.LowerChar(t[j]) == A.LowerChar(s[j])
      ensures A.Title(t)[j] == t[j]
    {
      CharCaseFacts(s[j]);
      if j > 0 {
        CharCaseFacts(s[j - 1]);
        CharCaseFacts(t[j]);
        assert t[j] == A.TitleCased(s[j - 1], s[j]);
        if j > 1 {
          assert t[j - 1] == A.TitleCased(s[j - 2], s[j - 1]);
        }
        assert A.IsCased(t[j - 1]) == A.IsCased(s[j - 1]);
      } else {
        assert t[0] == A.UpperChar(s[0]);
      }
    }
  }

  // ---------------------------------------------------------------------------
  // Substring tests
  // ---------------------------------------------------------------------------

  /** `s.startswith(p)` */
  predicate StartsWith(s: string, p: string)
  {
    |p| <= |s| && s[..|p|] == p
  }

  /** `s.endswith(p)` */
  predicate EndsWith(s: string, p: string)
  {
    |p| <= |s| && s[|s| - |p|..] == p
  }

  /** `sub` occurs in `s` starting at index `i`. */
  predicate OccursAt(s: string, sub: string, i: int)
  {
    0 <= i <= |s| - |sub| && s[i..i + |sub|] == sub
  }

  /** `sub in s` */
  predicate Contains(s: string, sub: string)
  {
    exists i | 0 <= i <= |s| - |sub| :: OccursAt(s, sub, i)
  }

  /** A prefix or a suffix of `s` is contained in it, and so is the empty
      string. */
  lemma AffixesAreContained(s: string, p: string)
    ensures StartsWith(s, p) ==> Contains(s, p)
    ensures EndsWith(s, p) ==> Contains(s, p)
    ensures Contains(s, [])
  {
    if StartsWith(s, p) {
      assert OccursAt(s, p, 0);
    }
    if EndsWith(s, p) {
      assert OccursAt(s, p, |s| - |p|);
    }
    assert OccursAt(s, [], 0);
  }

  /** Between strings of one length, each test holds only for equal strings. */
  lemma SameLengthTests(s: string, p: string)
    requires |s| == |p|
    ensures Contains(s, p) <==> s == p
    ensures StartsWith(s, p) <==> s == p
    ensures EndsWith(s, p) <==> s == p
  {
    assert s[..|p|] == s && s[|s| - |p|..] == s;
    if s == p {
      assert OccursAt(s, p, 0);
    }
    if Contains(s, p) {
      var i :| 0 <= i <= |s| - |p| && OccursAt(s, p, i);
      assert i == 0;
    }
  }

  // ---------------------------------------------------------------------------
  // Integers written in decimal
  // ---------------------------------------------------------------------------

  predicate IsDigits(s: string)
  {
    s != [] && forall i | 0 <= i < |s| :: A.IsDigit(s[i])
  }

  function DigitValue(c: char): nat
    requires A.IsDigit(c)
  {
    c as int - '0' as int
  }

  function DigitChar(d: nat): (c: char)
    requires d < 10
    ensures A.IsDigit(c) && DigitValue(c) == d
  {
    ('0' as int + d) as char
  }

  /** The value of a string of decimal digits, most significant first. */
  function DigitsValue(ds: string): nat
    requires forall i | 0 <= i < |ds| :: A.IsDigit(ds[i])
    decreases |ds|
  {
    if ds == [] then 0 else DigitsValue(ds[..|ds| - 1]) * 10 + DigitValue(ds[|ds| - 1])
  }

  /** The digits of `n` with no leading zeros. */
  function NatDigits(n: nat): (r: string)
    ensures IsDigits(r)
  {
    if n < 10 then [DigitChar(n)] else NatDigits(n / 10) + [DigitChar(n % 10)]
  }

  /** `str(n)` for an integer. */
  function Decimal(n: int): (r: string)
    ensures r != [] && Trimmed(PythonSpace, r) && Trimmed(RustSpace, r)
    ensures forall i | 0 <= i < |r| :: r[i] != '.'
  {
    if n < 0 then "-" + NatDigits(-n) else NatDigits(n)
  }

  /** The longest trimmed string pydantic-core reads as an integer. */
  const MaxIntDigits: nat := 4300

  /** pydantic-core's lax parse of a string as an integer. Whitespace is
      trimmed as `str::trim` does it, and a trimmed string of more than 4300
      characters is refused. What is left must be an optional sign and
      decimal digits, either as it stands or once a `.` followed by nothing
      but zeros is cut off its end. */
  function ParseInt(s: string): (r: Option<int>)
    ensures |Strip(RustSpace, s)| > MaxIntDigits ==> r == None
  {
    var t := Strip(RustSpace, s);
    if |t| > MaxIntDigits then None
    else if ParseTrimmed(t).Some? then ParseTrimmed(t)
    else match WithoutDecimalZeros(t)
      case Some(u) => ParseTrimmed(u)
      case None => None
  }

  /** An optional sign and at least one decimal digit, and nothing else. */
  function ParseTrimmed(t: string): Option<int>
  {
    if IsDigits(t) then Some(DigitsValue(t))
    else if |t| >= 2 && (t[0] == '+' || t[0] == '-') && IsDigits(t[1..]) then
      var magnitude: int := DigitsValue(t[1..]);
      Some(if t[0] == '-' then -magnitude else magnitude)
    else None
  }

  /** The index of the first `.` in `t`, or `|t|` when there is none. */
  function DotIndex(t: string): (i: nat)
    ensures i <= |t| && (i < |t| ==> t[i] == '.')
    ensures forall j | 0 <= j < i :: t[j] != '.'
  {
    if t == [] || t[0] == '.' then 0 else 1 + DotIndex(t[1..])
  }

  /** `t` without its first `.` and what follows it, when only zeros
      follow it. */
  function WithoutDecimalZeros(t: string): Option<string>
  {
    var i := DotIndex(t);
    if i < |t| && forall j | i < j < |t| :: t[j] == '0' then Some(t[..i]) else None
  }

  lemma {:induction false} DigitsOfNat(n: nat)
    ensures DigitsValue(NatDigits(n)) == n
  {
    if n >= 10 {
      DigitsOfNat(n / 10);
      var ds := NatDigits(n);
      assert ds[..|ds| - 1] == NatDigits(n / 10);
    }
  }

  /** Whatever spaces, tabs and line breaks surround it, `str(n)` parses back
      to `n`, as long as it is within pydantic-core's length limit. */
  lemma ParseIntOfDecimal(n: int, a: string, b: string)
    requires AllSpace(RustSpace, a) && AllSpace(RustSpace, b)
    requires |Decimal(n)| <= MaxIntDigits
    ensures ParseInt(a + Decimal(n) + b) == Some(n)
  {
    StripPadded(RustSpace, a, Decimal(n), b);
    DecimalParses(n);
  }

  /** `str(n)` with nothing around it parses back to `n`. */
  lemma ParseIntOfBareDecimal(n: int)
    requires |Decimal(n)| <= MaxIntDigits
    ensures ParseInt(Decimal(n)) == Some(n)
  {
    var d := Decimal(n);
    assert "" + d + "" == d;
    ParseIntOfDecimal(n, "", "");
  }

  /** `str(n)` itself parses back to `n`. */
  lemma DecimalParses(n: int)
    ensures ParseTrimmed(Decimal(n)) == Some(n)
  {
    var d := Decimal(n);
    if n < 0 {
      DigitsOfNat(-n);
      assert d[0] == '-' && !A.IsDigit(d[0]);
      assert d[1..] == NatDigits(-n);
    } else {
      DigitsOfNat(n);
      assert d == NatDigits(n);
    }
  }

  /** `k` zeros. */
  function Zeros(k: nat): (r: string)
    ensures |r| == k && forall i | 0 <= i < k :: r[i] == '0'
  {
    if k == 0 then [] else Zeros(k - 1) + "0"
  }

  /** A string with a `.` in it is not a bare integer. */
  lemma DotNotBare(t: string, i: nat)
    requires i < |t| && t[i] == '.'
    ensures ParseTrimmed(t) == None
  {
    assert !IsDigits(t) by {
      assert !A.IsDigit(t[i]);
    }
    if 1 <= i {
      assert !IsDigits(t[1..]) by {
        assert t[1..][i - 1] == t[i];
      }
    }
  }

  /** The first `.` is the one a string's digits run up to. */
  lemma DotIndexAfter(d: string, e: string)
    requires forall i | 0 <= i < |d| :: d[i] != '.'
    ensures DotIndex(d + "." + e) == |d|
  {
    var t := d + "." + e;
    assert t[|d|] == '.';
  }

  /** `str(n)` followed by a `.` and zeros, as `'1.0'` or `'1.'`, parses to
      `n` too. */
  lemma ParseIntOfDecimalZeros(n: int, k: nat)
    requires |Decimal(n)| + 1 + k <= MaxIntDigits
    ensures ParseInt(Decimal(n) + "." + Zeros(k)) == Some(n)
  {
    DecimalParses(n);
    ParseIntOfWordZeros(Decimal(n), Zeros(k));
  }

  /** A trimmed word without a `.`, followed by a `.` and zeros, parses as
      the word itself does. */
  lemma ParseIntOfWordZeros(d: string, z: string)
    requires d != [] && Trimmed(RustSpace, d) && forall i | 0 <= i < |d| :: d[i] != '.'
    requires forall i | 0 <= i < |z| :: z[i] == '0'
    requires |d| + 1 + |z| <= MaxIntDigits
    ensures ParseInt(d + "." + z) == ParseTrimmed(d)
  {
    var t := d + "." + z;
    assert WithoutDecimalZeros(t) == Some(d) by {
      DotIndexAfter(d, z);
      assert t[..|d|] == d;
      assert forall j | |d| < j < |t| :: t[j] == '0';
    }
    DotNotBare(t, |d|);
    assert Trimmed(RustSpace, t) by {
      assert t[0] == d[0];
      assert t[|t| - 1] == '.' || t[|t| - 1] == '0';
    }
    StripKeepsTrimmed(RustSpace, t);
    ParsedOnceCut(t, d);
  }

  /** A trimmed string that is an integer only once its decimal zeros are
      cut off parses as what is left. */
  lemma ParsedOnceCut(t: string, d: string)
    requires Strip(RustSpace, t) == t && |t| <= MaxIntDigits
    requires ParseTrimmed(t) == None && WithoutDecimalZeros(t) == Some(d)
    ensures ParseInt(t) == ParseTrimmed(d)
  {
  }

  /** Surrounding whitespace never changes what a string parses to. */
  lemma ParseIntIgnoresPadding(s: string)
    ensures ParseInt(Strip(RustSpace, s)) == ParseInt(s)
  {
    StripIdempotent(RustSpace, s);
  }

  /** A trimmed string without a digit is not an integer. */
  lemma NoDigitNoParse(t: string)
    requires forall i | 0 <= i < |t| :: !A.IsDigit(t[i])
    ensures ParseTrimmed(t) == None
  {
    assert !IsDigits(t) by {
      assert t == [] || !A.IsDigit(t[0]);
    }
    assert |t| < 2 || !IsDigits(t[1..]) by {
      assert |t| < 2 || !A.IsDigit(t[1..][0]);
    }
  }

  /** Stripping does not bring in a digit. */
  lemma StripKeepsNoDigit(ws: Blanks, s: string)
    requires forall i | 0 <= i < |s| :: !A.IsDigit(s[i])
    ensures forall i | 0 <= i < |Strip(ws, s)| :: !A.IsDigit(Strip(ws, s)[i])
  {
    var t := StripStart(ws, s);
    SliceKeepsNoDigit(s, |s| - |t|, t);
    var u := StripEnd(ws, t);
    SliceKeepsNoDigit(t, 0, u);
    assert Strip(ws, s) == u;
  }

  lemma SliceKeepsNoDigit(s: string, k: nat, u: string)
    requires k + |u| <= |s| && u == s[k..k + |u|]
    requires forall i | 0 <= i < |s| :: !A.IsDigit(s[i])
    ensures forall i | 0 <= i < |u| :: !A.IsDigit(u[i])
  {
    assert forall i | 0 <= i < |u| :: u[i] == s[k + i];
  }

  /** A trimmed string without a digit is not an integer, with or without
      a decimal tail cut off. */
  lemma TrimmedNoDigitNoParse(t: string)
    requires forall i | 0 <= i < |t| :: !A.IsDigit(t[i])
    ensures ParseTrimmed(t) == None
    ensures WithoutDecimalZeros(t).Some? ==> ParseTrimmed(WithoutDecimalZeros(t).value) == None
  {
    NoDigitNoParse(t);
    var i := DotIndex(t);
    NoDigitNoParse(t[..i]);
  }

  /** A string without a digit never parses. */
  lemma ParseIntNeedsDigit(s: string)
    requires forall i | 0 <= i < |s| :: !A.IsDigit(s[i])
    ensures ParseInt(s) == None
  {
    StripKeepsNoDigit(RustSpace, s);
    TrimmedNoDigitNoParse(Strip(RustSpace, s));
  }

  /** `str.strip` removes a separator in front of a word. */
  lemma SeparatorStrippedByPython(c: char, w: string)
    requires c in Separators && Trimmed(PythonSpace, w)
    ensures Strip(PythonSpace, [c] + w) == w
  {
    assert [c] + w == [c] + w + [];
    StripPadded(PythonSpace, [c], w, []);
  }

  /** `str::trim` keeps a separator in front of a number, so pydantic-core
      does not parse the string. */
  lemma SeparatorBlocksParse(c: char, n: int)
    requires c in Separators
    ensures ParseInt([c] + Decimal(n)) == None
  {
    SeparatorBeforeWord(c, Decimal(n));
  }

  lemma SeparatorBeforeWord(c: char, w: string)
    requires c in Separators
    requires w != [] && Trimmed(RustSpace, w)
    requires forall i | 0 <= i < |w| :: w[i] != '.'
    ensures ParseInt([c] + w) == None
  {
    var t := [c] + w;
    assert WithoutDecimalZeros(t) == None by {
      forall j | 1 <= j < |t| ensures t[j] != '.' {
        assert t[j] == w[j - 1];
      }
      NoDotNoCut(t);
    }
    assert Strip(RustSpace, t) == t by {
      SeparatorKeptByTrim(c, w);
    }
    assert ParseTrimmed(t) == None by {
      assert t[0] == c && c != '+' && c != '-' && !A.IsDigit(c);
      assert !IsDigits(t);
    }
    Unparsable(t);
  }

  /** `str::trim` keeps a separator in front of a trimmed word. */
  lemma SeparatorKeptByTrim(c: char, w: string)
    requires c in Separators
    requires w != [] && Trimmed(RustSpace, w)
    ensures Strip(RustSpace, [c] + w) == [c] + w
  {
    var t := [c] + w;
    assert Trimmed(RustSpace, t) by {
      assert t[|t| - 1] == w[|w| - 1];
    }
    StripKeepsTrimmed(RustSpace, t);
  }

  /** A trimmed string that is not an integer, with or without its decimal
      zeros, does not parse. */
  lemma Unparsable(t: string)
    requires Strip(RustSpace, t) == t
    requires ParseTrimmed(t) == None && WithoutDecimalZeros(t) == None
    ensures ParseInt(t) == None
  {
  }

  /** Without a `.` there is nothing to cut. */
  lemma NoDotNoCut(t: string)
    requires forall j | 1 <= j < |t| :: t[j] != '.'
    requires t != [] && t[0] != '.'
    ensures WithoutDecimalZeros(t) == None
  {
  }
}
