/** The examples the test suite checks for `to_snake`, `to_pascal` and
    `to_camel`, each proved from the general laws in `AliasGenerators`:
    a literal is cut into short pieces, each piece is evaluated, and the
    concatenation lemmas put the pieces back together. */
module AliasGeneratorExamples {
  import opened AliasGenerators

  // ---------------------------------------------------------------------------
  // to_camel on strings it leaves alone
  // ---------------------------------------------------------------------------

  lemma ToCamelEmpty()
    ensures ToCamel("") == ""
  {
  }

  lemma ToCamelOneLetter()
    ensures ToCamel("a") == "a"
  {
  }

  lemma ToCamelAlreadyCamel()
    ensures ToCamel("alreadyCamel") == "alreadyCamel"
  {
    assert "already" + "Camel" == "alreadyCamel";
    ToCamelAlreadyPlusCamel();
  }

  lemma ToCamelAlreadyPlusCamel()
    ensures ToCamel("already" + "Camel") == "already" + "Camel"
  {
    LettersAreCamelSafe("already");
    LettersAreCamelSafe("Camel");
    CamelWordsAppend("already", "Camel");
  }

  // ---------------------------------------------------------------------------
  // Gluing evaluated pieces together
  // ---------------------------------------------------------------------------

  lemma SnakeJoin(a: string, b: string, ra: string, rb: string, sep: string)
    requires |a| >= 1 && |b| >= 1
    requires !(|a| >= 2 && IsUpper(a[|a| - 2]) && IsUpper(a[|a| - 1]) && IsLower(b[0]))
    requires SnakeCase(a) == ra && SnakeCase(b) == rb
    requires SnakeSeparator(a[|a| - 1], b[0], if |b| > 1 then [b[1]] else []) == sep
    ensures SnakeCase(a + b) == ra + sep + rb
  {
    SnakeCaseAppend(a, b);
    AnyFiresLooksOneAhead(AllRules, a[|a| - 1], b[0], b[1..], if |b| > 1 then [b[1]] else []);
  }

  lemma PascalSplit(a: string, b: string, ra: string, rb: string)
    requires |a| >= 1 && |b| >= 1 && !IsCased(a[|a| - 1])
    requires !(|a| >= 2 && InnerUnderscore([a[|a| - 2], a[|a| - 1], b[0]]))
    requires !(|b| >= 2 && InnerUnderscore([a[|a| - 1], b[0], b[1]]))
    requires PascalCase(a) == ra && PascalCase(b) == rb
    ensures PascalCase(a + b) == ra + rb
  {
    PascalCaseAppend(a, b);
  }

  lemma PascalJoinAtUnderscore(a: string, b: string, ra: string, rb: string)
    requires |a| >= 1 && |b| >= 1 && IsAlnum(a[|a| - 1]) && IsAlnum(b[0])
    requires PascalCase(a) == ra && PascalCase(b) == rb
    ensures PascalCase(a + "_" + b) == ra + rb
  {
    PascalCaseJoin(a, b);
  }

  lemma PascalKeepsTrailing(a: string, ra: string)
    requires |a| >= 1 && PascalCase(a) == ra
    ensures PascalCase(a + "_") == ra + "_"
  {
    PascalCaseBeforeUnderscore(a);
  }

  lemma CamelFromPascal(v: string, p: string, r: string)
    requires !AlreadyCamel(v) && ToPascal(v) == p && LowerLeadingCapital(p) == r
    ensures ToCamel(v) == r
  {
  }

  lemma PascalGlue(a: string, b: string, ra: string, rb: string)
    requires |a| >= 1 && |b| >= 1
    requires !(|a| >= 2 && InnerUnderscore([a[|a| - 2], a[|a| - 1], b[0]]))
    requires PascalCase(a) == ra && PascalRest([a[|a| - 1]] + b) == rb
    ensures PascalCase(a + b) == ra + rb
  {
    PascalCaseAppendRest(a, b);
  }

  // ---------------------------------------------------------------------------
  // to_snake: short pieces
  // ---------------------------------------------------------------------------

  lemma SnakeCaseOf2()
    ensures SnakeCase("2") == "2"
  {
  }

  lemma SnakeCaseOfCAM()
    ensures SnakeCase("CAM") == "cam"
  {
  }

  lemma SnakeCaseOfCapitalCamel()
    ensures SnakeCase("Camel") == "camel"
  {
    assert AllLower("amel") && "Camel"[1..] == "amel";
    SnakeCaseOfCapitalWord("Camel");
  }

  lemma SnakeCaseOfCapitalKebab()
    ensures SnakeCase("Kebab") == "kebab"
  {
    assert AllLower("ebab") && "Kebab"[1..] == "ebab";
    SnakeCaseOfCapitalWord("Kebab");
  }

  lemma SnakeCaseOfCapitalPascal()
    ensures SnakeCase("Pascal") == "pascal"
  {
    assert AllLower("ascal") && "Pascal"[1..] == "ascal";
    SnakeCaseOfCapitalWord("Pascal");
  }

  lemma SnakeCaseOfCapitalSnake()
    ensures SnakeCase("Snake") == "snake"
  {
    assert AllLower("nake") && "Snake"[1..] == "nake";
    SnakeCaseOfCapitalWord("Snake");
  }

  lemma SnakeCaseOfCapitalTo()
    ensures SnakeCase("To") == "to"
  {
    assert AllLower("o") && "To"[1..] == "o";
    SnakeCaseOfCapitalWord("To");
  }

  lemma SnakeCaseOfEL()
    ensures SnakeCase("EL") == "el"
  {
  }

  lemma SnakeCaseOfHyphen()
    ensures SnakeCase("-") == "_"
  {
  }

  lemma SnakeCaseOfLowerCamel()
    ensures SnakeCase("camel") == "camel"
  {
    SnakeCaseOfLowerWord("camel");
  }

  lemma SnakeCaseOfLowerKebab()
    ensures SnakeCase("kebab") == "kebab"
  {
    SnakeCaseOfLowerWord("kebab");
  }

  lemma SnakeCaseOfLowerSnake()
    ensures SnakeCase("snake") == "snake"
  {
    SnakeCaseOfLowerWord("snake");
  }

  lemma SnakeCaseOfLowerTo()
    ensures SnakeCase("to") == "to"
  {
    SnakeCaseOfLowerWord("to");
  }

  lemma SnakeCaseOfUnderscore()
    ensures SnakeCase("_") == "_"
  {
  }

  lemma SnakeCaseOfUnderscoreUnderscore()
    ensures SnakeCase("__") == "__"
  {
  }

  lemma SnakeCaseOfV()
    ensures SnakeCase("V") == "v"
  {
  }

  // ---------------------------------------------------------------------------
  // to_snake: the test rows
  // ---------------------------------------------------------------------------

  lemma SnakeCaseOfCamelToSnakeUnchangedPrefix2()
    ensures SnakeCase("camel" + "_") == "camel" + "_"
  {
    SnakeCaseOfLowerCamel();
    SnakeCaseOfUnderscore();
    SnakeJoin("camel", "_", "camel", "_", "");
  }

  lemma SnakeCaseOfCamelToSnakeUnchangedPrefix3()
    ensures SnakeCase("camel" + "_" + "to") == "camel" + "_" + "to"
  {
    SnakeCaseOfCamelToSnakeUnchangedPrefix2();
    SnakeCaseOfLowerTo();
    SnakeJoin("camel" + "_", "to", "camel" + "_", "to", "");
  }

  lemma SnakeCaseOfCamelToSnakeUnchangedPrefix4()
    ensures SnakeCase("camel" + "_" + "to" + "_") == "camel" + "_" + "to" + "_"
  {
    SnakeCaseOfCamelToSnakeUnchangedPrefix3();
    SnakeCaseOfUnderscore();
    SnakeJoin("camel" + "_" + "to", "_", "camel" + "_" + "to", "_", "");
  }

  lemma SnakeCaseOfCamelToSnakeUnchangedPrefix5()
    ensures SnakeCase("camel" + "_" + "to" + "_" + "snake") == "camel" + "_" + "to" + "_" + "snake"
  {
    SnakeCaseOfCamelToSnakeUnchangedPrefix4();
    SnakeCaseOfLowerSnake();
    SnakeJoin("camel" + "_" + "to" + "_", "snake", "camel" + "_" + "to" + "_", "snake", "");
  }

  lemma ToSnakeCamelToSnakeUnchanged()
    ensures ToSnake("camel_to_snake") == "camel_to_snake"
  {
    assert "camel" + "_" + "to" + "_" + "snake" == "camel_to_snake";
    assert "camel" + "_" + "to" + "_" + "snake" == "camel_to_snake";
    SnakeCaseOfCamelToSnakeUnchangedPrefix5();
    ToSnakeIsSnakeCase("camel_to_snake");
  }

  lemma SnakeCaseOfCamelToSnakePrefix2()
    ensures SnakeCase("camel" + "To") == "camel" + "_" + "to"
  {
    SnakeCaseOfLowerCamel();
    SnakeCaseOfCapitalTo();
    SnakeJoin("camel", "To", "camel", "to", "_");
  }

  lemma SnakeCaseOfCamelToSnakePrefix3()
    ensures SnakeCase("camel" + "To" + "Snake") == "camel" + "_" + "to" + "_" + "snake"
  {
    SnakeCaseOfCamelToSnakePrefix2();
    SnakeCaseOfCapitalSnake();
    SnakeJoin("camel" + "To", "Snake", "camel" + "_" + "to", "snake", "_");
  }

  lemma ToSnakeCamelToSnake()
    ensures ToSnake("camelToSnake") == "camel_to_snake"
  {
    assert "camel" + "To" + "Snake" == "camelToSnake";
    assert "camel" + "_" + "to" + "_" + "snake" == "camel_to_snake";
    SnakeCaseOfCamelToSnakePrefix3();
    ToSnakeIsSnakeCase("camelToSnake");
  }

  lemma SnakeCaseOfCamel2SnakePrefix2()
    ensures SnakeCase("camel" + "2") == "camel" + "_" + "2"
  {
    SnakeCaseOfLowerCamel();
    SnakeCaseOf2();
    SnakeJoin("camel", "2", "camel", "2", "_");
  }

  lemma SnakeCaseOfCamel2SnakePrefix3()
    ensures SnakeCase("camel" + "2" + "Snake") == "camel" + "_" + "2" + "_" + "snake"
  {
    SnakeCaseOfCamel2SnakePrefix2();
    SnakeCaseOfCapitalSnake();
    SnakeJoin("camel" + "2", "Snake", "camel" + "_" + "2", "snake", "_");
  }

  lemma ToSnakeCamel2Snake()
    ensures ToSnake("camel2Snake") == "camel_2_snake"
  {
    assert "camel" + "2" + "Snake" == "camel2Snake";
    assert "camel" + "_" + "2" + "_" + "snake" == "camel_2_snake";
    SnakeCaseOfCamel2SnakePrefix3();
    ToSnakeIsSnakeCase("camel2Snake");
  }

  lemma SnakeCaseOfLeadingUnderscoreCamelPrefix2()
    ensures SnakeCase("_" + "camel") == "_" + "camel"
  {
    SnakeCaseOfUnderscore();
    SnakeCaseOfLowerCamel();
    SnakeJoin("_", "camel", "_", "camel", "");
  }

  lemma SnakeCaseOfLeadingUnderscoreCamelPrefix3()
    ensures SnakeCase("_" + "camel" + "To") == "_" + "camel" + "_" + "to"
  {
    SnakeCaseOfLeadingUnderscoreCamelPrefix2();
    SnakeCaseOfCapitalTo();
    SnakeJoin("_" + "camel", "To", "_" + "camel", "to", "_");
  }

  lemma SnakeCaseOfLeadingUnderscoreCamelPrefix4()
    ensures SnakeCase("_" + "camel" + "To" + "Snake") == "_" + "camel" + "_" + "to" + "_" + "snake"
  {
    SnakeCaseOfLeadingUnderscoreCamelPrefix3();
    SnakeCaseOfCapitalSnake();
    SnakeJoin("_" + "camel" + "To", "Snake", "_" + "camel" + "_" + "to", "snake", "_");
  }

  lemma ToSnakeLeadingUnderscoreCamel()
    ensures ToSnake("_camelToSnake") == "_camel_to_snake"
  {
    assert "_" + "camel" + "To" + "Snake" == "_camelToSnake";
    assert "_" + "camel" + "_" + "to" + "_" + "snake" == "_camel_to_snake";
    SnakeCaseOfLeadingUnderscoreCamelPrefix4();
    ToSnakeIsSnakeCase("_camelToSnake");
  }

  lemma SnakeCaseOfTrailingUnderscoreCamelPrefix4()
    ensures SnakeCase("camel" + "To" + "Snake" + "_") == "camel" + "_" + "to" + "_" + "snake" + "_"
  {
    SnakeCaseOfCamelToSnakePrefix3();
    SnakeCaseOfUnderscore();
    SnakeJoin("camel" + "To" + "Snake", "_", "camel" + "_" + "to" + "_" + "snake", "_", "");
  }

  lemma ToSnakeTrailingUnderscoreCamel()
    ensures ToSnake("camelToSnake_") == "camel_to_snake_"
  {
    assert "camel" + "To" + "Snake" + "_" == "camelToSnake_";
    assert "camel" + "_" + "to" + "_" + "snake" + "_" == "camel_to_snake_";
    SnakeCaseOfTrailingUnderscoreCamelPrefix4();
    ToSnakeIsSnakeCase("camelToSnake_");
  }

  lemma SnakeCaseOfDoubleUnderscoresCamelPrefix2()
    ensures SnakeCase("__" + "camel") == "__" + "camel"
  {
    SnakeCaseOfUnderscoreUnderscore();
    SnakeCaseOfLowerCamel();
    SnakeJoin("__", "camel", "__", "camel", "");
  }

  lemma SnakeCaseOfDoubleUnderscoresCamelPrefix3()
    ensures SnakeCase("__" + "camel" + "To") == "__" + "camel" + "_" + "to"
  {
    SnakeCaseOfDoubleUnderscoresCamelPrefix2();
    SnakeCaseOfCapitalTo();
    SnakeJoin("__" + "camel", "To", "__" + "camel", "to", "_");
  }

  lemma SnakeCaseOfDoubleUnderscoresCamelPrefix4()
    ensures SnakeCase("__" + "camel" + "To" + "Snake") == "__" + "camel" + "_" + "to" + "_" + "snake"
  {
    SnakeCaseOfDoubleUnderscoresCamelPrefix3();
    SnakeCaseOfCapitalSnake();
    SnakeJoin("__" + "camel" + "To", "Snake", "__" + "camel" + "_" + "to", "snake", "_");
  }

  lemma SnakeCaseOfDoubleUnderscoresCamelPrefix5()
    ensures SnakeCase("__" + "camel" + "To" + "Snake" + "__") == "__" + "camel" + "_" + "to" + "_" + "snake" + "__"
  {
    SnakeCaseOfDoubleUnderscoresCamelPrefix4();
    SnakeCaseOfUnderscoreUnderscore();
    SnakeJoin("__" + "camel" + "To" + "Snake", "__", "__" + "camel" + "_" + "to" + "_" + "snake", "__", "");
  }

  lemma ToSnakeDoubleUnderscoresCamel()
    ensures ToSnake("__camelToSnake__") == "__camel_to_snake__"
  {
    assert "__" + "camel" + "To" + "Snake" + "__" == "__camelToSnake__";
    assert "__" + "camel" + "_" + "to" + "_" + "snake" + "__" == "__camel_to_snake__";
    SnakeCaseOfDoubleUnderscoresCamelPrefix5();
    ToSnakeIsSnakeCase("__camelToSnake__");
  }

  lemma SnakeCaseOfPascalCamelToSnakePrefix2()
    ensures SnakeCase("Camel" + "To") == "camel" + "_" + "to"
  {
    SnakeCaseOfCapitalCamel();
    SnakeCaseOfCapitalTo();
    SnakeJoin("Camel", "To", "camel", "to", "_");
  }

  lemma SnakeCaseOfPascalCamelToSnakePrefix3()
    ensures SnakeCase("Camel" + "To" + "Snake") == "camel" + "_" + "to" + "_" + "snake"
  {
    SnakeCaseOfPascalCamelToSnakePrefix2();
    SnakeCaseOfCapitalSnake();
    SnakeJoin("Camel" + "To", "Snake", "camel" + "_" + "to", "snake", "_");
  }

  lemma ToSnakePascalCamelToSnake()
    ensures ToSnake("CamelToSnake") == "camel_to_snake"
  {
    assert "Camel" + "To" + "Snake" == "CamelToSnake";
    assert "camel" + "_" + "to" + "_" + "snake" == "camel_to_snake";
    SnakeCaseOfPascalCamelToSnakePrefix3();
    ToSnakeIsSnakeCase("CamelToSnake");
  }

  lemma SnakeCaseOfPascalCamel2SnakePrefix2()
    ensures SnakeCase("Camel" + "2") == "camel" + "_" + "2"
  {
    SnakeCaseOfCapitalCamel();
    SnakeCaseOf2();
    SnakeJoin("Camel", "2", "camel", "2", "_");
  }

  lemma SnakeCaseOfPascalCamel2SnakePrefix3()
    ensures SnakeCase("Camel" + "2" + "Snake") == "camel" + "_" + "2" + "_" + "snake"
  {
    SnakeCaseOfPascalCamel2SnakePrefix2();
    SnakeCaseOfCapitalSnake();
    SnakeJoin("Camel" + "2", "Snake", "camel" + "_" + "2", "snake", "_");
  }

  lemma ToSnakePascalCamel2Snake()
    ensures ToSnake("Camel2Snake") == "camel_2_snake"
  {
    assert "Camel" + "2" + "Snake" == "Camel2Snake";
    assert "camel" + "_" + "2" + "_" + "snake" == "camel_2_snake";
    SnakeCaseOfPascalCamel2SnakePrefix3();
    ToSnakeIsSnakeCase("Camel2Snake");
  }

  lemma SnakeCaseOfLeadingUnderscorePascalPrefix2()
    ensures SnakeCase("_" + "Camel") == "_" + "camel"
  {
    SnakeCaseOfUnderscore();
    SnakeCaseOfCapitalCamel();
    SnakeJoin("_", "Camel", "_", "camel", "");
  }

  lemma SnakeCaseOfLeadingUnderscorePascalPrefix3()
    ensures SnakeCase("_" + "Camel" + "To") == "_" + "camel" + "_" + "to"
  {
    SnakeCaseOfLeadingUnderscorePascalPrefix2();
    SnakeCaseOfCapitalTo();
    SnakeJoin("_" + "Camel", "To", "_" + "camel", "to", "_");
  }

  lemma SnakeCaseOfLeadingUnderscorePascalPrefix4()
    ensures SnakeCase("_" + "Camel" + "To" + "Snake") == "_" + "camel" + "_" + "to" + "_" + "snake"
  {
    SnakeCaseOfLeadingUnderscorePascalPrefix3();
    SnakeCaseOfCapitalSnake();
    SnakeJoin("_" + "Camel" + "To", "Snake", "_" + "camel" + "_" + "to", "snake", "_");
  }

  lemma ToSnakeLeadingUnderscorePascal()
    ensures ToSnake("_CamelToSnake") == "_camel_to_snake"
  {
    assert "_" + "Camel" + "To" + "Snake" == "_CamelToSnake";
    assert "_" + "camel" + "_" + "to" + "_" + "snake" == "_camel_to_snake";
    SnakeCaseOfLeadingUnderscorePascalPrefix4();
    ToSnakeIsSnakeCase("_CamelToSnake");
  }

  lemma SnakeCaseOfTrailingUnderscorePascalPrefix4()
    ensures SnakeCase("Camel" + "To" + "Snake" + "_") == "camel" + "_" + "to" + "_" + "snake" + "_"
  {
    SnakeCaseOfPascalCamelToSnakePrefix3();
    SnakeCaseOfUnderscore();
    SnakeJoin("Camel" + "To" + "Snake", "_", "camel" + "_" + "to" + "_" + "snake", "_", "");
  }

  lemma ToSnakeTrailingUnderscorePascal()
    ensures ToSnake("CamelToSnake_") == "camel_to_snake_"
  {
    assert "Camel" + "To" + "Snake" + "_" == "CamelToSnake_";
    assert "camel" + "_" + "to" + "_" + "snake" + "_" == "camel_to_snake_";
    SnakeCaseOfTrailingUnderscorePascalPrefix4();
    ToSnakeIsSnakeCase("CamelToSnake_");
  }

  lemma SnakeCaseOfAcronymPrefix2()
    ensures SnakeCase("CAM" + "EL") == "cam" + "el"
  {
    SnakeCaseOfCAM();
    SnakeCaseOfEL();
    SnakeJoin("CAM", "EL", "cam", "el", "");
  }

  lemma SnakeCaseOfAcronymPrefix3()
    ensures SnakeCase("CAM" + "EL" + "To") == "cam" + "el" + "_" + "to"
  {
    SnakeCaseOfAcronymPrefix2();
    SnakeCaseOfCapitalTo();
    SnakeJoin("CAM" + "EL", "To", "cam" + "el", "to", "_");
  }

  lemma SnakeCaseOfAcronymPrefix4()
    ensures SnakeCase("CAM" + "EL" + "To" + "Snake") == "cam" + "el" + "_" + "to" + "_" + "snake"
  {
    SnakeCaseOfAcronymPrefix3();
    SnakeCaseOfCapitalSnake();
    SnakeJoin("CAM" + "EL" + "To", "Snake", "cam" + "el" + "_" + "to", "snake", "_");
  }

  lemma ToSnakeAcronym()
    ensures ToSnake("CAMELToSnake") == "camel_to_snake"
  {
    assert "CAM" + "EL" + "To" + "Snake" == "CAMELToSnake";
    assert "cam" + "el" + "_" + "to" + "_" + "snake" == "camel_to_snake";
    SnakeCaseOfAcronymPrefix4();
    ToSnakeIsSnakeCase("CAMELToSnake");
  }

  lemma SnakeCaseOfDoubleUnderscoresPascalPrefix2()
    ensures SnakeCase("__" + "Camel") == "__" + "camel"
  {
    SnakeCaseOfUnderscoreUnderscore();
    SnakeCaseOfCapitalCamel();
    SnakeJoin("__", "Camel", "__", "camel", "");
  }

  lemma SnakeCaseOfDoubleUnderscoresPascalPrefix3()
    ensures SnakeCase("__" + "Camel" + "To") == "__" + "camel" + "_" + "to"
  {
    SnakeCaseOfDoubleUnderscoresPascalPrefix2();
    SnakeCaseOfCapitalTo();
    SnakeJoin("__" + "Camel", "To", "__" + "camel", "to", "_");
  }

  lemma SnakeCaseOfDoubleUnderscoresPascalPrefix4()
    ensures SnakeCase("__" + "Camel" + "To" + "Snake") == "__" + "camel" + "_" + "to" + "_" + "snake"
  {
    SnakeCaseOfDoubleUnderscoresPascalPrefix3();
    SnakeCaseOfCapitalSnake();
    SnakeJoin("__" + "Camel" + "To", "Snake", "__" + "camel" + "_" + "to", "snake", "_");
  }

  lemma SnakeCaseOfDoubleUnderscoresPascalPrefix5()
    ensures SnakeCase("__" + "Camel" + "To" + "Snake" + "__") == "__" + "camel" + "_" + "to" + "_" + "snake" + "__"
  {
    SnakeCaseOfDoubleUnderscoresPascalPrefix4();
    SnakeCaseOfUnderscoreUnderscore();
    SnakeJoin("__" + "Camel" + "To" + "Snake", "__", "__" + "camel" + "_" + "to" + "_" + "snake", "__", "");
  }

  lemma ToSnakeDoubleUnderscoresPascal()
    ensures ToSnake("__CamelToSnake__") == "__camel_to_snake__"
  {
    assert "__" + "Camel" + "To" + "Snake" + "__" == "__CamelToSnake__";
    assert "__" + "camel" + "_" + "to" + "_" + "snake" + "__" == "__camel_to_snake__";
    SnakeCaseOfDoubleUnderscoresPascalPrefix5();
    ToSnakeIsSnakeCase("__CamelToSnake__");
  }

  lemma ToSnakePascalDigit()
    ensures ToSnake("Camel2") == "camel_2"
  {
    assert "Camel" + "2" == "Camel2";
    assert "camel" + "_" + "2" == "camel_2";
    SnakeCaseOfPascalCamel2SnakePrefix2();
    ToSnakeIsSnakeCase("Camel2");
  }

  lemma SnakeCaseOfPascalDigitTrailingPrefix3()
    ensures SnakeCase("Camel" + "2" + "_") == "camel" + "_" + "2" + "_"
  {
    SnakeCaseOfPascalCamel2SnakePrefix2();
    SnakeCaseOfUnderscore();
    SnakeJoin("Camel" + "2", "_", "camel" + "_" + "2", "_", "");
  }

  lemma ToSnakePascalDigitTrailing()
    ensures ToSnake("Camel2_") == "camel_2_"
  {
    assert "Camel" + "2" + "_" == "Camel2_";
    assert "camel" + "_" + "2" + "_" == "camel_2_";
    SnakeCaseOfPascalDigitTrailingPrefix3();
    ToSnakeIsSnakeCase("Camel2_");
  }

  lemma SnakeCaseOfPascalDigitLeadingPrefix3()
    ensures SnakeCase("_" + "Camel" + "2") == "_" + "camel" + "_" + "2"
  {
    SnakeCaseOfLeadingUnderscorePascalPrefix2();
    SnakeCaseOf2();
    SnakeJoin("_" + "Camel", "2", "_" + "camel", "2", "_");
  }

  lemma ToSnakePascalDigitLeading()
    ensures ToSnake("_Camel2") == "_camel_2"
  {
    assert "_" + "Camel" + "2" == "_Camel2";
    assert "_" + "camel" + "_" + "2" == "_camel_2";
    SnakeCaseOfPascalDigitLeadingPrefix3();
    ToSnakeIsSnakeCase("_Camel2");
  }

  lemma ToSnakeCamelDigit()
    ensures ToSnake("camel2") == "camel_2"
  {
    assert "camel" + "2" == "camel2";
    assert "camel" + "_" + "2" == "camel_2";
    SnakeCaseOfCamel2SnakePrefix2();
    ToSnakeIsSnakeCase("camel2");
  }

  lemma SnakeCaseOfCamelDigitTrailingPrefix3()
    ensures SnakeCase("camel" + "2" + "_") == "camel" + "_" + "2" + "_"
  {
    SnakeCaseOfCamel2SnakePrefix2();
    SnakeCaseOfUnderscore();
    SnakeJoin("camel" + "2", "_", "camel" + "_" + "2", "_", "");
  }

  lemma ToSnakeCamelDigitTrailing()
    ensures ToSnake("camel2_") == "camel_2_"
  {
    assert "camel" + "2" + "_" == "camel2_";
    assert "camel" + "_" + "2" + "_" == "camel_2_";
    SnakeCaseOfCamelDigitTrailingPrefix3();
    ToSnakeIsSnakeCase("camel2_");
  }

  lemma SnakeCaseOfCamelDigitLeadingPrefix3()
    ensures SnakeCase("_" + "camel" + "2") == "_" + "camel" + "_" + "2"
  {
    SnakeCaseOfLeadingUnderscoreCamelPrefix2();
    SnakeCaseOf2();
    SnakeJoin("_" + "camel", "2", "_" + "camel", "2", "_");
  }

  lemma ToSnakeCamelDigitLeading()
    ensures ToSnake("_camel2") == "_camel_2"
  {
    assert "_" + "camel" + "2" == "_camel2";
    assert "_" + "camel" + "_" + "2" == "_camel_2";
    SnakeCaseOfCamelDigitLeadingPrefix3();
    ToSnakeIsSnakeCase("_camel2");
  }

  lemma SnakeCaseOfKebabPrefix2()
    ensures SnakeCase("kebab" + "-") == "kebab" + "_"
  {
    SnakeCaseOfLowerKebab();
    SnakeCaseOfHyphen();
    SnakeJoin("kebab", "-", "kebab", "_", "");
  }

  lemma SnakeCaseOfKebabPrefix3()
    ensures SnakeCase("kebab" + "-" + "to") == "kebab" + "_" + "to"
  {
    SnakeCaseOfKebabPrefix2();
    SnakeCaseOfLowerTo();
    SnakeJoin("kebab" + "-", "to", "kebab" + "_", "to", "");
  }

  lemma SnakeCaseOfKebabPrefix4()
    ensures SnakeCase("kebab" + "-" + "to" + "-") == "kebab" + "_" + "to" + "_"
  {
    SnakeCaseOfKebabPrefix3();
    SnakeCaseOfHyphen();
    SnakeJoin("kebab" + "-" + "to", "-", "kebab" + "_" + "to", "_", "");
  }

  lemma SnakeCaseOfKebabPrefix5()
    ensures SnakeCase("kebab" + "-" + "to" + "-" + "snake") == "kebab" + "_" + "to" + "_" + "snake"
  {
    SnakeCaseOfKebabPrefix4();
    SnakeCaseOfLowerSnake();
    SnakeJoin("kebab" + "-" + "to" + "-", "snake", "kebab" + "_" + "to" + "_", "snake", "");
  }

  lemma ToSnakeKebab()
    ensures ToSnake("kebab-to-snake") == "kebab_to_snake"
  {
    assert "kebab" + "-" + "to" + "-" + "snake" == "kebab-to-snake";
    assert "kebab" + "_" + "to" + "_" + "snake" == "kebab_to_snake";
    SnakeCaseOfKebabPrefix5();
    ToSnakeIsSnakeCase("kebab-to-snake");
  }

  lemma SnakeCaseOfKebabCapitalPrefix3()
    ensures SnakeCase("kebab" + "-" + "Snake") == "kebab" + "_" + "snake"
  {
    SnakeCaseOfKebabPrefix2();
    SnakeCaseOfCapitalSnake();
    SnakeJoin("kebab" + "-", "Snake", "kebab" + "_", "snake", "");
  }

  lemma ToSnakeKebabCapital()
    ensures ToSnake("kebab-Snake") == "kebab_snake"
  {
    assert "kebab" + "-" + "Snake" == "kebab-Snake";
    assert "kebab" + "_" + "snake" == "kebab_snake";
    SnakeCaseOfKebabCapitalPrefix3();
    ToSnakeIsSnakeCase("kebab-Snake");
  }

  lemma SnakeCaseOfKebabPascalPrefix2()
    ensures SnakeCase("Kebab" + "-") == "kebab" + "_"
  {
    SnakeCaseOfCapitalKebab();
    SnakeCaseOfHyphen();
    SnakeJoin("Kebab", "-", "kebab", "_", "");
  }

  lemma SnakeCaseOfKebabPascalPrefix3()
    ensures SnakeCase("Kebab" + "-" + "Snake") == "kebab" + "_" + "snake"
  {
    SnakeCaseOfKebabPascalPrefix2();
    SnakeCaseOfCapitalSnake();
    SnakeJoin("Kebab" + "-", "Snake", "kebab" + "_", "snake", "");
  }

  lemma ToSnakeKebabPascal()
    ensures ToSnake("Kebab-Snake") == "kebab_snake"
  {
    assert "Kebab" + "-" + "Snake" == "Kebab-Snake";
    assert "kebab" + "_" + "snake" == "kebab_snake";
    SnakeCaseOfKebabPascalPrefix3();
    ToSnakeIsSnakeCase("Kebab-Snake");
  }

  lemma SnakeCaseOfPascalPrefix2()
    ensures SnakeCase("Pascal" + "To") == "pascal" + "_" + "to"
  {
    SnakeCaseOfCapitalPascal();
    SnakeCaseOfCapitalTo();
    SnakeJoin("Pascal", "To", "pascal", "to", "_");
  }

  lemma SnakeCaseOfPascalPrefix3()
    ensures SnakeCase("Pascal" + "To" + "Snake") == "pascal" + "_" + "to" + "_" + "snake"
  {
    SnakeCaseOfPascalPrefix2();
    SnakeCaseOfCapitalSnake();
    SnakeJoin("Pascal" + "To", "Snake", "pascal" + "_" + "to", "snake", "_");
  }

  lemma ToSnakePascal()
    ensures ToSnake("PascalToSnake") == "pascal_to_snake"
  {
    assert "Pascal" + "To" + "Snake" == "PascalToSnake";
    assert "pascal" + "_" + "to" + "_" + "snake" == "pascal_to_snake";
    SnakeCaseOfPascalPrefix3();
    ToSnakeIsSnakeCase("PascalToSnake");
  }

  lemma SnakeCaseOfSnakeUnchangedPrefix2()
    ensures SnakeCase("snake" + "_") == "snake" + "_"
  {
    SnakeCaseOfLowerSnake();
    SnakeCaseOfUnderscore();
    SnakeJoin("snake", "_", "snake", "_", "");
  }

  lemma SnakeCaseOfSnakeUnchangedPrefix3()
    ensures SnakeCase("snake" + "_" + "to") == "snake" + "_" + "to"
  {
    SnakeCaseOfSnakeUnchangedPrefix2();
    SnakeCaseOfLowerTo();
    SnakeJoin("snake" + "_", "to", "snake" + "_", "to", "");
  }

  lemma SnakeCaseOfSnakeUnchangedPrefix4()
    ensures SnakeCase("snake" + "_" + "to" + "_") == "snake" + "_" + "to" + "_"
  {
    SnakeCaseOfSnakeUnchangedPrefix3();
    SnakeCaseOfUnderscore();
    SnakeJoin("snake" + "_" + "to", "_", "snake" + "_" + "to", "_", "");
  }

  lemma SnakeCaseOfSnakeUnchangedPrefix5()
    ensures SnakeCase("snake" + "_" + "to" + "_" + "snake") == "snake" + "_" + "to" + "_" + "snake"
  {
    SnakeCaseOfSnakeUnchangedPrefix4();
    SnakeCaseOfLowerSnake();
    SnakeJoin("snake" + "_" + "to" + "_", "snake", "snake" + "_" + "to" + "_", "snake", "");
  }

  lemma ToSnakeSnakeUnchanged()
    ensures ToSnake("snake_to_snake") == "snake_to_snake"
  {
    assert "snake" + "_" + "to" + "_" + "snake" == "snake_to_snake";
    assert "snake" + "_" + "to" + "_" + "snake" == "snake_to_snake";
    SnakeCaseOfSnakeUnchangedPrefix5();
    ToSnakeIsSnakeCase("snake_to_snake");
  }

  lemma SnakeCaseOfUpperThenDigitPrefix2()
    ensures SnakeCase("snake" + "V") == "snake" + "_" + "v"
  {
    SnakeCaseOfLowerSnake();
    SnakeCaseOfV();
    SnakeJoin("snake", "V", "snake", "v", "_");
  }

  lemma SnakeCaseOfUpperThenDigitPrefix3()
    ensures SnakeCase("snake" + "V" + "2") == "snake" + "_" + "v" + "2"
  {
    SnakeCaseOfUpperThenDigitPrefix2();
    SnakeCaseOf2();
    SnakeJoin("snake" + "V", "2", "snake" + "_" + "v", "2", "");
  }

  lemma ToSnakeUpperThenDigit()
    ensures ToSnake("snakeV2") == "snake_v2"
  {
    assert "snake" + "V" + "2" == "snakeV2";
    assert "snake" + "_" + "v" + "2" == "snake_v2";
    SnakeCaseOfUpperThenDigitPrefix3();
    ToSnakeIsSnakeCase("snakeV2");
  }

  // ---------------------------------------------------------------------------
  // to_pascal: short pieces
  // ---------------------------------------------------------------------------

  lemma PascalCaseOf2()
    ensures PascalCase("2") == "2"
  {
  }

  lemma PascalCaseOfLowerCamel()
    ensures PascalCase("camel") == "Camel"
  {
    PascalCaseOfLowerWord("camel");
  }

  lemma PascalCaseOfLowerI()
    ensures PascalCase("i") == "I"
  {
    PascalCaseOfLowerWord("i");
  }

  lemma PascalCaseOfLowerLike()
    ensures PascalCase("like") == "Like"
  {
    PascalCaseOfLowerWord("like");
  }

  lemma PascalCaseOfLowerSnake()
    ensures PascalCase("snake") == "Snake"
  {
    PascalCaseOfLowerWord("snake");
  }

  lemma PascalCaseOfLowerTo()
    ensures PascalCase("to") == "To"
  {
    PascalCaseOfLowerWord("to");
  }

  lemma PascalCaseOfLowerTurtles()
    ensures PascalCase("turtles") == "Turtles"
  {
    PascalCaseOfLowerWord("turtles");
  }

  lemma PascalCaseOfUnderscore()
    ensures PascalCase("_") == "_"
  {
  }

  lemma PascalCaseOfUnderscoreUnderscore()
    ensures PascalCase("__") == "__"
  {
  }

  lemma PascalRestOfE2()
    ensures PascalRest("e2") == "2"
  {
  }

  // ---------------------------------------------------------------------------
  // to_pascal and to_camel: the test rows
  // ---------------------------------------------------------------------------

  lemma PascalCaseOfSnakeToCamelPart1()
    ensures PascalCase("to" + "_" + "camel") == "To" + "Camel"
  {
    PascalCaseOfLowerTo();
    PascalCaseOfLowerCamel();
    PascalJoinAtUnderscore("to", "camel", "To", "Camel");
  }

  lemma PascalCaseOfSnakeToCamelPart2()
    ensures PascalCase("snake" + "_" + ("to" + "_" + "camel")) == "Snake" + ("To" + "Camel")
  {
    PascalCaseOfLowerSnake();
    PascalCaseOfSnakeToCamelPart1();
    PascalJoinAtUnderscore("snake", ("to" + "_" + "camel"), "Snake", ("To" + "Camel"));
  }

  lemma ToPascalSnakeToCamel()
    ensures ToPascal("snake_to_camel") == "SnakeToCamel"
  {
    assert "snake" + "_" + ("to" + "_" + "camel") == "snake_to_camel";
    assert "Snake" + ("To" + "Camel") == "SnakeToCamel";
    PascalCaseOfSnakeToCamelPart2();
    ToPascalIsPascalCase("snake_to_camel");
  }

  lemma LowerLeadingCapitalOfSnakeToCamel()
    ensures LowerLeadingCapital("SnakeToCamel") == "snakeToCamel"
  {
    assert ['S'] + "nakeToCamel" == "SnakeToCamel";
    assert [LowerChar('S')] + "nakeToCamel" == "snakeToCamel";
    LowerLeadingCapitalAfterUnderscores("", 'S', "nakeToCamel");
  }

  lemma ToCamelSnakeToCamel()
    ensures ToCamel("snake_to_camel") == "snakeToCamel"
  {
    UnderscoreIsNotCamel("snake_to_camel", 5);
    ToPascalSnakeToCamel();
    LowerLeadingCapitalOfSnakeToCamel();
    CamelFromPascal("snake_to_camel", "SnakeToCamel", "snakeToCamel");
  }

  lemma PascalCaseOfSnake2CamelPart1()
    ensures PascalCase("2" + "_" + "camel") == "2" + "Camel"
  {
    PascalCaseOf2();
    PascalCaseOfLowerCamel();
    PascalJoinAtUnderscore("2", "camel", "2", "Camel");
  }

  lemma PascalCaseOfSnake2CamelPart2()
    ensures PascalCase("snake" + "_" + ("2" + "_" + "camel")) == "Snake" + ("2" + "Camel")
  {
    PascalCaseOfLowerSnake();
    PascalCaseOfSnake2CamelPart1();
    PascalJoinAtUnderscore("snake", ("2" + "_" + "camel"), "Snake", ("2" + "Camel"));
  }

  lemma ToPascalSnake2Camel()
    ensures ToPascal("snake_2_camel") == "Snake2Camel"
  {
    assert "snake" + "_" + ("2" + "_" + "camel") == "snake_2_camel";
    assert "Snake" + ("2" + "Camel") == "Snake2Camel";
    PascalCaseOfSnake2CamelPart2();
    ToPascalIsPascalCase("snake_2_camel");
  }

  lemma LowerLeadingCapitalOfSnake2Camel()
    ensures LowerLeadingCapital("Snake2Camel") == "snake2Camel"
  {
    assert ['S'] + "nake2Camel" == "Snake2Camel";
    assert [LowerChar('S')] + "nake2Camel" == "snake2Camel";
    LowerLeadingCapitalAfterUnderscores("", 'S', "nake2Camel");
  }

  lemma ToCamelSnake2Camel()
    ensures ToCamel("snake_2_camel") == "snake2Camel"
  {
    UnderscoreIsNotCamel("snake_2_camel", 5);
    ToPascalSnake2Camel();
    LowerLeadingCapitalOfSnake2Camel();
    CamelFromPascal("snake_2_camel", "Snake2Camel", "snake2Camel");
  }

  lemma PascalCaseOfDigitThenLetterPart1()
    ensures PascalCase("snake" + "2") == "Snake" + "2"
  {
    PascalCaseOfLowerSnake();
    PascalCaseOf2();
    PascalRestOfE2();
    PascalGlue("snake", "2", "Snake", "2");
  }

  lemma PascalCaseOfDigitThenLetterPart2()
    ensures PascalCase("snake" + "2" + "camel") == "Snake" + "2" + "Camel"
  {
    PascalCaseOfDigitThenLetterPart1();
    PascalCaseOfLowerCamel();
    PascalSplit("snake" + "2", "camel", "Snake" + "2", "Camel");
  }

  lemma ToPascalDigitThenLetter()
    ensures ToPascal("snake2camel") == "Snake2Camel"
  {
    assert "snake" + "2" + "camel" == "snake2camel";
    assert "Snake" + "2" + "Camel" == "Snake2Camel";
    PascalCaseOfDigitThenLetterPart2();
    ToPascalIsPascalCase("snake2camel");
  }

  lemma ToCamelDigitThenLetter()
    ensures ToCamel("snake2camel") == "snake2Camel"
  {
    DigitThenLowerIsNotCamel("snake2camel", 5);
    ToPascalDigitThenLetter();
    LowerLeadingCapitalOfSnake2Camel();
    CamelFromPascal("snake2camel", "Snake2Camel", "snake2Camel");
  }

  lemma PascalCaseOfLeadingUnderscorePart3()
    ensures PascalCase("_" + ("snake" + "_" + ("to" + "_" + "camel"))) == "_" + ("Snake" + ("To" + "Camel"))
  {
    PascalCaseOfUnderscore();
    PascalCaseOfSnakeToCamelPart2();
    PascalSplit("_", ("snake" + "_" + ("to" + "_" + "camel")), "_", ("Snake" + ("To" + "Camel")));
  }

  lemma ToPascalLeadingUnderscore()
    ensures ToPascal("_snake_to_camel") == "_SnakeToCamel"
  {
    assert "_" + ("snake" + "_" + ("to" + "_" + "camel")) == "_snake_to_camel";
    assert "_" + ("Snake" + ("To" + "Camel")) == "_SnakeToCamel";
    PascalCaseOfLeadingUnderscorePart3();
    ToPascalIsPascalCase("_snake_to_camel");
  }

  lemma LowerLeadingCapitalOfLeadingUnderscore()
    ensures LowerLeadingCapital("_SnakeToCamel") == "_snakeToCamel"
  {
    assert "_" + ['S'] + "nakeToCamel" == "_SnakeToCamel";
    assert "_" + [LowerChar('S')] + "nakeToCamel" == "_snakeToCamel";
    LowerLeadingCapitalAfterUnderscores("_", 'S', "nakeToCamel");
  }

  lemma ToCamelLeadingUnderscore()
    ensures ToCamel("_snake_to_camel") == "_snakeToCamel"
  {
    UnderscoreIsNotCamel("_snake_to_camel", 0);
    ToPascalLeadingUnderscore();
    LowerLeadingCapitalOfLeadingUnderscore();
    CamelFromPascal("_snake_to_camel", "_SnakeToCamel", "_snakeToCamel");
  }

  lemma PascalCaseOfTrailingUnderscorePart3()
    ensures PascalCase("snake" + "_" + ("to" + "_" + "camel") + "_") == "Snake" + ("To" + "Camel") + "_"
  {
    PascalCaseOfSnakeToCamelPart2();
    PascalKeepsTrailing("snake" + "_" + ("to" + "_" + "camel"), "Snake" + ("To" + "Camel"));
  }

  lemma ToPascalTrailingUnderscore()
    ensures ToPascal("snake_to_camel_") == "SnakeToCamel_"
  {
    assert "snake" + "_" + ("to" + "_" + "camel") + "_" == "snake_to_camel_";
    assert "Snake" + ("To" + "Camel") + "_" == "SnakeToCamel_";
    PascalCaseOfTrailingUnderscorePart3();
    ToPascalIsPascalCase("snake_to_camel_");
  }

  lemma LowerLeadingCapitalOfTrailingUnderscore()
    ensures LowerLeadingCapital("SnakeToCamel_") == "snakeToCamel_"
  {
    assert ['S'] + "nakeToCamel_" == "SnakeToCamel_";
    assert [LowerChar('S')] + "nakeToCamel_" == "snakeToCamel_";
    LowerLeadingCapitalAfterUnderscores("", 'S', "nakeToCamel_");
  }

  lemma ToCamelTrailingUnderscore()
    ensures ToCamel("snake_to_camel_") == "snakeToCamel_"
  {
    UnderscoreIsNotCamel("snake_to_camel_", 5);
    ToPascalTrailingUnderscore();
    LowerLeadingCapitalOfTrailingUnderscore();
    CamelFromPascal("snake_to_camel_", "SnakeToCamel_", "snakeToCamel_");
  }

  lemma PascalCaseOfDoubleUnderscoresPart4()
    ensures PascalCase("snake" + "_" + ("to" + "_" + "camel") + "_" + "_") == "Snake" + ("To" + "Camel") + "_" + "_"
  {
    PascalCaseOfTrailingUnderscorePart3();
    PascalKeepsTrailing("snake" + "_" + ("to" + "_" + "camel") + "_", "Snake" + ("To" + "Camel") + "_");
  }

  lemma PascalCaseOfDoubleUnderscoresPart5()
    ensures PascalCase("__" + ("snake" + "_" + ("to" + "_" + "camel") + "_" + "_")) == "__" + ("Snake" + ("To" + "Camel") + "_" + "_")
  {
    PascalCaseOfUnderscoreUnderscore();
    PascalCaseOfDoubleUnderscoresPart4();
    PascalSplit("__", ("snake" + "_" + ("to" + "_" + "camel") + "_" + "_"), "__", ("Snake" + ("To" + "Camel") + "_" + "_"));
  }

  lemma ToPascalDoubleUnderscores()
    ensures ToPascal("__snake_to_camel__") == "__SnakeToCamel__"
  {
    assert "__" + ("snake" + "_" + ("to" + "_" + "camel") + "_" + "_") == "__snake_to_camel__";
    assert "__" + ("Snake" + ("To" + "Camel") + "_" + "_") == "__SnakeToCamel__";
    PascalCaseOfDoubleUnderscoresPart5();
    ToPascalIsPascalCase("__snake_to_camel__");
  }

  lemma LowerLeadingCapitalOfDoubleUnderscores()
    ensures LowerLeadingCapital("__SnakeToCamel__") == "__snakeToCamel__"
  {
    assert "__" + ['S'] + "nakeToCamel__" == "__SnakeToCamel__";
    assert "__" + [LowerChar('S')] + "nakeToCamel__" == "__snakeToCamel__";
    LowerLeadingCapitalAfterUnderscores("__", 'S', "nakeToCamel__");
  }

  lemma ToCamelDoubleUnderscores()
    ensures ToCamel("__snake_to_camel__") == "__snakeToCamel__"
  {
    UnderscoreIsNotCamel("__snake_to_camel__", 0);
    ToPascalDoubleUnderscores();
    LowerLeadingCapitalOfDoubleUnderscores();
    CamelFromPascal("__snake_to_camel__", "__SnakeToCamel__", "__snakeToCamel__");
  }

  lemma PascalCaseOfEndsInDigitPart1()
    ensures PascalCase("snake" + "_" + "2") == "Snake" + "2"
  {
    PascalCaseOfLowerSnake();
    PascalCaseOf2();
    PascalJoinAtUnderscore("snake", "2", "Snake", "2");
  }

  lemma ToPascalEndsInDigit()
    ensures ToPascal("snake_2") == "Snake2"
  {
    assert "snake" + "_" + "2" == "snake_2";
    assert "Snake" + "2" == "Snake2";
    PascalCaseOfEndsInDigitPart1();
    ToPascalIsPascalCase("snake_2");
  }

  lemma LowerLeadingCapitalOfEndsInDigit()
    ensures LowerLeadingCapital("Snake2") == "snake2"
  {
    assert ['S'] + "nake2" == "Snake2";
    assert [LowerChar('S')] + "nake2" == "snake2";
    LowerLeadingCapitalAfterUnderscores("", 'S', "nake2");
  }

  lemma ToCamelEndsInDigit()
    ensures ToCamel("snake_2") == "snake2"
  {
    UnderscoreIsNotCamel("snake_2", 5);
    ToPascalEndsInDigit();
    LowerLeadingCapitalOfEndsInDigit();
    CamelFromPascal("snake_2", "Snake2", "snake2");
  }

  lemma PascalCaseOfEndsInDigitLeadingPart2()
    ensures PascalCase("_" + ("snake" + "_" + "2")) == "_" + ("Snake" + "2")
  {
    PascalCaseOfUnderscore();
    PascalCaseOfEndsInDigitPart1();
    PascalSplit("_", ("snake" + "_" + "2"), "_", ("Snake" + "2"));
  }

  lemma ToPascalEndsInDigitLeading()
    ensures ToPascal("_snake_2") == "_Snake2"
  {
    assert "_" + ("snake" + "_" + "2") == "_snake_2";
    assert "_" + ("Snake" + "2") == "_Snake2";
    PascalCaseOfEndsInDigitLeadingPart2();
    ToPascalIsPascalCase("_snake_2");
  }

  lemma LowerLeadingCapitalOfEndsInDigitLeading()
    ensures LowerLeadingCapital("_Snake2") == "_snake2"
  {
    assert "_" + ['S'] + "nake2" == "_Snake2";
    assert "_" + [LowerChar('S')] + "nake2" == "_snake2";
    LowerLeadingCapitalAfterUnderscores("_", 'S', "nake2");
  }

  lemma ToCamelEndsInDigitLeading()
    ensures ToCamel("_snake_2") == "_snake2"
  {
    UnderscoreIsNotCamel("_snake_2", 0);
    ToPascalEndsInDigitLeading();
    LowerLeadingCapitalOfEndsInDigitLeading();
    CamelFromPascal("_snake_2", "_Snake2", "_snake2");
  }

  lemma PascalCaseOfEndsInDigitTrailingPart2()
    ensures PascalCase("snake" + "_" + "2" + "_") == "Snake" + "2" + "_"
  {
    PascalCaseOfEndsInDigitPart1();
    PascalKeepsTrailing("snake" + "_" + "2", "Snake" + "2");
  }

  lemma ToPascalEndsInDigitTrailing()
    ensures ToPascal("snake_2_") == "Snake2_"
  {
    assert "snake" + "_" + "2" + "_" == "snake_2_";
    assert "Snake" + "2" + "_" == "Snake2_";
    PascalCaseOfEndsInDigitTrailingPart2();
    ToPascalIsPascalCase("snake_2_");
  }

  lemma LowerLeadingCapitalOfEndsInDigitTrailing()
    ensures LowerLeadingCapital("Snake2_") == "snake2_"
  {
    assert ['S'] + "nake2_" == "Snake2_";
    assert [LowerChar('S')] + "nake2_" == "snake2_";
    LowerLeadingCapitalAfterUnderscores("", 'S', "nake2_");
  }

  lemma ToCamelEndsInDigitTrailing()
    ensures ToCamel("snake_2_") == "snake2_"
  {
    UnderscoreIsNotCamel("snake_2_", 5);
    ToPascalEndsInDigitTrailing();
    LowerLeadingCapitalOfEndsInDigitTrailing();
    CamelFromPascal("snake_2_", "Snake2_", "snake2_");
  }

  lemma PascalCaseOfManyWordsPart1()
    ensures PascalCase("like" + "_" + "turtles") == "Like" + "Turtles"
  {
    PascalCaseOfLowerLike();
    PascalCaseOfLowerTurtles();
    PascalJoinAtUnderscore("like", "turtles", "Like", "Turtles");
  }

  lemma PascalCaseOfManyWordsPart2()
    ensures PascalCase("i" + "_" + ("like" + "_" + "turtles")) == "I" + ("Like" + "Turtles")
  {
    PascalCaseOfLowerI();
    PascalCaseOfManyWordsPart1();
    PascalJoinAtUnderscore("i", ("like" + "_" + "turtles"), "I", ("Like" + "Turtles"));
  }

  lemma ToPascalManyWords()
    ensures ToPascal("i_like_turtles") == "ILikeTurtles"
  {
    assert "i" + "_" + ("like" + "_" + "turtles") == "i_like_turtles";
    assert "I" + ("Like" + "Turtles") == "ILikeTurtles";
    PascalCaseOfManyWordsPart2();
    ToPascalIsPascalCase("i_like_turtles");
  }

  lemma LowerLeadingCapitalOfManyWords()
    ensures LowerLeadingCapital("ILikeTurtles") == "iLikeTurtles"
  {
    assert ['I'] + "LikeTurtles" == "ILikeTurtles";
    assert [LowerChar('I')] + "LikeTurtles" == "iLikeTurtles";
    LowerLeadingCapitalAfterUnderscores("", 'I', "LikeTurtles");
  }

  lemma ToCamelManyWords()
    ensures ToCamel("i_like_turtles") == "iLikeTurtles"
  {
    UnderscoreIsNotCamel("i_like_turtles", 1);
    ToPascalManyWords();
    LowerLeadingCapitalOfManyWords();
    CamelFromPascal("i_like_turtles", "ILikeTurtles", "iLikeTurtles");
  }

}
