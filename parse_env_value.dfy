/** parseEnvValue: the classifier that turns the raw text of an environment variable
    into the value deepenv stores. The guards are tried in a fixed order and the
    first that applies decides the result. */
module EnvValue {
  import opened JsValues
  import opened JsChars
  import opened Numerals
  import opened NumberLiteral
  import opened Json
  import opened JsonNumbers
  import opened JsonStringify
  import opened JsonRoundTrip

  /** `/^\s.*$/.test(value)`: the first character is white space or a line terminator,
      and no line terminator follows it (`.` stops at one and `$` has no `m` flag). */
  predicate MatchesLeadingSpaceLine(value: string)
  {
    |value| > 0 && IsSpace(value[0]) && forall k :: 1 <= k < |value| ==> !IsLineTerminator(value[k])
  }

  /** The texts the second guard hands back unchanged. */
  predicate IsVerbatim(value: string)
  {
    value == "null" || value == "undefined" || MatchesLeadingSpaceLine(value)
  }

  /** `/^word$/i.test(value)` for a lower-case ASCII word. Without the `u` flag the
      regular expression compares characters after toUpperCase, but never lets a
      non-ASCII character match an ASCII one, so only the letters A to Z fold. */
  predicate MatchesIgnoringCase(value: string, word: string)
  {
    ToLower(value) == word
  }

  /** parseEnvValue(value). */
  function ParseEnvValue(value: string): (r: Value)
    ensures r.Undefined? <==> value == ""
  {
    if value == "" then Undefined
    else if IsVerbatim(value) then Str(value)
    else match StringToNumber(value)
      case Some(n) => Num(n)
      case None =>
        if MatchesIgnoringCase(value, "true") then Bool(true)
        else if MatchesIgnoringCase(value, "false") then Bool(false)
        else match Parse(value)
          case Some(v) => v
          case None => Str(value)
  }

  // ---------------------------------------------------------------------------
  // The guards
  // ---------------------------------------------------------------------------

  /** The blank string is the only one that becomes undefined, although unary plus
      would read it as 0. */
  lemma BlankIsUndefined()
    ensures ParseEnvValue("") == Undefined
    ensures StringToNumber("") == Some(Finite(0.0))
  {
    TrimAllSpaces("");
  }

  /** 'null', 'undefined' and text that starts with white space and stays on one line
      come back as the same string. */
  lemma VerbatimKept(value: string)
    requires IsVerbatim(value)
    ensures ParseEnvValue(value) == Str(value)
  {
  }

  lemma VerbatimExamples()
    ensures ParseEnvValue("null") == Str("null")
    ensures ParseEnvValue("undefined") == Str("undefined")
    ensures ParseEnvValue("   ") == Str("   ")
    ensures ParseEnvValue("\t x") == Str("\t x")
  {
    assert MatchesLeadingSpaceLine("   ");
    assert MatchesLeadingSpaceLine("\t x");
  }

  /** A line terminator after the first character defeats the verbatim guard: " \n"
      is white space only, and unary plus reads it as 0. */
  lemma SpaceThenNewlineIsZero()
    ensures !IsVerbatim(" \n")
    ensures ParseEnvValue(" \n") == Num(Finite(0.0))
  {
    assert IsLineTerminator(" \n"[1]);
    TrimAllSpaces(" \n");
  }

  /** The result is a number exactly when no earlier guard applies and the text is a
      StringNumericLiteral, and then it is the number unary plus gives. JSON.parse
      cannot add numbers of its own: every JSON number is such a literal. */
  lemma NumberExactlyWhenNumeric(value: string)
    ensures ParseEnvValue(value).Num? <==>
      value != "" && !IsVerbatim(value) && IsStringNumericLiteral(value)
    ensures ParseEnvValue(value).Num? ==> StringToNumber(value) == Some(ParseEnvValue(value).n)
  {
    StringToNumberMatchesGrammar(value);
    if value != "" && !IsVerbatim(value) && StringToNumber(value).None?
       && !MatchesIgnoringCase(value, "true") && !MatchesIgnoringCase(value, "false")
       && Parse(value).Some? && Parse(value).value.Num? {
      JsonNumberIsNumeric(value);
    }
  }

  /** The first character of a text that folds to a lower-case ASCII word folds to the
      word's first letter. */
  lemma FoldedFirst(value: string, word: string)
    requires MatchesIgnoringCase(value, word) && |word| > 0
    ensures |value| > 0 && LowerChar(value[0]) == word[0]
  {
  }

  /** 'true' and 'false' in any letter case give the boolean, ahead of JSON.parse. */
  lemma BooleanIgnoringCase(value: string)
    requires MatchesIgnoringCase(value, "true") || MatchesIgnoringCase(value, "false")
    ensures ParseEnvValue(value) == Bool(MatchesIgnoringCase(value, "true"))
  {
    var word := if MatchesIgnoringCase(value, "true") then "true" else "false";
    FoldedFirst(value, word);
    assert value[0] in "tTfF";
    assert value != "null" && value != "undefined";
    StringToNumberRejects(value);
  }

  lemma TrueExamples()
    ensures ParseEnvValue("true") == Bool(true)
    ensures ParseEnvValue("TRUE") == Bool(true)
    ensures ParseEnvValue("True") == Bool(true)
  {
    assert ToLower("true") == "true";
    BooleanIgnoringCase("true");
    assert ToLower("TRUE") == "true";
    BooleanIgnoringCase("TRUE");
    assert ToLower("True") == "true";
    BooleanIgnoringCase("True");
  }

  lemma FalseExamples()
    ensures ParseEnvValue("false") == Bool(false)
    ensures ParseEnvValue("FALSE") == Bool(false)
    ensures ParseEnvValue("False") == Bool(false)
  {
    assert ToLower("false") == "false";
    BooleanIgnoringCase("false");
    assert ToLower("FALSE") == "false";
    BooleanIgnoringCase("FALSE");
    assert ToLower("False") == "false";
    BooleanIgnoringCase("False");
  }

  /** A text unary plus reads as a number, and that no earlier guard keeps, gives
      that number. */
  lemma NumericText(value: string, n: Number)
    requires value != "" && !IsVerbatim(value) && StringToNumber(value) == Some(n)
    ensures ParseEnvValue(value) == Num(n)
  {
  }

  /** The decimal text of any integer gives that integer. */
  lemma IntegerText(i: int)
    ensures ParseEnvValue(IntToString(i)) == Num(Finite(i as real))
  {
    var t := IntToString(i);
    StringToNumberOfInt(i);
    assert t[0] == '-' || IsDecimalDigit(t[0]) by {
      assert t[0] == if i < 0 then '-' else NatToString(i)[0];
    }
    assert !IsVerbatim(t) by {
      assert t[0] != "null"[0] && t[0] != "undefined"[0] && !IsSpace(t[0]);
    }
    NumericText(t, Finite(i as real));
  }

  lemma TwelveExample()
    ensures ParseEnvValue("12") == Num(Finite(12.0))
  {
    assert IntToString(12) == "12";
    IntegerText(12);
  }

  lemma FourExample()
    ensures ParseEnvValue("4") == Num(Finite(4.0))
  {
    assert IntToString(4) == "4";
    IntegerText(4);
  }

  /** Numbers are tried before booleans, so '0' and '1' stay numbers. */
  lemma ZeroAndOneExamples()
    ensures ParseEnvValue("0") == Num(Finite(0.0))
    ensures ParseEnvValue("1") == Num(Finite(1.0))
  {
    assert IntToString(0) == "0";
    IntegerText(0);
    assert IntToString(1) == "1";
    IntegerText(1);
  }

  lemma MinusOneExample()
    ensures ParseEnvValue("-1") == Num(Finite(-1.0))
  {
    assert IntToString(-1) == "-1";
    IntegerText(-1);
  }

  lemma MinusHundredExample()
    ensures ParseEnvValue("-100") == Num(Finite(-100.0))
  {
    assert IntToString(-100) == "-100";
    IntegerText(-100);
  }

  /** Text that unary plus rejects and that is no boolean goes to JSON.parse: its value
      when the text is JSON, the text itself when JSON.parse throws. */
  lemma JsonOrText(value: string)
    requires |value| > 0 && (value[0] == '{' || value[0] == '[' || value[0] == '"')
    ensures Parse(value).Some? ==> ParseEnvValue(value) == Parse(value).value
    ensures Parse(value).None? ==> ParseEnvValue(value) == Str(value)
  {
    assert !IsVerbatim(value);
    StringToNumberRejects(value);
    if MatchesIgnoringCase(value, "true") {
      FoldedFirst(value, "true");
    } else if MatchesIgnoringCase(value, "false") {
      FoldedFirst(value, "false");
    }
  }

  /** Object or array text without its closing bracket is not JSON, so it stays text. */
  lemma UnclosedStaysText(value: string)
    requires |value| > 0 && (value[0] == '{' || value[0] == '[')
    requires value[|value| - 1] != (if value[0] == '{' then '}' else ']') && !IsJsonSpace(value[|value| - 1])
    ensures ParseEnvValue(value) == Str(value)
  {
    UnclosedRejected(value);
    JsonOrText(value);
  }

  /** The object text of the tests with its final brace missing stays text (written
      as its opening brace and the rest). */
  lemma MalformedJsonExample()
    ensures var t := "{" + "\"levelOne\":{\"levelTwo\":{\"levelThree\":{}}},\"num\":0,\"txt\":\"txt\",\"boolTrue\":true,\"boolFalse\":false";
      ParseEnvValue(t) == Str(t)
  {
    var t := "{" + "\"levelOne\":{\"levelTwo\":{\"levelThree\":{}}},\"num\":0,\"txt\":\"txt\",\"boolTrue\":true,\"boolFalse\":false";
    assert |t| == 96 && t[0] == '{' && t[95] == 'e';
    UnclosedStaysText(t);
  }

  /** Text whose first character no guard and no JSON value can start with stays
      text. */
  lemma PlainText(value: string)
    requires |value| > 0 && !IsSpace(value[0]) && !IsDecimalDigit(value[0]) && !IsSign(value[0])
    requires value[0] !in ".I{[\"tTfFnu"
    ensures ParseEnvValue(value) == Str(value)
  {
    StringToNumberRejects(value);
    if MatchesIgnoringCase(value, "true") {
      FoldedFirst(value, "true");
    } else if MatchesIgnoringCase(value, "false") {
      FoldedFirst(value, "false");
    }
    assert SkipWs(value, 0) == 0;
    assert !StartsAt(value, 0, "true") && !StartsAt(value, 0, "false") && !StartsAt(value, 0, "null");
  }

  /** NaN is not a number here: 'NaN' falls through every guard and stays text. */
  lemma NaNStaysText()
    ensures ParseEnvValue("NaN") == Str("NaN")
  {
    StringToNumberRejects("NaN");
    assert LowerChar('N') == 'n';
    assert ToLower("NaN")[0] == 'n';
    assert !StartsAt("NaN", 0, "true") && !StartsAt("NaN", 0, "false") && !StartsAt("NaN", 0, "null");
  }

  // ---------------------------------------------------------------------------
  // Values written by JSON.stringify
  // ---------------------------------------------------------------------------

  /** The text of a JSON-safe integer comes back as that number. */
  lemma IntegerTextParsed(v: Value)
    requires IsJsonSafe(v) && v.Num?
    ensures ParseEnvValue(Stringify(v)) == v
  {
    var i := v.n.mv.Floor;
    assert Stringify(v) == IntToString(i);
    assert v == Num(Finite(i as real));
    IntegerText(i);
  }

  /** The text of a JSON string, array or object comes back as that value. */
  lemma CompositeTextParsed(v: Value)
    requires IsJsonSafe(v) && (v.Str? || v.Arr? || v.Obj?)
    ensures ParseEnvValue(Stringify(v)) == v
  {
    var t := Stringify(v);
    assert t[0] == '"' || t[0] == '[' || t[0] == '{';
    ParseOfStringify(v);
    JsonOrText(t);
  }

  /** A value JSON.stringify writes comes back from parseEnvValue unchanged, except
      null, whose text 'null' the verbatim guard keeps as a string. */
  lemma ParseEnvValueOfStringify(v: Value)
    requires IsJsonSafe(v)
    ensures ParseEnvValue(Stringify(v)) == if v == Null then Str("null") else v
  {
    match v
    case Null =>
    case Bool(b) =>
      assert ToLower("true") == "true";
      assert ToLower("false") == "false";
      BooleanIgnoringCase(Stringify(v));
    case Num(_) => IntegerTextParsed(v);
    case Str(_) => CompositeTextParsed(v);
    case Arr(_) => CompositeTextParsed(v);
    case Obj(_) => CompositeTextParsed(v);
  }
}
