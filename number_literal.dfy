/** Unary plus applied to a string: ToNumber of ECMA-262 ("ToNumber Applied to the
    String Type"). The grammar StringNumericLiteral is stated declaratively as ghost
    predicates; StringToNumber scans a string the way an engine does; the two are
    proved to accept exactly the same strings. NaN is represented by None. */
module NumberLiteral {
  import opened JsValues
  import opened JsChars
  import opened Numerals

  // ---------------------------------------------------------------------------
  // The grammar
  // ---------------------------------------------------------------------------

  /** StrWhiteSpace: a possibly empty run of StrWhiteSpaceChar. */
  ghost predicate IsSpaces(w: string)
  {
    forall k :: 0 <= k < |w| ==> IsSpace(w[k])
  }

  predicate IsSign(c: char)
  {
    c == '+' || c == '-'
  }

  ghost predicate IsDecimalDigits(t: string)
  {
    |t| > 0 && AllDigits(t, 10)
  }

  ghost predicate IsSignedInteger(t: string)
  {
    IsDecimalDigits(t) || (|t| > 0 && IsSign(t[0]) && IsDecimalDigits(t[1..]))
  }

  /** ExponentPart: `e` or `E` followed by a SignedInteger. */
  ghost predicate IsExponentPart(t: string)
  {
    |t| > 0 && (t[0] == 'e' || t[0] == 'E') && IsSignedInteger(t[1..])
  }

  /** `DecimalDigits . DecimalDigits_opt` or `. DecimalDigits`, the dot at `p`. */
  ghost predicate IsDottedMantissa(t: string, p: int)
  {
    && 0 <= p < |t| && t[p] == '.'
    && AllDigits(t[..p], 10) && AllDigits(t[p + 1..], 10)
    && (p > 0 || p + 1 < |t|)
  }

  ghost predicate IsDecimalMantissa(t: string)
  {
    IsDecimalDigits(t) || exists p :: IsDottedMantissa(t, p)
  }

  /** StrUnsignedDecimalLiteral: `Infinity`, or a mantissa with an optional exponent. */
  ghost predicate IsStrUnsignedDecimalLiteral(t: string)
  {
    || t == "Infinity"
    || exists k :: 0 <= k <= |t| && IsDecimalMantissa(t[..k]) && (k == |t| || IsExponentPart(t[k..]))
  }

  ghost predicate IsStrDecimalLiteral(t: string)
  {
    || IsStrUnsignedDecimalLiteral(t)
    || (|t| > 0 && IsSign(t[0]) && IsStrUnsignedDecimalLiteral(t[1..]))
  }

  /** The radix a NonDecimalIntegerLiteral prefix letter selects, 0 for any other character. */
  function RadixOf(c: char): nat
  {
    if c == 'b' || c == 'B' then 2
    else if c == 'o' || c == 'O' then 8
    else if c == 'x' || c == 'X' then 16
    else 0
  }

  /** NonDecimalIntegerLiteral: `0b`, `0o` or `0x` (either case) and at least one digit. */
  ghost predicate IsNonDecimalIntegerLiteral(t: string)
  {
    |t| > 2 && t[0] == '0' && RadixOf(t[1]) > 0 && AllDigits(t[2..], RadixOf(t[1]))
  }

  ghost predicate IsStrNumericLiteral(t: string)
  {
    IsStrDecimalLiteral(t) || IsNonDecimalIntegerLiteral(t)
  }

  /** StringNumericLiteral: optional white space, or a literal with optional white
      space around it. */
  ghost predicate IsStringNumericLiteral(s: string)
  {
    exists i, j :: 0 <= i <= j <= |s| && IsSpaces(s[..i]) && IsSpaces(s[j..]) && (i == j || IsStrNumericLiteral(s[i..j]))
  }

  // ---------------------------------------------------------------------------
  // The scanner
  // ---------------------------------------------------------------------------

  function SkipSpaces(s: string, i: nat): (j: nat)
    requires i <= |s|
    ensures i <= j <= |s| && IsSpaces(s[i..j])
    ensures j == |s| || !IsSpace(s[j])
    decreases |s| - i
  {
    if i < |s| && IsSpace(s[i]) then SkipSpaces(s, i + 1) else i
  }

  function SkipSpacesBack(s: string, lo: nat, j: nat): (e: nat)
    requires lo <= j <= |s|
    ensures lo <= e <= j && IsSpaces(s[e..j])
    ensures e == lo || !IsSpace(s[e - 1])
    decreases j - lo
  {
    if lo < j && IsSpace(s[j - 1]) then
      var e := SkipSpacesBack(s, lo, j - 1);
      assert forall m :: e <= m < j - 1 ==> s[m] == s[e..j - 1][m - e];
      e
    else j
  }

  /** The bounds of the string once leading and trailing white space is stripped. */
  function TrimBounds(s: string): (b: (nat, nat))
    ensures b.0 <= b.1 <= |s|
    ensures IsSpaces(s[..b.0]) && IsSpaces(s[b.1..])
    ensures b.0 < b.1 ==> !IsSpace(s[b.0]) && !IsSpace(s[b.1 - 1])
  {
    var a := SkipSpaces(s, 0);
    assert s[..a] == s[0..a];
    var e := SkipSpacesBack(s, a, |s|);
    assert s[e..] == s[e..|s|];
    (a, e)
  }

  /** Where a decimal exponent starting at `b` ends the literal: Some(0) when there is
      none, Some(value) for a well-formed ExponentPart running to the end, else None. */
  function Exponent(u: string, b: nat): (r: Option<int>)
    requires b <= |u|
  {
    if b == |u| then Some(0)
    else if u[b] != 'e' && u[b] != 'E' then None
    else
      var c := if b + 1 < |u| && IsSign(u[b + 1]) then b + 2 else b + 1;
      if c < |u| && AllDigits(u[c..], 10) then
        var e: int := DigitsValue(u[c..], 10);
        Some(if u[b + 1] == '-' then -e else e)
      else None
  }

  /** The mantissa at the start of `u`: `a` ends the integer digits and `b` the whole
      mantissa; `a < b` exactly when a decimal point follows the integer digits. */
  function ScanMantissa(u: string): (r: (nat, nat))
    ensures r.0 <= r.1 <= |u|
    ensures AllDigits(u[..r.0], 10)
    ensures r.0 < r.1 ==> u[r.0] == '.' && AllDigits(u[r.0 + 1..r.1], 10)
    ensures r.0 == |u| || !IsDecimalDigit(u[r.0])
    ensures r.1 == |u| || !IsDecimalDigit(u[r.1])
    ensures r.0 == r.1 ==> r.1 == |u| || u[r.1] != '.'
  {
    var a := DigitRun(u, 0);
    assert u[..a] == u[0..a];
    if a < |u| && u[a] == '.' then (a, DigitRun(u, a + 1)) else (a, a)
  }

  /** StrUnsignedDecimalLiteral and its mathematical value. */
  function Unsigned(u: string): (r: Option<Number>)
  {
    if u == "Infinity" then Some(Infinity(false))
    else var (a, b) := ScanMantissa(u); Decimal(u, a, b)
  }

  /** The value of the decimal literal `u` whose mantissa has integer digits `u[..a]`
      and, when `a < b`, a decimal point at `a` and fraction digits `u[a + 1..b]`;
      None when the mantissa has no digit or what follows it is not an exponent. */
  function Decimal(u: string, a: nat, b: nat): (r: Option<Number>)
    requires a <= b <= |u| && AllDigits(u[..a], 10)
    requires a < b ==> AllDigits(u[a + 1..b], 10)
  {
    var digits := if a < b then u[..a] + u[a + 1..b] else u[..a];
    var scale := if a < b then b - a - 1 else 0;
    if |digits| == 0 then None
    else match Exponent(u, b)
      case None => None
      case Some(e) => Some(Finite(DigitsValue(digits, 10) as real * Pow10(e - scale)))
  }

  function Negate(n: Number): Number
  {
    match n
    case Finite(r) => Finite(-r)
    case Infinity(neg) => Infinity(!neg)
  }

  /** StrDecimalLiteral: an optional sign and an unsigned literal. */
  function StrDecimal(t: string): (r: Option<Number>)
  {
    if |t| > 0 && t[0] == '+' then Unsigned(t[1..])
    else if |t| > 0 && t[0] == '-' then
      match Unsigned(t[1..])
      case None => None
      case Some(n) => Some(Negate(n))
    else Unsigned(t)
  }

  /** NonDecimalIntegerLiteral and its value. */
  function NonDecimal(t: string): (r: Option<Number>)
    requires |t| >= 2 && RadixOf(t[1]) > 0
  {
    if |t| > 2 && AllDigits(t[2..], RadixOf(t[1])) then
      Some(Finite(DigitsValue(t[2..], RadixOf(t[1])) as real))
    else None
  }

  /** `+value` for a string `value`: None when the result is NaN. A string of white
      space only is 0. */
  function StringToNumber(s: string): (r: Option<Number>)
  {
    var (a, b) := TrimBounds(s);
    var t := s[a..b];
    if t == [] then Some(Finite(0.0))
    else if |t| >= 2 && t[0] == '0' && RadixOf(t[1]) > 0 then NonDecimal(t)
    else StrDecimal(t)
  }

  // ---------------------------------------------------------------------------
  // The scanner accepts exactly the grammar
  // ---------------------------------------------------------------------------

  /** White space around a literal that starts and ends with non-space characters is
      exactly what is trimmed. */
  lemma TrimExact(s: string, i: nat, j: nat)
    requires i < j <= |s|
    requires IsSpaces(s[..i]) && IsSpaces(s[j..])
    requires !IsSpace(s[i]) && !IsSpace(s[j - 1])
    ensures TrimBounds(s) == (i, j)
  {
    var a := SkipSpaces(s, 0);
    assert forall m :: 0 <= m < i ==> s[m] == s[..i][m];
    assert forall m :: 0 <= m < a ==> s[m] == s[0..a][m];
    assert a == i;
    var e := SkipSpacesBack(s, a, |s|);
    assert forall m :: j <= m < |s| ==> s[m] == s[j..][m - j];
    assert forall m :: e <= m < |s| ==> s[m] == s[e..|s|][m - e];
    assert e == j;
  }

  lemma TrimAllSpaces(s: string)
    requires IsSpaces(s)
    ensures TrimBounds(s).0 == TrimBounds(s).1
  {
  }

  lemma MantissaEdges(m: string)
    requires IsDecimalMantissa(m)
    ensures |m| > 0
    ensures IsDecimalDigit(m[0]) || m[0] == '.'
    ensures IsDecimalDigit(m[|m| - 1]) || m[|m| - 1] == '.'
  {
    if !IsDecimalDigits(m) {
      var p :| IsDottedMantissa(m, p);
      assert p > 0 ==> m[0] == m[..p][0];
      assert p + 1 < |m| ==> m[|m| - 1] == m[p + 1..][|m| - p - 2];
    }
  }

  lemma UnsignedEdges(u: string)
    requires IsStrUnsignedDecimalLiteral(u)
    ensures |u| > 0
    ensures IsDecimalDigit(u[0]) || u[0] == '.' || u[0] == 'I'
    ensures IsDecimalDigit(u[|u| - 1]) || u[|u| - 1] == '.' || u[|u| - 1] == 'y'
  {
    if u != "Infinity" {
      var k :| 0 <= k <= |u| && IsDecimalMantissa(u[..k]) && (k == |u| || IsExponentPart(u[k..]));
      MantissaEdges(u[..k]);
      assert u[0] == u[..k][0];
      if k < |u| {
        var x := u[k..];
        assert x[1..][|x| - 2] == u[|u| - 1];
        if IsSign(x[1]) {
          assert x[1..][1..][|x| - 3] == u[|u| - 1];
        }
      } else {
        assert u[..k][k - 1] == u[|u| - 1];
      }
    }
  }

  /** A numeric literal neither starts nor ends with white space. */
  lemma LiteralEdges(t: string)
    requires IsStrNumericLiteral(t)
    ensures |t| > 0 && !IsSpace(t[0]) && !IsSpace(t[|t| - 1])
  {
    if IsStrUnsignedDecimalLiteral(t) {
      UnsignedEdges(t);
    } else if |t| > 0 && IsSign(t[0]) && IsStrUnsignedDecimalLiteral(t[1..]) {
      UnsignedEdges(t[1..]);
      assert t[1..][|t| - 2] == t[|t| - 1];
    } else {
      assert IsNonDecimalIntegerLiteral(t);
      assert t[2..][|t| - 3] == t[|t| - 1];
    }
  }

  lemma ExponentMatchesGrammar(u: string, b: nat)
    requires b <= |u|
    ensures Exponent(u, b).Some? <==> (b == |u| || IsExponentPart(u[b..]))
  {
    if b < |u| && (u[b] == 'e' || u[b] == 'E') {
      var x := u[b..];
      assert x[1..] == u[b + 1..];
      if b + 1 < |u| {
        assert x[1..][0] == u[b + 1];
        assert x[1..][1..] == u[b + 2..];
      }
    }
  }

  /** A mantissa the scanner finds, with at least one digit, is one of the grammar. */
  lemma ScanMantissaSound(u: string)
    requires ScanMantissa(u).0 > 0 || ScanMantissa(u).1 > ScanMantissa(u).0 + 1
    ensures IsDecimalMantissa(u[..ScanMantissa(u).1])
  {
    var (a, b) := ScanMantissa(u);
    var m := u[..b];
    assert m[..a] == u[..a];
    if a < b {
      assert m[a + 1..] == u[a + 1..b];
      assert IsDottedMantissa(m, a);
    } else {
      assert m == u[..a];
    }
  }

  /** A mantissa of the grammar that is followed by the end or an exponent is the one
      the scanner finds. */
  lemma ScanMantissaComplete(u: string, k: nat)
    requires k <= |u| && IsDecimalMantissa(u[..k])
    requires k == |u| || u[k] == 'e' || u[k] == 'E'
    ensures ScanMantissa(u).1 == k
    ensures ScanMantissa(u).0 > 0 || ScanMantissa(u).1 > ScanMantissa(u).0 + 1
  {
    var m := u[..k];
    if IsDecimalDigits(m) {
      assert forall j :: 0 <= j < k ==> u[j] == m[j];
      assert u[0..k] == m;
      DigitRunAt(u, 0, k);
    } else {
      var p :| IsDottedMantissa(m, p);
      assert forall j :: 0 <= j < p ==> u[j] == m[..p][j];
      assert u[0..p] == m[..p];
      assert m[p] == u[p];
      DigitRunAt(u, 0, p);
      assert forall j :: p + 1 <= j < k ==> u[j] == m[p + 1..][j - p - 1];
      assert u[p + 1..k] == m[p + 1..];
      DigitRunAt(u, p + 1, k);
    }
  }

  /** The scanner and the grammar agree on unsigned decimal literals. */
  lemma UnsignedMatchesGrammar(u: string)
    ensures Unsigned(u).Some? <==> IsStrUnsignedDecimalLiteral(u)
  {
    if u != "Infinity" {
      var (a, b) := ScanMantissa(u);
      ExponentMatchesGrammar(u, b);
      if Unsigned(u).Some? {
        ScanMantissaSound(u);
      }
      if IsStrUnsignedDecimalLiteral(u) {
        var k :| 0 <= k <= |u| && IsDecimalMantissa(u[..k]) && (k == |u| || IsExponentPart(u[k..]));
        assert k < |u| ==> u[k] == u[k..][0];
        ScanMantissaComplete(u, k);
      }
    }
  }

  lemma UnsignedFirst(u: string)
    requires IsStrUnsignedDecimalLiteral(u)
    ensures |u| > 0 && !IsSign(u[0])
  {
    UnsignedEdges(u);
  }

  lemma StrDecimalMatchesGrammar(t: string)
    ensures StrDecimal(t).Some? <==> IsStrDecimalLiteral(t)
  {
    if |t| > 0 && IsSign(t[0]) {
      UnsignedMatchesGrammar(t[1..]);
      if IsStrUnsignedDecimalLiteral(t) {
        UnsignedFirst(t);
      }
    } else {
      UnsignedMatchesGrammar(t);
    }
  }

  /** `0x`, `0o` and `0b` never start a decimal literal. */
  lemma RadixPrefixNotDecimal(t: string)
    requires |t| >= 2 && t[0] == '0' && RadixOf(t[1]) > 0
    ensures !IsStrDecimalLiteral(t)
  {
    forall k | 0 <= k <= |t|
      ensures !(IsDecimalMantissa(t[..k]) && (k == |t| || IsExponentPart(t[k..])))
    {
      if k >= 2 {
        var m := t[..k];
        assert m[1] == t[1];
        forall p | 0 <= p < k
          ensures !IsDottedMantissa(m, p)
        {
          if p >= 2 {
            assert m[..p][1] == t[1];
          } else if p == 0 {
            assert m[p] == '0';
          }
        }
      } else if k == 1 {
        assert t[1..][0] == t[1];
      }
    }
  }

  /** What the scanner accepts is a StringNumericLiteral. */
  lemma StringToNumberSound(s: string)
    requires StringToNumber(s).Some?
    ensures IsStringNumericLiteral(s)
  {
    var (a, b) := TrimBounds(s);
    var t := s[a..b];
    if a < b {
      if !(|t| >= 2 && t[0] == '0' && RadixOf(t[1]) > 0) {
        StrDecimalMatchesGrammar(t);
      }
      assert IsStrNumericLiteral(s[a..b]);
    }
    assert 0 <= a <= b <= |s| && IsSpaces(s[..a]) && IsSpaces(s[b..]) && (a == b || IsStrNumericLiteral(s[a..b]));
  }

  /** White space up to a position and white space after it make white space. */
  lemma SpacesAround(s: string, i: nat)
    requires i <= |s| && IsSpaces(s[..i]) && IsSpaces(s[i..])
    ensures IsSpaces(s)
  {
    forall m | 0 <= m < |s|
      ensures IsSpace(s[m])
    {
      if m < i {
        assert s[m] == s[..i][m];
      } else {
        assert s[m] == s[i..][m - i];
      }
    }
  }

  /** Every StringNumericLiteral is accepted by the scanner. */
  lemma StringToNumberComplete(s: string)
    requires IsStringNumericLiteral(s)
    ensures StringToNumber(s).Some?
  {
    forall i, j | 0 <= i <= j <= |s| && IsSpaces(s[..i]) && IsSpaces(s[j..]) && (i == j || IsStrNumericLiteral(s[i..j]))
      ensures StringToNumber(s).Some?
    {
      SpacesOrLiteral(s, i, j);
    }
  }

  /** Spaces, or a literal between spaces, convert. */
  lemma SpacesOrLiteral(s: string, i: nat, j: nat)
    requires i <= j <= |s| && IsSpaces(s[..i]) && IsSpaces(s[j..]) && (i == j || IsStrNumericLiteral(s[i..j]))
    ensures StringToNumber(s).Some?
  {
    if i == j {
      OnlySpaces(s, i);
    } else {
      LiteralBetweenSpaces(s, i, j);
    }
  }

  /** A string of spaces converts (to zero). */
  lemma OnlySpaces(s: string, i: nat)
    requires i <= |s| && IsSpaces(s[..i]) && IsSpaces(s[i..])
    ensures StringToNumber(s).Some?
  {
    SpacesAround(s, i);
    TrimAllSpaces(s);
  }

  /** A literal with only spaces around it converts. */
  lemma LiteralBetweenSpaces(s: string, i: nat, j: nat)
    requires i < j <= |s| && IsSpaces(s[..i]) && IsSpaces(s[j..]) && IsStrNumericLiteral(s[i..j])
    ensures StringToNumber(s).Some?
  {
    var t := s[i..j];
    LiteralEdges(t);
    assert t[0] == s[i] && t[j - i - 1] == s[j - 1];
    TrimExact(s, i, j);
    if |t| >= 2 && t[0] == '0' && RadixOf(t[1]) > 0 {
      RadixPrefixNotDecimal(t);
    } else {
      StrDecimalMatchesGrammar(t);
    }
  }

  /** Unary plus yields a number (not NaN) exactly for the strings of the
      StringNumericLiteral grammar. */
  lemma StringToNumberMatchesGrammar(s: string)
    ensures StringToNumber(s).Some? <==> IsStringNumericLiteral(s)
  {
    if StringToNumber(s).Some? {
      StringToNumberSound(s);
    }
    if IsStringNumericLiteral(s) {
      StringToNumberComplete(s);
    }
  }

  // ---------------------------------------------------------------------------
  // Values
  // ---------------------------------------------------------------------------

  lemma ScanDigits(d: string)
    requires AllDigits(d, 10)
    ensures ScanMantissa(d) == (|d|, |d|)
  {
    assert d[0..|d|] == d;
    DigitRunAt(d, 0, |d|);
  }

  lemma DecimalOfDigits(d: string)
    requires |d| > 0 && AllDigits(d, 10)
    ensures Decimal(d, |d|, |d|) == Some(Finite(DigitsValue(d, 10) as real))
  {
    assert d[..|d|] == d;
    assert Exponent(d, |d|) == Some(0);
    assert Pow10(0) == 1.0;
  }

  /** A run of decimal digits reads as the integer it spells. */
  lemma UnsignedOfDigits(d: string)
    requires |d| > 0 && AllDigits(d, 10)
    ensures Unsigned(d) == Some(Finite(DigitsValue(d, 10) as real))
  {
    assert d != "Infinity" by {
      assert IsDigitOf(d[0], 10) && !IsDigitOf('I', 10);
    }
    ScanDigits(d);
    DecimalOfDigits(d);
  }

  /** A string that starts with a character no literal and no white space can start
      with coerces to NaN. */
  lemma StringToNumberRejects(s: string)
    requires |s| > 0 && !IsSpace(s[0])
    requires !IsDecimalDigit(s[0]) && !IsSign(s[0]) && s[0] != '.' && s[0] != 'I'
    ensures StringToNumber(s).None?
  {
    var (a, b) := TrimBounds(s);
    assert a == 0;
    assert s[a..b][0] == s[0];
  }

  /** A string with no white space at either end and no radix prefix is read as a
      decimal literal. */
  lemma TrimmedDecimal(t: string)
    requires |t| > 0 && !IsSpace(t[0]) && !IsSpace(t[|t| - 1])
    requires !(|t| >= 2 && t[0] == '0' && RadixOf(t[1]) > 0)
    ensures StringToNumber(t) == StrDecimal(t)
  {
    TrimExact(t, 0, |t|);
    assert t[0..|t|] == t;
  }

  /** A sign in front of digits negates them or leaves them as they are. */
  lemma StrDecimalSigned(d: string, v: Number)
    requires |d| > 0 && IsDecimalDigit(d[0]) && Unsigned(d) == Some(v)
    ensures StrDecimal(d) == Some(v)
    ensures StrDecimal("-" + d) == Some(Negate(v))
  {
    assert ("-" + d)[1..] == d;
  }

  /** The decimal rendering of an integer reads as a decimal literal of that integer. */
  lemma StrDecimalOfInt(n: int)
    ensures StrDecimal(IntToString(n)) == Some(Finite(n as real))
  {
    var m: nat := if n < 0 then -n else n;
    var d := NatToString(m);
    UnsignedOfDigits(d);
    NatToStringValue(m);
    StrDecimalSigned(d, Finite(m as real));
  }

  /** The decimal rendering of an integer coerces back to that integer. */
  lemma StringToNumberOfInt(n: int)
    ensures StringToNumber(IntToString(n)) == Some(Finite(n as real))
  {
    var s := IntToString(n);
    var d := NatToString(if n < 0 then -n else n);
    assert IsDigitOf(d[0], 10) && IsDigitOf(d[|d| - 1], 10);
    assert s[|s| - 1] == d[|d| - 1];
    TrimmedDecimal(s);
    StrDecimalOfInt(n);
  }

  lemma StringToNumberExample12()
    ensures StringToNumber("12") == Some(Finite(12.0))
  {
    assert IntToString(12) == "12";
    StringToNumberOfInt(12);
  }

  lemma StringToNumberExampleZero()
    ensures StringToNumber("0") == Some(Finite(0.0))
  {
    assert IntToString(0) == "0";
    StringToNumberOfInt(0);
  }

  lemma StringToNumberExampleOne()
    ensures StringToNumber("1") == Some(Finite(1.0))
  {
    assert IntToString(1) == "1";
    StringToNumberOfInt(1);
  }

  lemma StringToNumberExampleMinusOne()
    ensures StringToNumber("-1") == Some(Finite(-1.0))
  {
    assert IntToString(-1) == "-1";
    StringToNumberOfInt(-1);
  }

  lemma StringToNumberExampleMinusHundred()
    ensures StringToNumber("-100") == Some(Finite(-100.0))
  {
    assert IntToString(-100) == "-100";
    StringToNumberOfInt(-100);
  }

  lemma QuarterDecimal()
    ensures Decimal("0.25", 1, 4) == Some(Finite(0.25))
  {
    var q := "0.25";
    assert q[..1] + q[2..4] == "025";
    assert "025"[..2] == "02" && "02"[..1] == "0" && "0"[..0] == "";
    assert DigitsValue("025", 10) == 25;
    assert Exponent(q, 4) == Some(0);
    assert Pow10(-2) == 0.01;
  }

  /** Fractions with a leading or trailing point are numbers: "0.25" is 0.25. */
  lemma StringToNumberExampleQuarter()
    ensures StringToNumber("0.25") == Some(Finite(0.25))
  {
    var q := "0.25";
    TrimmedDecimal(q);
    DigitRunAt(q, 0, 1);
    DigitRunAt(q, 2, 4);
    assert ScanMantissa(q) == (1, 4);
    QuarterDecimal();
  }

  lemma TrailingPointDecimal()
    ensures Decimal("100.", 3, 4) == Some(Finite(100.0))
  {
    var h := "100.";
    assert h[..3] + h[4..4] == "100";
    assert "100"[..2] == "10" && "10"[..1] == "1" && "1"[..0] == "";
    assert DigitsValue("100", 10) == 100;
    assert Exponent(h, 4) == Some(0);
    assert Pow10(0) == 1.0;
  }

  /** "100." is 100. */
  lemma StringToNumberExampleTrailingPoint()
    ensures StringToNumber("100.") == Some(Finite(100.0))
  {
    var h := "100.";
    TrimmedDecimal(h);
    DigitRunAt(h, 0, 3);
    DigitRunAt(h, 4, 4);
    assert ScanMantissa(h) == (3, 4);
    TrailingPointDecimal();
  }

  lemma LeadingPointDecimal()
    ensures Decimal(".1", 0, 2) == Some(Finite(0.1))
  {
    var p := ".1";
    assert p[..0] + p[1..2] == "1";
    assert "1"[..0] == "";
    assert DigitsValue("1", 10) == 1;
    assert Exponent(p, 2) == Some(0);
    assert Pow10(-1) == 0.1;
  }

  /** ".1" is 0.1. */
  lemma StringToNumberExampleLeadingPoint()
    ensures StringToNumber(".1") == Some(Finite(0.1))
  {
    var p := ".1";
    TrimmedDecimal(p);
    DigitRunAt(p, 0, 0);
    DigitRunAt(p, 1, 2);
    assert ScanMantissa(p) == (0, 2);
    LeadingPointDecimal();
  }

  /** Malformed decimal points and `NaN` itself coerce to NaN. */
  lemma StringToNumberNaNExamples()
    ensures StringToNumber("100..").None?
    ensures StringToNumber("..123").None?
    ensures StringToNumber("NaN").None?
  {
    TwoPointsRejected();
    LeadingPointsRejected();
    StringToNumberRejects("NaN");
  }

  lemma TwoPointsRejected()
    ensures StringToNumber("100..").None?
  {
    var a := "100..";
    TrimmedDecimal(a);
    DigitRunAt(a, 0, 3);
    DigitRunAt(a, 4, 4);
    assert ScanMantissa(a) == (3, 4);
  }

  lemma LeadingPointsRejected()
    ensures StringToNumber("..123").None?
  {
    var b := "..123";
    TrimmedDecimal(b);
    DigitRunAt(b, 0, 0);
    DigitRunAt(b, 1, 1);
    assert ScanMantissa(b) == (0, 1);
  }
}
