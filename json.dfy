/** JSON.parse, as a recursive-descent parser for the JSON text grammar of RFC 8259.
    Parse yields None exactly where JSON.parse throws a SyntaxError. */
module Json {
  import opened JsValues
  import opened JsChars
  import opened Numerals

  /** The four white-space characters JSON allows between tokens. */
  predicate IsJsonSpace(c: char)
  {
    c == ' ' || c == '\t' || c == '\n' || c == '\r'
  }

  function SkipWs(s: string, i: nat): (j: nat)
    requires i <= |s|
    ensures i <= j <= |s|
    ensures j == |s| || !IsJsonSpace(s[j])
    decreases |s| - i
  {
    if i < |s| && IsJsonSpace(s[i]) then SkipWs(s, i + 1) else i
  }

  /** Everything SkipWs passes over is white space. */
  lemma {:induction false} SkipWsSpaces(s: string, i: nat)
    requires i <= |s|
    ensures forall k :: i <= k < SkipWs(s, i) ==> IsJsonSpace(s[k])
    decreases |s| - i
  {
    if i < |s| && IsJsonSpace(s[i]) {
      SkipWsSpaces(s, i + 1);
    }
  }

  /** The literal `w` stands in `s` at `i`. */
  predicate StartsAt(s: string, i: nat, w: string)
  {
    i + |w| <= |s| && s[i..i + |w|] == w
  }

  /** JSON.parse: one value with optional white space around it, and nothing else. */
  function Parse(s: string): (r: Option<Value>)
  {
    var i := SkipWs(s, 0);
    match ParseValue(s, i)
    case None => None
    case Some((v, j)) => if SkipWs(s, j) == |s| then Some(v) else None
  }

  /** The value that starts at `i`, and where it ends. */
  function ParseValue(s: string, i: nat): (r: Option<(Value, nat)>)
    requires i <= |s|
    ensures r.Some? ==> i < r.value.1 <= |s|
    ensures r.Some? ==> !r.value.0.Undefined?
    decreases |s| - i, 0
  {
    if i == |s| then None
    else if s[i] == '{' then ParseObject(s, i + 1)
    else if s[i] == '[' then ParseArray(s, i + 1)
    else if s[i] == '"' then
      match ParseString(s, i + 1, "")
      case None => None
      case Some((t, j)) => Some((Str(t), j))
    else if s[i] == '-' || IsDecimalDigit(s[i]) then ParseNumber(s, i)
    else if StartsAt(s, i, "true") then Some((Bool(true), i + 4))
    else if StartsAt(s, i, "false") then Some((Bool(false), i + 5))
    else if StartsAt(s, i, "null") then Some((Null, i + 4))
    else None
  }

  /** The members of an object whose `{` ends just before `i`. */
  function ParseObject(s: string, i: nat): (r: Option<(Value, nat)>)
    requires i <= |s|
    ensures r.Some? ==> i < r.value.1 <= |s| && r.value.0.Obj?
    decreases |s| - i, 3
  {
    var j := SkipWs(s, i);
    if j < |s| && s[j] == '}' then Some((Obj(map[]), j + 1))
    else ParseMembers(s, j, map[])
  }

  /** Members separated by commas, up to the closing `}`; a later duplicate key
      replaces an earlier one. */
  function ParseMembers(s: string, i: nat, acc: map<string, Value>): (r: Option<(Value, nat)>)
    requires i <= |s|
    ensures r.Some? ==> i < r.value.1 <= |s| && r.value.0.Obj?
    decreases |s| - i, 2
  {
    match ParseMember(s, i)
    case None => None
    case Some((key, v, e)) =>
      var l := SkipWs(s, e);
      if l < |s| && s[l] == ',' then ParseMembers(s, SkipWs(s, l + 1), acc[key := v])
      else if l < |s| && s[l] == '}' then Some((Obj(acc[key := v]), l + 1))
      else None
  }

  /** One member `"key" : value` at `i`: the key (the string literal that starts at `i`),
      the value and where the value ends. */
  function ParseMember(s: string, i: nat): (r: Option<(string, Value, nat)>)
    requires i <= |s|
    ensures r.Some? ==> i < r.value.2 <= |s|
    decreases |s| - i, 1
  {
    if i == |s| || s[i] != '"' then None
    else match ParseValue(s, i)
      case Some((Str(key), k)) =>
        var c := SkipWs(s, k);
        if c == |s| || s[c] != ':' then None
        else (match ParseValue(s, SkipWs(s, c + 1))
          case None => None
          case Some((v, e)) => Some((key, v, e)))
      case _ => None
  }

  /** The elements of an array whose `[` ends just before `i`. */
  function ParseArray(s: string, i: nat): (r: Option<(Value, nat)>)
    requires i <= |s|
    ensures r.Some? ==> i < r.value.1 <= |s| && r.value.0.Arr?
    decreases |s| - i, 2
  {
    var j := SkipWs(s, i);
    if j < |s| && s[j] == ']' then Some((Arr([]), j + 1))
    else ParseItems(s, j, [])
  }

  /** Values separated by commas, up to the closing `]`. */
  function ParseItems(s: string, i: nat, acc: seq<Value>): (r: Option<(Value, nat)>)
    requires i <= |s|
    ensures r.Some? ==> i < r.value.1 <= |s| && r.value.0.Arr?
    decreases |s| - i, 1
  {
    match ParseValue(s, i)
    case None => None
    case Some((v, k)) =>
      var l := SkipWs(s, k);
      if l < |s| && s[l] == ',' then ParseItems(s, SkipWs(s, l + 1), acc + [v])
      else if l < |s| && s[l] == ']' then Some((Arr(acc + [v]), l + 1))
      else None
  }

  /** The characters of a string literal whose opening quote ends just before `i`,
      appended to `acc`, and the position after the closing quote. */
  function ParseString(s: string, i: nat, acc: string): (r: Option<(string, nat)>)
    requires i <= |s|
    ensures r.Some? ==> i < r.value.1 <= |s|
    decreases |s| - i
  {
    if i == |s| then None
    else if s[i] == '"' then Some((acc, i + 1))
    else if s[i] == '\\' then
      match Unescape(s, i + 1)
      case None => None
      case Some((c, j)) => ParseString(s, j, acc + [c])
    else if s[i] < ' ' then None
    else ParseString(s, i + 1, acc + [s[i]])
  }

  /** Four hexadecimal digits at `i`, as a UTF-16 code unit. */
  function Hex4(s: string, i: nat): (r: Option<nat>)
    requires i <= |s|
    ensures r.Some? ==> i + 4 <= |s| && r.value < 0x10000
  {
    if i + 4 <= |s| && AllDigits(s[i..i + 4], 16) then
      DigitsValueBound(s[i..i + 4], 16);
      assert Power(16, 4) == 16 * (16 * (16 * (16 * Power(16, 0))));
      Some(DigitsValue(s[i..i + 4], 16))
    else None
  }

  /** The escape sequence whose backslash ends just before `i`: the character it
      stands for and the position after it. A `\u` escape of a surrogate pair gives
      the one character the pair encodes. */
  function Unescape(s: string, i: nat): (r: Option<(char, nat)>)
    requires i <= |s|
    ensures r.Some? ==> i < r.value.1 <= |s|
  {
    if i == |s| then None
    else if s[i] == '"' || s[i] == '\\' || s[i] == '/' then Some((s[i], i + 1))
    else if s[i] == 'b' then Some(('\U{0008}', i + 1))
    else if s[i] == 'f' then Some(('\U{000C}', i + 1))
    else if s[i] == 'n' then Some(('\n', i + 1))
    else if s[i] == 'r' then Some(('\r', i + 1))
    else if s[i] == 't' then Some(('\t', i + 1))
    else if s[i] == 'u' then
      match Hex4(s, i + 1)
      case None => None
      case Some(u) =>
        if 0xD800 <= u < 0xDC00 then
          if StartsAt(s, i + 5, "\\u") then
            match Hex4(s, i + 7)
            case None => None
            case Some(l) =>
              if 0xDC00 <= l < 0xE000 then
                Some(((0x10000 + (u - 0xD800) * 0x400 + (l - 0xDC00)) as char, i + 11))
              else None
          else None
        else if 0xDC00 <= u < 0xE000 then None
        else Some((u as char, i + 5))
    else None
  }

  /** An optional exponent at `b`: its value and where it ends. */
  function JsonExponent(s: string, b: nat): (r: Option<(int, nat)>)
    requires b <= |s|
    ensures r.Some? ==> b <= r.value.1 <= |s|
  {
    if b < |s| && (s[b] == 'e' || s[b] == 'E') then
      var c := if b + 1 < |s| && (s[b + 1] == '+' || s[b + 1] == '-') then b + 2 else b + 1;
      var d := DigitRun(s, c);
      if d == c then None
      else
        var e: int := DigitsValue(s[c..d], 10);
        Some((if s[b + 1] == '-' then -e else e, d))
    else Some((0, b))
  }

  /** End of the integer part `0 | [1-9][0-9]*` that starts with the digit at `p`. */
  function IntegerEnd(s: string, p: nat): (a: nat)
    requires p < |s| && IsDecimalDigit(s[p])
    ensures p < a <= |s| && AllDigits(s[p..a], 10)
  {
    if s[p] == '0' then p + 1 else DigitRun(s, p)
  }

  /** End of an optional fraction `. [0-9]+` at `a`; None for a dot without digits. */
  function FractionEnd(s: string, a: nat): (r: Option<nat>)
    requires a <= |s|
    ensures r.Some? ==> a <= r.value <= |s|
    ensures r.Some? && r.value != a ==> a + 1 < r.value && s[a] == '.' && AllDigits(s[a + 1..r.value], 10)
  {
    if a < |s| && s[a] == '.' then
      var b := DigitRun(s, a + 1);
      if b == a + 1 then None else Some(b)
    else Some(a)
  }

  /** The value of the integer digits s[p..a] and fraction digits s[a + 1..b]
      (none when b == a), scaled by 10^e. */
  function DecimalValue(s: string, p: nat, a: nat, b: nat, e: int): real
    requires p <= a <= b <= |s| && AllDigits(s[p..a], 10)
    requires b == a || (a < b && AllDigits(s[a + 1..b], 10))
  {
    if b == a then DigitsValue(s[p..a], 10) as real * Pow10(e)
    else DigitsValue(s[p..a] + s[a + 1..b], 10) as real * Pow10(e - (b - a - 1))
  }

  /** A number `-? (0 | [1-9][0-9]*) (. [0-9]+)? ([eE] [+-]? [0-9]+)?` at `i`. */
  function ParseNumber(s: string, i: nat): (r: Option<(Value, nat)>)
    requires i < |s|
    ensures r.Some? ==> i < r.value.1 <= |s|
    ensures r.Some? ==> r.value.0.Num? && r.value.0.n.Finite?
  {
    var p := if s[i] == '-' then i + 1 else i;
    if p == |s| || !IsDecimalDigit(s[p]) then None
    else
      var a := IntegerEnd(s, p);
      match FractionEnd(s, a)
      case None => None
      case Some(b) =>
        match JsonExponent(s, b)
        case None => None
        case Some((e, c)) =>
          var mv := DecimalValue(s, p, a, b, e);
          Some((Num(Finite(if s[i] == '-' then -mv else mv)), c))
  }

  /** An object or array text is JSON only when its last character that is not white
      space is the matching closing bracket: text that opens with `{` or `[` and ends
      in anything else makes JSON.parse throw. */
  lemma UnclosedRejected(s: string)
    requires |s| > 0 && (s[0] == '{' || s[0] == '[')
    requires s[|s| - 1] != (if s[0] == '{' then '}' else ']') && !IsJsonSpace(s[|s| - 1])
    ensures Parse(s) == None
  {
    assert SkipWs(s, 0) == 0;
    match ParseValue(s, 0)
    case None =>
    case Some((v, j)) =>
      SkipWsSpaces(s, j);
      if s[0] == '{' {
        ObjectClosed(s, 1);
      } else {
        ArrayClosed(s, 1);
      }
  }

  /** A parsed object ends just after a `}`. */
  lemma ObjectClosed(s: string, i: nat)
    requires i <= |s|
    ensures ParseObject(s, i).Some? ==> s[ParseObject(s, i).value.1 - 1] == '}'
  {
    MembersClosed(s, SkipWs(s, i), map[]);
  }

  lemma {:induction false} MembersClosed(s: string, i: nat, acc: map<string, Value>)
    requires i <= |s|
    ensures ParseMembers(s, i, acc).Some? ==> s[ParseMembers(s, i, acc).value.1 - 1] == '}'
    decreases |s| - i
  {
    match ParseMember(s, i)
    case None =>
      assert ParseMembers(s, i, acc) == None;
    case Some((key, v, e)) =>
      var l := SkipWs(s, e);
      if l < |s| && s[l] == ',' {
        assert ParseMembers(s, i, acc) == ParseMembers(s, SkipWs(s, l + 1), acc[key := v]);
        MembersClosed(s, SkipWs(s, l + 1), acc[key := v]);
      } else if l < |s| && s[l] == '}' {
        assert ParseMembers(s, i, acc) == Some((Obj(acc[key := v]), l + 1));
      } else {
        assert ParseMembers(s, i, acc) == None;
      }
  }

  /** A parsed array ends just after a `]`. */
  lemma ArrayClosed(s: string, i: nat)
    requires i <= |s|
    ensures ParseArray(s, i).Some? ==> s[ParseArray(s, i).value.1 - 1] == ']'
  {
    ItemsClosed(s, SkipWs(s, i), []);
  }

  lemma {:induction false} ItemsClosed(s: string, i: nat, acc: seq<Value>)
    requires i <= |s|
    ensures ParseItems(s, i, acc).Some? ==> s[ParseItems(s, i, acc).value.1 - 1] == ']'
    decreases |s| - i
  {
    match ParseValue(s, i)
    case None =>
      assert ParseItems(s, i, acc) == None;
    case Some((v, k)) =>
      var l := SkipWs(s, k);
      if l < |s| && s[l] == ',' {
        assert ParseItems(s, i, acc) == ParseItems(s, SkipWs(s, l + 1), acc + [v]);
        ItemsClosed(s, SkipWs(s, l + 1), acc + [v]);
      } else if l < |s| && s[l] == ']' {
        assert ParseItems(s, i, acc) == Some((Arr(acc + [v]), l + 1));
      } else {
        assert ParseItems(s, i, acc) == None;
      }
  }
}

/** Facts relating JSON.parse to the rest of the model: a JSON number is also a
    StringNumericLiteral, so unary plus accepts every text JSON.parse reads as a number. */
module JsonNumbers {
  import opened JsValues
  import opened JsChars
  import opened Numerals
  import opened NumberLiteral
  import opened Json

  lemma ExponentIsExponentPart(s: string, b: nat)
    requires b <= |s| && JsonExponent(s, b).Some?
    ensures var c := JsonExponent(s, b).value.1;
      c == b || IsExponentPart(s[b..c])
  {
    var c := JsonExponent(s, b).value.1;
    if c != b {
      var t := s[b..c];
      var d := if b + 1 < |s| && (s[b + 1] == '+' || s[b + 1] == '-') then b + 2 else b + 1;
      assert AllDigits(s[d..c], 10) && d < c;
      assert t[1..] == s[b + 1..c];
      if d == b + 2 {
        assert t[1..][1..] == s[d..c];
      } else {
        assert t[1..] == s[d..c];
      }
    }
  }

  /** A mantissa followed by an optional exponent part is a StrUnsignedDecimalLiteral. */
  lemma UnsignedFromParts(s: string, p: nat, b: nat, c: nat)
    requires p < b <= c <= |s|
    requires IsDecimalMantissa(s[p..b])
    requires c == b || IsExponentPart(s[b..c])
    ensures IsStrUnsignedDecimalLiteral(s[p..c])
  {
    var u := s[p..c];
    assert u[..b - p] == s[p..b];
    if c != b {
      assert u[b - p..] == s[b..c];
    }
  }

  /** JSON's integer part, with an optional fraction, is a DecimalMantissa. */
  lemma JsonMantissa(s: string, p: nat, a: nat, b: nat)
    requires p < a <= b <= |s| && AllDigits(s[p..a], 10)
    requires b == a || (s[a] == '.' && a + 1 < b && AllDigits(s[a + 1..b], 10))
    ensures IsDecimalMantissa(s[p..b])
  {
    if b != a {
      var m := s[p..b];
      assert m[..a - p] == s[p..a];
      assert m[a - p + 1..] == s[a + 1..b];
      assert IsDottedMantissa(m, a - p);
    }
  }

  /** The text of every number JSON.parse accepts is a StrDecimalLiteral. */
  lemma ParseNumberIsLiteral(s: string, i: nat)
    requires i < |s| && ParseNumber(s, i).Some?
    ensures IsStrDecimalLiteral(s[i..ParseNumber(s, i).value.1])
  {
    var c := ParseNumber(s, i).value.1;
    var p := if s[i] == '-' then i + 1 else i;
    var a := IntegerEnd(s, p);
    var b := FractionEnd(s, a).value;
    assert JsonExponent(s, b).value.1 == c;
    ExponentIsExponentPart(s, b);
    JsonMantissa(s, p, a, b);
    UnsignedFromParts(s, p, b, c);
    if s[i] == '-' {
      assert s[i..c][1..] == s[p..c];
    } else {
      assert s[i..c] == s[p..c];
    }
  }

  /** Whenever JSON.parse reads a number, unary plus of the same text is a number:
      JSON white space is ECMAScript white space, and a JSON number is a literal. */
  lemma JsonNumberIsNumeric(s: string)
    requires Parse(s).Some? && Parse(s).value.Num?
    ensures IsStringNumericLiteral(s)
  {
    var i := SkipWs(s, 0);
    var r := ParseValue(s, i).value;
    assert s[i] == '-' || IsDecimalDigit(s[i]);
    assert ParseValue(s, i) == ParseNumber(s, i);
    ParseNumberIsLiteral(s, i);
    var j := r.1;
    assert SkipWs(s, j) == |s|;
    SkipWsSpaces(s, 0);
    SkipWsSpaces(s, j);
    assert IsSpaces(s[..i]);
    assert IsSpaces(s[j..]);
    assert IsStrNumericLiteral(s[i..j]);
  }
}
