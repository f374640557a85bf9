/** Where a piece of text stands inside a longer string. */
module TextPositions {
  /** The text `w` stands in `s` at `i`. */
  predicate TextAt(s: string, i: nat, w: string)
  {
    CharsAt(s, i, w)
  }

  /** The characters of `w` stand in `s` from `i` on, one after the other. */
  predicate CharsAt(s: string, i: nat, w: string)
    decreases |w|
  {
    if w == [] then i <= |s| else i < |s| && s[i] == w[0] && CharsAt(s, i + 1, w[1..])
  }

  /** The same as a slice of `s`. */
  lemma {:induction false} TextAtSlice(s: string, i: nat, w: string)
    ensures TextAt(s, i, w) <==> i + |w| <= |s| && s[i..i + |w|] == w
    decreases |w|
  {
    if w != [] {
      TextAtSlice(s, i + 1, w[1..]);
      if i + |w| <= |s| {
        assert s[i..i + |w|] == [s[i]] + s[i + 1..i + |w|];
        assert w == [w[0]] + w[1..];
      }
    }
  }

  lemma {:induction false} TextAtEnd(s: string, i: nat, w: string)
    requires TextAt(s, i, w)
    ensures i + |w| <= |s|
    decreases |w|
  {
    if w != [] {
      TextAtEnd(s, i + 1, w[1..]);
    }
  }

  /** The characters of a piece of text at their positions. */
  lemma {:induction false} TextAtChar(s: string, i: nat, w: string, k: nat)
    requires TextAt(s, i, w) && k < |w|
    ensures i + k < |s| && s[i + k] == w[k]
    decreases k
  {
    if k > 0 {
      TextAtChar(s, i + 1, w[1..], k - 1);
    }
  }

  lemma {:induction false} TextAtSplit(s: string, i: nat, a: string, b: string)
    requires TextAt(s, i, a + b)
    ensures TextAt(s, i, a) && TextAt(s, i + |a|, b)
    decreases |a|
  {
    if a == [] {
      assert a + b == b;
      TextAtEnd(s, i, b);
    } else {
      assert (a + b)[0] == a[0];
      assert (a + b)[1..] == a[1..] + b;
      TextAtSplit(s, i + 1, a[1..], b);
    }
  }

  /** A string stands in itself at 0. */
  lemma TextAtWhole(s: string)
    ensures TextAt(s, 0, s)
  {
    TextAtSlice(s, 0, s);
    assert s[0..|s|] == s;
  }

  /** Text `a`, then `b`, then a closing text. */
  lemma Layout2(s: string, i: nat, a: string, b: string, close: string)
    requires TextAt(s, i, (a + b) + close)
    ensures TextAt(s, i, a) && TextAt(s, i + |a|, b + close)
  {
    assert (a + b) + close == a + (b + close);
    TextAtSplit(s, i, a, b + close);
  }

  /** A one-character opening text, then `b`, then a closing text. */
  lemma Opening(s: string, i: nat, open: string, b: string, close: string)
    requires |open| == 1 && TextAt(s, i, (open + b) + close)
    ensures i < |s| && s[i] == open[0] && TextAt(s, i + 1, b + close)
  {
    Layout2(s, i, open, b, close);
    TextAtChar(s, i, open, 0);
  }

  /** A key `q`, a colon, a value `t`, what follows the member, then a closing text. */
  lemma MemberLayout(s: string, i: nat, q: string, t: string, r: string, close: string)
    requires TextAt(s, i, (((q + ":") + t) + r) + close)
    ensures TextAt(s, i, q) && i + |q| < |s| && s[i + |q|] == ':'
    ensures TextAt(s, i + |q| + 1, t) && TextAt(s, i + |q| + 1 + |t|, r + close)
  {
    Layout2(s, i, (q + ":") + t, r, close);
    TextAtSplit(s, i, q + ":", t);
    TextAtSplit(s, i, q, ":");
    TextAtChar(s, i + |q|, ":", 0);
  }

  /** A member `q:t` whose key and value are not empty, then a comma, the members after
      it and a closing text: where each piece stands. */
  lemma MemberThenMore(s: string, i: nat, q: string, t: string, more: string, close: string) returns (c: nat, e: nat)
    requires |q| > 0 && |t| > 0 && |more| > 0
    requires TextAt(s, i, (((q + ":") + t) + ("," + more)) + close)
    ensures c == i + |q| && e == c + 1 + |t|
    ensures s[i] == q[0] && TextAt(s, i, q)
    ensures c + 1 < |s| && s[c] == ':' && s[c + 1] == t[0] && TextAt(s, c + 1, t)
    ensures e + 1 < |s| && s[e] == ',' && s[e + 1] == more[0] && TextAt(s, e + 1, more + close)
  {
    c := i + |q|;
    e := c + 1 + |t|;
    MemberLayout(s, i, q, t, "," + more, close);
    CommaLayout(s, e, more, close);
    TextAtChar(s, i, q, 0);
    TextAtChar(s, c + 1, t, 0);
    Head(s, e + 1, more, close);
  }

  /** The last member `q:t`, then a closing text. */
  lemma MemberThenClose(s: string, i: nat, q: string, t: string, close: string) returns (c: nat, e: nat)
    requires |q| > 0 && |t| > 0 && |close| > 0
    requires TextAt(s, i, (((q + ":") + t) + "") + close)
    ensures c == i + |q| && e == c + 1 + |t|
    ensures s[i] == q[0] && TextAt(s, i, q)
    ensures c + 1 < |s| && s[c] == ':' && s[c + 1] == t[0] && TextAt(s, c + 1, t)
    ensures e < |s| && s[e] == close[0]
  {
    c := i + |q|;
    e := c + 1 + |t|;
    MemberLayout(s, i, q, t, "", close);
    Closing(s, e, close);
    TextAtChar(s, i, q, 0);
    TextAtChar(s, c + 1, t, 0);
  }

  /** A value `t`, what follows it, then a closing text. */
  lemma ItemLayout(s: string, i: nat, t: string, r: string, close: string)
    requires TextAt(s, i, (t + r) + close)
    ensures TextAt(s, i, t) && TextAt(s, i + |t|, r + close)
  {
    Layout2(s, i, t, r, close);
  }

  /** A comma, more text, then a closing text. */
  lemma CommaLayout(s: string, i: nat, more: string, close: string)
    requires TextAt(s, i, ("," + more) + close)
    ensures i < |s| && s[i] == ',' && TextAt(s, i + 1, more + close)
  {
    Opening(s, i, ",", more, close);
  }

  /** Only the closing text. */
  lemma Closing(s: string, i: nat, close: string)
    requires |close| > 0 && TextAt(s, i, "" + close)
    ensures i < |s| && s[i] == close[0]
  {
    assert "" + close == close;
    TextAtChar(s, i, close, 0);
  }

  /** The first character of non-empty text followed by more text. */
  lemma Head(s: string, i: nat, w: string, close: string)
    requires |w| > 0 && TextAt(s, i, w + close)
    ensures i < |s| && s[i] == w[0]
  {
    TextAtChar(s, i, w + close, 0);
  }

  /** A character that may follow a value inside JSON text written without spaces. */
  predicate Boundary(s: string, j: nat)
  {
    j == |s| || (j < |s| && (s[j] == ',' || s[j] == ']' || s[j] == '}'))
  }
}

/** The round trip JSON.parse(JSON.stringify(v)) == v, proved piece by piece: the
    text of each rendered value is located in the input, then the parser is stepped
    over it. */
module JsonRoundTrip {
  import opened JsValues
  import opened JsChars
  import opened Numerals
  import opened Json
  import opened JsonStringify
  import opened TextPositions

  // ---------------------------------------------------------------------------
  // Strings
  // ---------------------------------------------------------------------------

  /** The parser's ParseString, named for the contracts below so that each lemma
      unfolds it one step at a time. */
  function StringFrom(s: string, i: nat, acc: string): Option<(string, nat)>
    requires i <= |s|
  {
    ParseString(s, i, acc)
  }

  /** Four hexadecimal digits are read most significant first. */
  lemma Hex4Value(t: string)
    requires |t| == 4 && AllDigits(t, 16)
    ensures DigitsValue(t, 16) == ((HexValue(t[0]) * 16 + HexValue(t[1])) * 16 + HexValue(t[2])) * 16 + HexValue(t[3])
  {
    var t3, t2, t1 := t[..3], t[..2], t[..1];
    assert t3[..2] == t2 && t2[..1] == t1 && t1[..0] == [];
    assert AllDigits(t3, 16) && AllDigits(t2, 16) && AllDigits(t1, 16);
    assert DigitsValue(t1, 16) == HexValue(t[0]);
    assert DigitsValue(t2, 16) == HexValue(t[0]) * 16 + HexValue(t[1]);
    assert DigitsValue(t3, 16) == (HexValue(t[0]) * 16 + HexValue(t[1])) * 16 + HexValue(t[2]);
  }

  /** The parser reads one escaped character back as that character. */
  lemma ParseEscapedChar(s: string, i: nat, acc: string, c: char)
    requires TextAt(s, i, EscapeChar(c)) && i + |EscapeChar(c)| < |s|
    ensures StringFrom(s, i, acc) == StringFrom(s, i + |EscapeChar(c)|, acc + [c])
  {
    var e := EscapeChar(c);
    TextAtChar(s, i, e, 0);
    if c == '"' || c == '\\' || c == '\U{0008}' || c == '\U{000C}' || c == '\n' || c == '\r' || c == '\t' {
      TextAtChar(s, i, e, 1);
      assert Unescape(s, i + 1) == Some((c, i + 2));
    } else if c < ' ' {
      TextAtChar(s, i, e, 1);
      TextAtSlice(s, i, e);
      var h := s[i + 2..i + 6];
      assert h == e[2..6] == "00" + [HexDigitChar(c as int / 16), HexDigitChar(c as int % 16)];
      Hex4Value(h);
      assert Hex4(s, i + 2) == Some(c as int);
      assert Unescape(s, i + 1) == Some((c, i + 6));
    }
  }

  /** The closing quote ends the string read so far. */
  lemma ClosingQuote(s: string, i: nat, acc: string)
    requires i < |s| && s[i] == '"'
    ensures StringFrom(s, i, acc) == Some((acc, i + 1))
  {
  }

  /** The parser reads an escaped string up to its closing quote back as that string. */
  lemma {:induction false} ParseEscaped(s: string, i: nat, acc: string, t: string)
    requires TextAt(s, i, Escape(t) + "\"")
    ensures StringFrom(s, i, acc) == Some((acc + t, i + |Escape(t)| + 1))
    decreases |t|
  {
    if t == [] {
      EscapedEnd(s, i, acc);
      assert acc + t == acc;
    } else {
      var j := EscapedStep(s, i, acc, t);
      ParseEscaped(s, j, acc + [t[0]], t[1..]);
      assert acc + [t[0]] + t[1..] == acc + t;
    }
  }

  /** The closing quote right after the escaped text ends the string. */
  lemma EscapedEnd(s: string, i: nat, acc: string)
    requires TextAt(s, i, Escape([]) + "\"")
    ensures StringFrom(s, i, acc) == Some((acc, i + |Escape([])| + 1))
  {
    var w := Escape([]) + "\"";
    assert w[0] == '"';
    TextAtChar(s, i, w, 0);
    ClosingQuote(s, i, acc);
  }

  /** The first escaped character of the text is read and the rest follows it. */
  lemma EscapedStep(s: string, i: nat, acc: string, t: string) returns (j: nat)
    requires t != [] && TextAt(s, i, Escape(t) + "\"")
    ensures j == i + |EscapeChar(t[0])| && TextAt(s, j, Escape(t[1..]) + "\"")
    ensures StringFrom(s, i, acc) == StringFrom(s, j, acc + [t[0]])
    ensures |Escape(t)| == |EscapeChar(t[0])| + |Escape(t[1..])|
  {
    var e, rest := EscapeChar(t[0]), Escape(t[1..]);
    assert Escape(t) + "\"" == e + (rest + "\"");
    TextAtSplit(s, i, e, rest + "\"");
    j := i + |e|;
    ParseEscapedChar(s, i, acc, t[0]);
  }

  /** A quoted string at `i`, its opening quote included, parses back to the string. */
  lemma ParseQuoted(s: string, i: nat, acc: string, t: string)
    requires TextAt(s, i, Quote(t))
    ensures StringFrom(s, i + 1, acc) == Some((acc + t, i + |Quote(t)|))
  {
    assert Quote(t) == "\"" + (Escape(t) + "\"");
    TextAtSplit(s, i, "\"", Escape(t) + "\"");
    ParseEscaped(s, i + 1, acc, t);
  }

  /** A quoted key at `i` parses back to the key. */
  lemma ParseKey(s: string, i: nat, k: string)
    requires TextAt(s, i, Quote(k))
    ensures StringFrom(s, i + 1, "") == Some((k, i + |Quote(k)|))
  {
    ParseQuoted(s, i, "", k);
    assert "" + k == k;
  }

  // ---------------------------------------------------------------------------
  // Numbers
  // ---------------------------------------------------------------------------

  /** The integer part of a JSON number ends where the rendered natural ends. */
  lemma IntegerPartEnd(s: string, p: nat, c: nat, m: nat)
    requires p <= c <= |s| && s[p..c] == NatToString(m) && Boundary(s, c)
    ensures p < c && IsDecimalDigit(s[p])
    ensures IntegerEnd(s, p) == c
  {
    var d := NatToString(m);
    assert s[p] == d[0];
    if m != 0 {
      DigitRunAt(s, p, c);
    }
  }

  /** A JSON number with neither fraction nor exponent is its digits' value. */
  lemma ParseNumberInteger(s: string, i: nat, p: nat, c: nat, m: nat)
    requires i < |s| && p == (if s[i] == '-' then i + 1 else i)
    requires p < c <= |s| && IsDecimalDigit(s[p])
    requires IntegerEnd(s, p) == c && DigitsValue(s[p..c], 10) == m
    requires c == |s| || (s[c] != '.' && s[c] != 'e' && s[c] != 'E')
    ensures ParseNumber(s, i) == Some((Num(Finite(if s[i] == '-' then -(m as real) else m as real)), c))
  {
    assert FractionEnd(s, c) == Some(c);
    assert JsonExponent(s, c) == Some((0, c));
    assert Pow10(0) == 1.0;
  }

  /** The digits of a rendered integer follow its optional minus sign. */
  lemma IntegerTextDigits(s: string, i: nat, n: int)
    requires TextAt(s, i, IntToString(n))
    ensures i + |IntToString(n)| <= |s|
    ensures var p := if n < 0 then i + 1 else i;
      p <= i + |IntToString(n)| && s[p..i + |IntToString(n)|] == NatToString(if n < 0 then -n else n)
    ensures s[i] == '-' <==> n < 0
  {
    var t := IntToString(n);
    var e := i + |t|;
    var d := NatToString(if n < 0 then -n else n);
    TextAtSlice(s, i, t);
    assert s[i] == s[i..e][0] == t[0];
    if n < 0 {
      assert t == "-" + d;
      assert s[i + 1..e] == s[i..e][1..] == t[1..] == d;
    } else {
      assert t == d;
      assert IsDigitOf(d[0], 10);
    }
  }

  /** An integer written in decimal reads back as that integer. */
  lemma ParseIntegerText(s: string, i: nat, n: int)
    requires TextAt(s, i, IntToString(n)) && Boundary(s, i + |IntToString(n)|)
    ensures ParseNumber(s, i) == Some((Num(Finite(n as real)), i + |IntToString(n)|))
  {
    var m: nat := if n < 0 then -n else n;
    var p := if n < 0 then i + 1 else i;
    var c := i + |IntToString(n)|;
    IntegerTextDigits(s, i, n);
    IntegerPartEnd(s, p, c, m);
    NatToStringValue(m);
    ParseNumberInteger(s, i, p, c, m);
    assert (if s[i] == '-' then -(m as real) else m as real) == n as real;
  }

  // ---------------------------------------------------------------------------
  // Values
  // ---------------------------------------------------------------------------

  /** The members named by `ks` written over `acc` one after the other, as the
      parser's accumulator receives them. */
  function Assign(acc: map<string, Value>, m: map<string, Value>, ks: seq<string>): (r: map<string, Value>)
    requires forall k :: k in ks ==> k in m
    decreases |ks|
  {
    if ks == [] then acc else Assign(acc[ks[0] := m[ks[0]]], m, ks[1..])
  }

  /** Writing the members of `ks` over `acc` gives `m` on `ks` and `acc` elsewhere. */
  lemma {:induction false} AssignMembers(acc: map<string, Value>, m: map<string, Value>, ks: seq<string>)
    requires forall k :: k in ks ==> k in m
    ensures forall k :: k in Assign(acc, m, ks) <==> k in acc || k in ks
    ensures forall k :: k in Assign(acc, m, ks) ==> Assign(acc, m, ks)[k] == if k in ks then m[k] else acc[k]
    decreases |ks|
  {
    if ks != [] {
      AssignMembers(acc[ks[0] := m[ks[0]]], m, ks[1..]);
      assert forall k :: k in ks <==> k == ks[0] || k in ks[1..];
    }
  }

  /** Writing every member of `m` over an empty object gives `m`. */
  lemma AssignAll(m: map<string, Value>)
    ensures Assign(map[], m, KeyOrder(m)) == m
  {
    AssignMembers(map[], m, KeyOrder(m));
  }

  // One step of the parser each, so that the round trip never unfolds it itself.

  lemma ArrayStart(s: string, i: nat)
    requires i + 1 < |s| && s[i] == '[' && !IsJsonSpace(s[i + 1]) && s[i + 1] != ']'
    ensures ParseValue(s, i) == ParseItems(s, i + 1, [])
  {
    assert SkipWs(s, i + 1) == i + 1;
  }

  lemma ObjectStart(s: string, i: nat)
    requires i + 1 < |s| && s[i] == '{' && !IsJsonSpace(s[i + 1]) && s[i + 1] != '}'
    ensures ParseValue(s, i) == ParseMembers(s, i + 1, map[])
  {
    assert SkipWs(s, i + 1) == i + 1;
  }

  lemma ItemParsed(s: string, i: nat, acc: seq<Value>, v: Value, e: nat)
    requires i <= |s| && ParseValue(s, i) == Some((v, e)) && e < |s|
    ensures s[e] == ']' ==> ParseItems(s, i, acc) == Some((Arr(acc + [v]), e + 1))
    ensures s[e] == ',' && e + 1 < |s| && !IsJsonSpace(s[e + 1]) ==>
      ParseItems(s, i, acc) == ParseItems(s, e + 1, acc + [v])
  {
    if s[e] == ',' || s[e] == ']' {
      NoSpaceSkipped(s, e);
    }
    if s[e] == ',' && e + 1 < |s| && !IsJsonSpace(s[e + 1]) {
      NoSpaceSkipped(s, e + 1);
    }
  }

  lemma MemberParsed(s: string, i: nat, k: string, c: nat, v: Value, e: nat)
    requires i < |s| && s[i] == '"' && StringFrom(s, i + 1, "") == Some((k, c))
    requires c + 1 < |s| && s[c] == ':' && !IsJsonSpace(s[c + 1])
    requires ParseValue(s, c + 1) == Some((v, e))
    ensures ParseMember(s, i) == Some((k, v, e))
  {
    KeyParsed(s, i, k, c);
    NoSpaceSkipped(s, c);
    NoSpaceSkipped(s, c + 1);
    assert ParseValue(s, SkipWs(s, c + 1)) == Some((v, e));
  }

  /** A string literal at `i` is a string value. */
  lemma KeyParsed(s: string, i: nat, k: string, c: nat)
    requires i < |s| && s[i] == '"' && StringFrom(s, i + 1, "") == Some((k, c))
    ensures ParseValue(s, i) == Some((Str(k), c))
  {
  }

  /** Skipping white space stays put on a character that is not white space. */
  lemma NoSpaceSkipped(s: string, j: nat)
    requires j < |s| && !IsJsonSpace(s[j])
    ensures SkipWs(s, j) == j
  {
  }

  lemma MembersStep(s: string, i: nat, acc: map<string, Value>, k: string, v: Value, e: nat)
    requires i <= |s| && ParseMember(s, i) == Some((k, v, e)) && e < |s|
    ensures s[e] == '}' ==> ParseMembers(s, i, acc) == Some((Obj(acc[k := v]), e + 1))
    ensures s[e] == ',' && e + 1 < |s| && !IsJsonSpace(s[e + 1]) ==>
      ParseMembers(s, i, acc) == ParseMembers(s, e + 1, acc[k := v])
  {
    if s[e] == '}' {
      MembersClosing(s, i, acc, k, v, e);
    }
    if s[e] == ',' && e + 1 < |s| && !IsJsonSpace(s[e + 1]) {
      MembersComma(s, i, acc, k, v, e);
    }
  }

  /** A `}` right after a member closes the object. */
  lemma MembersClosing(s: string, i: nat, acc: map<string, Value>, k: string, v: Value, e: nat)
    requires i <= |s| && ParseMember(s, i) == Some((k, v, e)) && e < |s| && s[e] == '}'
    ensures ParseMembers(s, i, acc) == Some((Obj(acc[k := v]), e + 1))
  {
    NoSpaceSkipped(s, e);
  }

  /** A comma right after a member, and no space after it, lead to the next member. */
  lemma MembersComma(s: string, i: nat, acc: map<string, Value>, k: string, v: Value, e: nat)
    requires i <= |s| && ParseMember(s, i) == Some((k, v, e))
    requires e + 1 < |s| && s[e] == ',' && !IsJsonSpace(s[e + 1])
    ensures ParseMembers(s, i, acc) == ParseMembers(s, e + 1, acc[k := v])
  {
    NoSpaceSkipped(s, e);
    NoSpaceSkipped(s, e + 1);
  }

  /** Every property of a value JSON text can carry can be carried too. */
  lemma MemberSafe(m: map<string, Value>, k: string)
    requires IsJsonSafe(Obj(m)) && k in m
    ensures IsJsonSafe(m[k])
  {
  }

  /** Every element of a value JSON text can carry can be carried too. */
  lemma ItemSafe(items: seq<Value>, j: nat)
    requires IsJsonSafe(Arr(items)) && j < |items|
    ensures IsJsonSafe(items[j])
  {
  }

  /** A comma or a closing bracket ends the value before it. */
  lemma Delimited(s: string, e: nat)
    requires e < |s| && (s[e] == '}' || s[e] == ']' || s[e] == ',')
    ensures Boundary(s, e)
  {
  }

  /** A parsed key, its colon and its value, then the comma or `}` after them: the
      member joins the object and the parser moves on or closes it. */
  lemma MemberFollowed(s: string, i: nat, k: string, c: nat, v: Value, e: nat, acc: map<string, Value>)
    requires i < |s| && s[i] == '"' && StringFrom(s, i + 1, "") == Some((k, c))
    requires c + 1 < |s| && s[c] == ':' && !IsJsonSpace(s[c + 1])
    requires ParseValue(s, c + 1) == Some((v, e)) && e < |s|
    requires s[e] == '}' || (s[e] == ',' && e + 1 < |s| && !IsJsonSpace(s[e + 1]))
    ensures s[e] == '}' ==> MembersFrom(s, i, acc) == Some((Obj(acc[k := v]), e + 1))
    ensures s[e] == ',' ==> MembersFrom(s, i, acc) == MembersFrom(s, e + 1, acc[k := v])
  {
    MemberParsed(s, i, k, c, v, e);
    MembersStep(s, i, acc, k, v, e);
  }

  lemma EmptyContainer(s: string, i: nat)
    requires i + 1 < |s| && ((s[i] == '[' && s[i + 1] == ']') || (s[i] == '{' && s[i + 1] == '}'))
    ensures s[i] == '[' ==> ParseValue(s, i) == Some((Arr([]), i + 2))
    ensures s[i] == '{' ==> ParseValue(s, i) == Some((Obj(map[]), i + 2))
  {
    assert SkipWs(s, i + 1) == i + 1;
  }

  // Where the pieces of rendered text stand, apart from the parser.

  /** The first character of the rendered elements from `j` on is that of element `j`. */
  lemma ItemsFirst(items: seq<Value>, j: nat)
    requires j < |items| && IsJsonSafe(Arr(items))
    ensures |StringifyItems(items, j)| > 0 && StringifyItems(items, j)[0] == Stringify(items[j])[0]
  {
    StringifyFirst(items[j]);
  }

  /** Rendered members start with the quote of the first key. */
  lemma MembersFirst(m: map<string, Value>, ks: seq<string>)
    requires |ks| > 0 && IsJsonSafe(Obj(m)) && forall k :: k in ks ==> k in m
    ensures |StringifyMembers(m, ks)| > 0 && StringifyMembers(m, ks)[0] == '"'
  {
  }

  lemma ArrayText(s: string, i: nat, items: seq<Value>)
    requires items != [] && IsJsonSafe(Arr(items)) && TextAt(s, i, Stringify(Arr(items)))
    ensures i + 1 < |s| && s[i] == '[' && !IsJsonSpace(s[i + 1]) && s[i + 1] != ']'
    ensures TextAt(s, i + 1, StringifyItems(items, 0) + "]")
    ensures |Stringify(Arr(items))| == |StringifyItems(items, 0)| + 2
  {
    var body := StringifyItems(items, 0);
    assert Stringify(Arr(items)) == ("[" + body) + "]";
    Opening(s, i, "[", body, "]");
    ItemsFirst(items, 0);
    StringifyFirst(items[0]);
    Head(s, i + 1, body, "]");
  }

  lemma ObjectText(s: string, i: nat, m: map<string, Value>)
    requires |m| > 0 && IsJsonSafe(Obj(m)) && TextAt(s, i, Stringify(Obj(m)))
    ensures i + 1 < |s| && s[i] == '{' && !IsJsonSpace(s[i + 1]) && s[i + 1] != '}'
    ensures TextAt(s, i + 1, StringifyMembers(m, KeyOrder(m)) + "}")
    ensures |Stringify(Obj(m))| == |StringifyMembers(m, KeyOrder(m))| + 2
  {
    var body := StringifyMembers(m, KeyOrder(m));
    assert Stringify(Obj(m)) == ("{" + body) + "}";
    Opening(s, i, "{", body, "}");
    MembersFirst(m, KeyOrder(m));
    Head(s, i + 1, body, "}");
  }

  /** The last element's text, then `]`. */
  lemma LastItemText(s: string, i: nat, items: seq<Value>, j: nat) returns (e: nat)
    requires j + 1 == |items| && IsJsonSafe(Arr(items)) && TextAt(s, i, StringifyItems(items, j) + "]")
    ensures e == i + |Stringify(items[j])| && e == i + |StringifyItems(items, j)|
    ensures TextAt(s, i, Stringify(items[j])) && e < |s| && s[e] == ']'
  {
    var t := Stringify(items[j]);
    e := i + |t|;
    assert StringifyItems(items, j) == t + "";
    ItemLayout(s, i, t, "", "]");
    Closing(s, e, "]");
  }

  /** An element's text, then `,` and the text of the elements after it. */
  lemma NextItemText(s: string, i: nat, items: seq<Value>, j: nat) returns (e: nat)
    requires j + 1 < |items| && IsJsonSafe(Arr(items)) && TextAt(s, i, StringifyItems(items, j) + "]")
    ensures e == i + |Stringify(items[j])|
    ensures |StringifyItems(items, j)| == e - i + 1 + |StringifyItems(items, j + 1)|
    ensures TextAt(s, i, Stringify(items[j])) && e + 1 < |s| && s[e] == ',' && !IsJsonSpace(s[e + 1])
    ensures TextAt(s, e + 1, StringifyItems(items, j + 1) + "]")
  {
    var t, more := Stringify(items[j]), StringifyItems(items, j + 1);
    e := i + |t|;
    assert StringifyItems(items, j) == t + ("," + more);
    ItemLayout(s, i, t, "," + more, "]");
    CommaLayout(s, e, more, "]");
    ItemsFirst(items, j + 1);
    StringifyFirst(items[j + 1]);
    Head(s, e + 1, more, "]");
  }

  /** A member's key and value text, then `}`. */
  lemma LastMemberText(s: string, i: nat, m: map<string, Value>, ks: seq<string>) returns (c: nat, e: nat)
    requires |ks| == 1 && IsJsonSafe(Obj(m)) && ks[0] in m
    requires TextAt(s, i, StringifyMembers(m, ks) + "}")
    ensures c == i + |Quote(ks[0])| && e == c + 1 + |Stringify(m[ks[0]])|
    ensures e == i + |StringifyMembers(m, ks)|
    ensures s[i] == '"' && TextAt(s, i, Quote(ks[0])) && c + 1 < |s| && s[c] == ':' && !IsJsonSpace(s[c + 1])
    ensures TextAt(s, c + 1, Stringify(m[ks[0]])) && e < |s| && s[e] == '}'
  {
    var q, t := Quote(ks[0]), Stringify(m[ks[0]]);
    assert StringifyMembers(m, ks) == ((q + ":") + t) + "";
    StringifyFirst(m[ks[0]]);
    c, e := MemberThenClose(s, i, q, t, "}");
  }

  /** A member's key and value text, then `,` and the text of the members after it. */
  lemma NextMemberText(s: string, i: nat, m: map<string, Value>, ks: seq<string>) returns (c: nat, e: nat)
    requires |ks| > 1 && IsJsonSafe(Obj(m)) && forall k :: k in ks ==> k in m
    requires TextAt(s, i, StringifyMembers(m, ks) + "}")
    ensures c == i + |Quote(ks[0])| && e == c + 1 + |Stringify(m[ks[0]])|
    ensures |StringifyMembers(m, ks)| == e + 1 - i + |StringifyMembers(m, ks[1..])|
    ensures s[i] == '"' && TextAt(s, i, Quote(ks[0])) && c + 1 < |s| && s[c] == ':' && !IsJsonSpace(s[c + 1])
    ensures TextAt(s, c + 1, Stringify(m[ks[0]])) && e + 1 < |s| && s[e] == ',' && !IsJsonSpace(s[e + 1])
    ensures TextAt(s, e + 1, StringifyMembers(m, ks[1..]) + "}")
  {
    var q, t, more := Quote(ks[0]), Stringify(m[ks[0]]), StringifyMembers(m, ks[1..]);
    assert StringifyMembers(m, ks) == ((q + ":") + t) + ("," + more);
    StringifyFirst(m[ks[0]]);
    MembersFirst(m, ks[1..]);
    c, e := MemberThenMore(s, i, q, t, more, "}");
  }

  /** `null`, `true` and `false` parse back to themselves. */
  lemma ParseLiteralText(s: string, i: nat, v: Value)
    requires (v.Null? || v.Bool?) && TextAt(s, i, Stringify(v))
    ensures ParseValue(s, i) == Some((v, i + |Stringify(v)|))
  {
    var t := Stringify(v);
    TextAtSlice(s, i, t);
    assert s[i] == t[0];
    assert StartsAt(s, i, t);
  }

  /** A rendered integer followed by a delimiter parses back to the integer. */
  lemma ParseNumText(s: string, i: nat, v: Value)
    requires v.Num? && IsJsonSafe(v) && TextAt(s, i, Stringify(v)) && Boundary(s, i + |Stringify(v)|)
    ensures ParseValue(s, i) == Some((v, i + |Stringify(v)|))
  {
    var n := v.n.mv.Floor;
    assert v == Num(Finite(n as real));
    assert Stringify(v) == IntToString(n);
    ParseIntegerValue(s, i, n);
  }

  /** An integer written in decimal is read back by the value parser. */
  lemma ParseIntegerValue(s: string, i: nat, n: int)
    requires TextAt(s, i, IntToString(n)) && Boundary(s, i + |IntToString(n)|)
    ensures ParseValue(s, i) == Some((Num(Finite(n as real)), i + |IntToString(n)|))
  {
    IntegerTextDigits(s, i, n);
    ParseIntegerText(s, i, n);
  }

  /** A quoted string parses back to the string. */
  lemma ParseStrText(s: string, i: nat, v: Value)
    requires v.Str? && TextAt(s, i, Stringify(v))
    ensures ParseValue(s, i) == Some((v, i + |Stringify(v)|))
  {
    TextAtChar(s, i, Quote(v.s), 0);
    ParseQuoted(s, i, "", v.s);
    assert "" + v.s == v.s;
  }

  // The round trip itself.

  /** The parser inside an array, with the elements `acc` read so far and the next
      element at `i`. */
  function ItemsFrom(s: string, i: nat, acc: seq<Value>): Option<(Value, nat)>
    requires i <= |s|
  {
    ParseItems(s, i, acc)
  }

  /** The parser inside an object, with the members `acc` read so far and the next
      member at `i`. */
  function MembersFrom(s: string, i: nat, acc: map<string, Value>): Option<(Value, nat)>
    requires i <= |s|
  {
    ParseMembers(s, i, acc)
  }

  /** A rendered value followed by a delimiter parses back to the value. */
  lemma {:induction false} ParseStringified(s: string, i: nat, v: Value)
    requires IsJsonSafe(v) && TextAt(s, i, Stringify(v)) && Boundary(s, i + |Stringify(v)|)
    ensures ParseValue(s, i) == Some((v, i + |Stringify(v)|))
    decreases v, 2
  {
    match v
    case Arr(items) => ParseArrayStringified(s, i, items);
    case Obj(m) => ParseObjectStringified(s, i, m);
    case Num(_) => ParseNumText(s, i, v);
    case Str(_) => ParseStrText(s, i, v);
    case _ => ParseLiteralText(s, i, v);
  }

  /** `[]` parses back to the empty array. */
  lemma EmptyArrayParsed(s: string, i: nat, items: seq<Value>)
    requires items == [] && TextAt(s, i, Stringify(Arr(items)))
    ensures ParseValue(s, i) == Some((Arr(items), i + |Stringify(Arr(items))|))
  {
    assert Stringify(Arr(items)) == "[]";
    TextAtChar(s, i, "[]", 0);
    TextAtChar(s, i, "[]", 1);
    EmptyContainer(s, i);
  }

  /** `{}` parses back to the empty object. */
  lemma EmptyObjectParsed(s: string, i: nat, m: map<string, Value>)
    requires |m| == 0 && TextAt(s, i, Stringify(Obj(m)))
    ensures ParseValue(s, i) == Some((Obj(m), i + |Stringify(Obj(m))|))
  {
    assert Stringify(Obj(m)) == "{}";
    TextAtChar(s, i, "{}", 0);
    TextAtChar(s, i, "{}", 1);
    EmptyContainer(s, i);
    assert m == map[];
  }

  lemma {:induction false} ParseArrayStringified(s: string, i: nat, items: seq<Value>)
    requires IsJsonSafe(Arr(items)) && TextAt(s, i, Stringify(Arr(items)))
    ensures ParseValue(s, i) == Some((Arr(items), i + |Stringify(Arr(items))|))
    decreases Arr(items), 1
  {
    if items == [] {
      EmptyArrayParsed(s, i, items);
    } else {
      ArrayText(s, i, items);
      ArrayStart(s, i);
      ParseItemsStringified(s, i + 1, items, 0);
      assert items[..0] == [];
    }
  }

  /** Rendered elements from `j` on, then `]`, complete the array whose first `j`
      elements the parser has read. */
  lemma {:induction false} ParseItemsStringified(s: string, i: nat, items: seq<Value>, j: nat)
    requires j < |items| && IsJsonSafe(Arr(items)) && TextAt(s, i, StringifyItems(items, j) + "]")
    ensures ItemsFrom(s, i, items[..j]) == Some((Arr(items), i + |StringifyItems(items, j)| + 1))
    decreases Arr(items), 0, |items| - j, 2
  {
    if j + 1 == |items| {
      LastItemRead(s, i, items, j);
    } else {
      var e := NextItemRead(s, i, items, j);
      ParseItemsStringified(s, e + 1, items, j + 1);
    }
  }

  /** The last element, then `]`, completes the array. */
  lemma {:induction false} LastItemRead(s: string, i: nat, items: seq<Value>, j: nat)
    requires j + 1 == |items| && IsJsonSafe(Arr(items)) && TextAt(s, i, StringifyItems(items, j) + "]")
    ensures ItemsFrom(s, i, items[..j]) == Some((Arr(items), i + |StringifyItems(items, j)| + 1))
    decreases Arr(items), 0, |items| - j, 1
  {
    var e := LastItemText(s, i, items, j);
    ItemRead(s, i, items, j, e);
    assert items[..j] + [items[j]] == items;
  }

  /** An element and its comma take the parser to the next element. */
  lemma {:induction false} NextItemRead(s: string, i: nat, items: seq<Value>, j: nat) returns (e: nat)
    requires j + 1 < |items| && IsJsonSafe(Arr(items)) && TextAt(s, i, StringifyItems(items, j) + "]")
    ensures |StringifyItems(items, j)| == e - i + 1 + |StringifyItems(items, j + 1)|
    ensures TextAt(s, e + 1, StringifyItems(items, j + 1) + "]")
    ensures ItemsFrom(s, i, items[..j]) == ItemsFrom(s, e + 1, items[..j + 1])
    decreases Arr(items), 0, |items| - j, 1
  {
    e := NextItemText(s, i, items, j);
    ItemRead(s, i, items, j, e);
    assert items[..j] + [items[j]] == items[..j + 1];
  }

  /** The parser reads a rendered element and the comma or `]` after it. */
  lemma {:induction false} ItemRead(s: string, i: nat, items: seq<Value>, j: nat, e: nat)
    requires j < |items| && IsJsonSafe(Arr(items))
    requires TextAt(s, i, Stringify(items[j])) && e == i + |Stringify(items[j])| && e < |s|
    requires s[e] == ']' || (s[e] == ',' && e + 1 < |s| && !IsJsonSpace(s[e + 1]))
    ensures s[e] == ']' ==> ItemsFrom(s, i, items[..j]) == Some((Arr(items[..j] + [items[j]]), e + 1))
    ensures s[e] == ',' ==> ItemsFrom(s, i, items[..j]) == ItemsFrom(s, e + 1, items[..j] + [items[j]])
    decreases Arr(items), 0, |items| - j, 0
  {
    var v, acc := items[j], items[..j];
    ItemSafe(items, j);
    Delimited(s, e);
    ParseStringified(s, i, v);
    ItemParsed(s, i, acc, v, e);
  }

  lemma {:induction false} ParseObjectStringified(s: string, i: nat, m: map<string, Value>)
    requires IsJsonSafe(Obj(m)) && TextAt(s, i, Stringify(Obj(m)))
    ensures ParseValue(s, i) == Some((Obj(m), i + |Stringify(Obj(m))|))
    decreases Obj(m), 1
  {
    if |m| == 0 {
      EmptyObjectParsed(s, i, m);
    } else {
      ObjectText(s, i, m);
      ObjectStart(s, i);
      AssignAll(m);
      var j := ParseMembersStringified(s, i + 1, m, KeyOrder(m), map[]);
      assert j == i + |Stringify(Obj(m))|;
    }
  }

  /** The rendered members `ks` of `m`, then `}`, stand at `i`. */
  ghost predicate MembersAt(s: string, i: nat, m: map<string, Value>, ks: seq<string>)
  {
    |ks| > 0 && IsJsonSafe(Obj(m)) && (forall k :: k in ks ==> k in m) && TextAt(s, i, StringifyMembers(m, ks) + "}")
  }

  /** Rendered members `ks`, then `}`, complete the object `m` when the members the
      parser has gathered in `acc` and those of `ks` make up `m`; `j` is where the
      object ends. */
  lemma {:induction false} ParseMembersStringified(s: string, i: nat, m: map<string, Value>, ks: seq<string>,
                                                   acc: map<string, Value>) returns (j: nat)
    requires MembersAt(s, i, m, ks) && Assign(acc, m, ks) == m
    ensures j == i + |StringifyMembers(m, ks)| + 1
    ensures MembersFrom(s, i, acc) == Some((Obj(m), j))
    decreases Obj(m), 0, |ks|, 3
  {
    if |ks| == 1 {
      j := LastMemberRead(s, i, m, ks, acc);
    } else {
      j := MoreMembersRead(s, i, m, ks, acc);
    }
  }

  /** A member, its comma and the rendered members after it, then `}`, complete the
      object. */
  lemma {:induction false} MoreMembersRead(s: string, i: nat, m: map<string, Value>, ks: seq<string>,
                                           acc: map<string, Value>) returns (j: nat)
    requires |ks| > 1 && MembersAt(s, i, m, ks) && Assign(acc, m, ks) == m
    ensures j == i + |StringifyMembers(m, ks)| + 1
    ensures MembersFrom(s, i, acc) == Some((Obj(m), j))
    decreases Obj(m), 0, |ks|, 2
  {
    var e, next := NextMemberRead(s, i, m, ks, acc);
    j := ParseMembersStringified(s, e + 1, m, ks[1..], next);
  }

  /** The last member, then `}`, completes the object. */
  lemma {:induction false} LastMemberRead(s: string, i: nat, m: map<string, Value>, ks: seq<string>,
                                          acc: map<string, Value>) returns (j: nat)
    requires |ks| == 1 && MembersAt(s, i, m, ks) && Assign(acc, m, ks) == m
    ensures j == i + |StringifyMembers(m, ks)| + 1
    ensures MembersFrom(s, i, acc) == Some((Obj(m), j))
    decreases Obj(m), 0, |ks|, 1
  {
    var next := acc[ks[0] := m[ks[0]]];
    assert Assign(acc, m, ks) == Assign(next, m, ks[1..]) == next;
    var c, e := LastMemberText(s, i, m, ks);
    MemberRead(s, i, m, ks, acc, c, e);
    j := e + 1;
  }

  /** A member and its comma take the parser to the next member. */
  lemma {:induction false} NextMemberRead(s: string, i: nat, m: map<string, Value>, ks: seq<string>,
                                          acc: map<string, Value>) returns (e: nat, next: map<string, Value>)
    requires |ks| > 1 && MembersAt(s, i, m, ks)
    ensures MembersAt(s, e + 1, m, ks[1..])
    ensures i + |StringifyMembers(m, ks)| == e + 1 + |StringifyMembers(m, ks[1..])|
    ensures MembersFrom(s, i, acc) == MembersFrom(s, e + 1, next)
    ensures Assign(acc, m, ks) == Assign(next, m, ks[1..])
    decreases Obj(m), 0, |ks|, 1
  {
    next := acc[ks[0] := m[ks[0]]];
    var c;
    c, e := NextMemberText(s, i, m, ks);
    MemberRead(s, i, m, ks, acc, c, e);
    assert Assign(acc, m, ks) == Assign(next, m, ks[1..]);
  }

  /** The parser reads a rendered member (its key, its colon and its value) and the
      comma or `}` after it. */
  lemma {:induction false} MemberRead(s: string, i: nat, m: map<string, Value>, ks: seq<string>,
                                      acc: map<string, Value>, c: nat, e: nat)
    requires |ks| > 0 && IsJsonSafe(Obj(m)) && ks[0] in m
    requires i < |s| && s[i] == '"' && TextAt(s, i, Quote(ks[0])) && c == i + |Quote(ks[0])|
    requires c + 1 < |s| && s[c] == ':' && !IsJsonSpace(s[c + 1])
    requires TextAt(s, c + 1, Stringify(m[ks[0]])) && e == c + 1 + |Stringify(m[ks[0]])| && e < |s|
    requires s[e] == '}' || (s[e] == ',' && e + 1 < |s| && !IsJsonSpace(s[e + 1]))
    ensures s[e] == '}' ==> MembersFrom(s, i, acc) == Some((Obj(acc[ks[0] := m[ks[0]]]), e + 1))
    ensures s[e] == ',' ==> MembersFrom(s, i, acc) == MembersFrom(s, e + 1, acc[ks[0] := m[ks[0]]])
    decreases Obj(m), 0, |ks|, 0
  {
    var k := ks[0];
    ParseKey(s, i, k);
    MemberSafe(m, k);
    Delimited(s, e);
    ParseStringified(s, c + 1, m[k]);
    MemberFollowed(s, i, k, c, m[k], e, acc);
  }

  /** JSON.parse(JSON.stringify(v)) == v for every value JSON text can carry. */
  lemma ParseOfStringify(v: Value)
    requires IsJsonSafe(v)
    ensures Parse(Stringify(v)) == Some(v)
  {
    var s := Stringify(v);
    StringifyFirst(v);
    assert SkipWs(s, 0) == 0;
    TextAtWhole(s);
    ParseStringified(s, 0, v);
  }
}
