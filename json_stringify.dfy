/** JSON.stringify for the values it renders as JSON text; JsonRoundTrip proves
    JSON.parse(JSON.stringify(v)) == v, which makes it the parser's partner. Object
    members are written in some order of their keys; which order JavaScript would
    choose does not matter to the parser, which builds a map. */
module JsonStringify {
  import opened JsValues
  import opened JsChars
  import opened Numerals
  import opened Json

  // ---------------------------------------------------------------------------
  // Strings (QuoteJSONString of ECMA-262)
  // ---------------------------------------------------------------------------

  /** A lower-case hexadecimal digit, as QuoteJSONString writes `\u` escapes. */
  function HexDigitChar(d: nat): (c: char)
    requires d < 16
    ensures IsHexDigit(c) && HexValue(c) == d
  {
    if d < 10 then DigitChar(d) else (d - 10 + 'a' as int) as char
  }

  /** How JSON.stringify writes one character inside a string literal. */
  function EscapeChar(c: char): (e: string)
    ensures |e| > 0
  {
    if c == '"' then "\\\""
    else if c == '\\' then "\\\\"
    else if c == '\U{0008}' then "\\b"
    else if c == '\U{000C}' then "\\f"
    else if c == '\n' then "\\n"
    else if c == '\r' then "\\r"
    else if c == '\t' then "\\t"
    else if c < ' ' then "\\u00" + [HexDigitChar(c as int / 16), HexDigitChar(c as int % 16)]
    else [c]
  }

  function Escape(t: string): (e: string)
  {
    if t == [] then [] else EscapeChar(t[0]) + Escape(t[1..])
  }

  function Quote(t: string): (q: string)
    ensures |q| >= 2 && q[0] == '"'
  {
    "\"" + Escape(t) + "\""
  }

  /** Four hexadecimal digits are read most significant first. */
  // ---------------------------------------------------------------------------
  // Values
  // ---------------------------------------------------------------------------

  /** The values JSON.stringify writes as JSON text that reads back unchanged: no
      `undefined` anywhere, and numbers that are integers below 10^21 in magnitude,
      which Number.prototype.toString writes digit by digit. */
  ghost predicate IsJsonSafe(v: Value)
  {
    match v
    case Undefined => false
    case Null => true
    case Bool(_) => true
    case Str(_) => true
    case Num(n) => n.Finite? && n.mv.Floor as real == n.mv && -1e21 < n.mv < 1e21
    case Arr(items) => forall k :: 0 <= k < |items| ==> IsJsonSafe(items[k])
    case Obj(m) => forall k :: k in m ==> IsJsonSafe(m[k])
  }

  /** The keys of a map, each exactly once, in some order. */
  ghost function KeyOrder(m: map<string, Value>): (ks: seq<string>)
    ensures forall k :: k in m <==> k in ks
    decreases |m|
  {
    if |m| == 0 then []
    else
      var k :| k in m;
      [k] + KeyOrder(m - {k})
  }

  /** No key is written twice. */
  lemma {:induction false} KeyOrderDistinct(m: map<string, Value>)
    ensures forall a, b :: 0 <= a < b < |KeyOrder(m)| ==> KeyOrder(m)[a] != KeyOrder(m)[b]
    decreases |m|
  {
    if |m| > 0 {
      var ks := KeyOrder(m);
      var k := ks[0];
      var rest := KeyOrder(m - {k});
      assert ks == [k] + rest;
      KeyOrderDistinct(m - {k});
      assert k !in rest;
      forall a, b | 0 <= a < b < |ks|
        ensures ks[a] != ks[b]
      {
        assert ks[b] == rest[b - 1];
        if a > 0 {
          assert ks[a] == rest[a - 1];
        }
      }
    }
  }

  /** JSON.stringify(v) without indentation. */
  ghost function Stringify(v: Value): (t: string)
    requires IsJsonSafe(v)
    decreases v, 1
  {
    match v
    case Null => "null"
    case Bool(b) => if b then "true" else "false"
    case Num(n) => IntToString(n.mv.Floor)
    case Str(t) => Quote(t)
    case Arr(items) => if items == [] then "[]" else "[" + StringifyItems(items, 0) + "]"
    case Obj(m) => if |m| == 0 then "{}" else "{" + StringifyMembers(m, KeyOrder(m)) + "}"
  }

  /** The elements from `j` on, separated by commas. */
  ghost function StringifyItems(items: seq<Value>, j: nat): string
    requires j < |items| && IsJsonSafe(Arr(items))
    decreases Arr(items), 0, |items| - j
  {
    Stringify(items[j]) + if j + 1 == |items| then "" else "," + StringifyItems(items, j + 1)
  }

  /** The members named by `ks`, each `"key":value`, separated by commas. */
  ghost function StringifyMembers(m: map<string, Value>, ks: seq<string>): string
    requires |ks| > 0 && IsJsonSafe(Obj(m)) && forall k :: k in ks ==> k in m
    decreases Obj(m), 0, |ks|
  {
    Quote(ks[0]) + ":" + Stringify(m[ks[0]]) + if |ks| == 1 then "" else "," + StringifyMembers(m, ks[1..])
  }

  /** The first character of a rendered value is never white space. */
  lemma StringifyFirst(v: Value)
    requires IsJsonSafe(v)
    ensures |Stringify(v)| > 0 && !IsJsonSpace(Stringify(v)[0])
    ensures Stringify(v)[0] != ']' && Stringify(v)[0] != '}'
  {
    if v.Num? {
      var n := v.n.mv.Floor;
      assert IntToString(n)[0] == if n < 0 then '-' else NatToString(n)[0];
    }
  }
}
