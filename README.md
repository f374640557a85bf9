# deepenv in Dafny

deepenv builds a configuration object from environment variables. Each variable
whose name starts with a prefix (`DEEPENV_` by default) is nested along the path its
name spells. The name is lower-cased, the prefix length is cut off, and the rest is
split on a nesting delimiter (`__` by default). Each value is stored at that path
inside a shallow copy of an optional original configuration. Before it is stored,
the raw text is classified by `parseEnvValue`, which turns it into `undefined`, the
text itself, a number, a boolean, or whatever `JSON.parse` makes of it.

The model has one file per concern:

- `values.dfy` (`JsValues`): the values a configuration holds. These are
  `undefined`, `null`, booleans, numbers (their mathematical value, or an
  infinity), strings, arrays and objects.
- `chars.dfy` (`JsChars`): the character classes of ECMA-262. These are
  WhiteSpace, LineTerminator, `\s`, digits, and ASCII lower-casing.
- `numerals.dfy` (`Numerals`): digit strings and their values, and the decimal
  rendering of integers.
- `strings.dfy` (`JsStrings`): `startsWith`, and `split`/`join` as
  `String.prototype` defines them.
- `number_literal.dfy` (`NumberLiteral`): unary plus on a string. It has two
  parts:
  - the StringNumericLiteral grammar of ECMA-262 (section 7.1.4.1, "ToNumber
    Applied to the String Type"), written as predicates;
  - a scanner, `StringToNumber`, proved to accept exactly that grammar.
  NaN is `None`.
- `json.dfy` (`Json`, `JsonNumbers`): `JSON.parse` as a recursive-descent parser
  of the JSON grammar of RFC 8259. Every number it reads is also a
  StringNumericLiteral.
- `json_stringify.dfy` (`JsonStringify`): `JSON.stringify` for the values JSON
  text can carry.
- `json_roundtrip.dfy` (`TextPositions`, `JsonRoundTrip`): `JSON.parse` undoes
  `JSON.stringify`.
- `parse_env_value.dfy` (`EnvValue`): `parseEnvValue` and its guards.
- `deep_set.dfy` (`DeepSet`): `lodash.set` on a path of property names, on values.
- `deepenv.dfy` (`Deepenv`): the module state and the entry point. The class
  `DeepEnv` holds the sticky `prefix` and `nestingDelimiter`. Its method `Deepenv`
  loops over the environment and deep-sets each selected entry.
  - The method is proved equal to `Config`, the filter, map and reduce that
    specifies it.
  - The configuration's properties are proved about `Config`.
  - The same file holds `KeyWords`, which lowers the upper-case variable names of
    the tests piece by piece for the example lemmas. Those names are written as
    concatenations of short words, such as `"LEVEL" + "ONE" + "__" + ...`.

The environment is passed in as a sequence of (name, text) pairs in the order
`Object.keys(process.env)` lists them.

`ItemsFrom`, `MembersFrom` and `StringFrom` in `JsonRoundTrip`, and `TextAt`, `CharsAt`,
`TextAtSlice` and `TextAtSplit` in `TextPositions`, are proof helpers. They name the same parser function or
the same text predicate, so that the round-trip proofs unfold the recursive
definitions one step at a time.

## Model

| member | source | states |
|---|---|---|
| EnvValue.ParseEnvValue | index.js:9-30 | The classifier. Its result is `undefined` exactly for the blank string. |
| EnvValue.BlankIsUndefined | index.js:10-11 | The blank string gives `undefined`, although unary plus alone would read it as 0. |
| EnvValue.VerbatimKept | index.js:12-14 | 'null', 'undefined', and text whose first character is `\s` with no line terminator after it come back as the same string. |
| EnvValue.VerbatimExamples | index.test.js:9-18 | 'null', 'undefined' and '   ' stay strings; so does a text that starts with a tab. |
| EnvValue.SpaceThenNewlineIsZero | index.js:14 | " \n" fails `/^\s.*$/`, because `.` does not match a line terminator, and unary plus makes it 0. |
| EnvValue.NumberExactlyWhenNumeric | index.js:17 | The result is a number if and only if the text is not blank, not verbatim, and a StringNumericLiteral. The number is then the one unary plus gives. JSON.parse adds no numbers of its own. |
| EnvValue.NumericText | index.js:17 | A text unary plus reads as a number, and that no earlier guard keeps, gives that number. |
| EnvValue.IntegerText | index.js:17 | The decimal text of any integer gives that integer. |
| EnvValue.TwelveExample | index.test.js:22-30 | '12' gives 12. |
| EnvValue.ZeroAndOneExamples | index.test.js:23-32 | '0' and '1' give numbers, not booleans. |
| EnvValue.MinusOneExample | index.test.js:25-33 | '-1' gives -1. |
| EnvValue.MinusHundredExample | index.test.js:26-34 | '-100' gives -100. |
| EnvValue.NaNStaysText | index.js:17-29 | 'NaN', which unary plus makes NaN, falls through every guard and stays text. |
| EnvValue.FoldedFirst | index.js:20-21 | A text that matches a lower-case word ignoring case starts with a letter that lowers to the word's first letter. |
| EnvValue.BooleanIgnoringCase | index.js:20-21 | 'true' or 'false' in any ASCII letter case gives that boolean. |
| EnvValue.TrueExamples | index.test.js:38-53 | 'true', 'TRUE' and 'True' give true. |
| EnvValue.FalseExamples | index.test.js:39-54 | 'false', 'FALSE' and 'False' give false. |
| EnvValue.JsonOrText | index.js:24-29 | A text starting with `{`, `[` or `"` gives what JSON.parse returns when it succeeds, and the text itself when it fails. |
| EnvValue.UnclosedStaysText | index.js:24-29 | Object or array text without its closing bracket is not JSON, so parseEnvValue keeps the text. |
| EnvValue.MalformedJsonExample | index.test.js:61-65 | The test's object text with its final brace missing stays that string. |
| EnvValue.PlainText | index.js:24-29 | A text whose first character no guard and no JSON value can start with stays text. |
| EnvValue.IntegerTextParsed | index.js:17 | The JSON text of an integer comes back as that number. |
| EnvValue.CompositeTextParsed | index.js:24-25 | The JSON text of a string, array or object comes back as that value. |
| EnvValue.ParseEnvValueOfStringify | index.test.js:59-64 | Every value whose numbers are integers below 10^21 in magnitude, as in the test's object, comes back unchanged from the text JSON.stringify writes, except null, whose text 'null' the verbatim guard keeps as a string. |
| NumberLiteral.StringToNumberMatchesGrammar | index.js:17 | Unary plus gives a number if and only if the text is a StringNumericLiteral. |
| NumberLiteral.StringToNumberSound | index.js:17 | Every text the scanner accepts is a StringNumericLiteral. |
| NumberLiteral.StringToNumberComplete | index.js:17 | Every StringNumericLiteral is accepted by the scanner. |
| NumberLiteral.UnsignedMatchesGrammar | index.js:17 | The unsigned scanner accepts exactly StrUnsignedDecimalLiteral. |
| NumberLiteral.StrDecimalMatchesGrammar | index.js:17 | The signed scanner accepts exactly StrDecimalLiteral. |
| NumberLiteral.ExponentMatchesGrammar | index.js:17 | The exponent scanner accepts exactly an empty exponent or an ExponentPart. |
| NumberLiteral.ScanMantissaSound | index.js:17 | A mantissa the scanner finds, with at least one digit, is a decimal mantissa of the grammar. |
| NumberLiteral.ScanMantissaComplete | index.js:17 | A decimal mantissa followed by the end of the text or by an exponent is the one the scanner finds. |
| NumberLiteral.RadixPrefixNotDecimal | index.js:17 | A text starting with `0x`, `0o` or `0b` is never a decimal literal, so the two readings never compete. |
| NumberLiteral.LiteralEdges | index.js:17 | A numeric literal is not empty and neither starts nor ends with white space. |
| NumberLiteral.TrimExact | index.js:17 | Trimming removes exactly the white space around a text that starts and ends with non-space characters. |
| NumberLiteral.StringToNumberRejects | index.js:17 | A text whose first character is none of white space, a digit, a sign, '.' or 'I' is NaN. |
| NumberLiteral.TrimmedDecimal | index.js:17 | A text without surrounding white space and without a radix prefix is read as a signed decimal. |
| NumberLiteral.UnsignedOfDigits | index.js:17 | A run of decimal digits reads as the integer it spells. |
| NumberLiteral.StringToNumberOfInt | index.js:17 | The decimal rendering of any integer coerces back to that integer. |
| NumberLiteral.StringToNumberExample12 | index.test.js:22 | Unary plus reads '12' as 12. |
| NumberLiteral.StringToNumberExampleZero | index.test.js:23 | Unary plus reads '0' as 0. |
| NumberLiteral.StringToNumberExampleOne | index.test.js:24 | Unary plus reads '1' as 1. |
| NumberLiteral.StringToNumberExampleMinusOne | index.test.js:25 | Unary plus reads '-1' as -1. |
| NumberLiteral.StringToNumberExampleMinusHundred | index.test.js:26 | Unary plus reads '-100' as -100. |
| NumberLiteral.StringToNumberExampleQuarter | index.js:17 | '0.25' is the number 0.25. |
| NumberLiteral.StringToNumberExampleTrailingPoint | index.js:17 | '100.' is the number 100. |
| NumberLiteral.StringToNumberExampleLeadingPoint | index.js:17 | '.1' is the number 0.1. |
| NumberLiteral.StringToNumberNaNExamples | index.js:17 | '100..', '..123' and 'NaN' are NaN. |
| JsChars.HexValue | index.js:17 | A hexadecimal digit's value is below 16, and below 10 exactly for a decimal digit. |
| JsChars.LowerChar | index.js:51 | toLowerCase maps each letter 'A' to 'Z' to its own lower-case letter, the same distance from 'a', and leaves every other character alone. |
| JsChars.ToLowerChars | index.js:51 | toLowerCase works character by character and keeps the length. |
| JsChars.ToLowerAppend | index.js:51 | Lowering a concatenation lowers each part. |
| Numerals.NatToStringValue | index.js:17 | Reading back the decimal rendering of a natural gives the natural. |
| Numerals.NatToStringInjective | index.js:57 | Different naturals have different renderings, so array and string indices are distinct property names. |
| Numerals.DigitsValueBound | index.js:25 | A digit string of length n has a value below radix to the power n, so four hexadecimal digits of a `\u` escape name a UTF-16 code unit. |
| Numerals.DigitRunAt | index.js:17 | The digit scanner stops exactly at the first non-digit. |
| JsStrings.JoinSplit | index.js:53-54 | Joining the pieces of a split with the same separator gives back the text. |
| JsStrings.SplitJoin | index.js:53-54 | Splitting pieces joined by a separator whose first character none of them holds gives back the pieces. |
| JsStrings.SplitPiecesFree | index.js:53 | No piece of a split holds the separator. |
| JsStrings.SplitPiecesWithin | index.js:53 | Every character of every piece of a split occurs in the text. |
| JsStrings.SplitWithoutSeparator | index.js:53 | A text without the separator splits into itself alone. |
| JsStrings.IndexOf | index.js:53 | The first occurrence of the separator at or after a position, or none. |
| Json.SkipWs | index.js:25 | JSON white space is skipped up to the first other character. |
| Json.SkipWsSpaces | index.js:25 | Everything skipped is JSON white space. |
| Json.ParseValue | index.js:25 | A parsed value consumes at least one character, stays within the text, and is never `undefined`. |
| Json.ParseObject | index.js:25 | A parsed object is an object. |
| Json.ObjectClosed | index.js:25 | A parsed object ends just after a `}`. |
| Json.ParseArray | index.js:25 | A parsed array is an array. |
| Json.ArrayClosed | index.js:25 | A parsed array ends just after a `]`. |
| Json.ParseNumber | index.js:25 | A parsed number is a finite number. |
| Json.UnclosedRejected | index.js:24-26 | Text that opens with `{` or `[` and whose last character is neither the matching closing bracket nor white space makes JSON.parse throw. |
| JsonNumbers.ParseNumberIsLiteral | index.js:17-25 | The text of every JSON number is a decimal literal of the StringNumericLiteral grammar. |
| JsonNumbers.JsonNumberIsNumeric | index.js:17-25 | A text that JSON.parse reads as a number is one unary plus reads as a number, so the JSON guard never yields a number. |
| JsonStringify.KeyOrder | index.test.js:60 | The keys JSON.stringify writes are exactly the object's keys. |
| JsonStringify.KeyOrderDistinct | index.test.js:60 | No key is written twice. |
| JsonStringify.StringifyFirst | index.test.js:60 | Stringified text starts with a character that is neither JSON white space nor a closing bracket. |
| JsonRoundTrip.ParseOfStringify | index.test.js:59-64 | JSON.parse(JSON.stringify(v)) is v for every value whose numbers are integers below 10^21 in magnitude, as in the test's object. |
| JsonRoundTrip.ParseStringified | index.js:25 | Within a longer text, the parser reads a stringified value back and stops right after it. |
| JsonRoundTrip.ParseArrayStringified | index.js:25 | A stringified array reads back as the same array. |
| JsonRoundTrip.ParseObjectStringified | index.js:25 | A stringified object reads back as the same object. |
| JsonRoundTrip.ParseItemsStringified | index.js:25 | The stringified items from one position on, then `]`, complete the array. |
| JsonRoundTrip.ParseMembersStringified | index.js:25 | The stringified members from one key on, then `}`, complete the object `m` and end right after the `}`. |
| JsonRoundTrip.ParseEscaped | index.js:25 | The parser undoes JSON string escaping. |
| JsonRoundTrip.ParseQuoted | index.js:25 | A quoted string reads back as the string. |
| JsonRoundTrip.ParseIntegerText | index.js:25 | The text of an integer reads back as that integer. |
| JsonRoundTrip.AssignMembers | index.js:25 | Assigning members one by one gives the union of the old and the new keys, and the new values win. |
| JsonRoundTrip.AssignAll | index.js:25 | Assigning every member of an object onto an empty one gives the object. |
| JsonRoundTrip.MembersStep | index.js:25 | After a member, `}` closes the object and `,` continues with the member added. |
| JsonRoundTrip.ItemParsed | index.js:25 | After an item, `]` closes the array and `,` continues with the item added. |
| JsonRoundTrip.EmptyContainer | index.js:25 | `[]` and `{}` read as the empty array and the empty object. |
| DeepSet.GetAfterSet | index.js:55 | Reading the path just written gives the value written. |
| DeepSet.GetAfterSetElsewhere | index.js:55 | Writing a path leaves every path that diverges from it unchanged. |
| DeepSet.SetMakesObjects | index.js:55 | Every proper prefix of the path written leads to an object, created when missing. |
| DeepSet.SetTopLevel | index.js:55 | Writing a path adds its first name to the top-level keys and changes no other top-level property. |
| DeepSet.SetTwice | index.js:55 | Writing the same path twice keeps only the second value. |
| DeepSet.SetCommutes | index.js:55 | Writes to diverging paths commute. |
| DeepSet.SetBeside | index.js:55 | A write under one top-level name commutes with replacing another. |
| DeepSet.SetAllReads | index.js:55 | After a series of writes, a path reads its value when every later write diverges from it. |
| DeepSet.EmptyHasNothing | index.js:55 | Nothing can be read from an empty object. |
| Deepenv.OverrideSticky | index.js:44-45 | `custom || current` keeps a chosen value: a later call with no option or an empty one keeps it, the same option again changes nothing, and a non-empty value never becomes empty. |
| Deepenv.DeepEnv.constructor | index.js:3-4 | The module starts with prefix `DEEPENV_` and delimiter `__`. |
| Deepenv.DeepEnv.Deepenv | index.js:40-58 | The call stores the overridden prefix and delimiter, keeps the delimiter non-empty, and returns the filter, map and reduce of the environment over a copy of the original. |
| Deepenv.StickyPrefix | index.js:44-45 | A custom prefix persists: a later call without options uses it and gives the same configuration. |
| Deepenv.IndexPropertiesEntries | index.js:57 | The copy of an array holds each element under its index, and no other property. |
| Deepenv.ShallowCopyOfString | index.js:57 | The copy of a string holds each character under its index, and no other property. |
| Deepenv.SliceAfterPrefix | index.js:52 | `slice(prefix.length)` of a text that starts with the prefix is the rest after it, and the prefix with that rest gives the text back; slicing past the end gives the empty string. |
| Deepenv.KeyPathPieces | index.js:50-55 | When the rest of the key holds no '.', its path is its pieces between delimiters. |
| Deepenv.KeyPathOfJoin | index.js:50-55 | A key whose lowered rest is pieces joined by the delimiter writes at exactly those pieces. |
| Deepenv.UpperCaseDelimiterNeverSplits | index.js:51-53 | The key is lowered before the split, so a delimiter with an upper-case letter never nests anything. |
| Deepenv.KeyPathOfPrefixed | index.js:50-55 | The prefix followed by words joined by the delimiter, none holding a '.' or the delimiter's first character once lowered, writes at the lowered words. |
| Deepenv.MultilevelKey | index.test.js:69 | `DEEPENV_LEVELONE__LEVELTWO__LEVELTHREE` writes at the path levelone, leveltwo, levelthree. |
| Deepenv.MultilevelExample | index.test.js:68-80 | That variable set to 'myvalue', without an original configuration, gives `{levelone: {leveltwo: {levelthree: 'myvalue'}}}`. |
| Deepenv.OuterKey | index.test.js:84 | `DEEPENV_OUTER__INNER__NUMBER` writes at the path outer, inner, number. |
| Deepenv.ToOverrideKey | index.test.js:85 | `DEEPENV_TO_OVERRIDE` writes at the single name to_override: a single '_' is no delimiter. |
| Deepenv.ConfigOfPair | index.js:49-56 | With two variables, the second selected one is deep-set over the configuration of the first. |
| Deepenv.MergeOuter | index.test.js:84-92 | The nested number 12 is added beside the original properties other_outer and to_override. |
| Deepenv.MergeExample | index.test.js:83-104 | Over `{other_outer: 2, to_override: 1}`, the two variables give `{other_outer: 2, outer: {inner: {number: 12}}, to_override: 4}`: the new value replaces the original's. |
| Deepenv.SelectedAppend | index.js:47 | The filter distributes over concatenation of environments. |
| Deepenv.IgnoresUnprefixed | index.js:47 | An entry whose name does not start with the prefix changes nothing, wherever it stands. |
| Deepenv.ConfigStep | index.js:46-57 | A longer environment's configuration is the shorter one's with the last entry deep-set when it is selected. |
| Deepenv.ConfigStepSelected | index.js:49-56 | A selected last entry is deep-set at its key's path, with its parsed value. |
| Deepenv.ConfigStepSkipped | index.js:47 | An unselected last entry leaves the configuration as it was. |
| Deepenv.FoldIsSetAll | index.js:49-56 | The fold over the entries is the series of writes at their paths, in order. |
| Deepenv.FoldReads | index.js:49-56 | After the fold, an entry's path reads its value when no later entry writes at, above or below it. |
| Deepenv.SelectedIndex | index.js:47 | A selected entry keeps its place among the selected entries, and every selected entry after it comes from later in the environment. |
| Deepenv.ReadsEntry | index.js:46-56 | A selected variable's path reads its parsed value when no later selected variable writes at, above or below it. When keys collide, the later one wins. |
| Deepenv.TopLevel | index.js:49-57 | The result's top-level keys are the original's plus the first names of the selected paths. Every original property that no path starts at keeps its value. |
| Deepenv.FoldTopLevel | index.js:49-56 | The fold adds the first name of each entry's path to the top-level keys and leaves the other top-level properties alone. |
| Deepenv.SelectedNames | index.js:47-48 | Parsing keeps the keys, so the first names of the parsed entries are those of the selected variables. |
| Deepenv.SameKeysNames | index.js:47-48 | Entries with the keys of the selected variables, in order, give the same first names. |
| Deepenv.ParsedLast | index.js:48 | The map step keeps each key in place. |

## Left out

- `process.env` is not read. The environment is a parameter: a sequence of
  (name, text) pairs in the order `Object.keys` lists them.
- Numbers are their exact mathematical values (or an infinity). IEEE-754 rounding,
  -0, and the limits of doubles are left out.
- NumberLiteral.StringToNumber: `0x`, `0o` and `0b` literals are read by value like
  the decimal ones, and `Infinity` is an infinity. No lemma states more about them
  than that they are accepted.
- DeepSet.SetPath models `_set` on plain objects, with the path split on '.'.
  The rest of lodash's path syntax is left out: brackets, numeric segments that
  create arrays, writing into arrays, and the lookup of a whole dotted key.
- Prototype keys such as `__proto__` are plain property names here.
- Deepenv.ShallowCopy gives the top-level properties of `Object.assign({},
  original)`. Objects nested inside `original` are shared by the result in the
  source, and a deep-set through them mutates `original`. Values in this model
  cannot alias, so that effect is not modelled. For the same reason, "the
  result is a new object" holds trivially.
- JsChars.LowerChar: toLowerCase is modelled for ASCII letters only. Mappings of
  other characters, including those that change a string's length and so shift
  `slice(prefix.length)`, are left out.
- `\u` escapes that name a lone UTF-16 surrogate are rejected by the JSON parser,
  because a Dafny `char` is a Unicode scalar value.
- JsonStringify.KeyOrder: the order in which JSON.stringify writes keys is some
  order of the keys, not the insertion order of the source object. Maps have no
  order.
- EnvValue.ParseEnvValueOfStringify and JsonRoundTrip.ParseOfStringify cover only
  values whose numbers are integers below 10^21 in magnitude. JSON.stringify
  writes other numbers, such as 0.5 or 1e21, in a form that depends on the
  shortest round-tripping decimal of a double, and doubles are not modelled.
- Options that are not strings, and a missing options object (`opts?.`), are
  modelled as an absent option.
- A value that starts with white space is usually described as kept verbatim.
  The code's `/^\s.*$/` keeps it only when no line terminator follows the first
  character, so " \n" becomes the number 0. The model follows the code
  (EnvValue.SpaceThenNewlineIsZero).
- The tests call `require('./index.js').config()`, and index.d.ts declares
  `config(original, options)`, but index.js exports `deepenv`. The tests'
  expectations are modelled against `deepenv`.
- index.d.ts holds type declarations only and is not otherwise modelled.
