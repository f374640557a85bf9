/** The upper-case words of the variable names in the tests, lowered. The names are
    written as concatenations of pieces of at most five letters, each lowered on its
    own. */
module KeyWords {
  import opened JsChars

  /** DEEPENV_LEVELONE__LEVELTWO__LEVELTHREE without its prefix. */
  lemma LevelsLowered()
    ensures ToLower("LEVEL" + "ONE" + "__" + "LEVEL" + "TWO" + "__" + "LEVEL" + "THREE")
         == "level" + "one" + "__" + "level" + "two" + "__" + "level" + "three"
  {
    ToLowerAppend("LEVEL", "ONE");
    ToLowerAppend("LEVEL" + "ONE", "__");
    ToLowerAppend("LEVEL" + "ONE" + "__", "LEVEL");
    ToLowerAppend("LEVEL" + "ONE" + "__" + "LEVEL", "TWO");
    ToLowerAppend("LEVEL" + "ONE" + "__" + "LEVEL" + "TWO", "__");
    ToLowerAppend("LEVEL" + "ONE" + "__" + "LEVEL" + "TWO" + "__", "LEVEL");
    ToLowerAppend("LEVEL" + "ONE" + "__" + "LEVEL" + "TWO" + "__" + "LEVEL", "THREE");
    assert ToLower("LEVEL") == "level";
    assert ToLower("ONE") == "one";
    assert ToLower("TWO") == "two";
    assert ToLower("THREE") == "three";
    assert ToLower("__") == "__";
  }

  /** DEEPENV_OUTER__INNER__NUMBER without its prefix. */
  lemma OuterLowered()
    ensures ToLower("OUTER" + "__" + "INNER" + "__" + "NUMBE" + "R") == "outer" + "__" + "inner" + "__" + "numbe" + "r"
  {
    ToLowerAppend("OUTER", "__");
    ToLowerAppend("OUTER" + "__", "INNER");
    ToLowerAppend("OUTER" + "__" + "INNER", "__");
    ToLowerAppend("OUTER" + "__" + "INNER" + "__", "NUMBE");
    ToLowerAppend("OUTER" + "__" + "INNER" + "__" + "NUMBE", "R");
    assert ToLower("OUTER") == "outer";
    assert ToLower("INNER") == "inner";
    assert ToLower("NUMBE") == "numbe";
    assert ToLower("R") == "r";
    assert ToLower("__") == "__";
  }

  /** DEEPENV_TO_OVERRIDE without its prefix. */
  lemma ToOverrideLowered()
    ensures ToLower("TO_" + "OVER" + "RIDE") == "to_" + "over" + "ride"
  {
    ToLowerAppend("TO_", "OVER");
    ToLowerAppend("TO_" + "OVER", "RIDE");
    assert ToLower("TO_") == "to_";
    assert ToLower("OVER") == "over";
    assert ToLower("RIDE") == "ride";
  }
}

/** deepenv: the configuration object built from the environment variables whose name
    starts with a prefix, each nested along the path its name spells, over a shallow
    copy of an original configuration. The prefix and the nesting delimiter are state
    that every call may replace and that later calls keep. */
module Deepenv {
  import opened JsValues
  import opened JsChars
  import opened Numerals
  import opened JsStrings
  import opened EnvValue
  import opened DeepSet
  import opened KeyWords

  /** The values of the module-level `prefix` and `nesting_delimiter` at load time,
      which is also what `exports.prefix` and `exports.nesting_delimiter` hold. */
  const DefaultPrefix: string := "DEEPENV_"
  const DefaultNestingDelimiter: string := "__"

  /** The `opts` argument: `custom_prefix` and `custom_nesting_delimiter`, each absent
      (as when `opts` itself is undefined) or a string. */
  datatype Options = Options(customPrefix: Option<string>, customNestingDelimiter: Option<string>)

  /** `custom || current`: a string option replaces the current value when it is
      truthy, that is, present and not empty. */
  function Override(custom: Option<string>, current: string): (r: string)
    ensures custom.Some? && custom.value != "" ==> r == custom.value
    ensures custom.None? || custom.value == "" ==> r == current
  {
    if custom.Some? && custom.value != "" then custom.value else current
  }

  /** The options are sticky: a value once chosen is kept by a later call without that
      option, is not changed by giving the same option again, and a non-empty current
      value never becomes empty. */
  lemma OverrideSticky(custom: Option<string>, current: string)
    ensures Override(None, Override(custom, current)) == Override(custom, current)
    ensures Override(Some(""), Override(custom, current)) == Override(custom, current)
    ensures Override(custom, Override(custom, current)) == Override(custom, current)
    ensures current != "" ==> Override(custom, current) != ""
  {
  }

  // ---------------------------------------------------------------------------
  // Object.assign({}, original)
  // ---------------------------------------------------------------------------

  /** Properties named "0", "1", ... holding the given values in order. */
  function IndexProperties(vals: seq<Value>): (r: map<string, Value>)
    decreases |vals|
  {
    if vals == [] then map[]
    else IndexProperties(vals[..|vals| - 1])[NatToString(|vals| - 1) := vals[|vals| - 1]]
  }

  /** The own enumerable properties Object.assign copies from `original` onto a new
      object: the fields of an object, the elements of an array and the characters of
      a string under their indices, and nothing from any other value. */
  function ShallowCopy(original: Value): map<string, Value>
  {
    match original
    case Obj(fields) => fields
    case Arr(items) => IndexProperties(items)
    case Str(t) => IndexProperties(seq(|t|, k requires 0 <= k < |t| => Str([t[k]])))
    case _ => map[]
  }

  /** The properties of IndexProperties are exactly the indices of the values, each
      holding its own value. */
  lemma {:induction false} IndexPropertiesEntries(vals: seq<Value>)
    ensures forall k :: 0 <= k < |vals| ==>
      NatToString(k) in IndexProperties(vals) && IndexProperties(vals)[NatToString(k)] == vals[k]
    ensures forall name :: name in IndexProperties(vals) ==>
      exists k :: 0 <= k < |vals| && name == NatToString(k)
    decreases |vals|
  {
    if vals != [] {
      var n := |vals| - 1;
      var init := vals[..n];
      var props := IndexProperties(vals);
      IndexPropertiesEntries(init);
      assert props == IndexProperties(init)[NatToString(n) := vals[n]];
      forall k | 0 <= k < |vals|
        ensures NatToString(k) in props && props[NatToString(k)] == vals[k]
      {
        if k < n {
          if NatToString(k) == NatToString(n) {
            NatToStringInjective(k, n);
          }
          assert init[k] == vals[k];
        }
      }
      forall name | name in props
        ensures exists k :: 0 <= k < |vals| && name == NatToString(k)
      {
        if name == NatToString(n) {
          assert 0 <= n < |vals|;
        } else {
          var k :| 0 <= k < |init| && name == NatToString(k);
          assert 0 <= k < |vals|;
        }
      }
    }
  }

  /** The copy of a string holds its characters under their indices. */
  lemma ShallowCopyOfString(t: string)
    ensures forall k :: 0 <= k < |t| ==>
      NatToString(k) in ShallowCopy(Str(t)) && ShallowCopy(Str(t))[NatToString(k)] == Str([t[k]])
    ensures forall name :: name in ShallowCopy(Str(t)) ==>
      exists k :: 0 <= k < |t| && name == NatToString(k)
  {
    IndexPropertiesEntries(seq(|t|, k requires 0 <= k < |t| => Str([t[k]])));
  }

  // ---------------------------------------------------------------------------
  // Keys and paths
  // ---------------------------------------------------------------------------

  /** String.prototype.slice(n) for a non-negative n. */
  function Slice(s: string, n: nat): (r: string)
    ensures n <= |s| ==> r == s[n..]
    ensures n > |s| ==> r == ""
  {
    if n <= |s| then s[n..] else ""
  }

  /** Slicing off a prefix's length from a text that starts with it leaves the rest of
      the text, and the prefix with the rest gives the text back. */
  lemma SliceAfterPrefix(a: string, b: string)
    ensures Slice(a + b, |a|) == b
    ensures a + Slice(a + b, |a|) == a + b
    ensures |Slice(a + b, |a| + |b| + 1)| == 0
  {
    assert (a + b)[|a|..] == b;
  }

  /** The path a key writes to: the key in lower case without its first
      `|prefix|` characters, split on the delimiter, joined with '.', and read by
      lodash.set as property names between dots. */
  function KeyPath(key: string, prefix: string, delimiter: string): (path: seq<string>)
    requires |delimiter| > 0
    ensures |path| > 0
  {
    Split(Join(Split(Slice(ToLower(key), |prefix|), delimiter), "."), ".")
  }

  /** When the rest of the key has no '.', the path is the pieces between the
      delimiters. */
  lemma KeyPathPieces(key: string, prefix: string, delimiter: string)
    requires |delimiter| > 0 && '.' !in Slice(ToLower(key), |prefix|)
    ensures KeyPath(key, prefix, delimiter) == Split(Slice(ToLower(key), |prefix|), delimiter)
  {
    var rest := Slice(ToLower(key), |prefix|);
    SplitPiecesWithin(rest, delimiter);
    SplitJoin(Split(rest, delimiter), ".");
  }

  /** The key is lowered before it is split, so a delimiter with an upper-case letter
      never occurs in it and nests nothing. */
  lemma UpperCaseDelimiterNeverSplits(key: string, prefix: string, delimiter: string)
    requires |delimiter| > 0 && exists k :: 0 <= k < |delimiter| && 'A' <= delimiter[k] <= 'Z'
    ensures KeyPath(key, prefix, delimiter) == Split(Slice(ToLower(key), |prefix|), ".")
  {
    var rest := Slice(ToLower(key), |prefix|);
    ToLowerChars(key);
    var k :| 0 <= k < |delimiter| && 'A' <= delimiter[k] <= 'Z';
    forall i | 0 <= i <= |rest|
      ensures !OccursAt(rest, delimiter, i)
    {
      if i + |delimiter| <= |rest| {
        assert rest[i + k] == ToLower(key)[|prefix| + i + k];
        assert rest[i..i + |delimiter|][k] != delimiter[k];
      }
    }
    SplitWithoutSeparator(rest, delimiter);
  }

  // ---------------------------------------------------------------------------
  // The configuration
  // ---------------------------------------------------------------------------

  /** The entries whose key starts with the prefix, in their order. */
  function Selected(env: seq<(string, string)>, prefix: string): (sel: seq<(string, string)>)
    decreases |env|
  {
    if env == [] then []
    else
      var last := env[|env| - 1];
      Selected(env[..|env| - 1], prefix) + if StartsWith(last.0, prefix) then [last] else []
  }

  /** The map step: each selected key with the parsed value of its text. */
  function Parsed(entries: seq<(string, string)>): (r: seq<(string, Value)>)
    ensures |r| == |entries|
  {
    seq(|entries|, k requires 0 <= k < |entries| => (entries[k].0, ParseEnvValue(entries[k].1)))
  }

  /** The reduce: each entry's value set at its key's path, in order. */
  function Fold(acc: map<string, Value>, entries: seq<(string, Value)>, prefix: string, delimiter: string): map<string, Value>
    requires |delimiter| > 0
    decreases |entries|
  {
    if entries == [] then acc
    else
      var last := entries[|entries| - 1];
      SetPath(Fold(acc, entries[..|entries| - 1], prefix, delimiter), KeyPath(last.0, prefix, delimiter), last.1)
  }

  /** One more step of the reduce: the fold over one more entry writes that entry's
      value at its key path. */
  lemma FoldStep(acc: map<string, Value>, entries: seq<(string, Value)>, prefix: string, delimiter: string, i: nat)
    requires |delimiter| > 0 && i < |entries|
    ensures Fold(acc, entries[..i + 1], prefix, delimiter)
         == SetPath(Fold(acc, entries[..i], prefix, delimiter), KeyPath(entries[i].0, prefix, delimiter), entries[i].1)
  {
    assert entries[..i + 1][..i] == entries[..i];
  }

  /** What deepenv returns for an environment, given the prefix and the delimiter in
      force once the options are applied: filter, map, then reduce over a copy of the
      original. */
  function Config(original: Value, prefix: string, delimiter: string, env: seq<(string, string)>): map<string, Value>
    requires |delimiter| > 0
  {
    Fold(ShallowCopy(original), Parsed(Selected(env, prefix)), prefix, delimiter)
  }

  /** The first property name of the path of each selected key. */
  ghost function TopNames(env: seq<(string, string)>, prefix: string, delimiter: string): set<string>
    requires |delimiter| > 0
    decreases |env|
  {
    if env == [] then {}
    else
      var last := env[|env| - 1];
      TopNames(env[..|env| - 1], prefix, delimiter)
        + if StartsWith(last.0, prefix) then {KeyPath(last.0, prefix, delimiter)[0]} else {}
  }

  /** The first property name of the path of each entry's key. */
  ghost function FirstNames(entries: seq<(string, Value)>, prefix: string, delimiter: string): set<string>
    requires |delimiter| > 0
    decreases |entries|
  {
    if entries == [] then {}
    else FirstNames(entries[..|entries| - 1], prefix, delimiter) + {KeyPath(entries[|entries| - 1].0, prefix, delimiter)[0]}
  }

  /** The module state and the entry point. */
  class DeepEnv {
    var prefix: string
    var nestingDelimiter: string

    /** The delimiter starts non-empty and only a non-empty option replaces it. */
    predicate Valid()
      reads this
    {
      |nestingDelimiter| > 0
    }

    constructor ()
      ensures Valid()
      ensures prefix == DefaultPrefix && nestingDelimiter == DefaultNestingDelimiter
    {
      prefix := DefaultPrefix;
      nestingDelimiter := DefaultNestingDelimiter;
    }

    /** deepenv(original, opts), with the environment given as its entries in the
        order Object.keys lists them. */
    method Deepenv(original: Value, opts: Options, env: seq<(string, string)>) returns (config: map<string, Value>)
      requires Valid()
      modifies this
      ensures Valid()
      ensures prefix == Override(opts.customPrefix, old(prefix))
      ensures nestingDelimiter == Override(opts.customNestingDelimiter, old(nestingDelimiter))
      ensures config == Config(original, prefix, nestingDelimiter, env)
    {
      prefix := Override(opts.customPrefix, prefix);
      nestingDelimiter := Override(opts.customNestingDelimiter, nestingDelimiter);
      var p, d := prefix, nestingDelimiter;
      var entries := Parsed(Selected(env, p));
      var obj := ShallowCopy(original);
      var i := 0;
      while i < |entries|
        invariant i <= |entries|
        invariant prefix == p && nestingDelimiter == d
        invariant obj == Fold(ShallowCopy(original), entries[..i], p, d)
      {
        var (key, value) := entries[i];
        FoldStep(ShallowCopy(original), entries, p, d, i);
        obj := SetPath(obj, KeyPath(key, p, d), value);
        i := i + 1;
      }
      assert entries[..|entries|] == entries;
      config := obj;
    }
  }

  // ---------------------------------------------------------------------------
  // Properties of the configuration
  // ---------------------------------------------------------------------------

  /** Filtering distributes over concatenation. */
  lemma {:induction false} SelectedAppend(a: seq<(string, string)>, b: seq<(string, string)>, prefix: string)
    ensures Selected(a + b, prefix) == Selected(a, prefix) + Selected(b, prefix)
    decreases |b|
  {
    if b == [] {
      assert a + b == a;
    } else {
      var n := |b| - 1;
      SelectedAppend(a, b[..n], prefix);
      assert (a + b)[..|a + b| - 1] == a + b[..n];
      assert (a + b)[|a + b| - 1] == b[n];
    }
  }

  /** An entry whose key does not start with the prefix contributes nothing, wherever
      it stands. */
  lemma IgnoresUnprefixed(original: Value, prefix: string, delimiter: string,
                          a: seq<(string, string)>, e: (string, string), b: seq<(string, string)>)
    requires |delimiter| > 0 && !StartsWith(e.0, prefix)
    ensures Config(original, prefix, delimiter, a + [e] + b) == Config(original, prefix, delimiter, a + b)
  {
    SelectedAppend(a + [e], b, prefix);
    SelectedAppend(a, [e], prefix);
    SelectedAppend(a, b, prefix);
    assert Selected([e], prefix) == [] by {
      assert [e][..0] == [];
    }
    assert Selected(a + [e] + b, prefix) == Selected(a + b, prefix);
  }

  /** The writes the reduce performs: each entry's key path with its value. */
  function Writes(entries: seq<(string, Value)>, prefix: string, delimiter: string): (w: seq<(seq<string>, Value)>)
    requires |delimiter| > 0
    ensures |w| == |entries|
    ensures forall k :: 0 <= k < |w| ==> w[k] == (KeyPath(entries[k].0, prefix, delimiter), entries[k].1)
  {
    seq(|entries|, k requires 0 <= k < |entries| => (KeyPath(entries[k].0, prefix, delimiter), entries[k].1))
  }

  /** The reduce is the run of `_set` calls on those writes. */
  lemma {:induction false} FoldIsSetAll(acc: map<string, Value>, entries: seq<(string, Value)>, prefix: string, delimiter: string)
    requires |delimiter| > 0
    ensures Fold(acc, entries, prefix, delimiter) == SetAll(acc, Writes(entries, prefix, delimiter))
    decreases |entries|
  {
    if entries != [] {
      var n := |entries| - 1;
      assert Writes(entries, prefix, delimiter)[..n] == Writes(entries[..n], prefix, delimiter);
      FoldIsSetAll(acc, entries[..n], prefix, delimiter);
    }
  }

  /** Reading the path of an entry after the fold gives that entry's value, as long as
      no later entry writes at, above or below that path. */
  lemma FoldReads(acc: map<string, Value>, entries: seq<(string, Value)>,
                  prefix: string, delimiter: string, j: nat)
    requires |delimiter| > 0 && j < |entries|
    requires forall l :: j < l < |entries| ==>
      Diverge(KeyPath(entries[l].0, prefix, delimiter), KeyPath(entries[j].0, prefix, delimiter))
    ensures GetPath(Fold(acc, entries, prefix, delimiter), KeyPath(entries[j].0, prefix, delimiter)) == Some(entries[j].1)
  {
    FoldIsSetAll(acc, entries, prefix, delimiter);
    SetAllReads(acc, Writes(entries, prefix, delimiter), j);
  }

  /** Where a selected entry lands among the selected entries, and that every selected
      entry after it comes from later in the environment. */
  lemma {:induction false} SelectedIndex(env: seq<(string, string)>, prefix: string, j: nat) returns (sj: nat)
    requires j < |env| && StartsWith(env[j].0, prefix)
    ensures sj < |Selected(env, prefix)| && Selected(env, prefix)[sj] == env[j]
    ensures forall l' :: sj < l' < |Selected(env, prefix)| ==>
      Selected(env, prefix)[l'] in env[j + 1..] && StartsWith(Selected(env, prefix)[l'].0, prefix)
    decreases |env|
  {
    var n := |env| - 1;
    var init := env[..n];
    var sel := Selected(env, prefix);
    var before := Selected(init, prefix);
    if j == n {
      assert sel == before + [env[n]];
      sj := |before|;
    } else {
      assert init[j] == env[j];
      sj := SelectedIndex(init, prefix, j);
      assert sel == before + if StartsWith(env[n].0, prefix) then [env[n]] else [];
      assert sel[sj] == before[sj];
      assert init[j + 1..] <= env[j + 1..];
      forall l' | sj < l' < |sel|
        ensures sel[l'] in env[j + 1..] && StartsWith(sel[l'].0, prefix)
      {
        if l' < |before| {
          assert sel[l'] == before[l'];
        } else {
          assert sel[l'] == env[n] == env[j + 1..][n - j - 1];
        }
      }
    }
  }

  /** The value of a selected entry is what its path reads in the configuration, as
      long as no later selected entry writes at, above or below that path: when keys
      collide, the later one wins. */
  lemma ReadsEntry(original: Value, prefix: string, delimiter: string, env: seq<(string, string)>, j: nat)
    requires |delimiter| > 0 && j < |env| && StartsWith(env[j].0, prefix)
    requires forall l :: j < l < |env| && StartsWith(env[l].0, prefix) ==>
      Diverge(KeyPath(env[l].0, prefix, delimiter), KeyPath(env[j].0, prefix, delimiter))
    ensures GetPath(Config(original, prefix, delimiter, env), KeyPath(env[j].0, prefix, delimiter))
         == Some(ParseEnvValue(env[j].1))
  {
    var sel := Selected(env, prefix);
    var entries := Parsed(sel);
    var sj := SelectedIndex(env, prefix, j);
    forall l' | sj < l' < |entries|
      ensures Diverge(KeyPath(entries[l'].0, prefix, delimiter), KeyPath(entries[sj].0, prefix, delimiter))
    {
      assert entries[l'].0 == sel[l'].0;
      var i :| 0 <= i < |env[j + 1..]| && env[j + 1..][i] == sel[l'];
      assert env[j + 1 + i] == sel[l'];
    }
    FoldReads(ShallowCopy(original), entries, prefix, delimiter, sj);
  }

  /** The configuration of a longer environment is that of the shorter one with the
      last entry applied when it is selected. */
  lemma ConfigStep(original: Value, prefix: string, delimiter: string, env: seq<(string, string)>)
    requires |delimiter| > 0 && |env| > 0
    ensures var last := env[|env| - 1];
      var before := Config(original, prefix, delimiter, env[..|env| - 1]);
      Config(original, prefix, delimiter, env)
        == if StartsWith(last.0, prefix) then SetPath(before, KeyPath(last.0, prefix, delimiter), ParseEnvValue(last.1))
           else before
  {
    if StartsWith(env[|env| - 1].0, prefix) {
      ConfigStepSelected(original, prefix, delimiter, env);
    } else {
      ConfigStepSkipped(original, prefix, delimiter, env);
    }
  }

  lemma ConfigStepSelected(original: Value, prefix: string, delimiter: string, env: seq<(string, string)>)
    requires |delimiter| > 0 && |env| > 0 && StartsWith(env[|env| - 1].0, prefix)
    ensures Config(original, prefix, delimiter, env)
         == SetPath(Config(original, prefix, delimiter, env[..|env| - 1]),
                    KeyPath(env[|env| - 1].0, prefix, delimiter), ParseEnvValue(env[|env| - 1].1))
  {
    var last := env[|env| - 1];
    var sel := Selected(env, prefix);
    var init := Selected(env[..|env| - 1], prefix);
    assert sel == init + [last];
    assert sel[..|sel| - 1] == init;
    var entries := Parsed(sel);
    assert entries[..|entries| - 1] == Parsed(init);
  }

  lemma ConfigStepSkipped(original: Value, prefix: string, delimiter: string, env: seq<(string, string)>)
    requires |delimiter| > 0 && |env| > 0 && !StartsWith(env[|env| - 1].0, prefix)
    ensures Config(original, prefix, delimiter, env) == Config(original, prefix, delimiter, env[..|env| - 1])
  {
    assert Selected(env, prefix) == Selected(env[..|env| - 1], prefix);
  }

  /** The top-level properties of the configuration are those of the copy of the
      original and the first names of the selected paths; a property no path starts
      with keeps the value it had in the original. */
  lemma TopLevel(original: Value, prefix: string, delimiter: string, env: seq<(string, string)>)
    requires |delimiter| > 0
    ensures Config(original, prefix, delimiter, env).Keys == ShallowCopy(original).Keys + TopNames(env, prefix, delimiter)
    ensures forall name :: name in ShallowCopy(original) && name !in TopNames(env, prefix, delimiter) ==>
      Config(original, prefix, delimiter, env)[name] == ShallowCopy(original)[name]
  {
    var entries := Parsed(Selected(env, prefix));
    FoldTopLevel(ShallowCopy(original), entries, prefix, delimiter);
    SelectedNames(env, prefix, delimiter);
  }

  /** The reduce adds the first name of each entry's path to the properties it starts
      from, and changes no other property. */
  lemma {:induction false} FoldTopLevel(acc: map<string, Value>, entries: seq<(string, Value)>, prefix: string, delimiter: string)
    requires |delimiter| > 0
    ensures Fold(acc, entries, prefix, delimiter).Keys == acc.Keys + FirstNames(entries, prefix, delimiter)
    ensures forall name :: name in acc && name !in FirstNames(entries, prefix, delimiter) ==>
      Fold(acc, entries, prefix, delimiter)[name] == acc[name]
    decreases |entries|
  {
    if entries != [] {
      var n := |entries| - 1;
      FoldTopLevel(acc, entries[..n], prefix, delimiter);
      SetTopLevel(Fold(acc, entries[..n], prefix, delimiter), KeyPath(entries[n].0, prefix, delimiter), entries[n].1);
    }
  }

  /** Parsing the entries keeps each key: the last parsed entry has the last key, and
      the others are the parsed earlier entries. */
  lemma ParsedLast(entries: seq<(string, string)>)
    requires |entries| > 0
    ensures Parsed(entries)[..|entries| - 1] == Parsed(entries[..|entries| - 1])
    ensures Parsed(entries)[|entries| - 1].0 == entries[|entries| - 1].0
  {
  }

  /** The keys of the parsed entries are those of the selected entries, and so their
      first names are TopNames. */
  lemma SelectedNames(env: seq<(string, string)>, prefix: string, delimiter: string)
    requires |delimiter| > 0
    ensures FirstNames(Parsed(Selected(env, prefix)), prefix, delimiter) == TopNames(env, prefix, delimiter)
  {
    var sel := Selected(env, prefix);
    SameKeysNames(env, prefix, delimiter, Parsed(sel));
  }

  /** Entries with the keys of the selected variables, whatever their values, have the
      first names TopNames. */
  lemma {:induction false} SameKeysNames(env: seq<(string, string)>, prefix: string, delimiter: string,
                                         entries: seq<(string, Value)>)
    requires |delimiter| > 0 && |entries| == |Selected(env, prefix)|
    requires forall k :: 0 <= k < |entries| ==> entries[k].0 == Selected(env, prefix)[k].0
    ensures FirstNames(entries, prefix, delimiter) == TopNames(env, prefix, delimiter)
    decreases |env|
  {
    if env != [] {
      var n := |env| - 1;
      var init := env[..n];
      var sel := Selected(env, prefix);
      if StartsWith(env[n].0, prefix) {
        assert sel == Selected(init, prefix) + [env[n]];
        var m := |entries| - 1;
        forall k | 0 <= k < m
          ensures entries[..m][k].0 == Selected(init, prefix)[k].0
        {
          assert sel[k] == Selected(init, prefix)[k];
        }
        SameKeysNames(init, prefix, delimiter, entries[..m]);
        assert entries[m].0 == env[n].0 by {
          assert sel[m] == env[n];
        }
      } else {
        assert sel == Selected(init, prefix);
        SameKeysNames(init, prefix, delimiter, entries);
      }
    }
  }

  /** A key whose part after the prefix lowers to pieces joined by the delimiter writes
      at the path of those pieces, when no piece holds a '.' or the delimiter's first
      character. */
  lemma KeyPathOfJoin(key: string, prefix: string, delimiter: string, parts: seq<string>)
    requires |delimiter| > 0 && |parts| > 0 && |prefix| <= |key|
    requires ToLower(key[|prefix|..]) == Join(parts, delimiter)
    requires forall k :: 0 <= k < |parts| ==> delimiter[0] !in parts[k] && '.' !in parts[k]
    ensures KeyPath(key, prefix, delimiter) == parts
  {
    var rest := Slice(ToLower(key), |prefix|);
    ToLowerChars(key);
    ToLowerChars(key[|prefix|..]);
    assert rest == ToLower(key[|prefix|..]);
    SplitJoin(parts, delimiter);
    SplitJoin(parts, ".");
  }

  /** A key made of the prefix and pieces joined by the delimiter, none of which holds a
      '.' or the delimiter's first character once lowered, writes at the lowered
      pieces. */
  lemma KeyPathOfPrefixed(prefix: string, rest: string, delimiter: string, parts: seq<string>)
    requires |delimiter| > 0 && |parts| > 0 && ToLower(rest) == Join(parts, delimiter)
    requires forall k :: 0 <= k < |parts| ==> delimiter[0] !in parts[k] && '.' !in parts[k]
    ensures KeyPath(prefix + rest, prefix, delimiter) == parts
  {
    ToLowerAppend(prefix, rest);
    SliceAfterPrefix(ToLower(prefix), ToLower(rest));
    SplitJoin(parts, delimiter);
    SplitJoin(parts, ".");
  }

  /** DEEPENV_LEVELONE__LEVELTWO__LEVELTHREE writes three levels deep. */
  lemma MultilevelKey()
    ensures KeyPath(DefaultPrefix + ("LEVEL" + "ONE" + "__" + "LEVEL" + "TWO" + "__" + "LEVEL" + "THREE"),
                    DefaultPrefix, DefaultNestingDelimiter)
         == ["levelone", "leveltwo", "levelthree"]
  {
    var parts := ["levelone", "leveltwo", "levelthree"];
    LevelsLowered();
    assert "level" + "one" + "__" + "level" + "two" + "__" + "level" + "three"
        == Join(parts, DefaultNestingDelimiter);
    KeyPathOfPrefixed(DefaultPrefix, "LEVEL" + "ONE" + "__" + "LEVEL" + "TWO" + "__" + "LEVEL" + "THREE",
                      DefaultNestingDelimiter, parts);
  }

  /** The variable DEEPENV_LEVELONE__LEVELTWO__LEVELTHREE of the tests set to 'myvalue',
      with no original configuration: the objects along its path are created. */
  lemma MultilevelExample()
    ensures Config(Undefined, DefaultPrefix, DefaultNestingDelimiter,
                   [(DefaultPrefix + ("LEVEL" + "ONE" + "__" + "LEVEL" + "TWO" + "__" + "LEVEL" + "THREE"), "myvalue")])
         == map["levelone" := Obj(map["leveltwo" := Obj(map["levelthree" := Str("myvalue")])])]
  {
    var env := [(DefaultPrefix + ("LEVEL" + "ONE" + "__" + "LEVEL" + "TWO" + "__" + "LEVEL" + "THREE"), "myvalue")];
    MultilevelKey();
    PlainText("myvalue");
    assert StartsWith(env[0].0, DefaultPrefix);
    ConfigStepSelected(Undefined, DefaultPrefix, DefaultNestingDelimiter, env);
    assert env[..0] == [];
    assert Config(Undefined, DefaultPrefix, DefaultNestingDelimiter, []) == map[];
    var path := ["levelone", "leveltwo", "levelthree"];
    assert SetPath(map[], path[2..], Str("myvalue")) == map["levelthree" := Str("myvalue")];
    assert SetPath(map[], path[1..], Str("myvalue"))
        == map["leveltwo" := Obj(map["levelthree" := Str("myvalue")])];
  }

  /** DEEPENV_OUTER__INNER__NUMBER writes three levels deep. */
  lemma OuterKey()
    ensures KeyPath(DefaultPrefix + ("OUTER" + "__" + "INNER" + "__" + "NUMBE" + "R"), DefaultPrefix, DefaultNestingDelimiter)
         == ["outer", "inner", "number"]
  {
    var parts := ["outer", "inner", "number"];
    OuterLowered();
    assert "outer" + "__" + "inner" + "__" + "numbe" + "r" == Join(parts, DefaultNestingDelimiter);
    KeyPathOfPrefixed(DefaultPrefix, "OUTER" + "__" + "INNER" + "__" + "NUMBE" + "R", DefaultNestingDelimiter, parts);
  }

  /** "to_override" holds a single '_' at a time, never the default delimiter. */
  lemma ToOverrideUndelimited()
    ensures !Contains("to_" + "over" + "ride", DefaultNestingDelimiter)
  {
    var rest := "to_" + "over" + "ride";
    assert rest == "to_override";
    forall i | 0 <= i <= |rest| ensures !OccursAt(rest, DefaultNestingDelimiter, i) {
      if i + 2 <= |rest| {
        assert rest[i..i + 2][0] == rest[i] && rest[i..i + 2][1] == rest[i + 1];
      }
    }
  }

  /** A single '_' is no delimiter: DEEPENV_TO_OVERRIDE names one property. */
  lemma ToOverrideKey()
    ensures KeyPath(DefaultPrefix + ("TO_" + "OVER" + "RIDE"), DefaultPrefix, DefaultNestingDelimiter) == ["to_override"]
  {
    var rest := "to_" + "over" + "ride";
    ToLowerAppend(DefaultPrefix, "TO_" + "OVER" + "RIDE");
    ToOverrideLowered();
    SliceAfterPrefix(ToLower(DefaultPrefix), rest);
    assert rest == "to_override";
    ToOverrideUndelimited();
    SplitWithoutSeparator(rest, DefaultNestingDelimiter);
    KeyPathPieces(DefaultPrefix + ("TO_" + "OVER" + "RIDE"), DefaultPrefix, DefaultNestingDelimiter);
  }

  /** The original configuration of the merge test, {other_outer: 2, to_override: 1}. */
  function MergeOriginal(): Value
  {
    Obj(map["other_outer" := Num(Finite(2.0)), "to_override" := Num(Finite(1.0))])
  }

  /** The first variable of the merge test nests its number beside the original's
      properties. */
  lemma MergeOuter()
    ensures Config(MergeOriginal(), DefaultPrefix, DefaultNestingDelimiter, [(DefaultPrefix + ("OUTER" + "__" + "INNER" + "__" + "NUMBE" + "R"), "12")])
         == map["other_outer" := Num(Finite(2.0)), "to_override" := Num(Finite(1.0)),
                "outer" := Obj(map["inner" := Obj(map["number" := Num(Finite(12.0))])])]
  {
    var env := [(DefaultPrefix + ("OUTER" + "__" + "INNER" + "__" + "NUMBE" + "R"), "12")];
    var p, d := DefaultPrefix, DefaultNestingDelimiter;
    OuterKey();
    TwelveExample();
    assert StartsWith(env[0].0, p);
    ConfigStepSelected(MergeOriginal(), p, d, env);
    assert env[..0] == [];
    var copy := ShallowCopy(MergeOriginal());
    assert Config(MergeOriginal(), p, d, []) == copy;
    var path := ["outer", "inner", "number"];
    var twelve := Num(Finite(12.0));
    assert SetPath(map[], path[2..], twelve) == map["number" := twelve];
    assert SetPath(map[], path[1..], twelve) == map["inner" := Obj(map["number" := twelve])];
    assert Child(copy, "outer") == map[];
  }

  /** A second selected variable is set over the configuration of the first. */
  lemma ConfigOfPair(original: Value, prefix: string, delimiter: string, e1: (string, string), e2: (string, string),
                     path: seq<string>, v: Value)
    requires |delimiter| > 0 && StartsWith(e2.0, prefix)
    requires KeyPath(e2.0, prefix, delimiter) == path && ParseEnvValue(e2.1) == v
    ensures Config(original, prefix, delimiter, [e1, e2]) == SetPath(Config(original, prefix, delimiter, [e1]), path, v)
  {
    ConfigStepSelected(original, prefix, delimiter, [e1, e2]);
    assert [e1, e2][..1] == [e1];
  }

  /** The merge test: DEEPENV_OUTER__INNER__NUMBER='12' and DEEPENV_TO_OVERRIDE='4'
      over {other_outer: 2, to_override: 1}. The nested value is added beside the
      untouched property, and the other replaces the original's value under the same
      name. */
  lemma MergeExample()
    ensures Config(MergeOriginal(), DefaultPrefix, DefaultNestingDelimiter, [(DefaultPrefix + ("OUTER" + "__" + "INNER" + "__" + "NUMBE" + "R"), "12"), (DefaultPrefix + ("TO_" + "OVER" + "RIDE"), "4")])
         == map["other_outer" := Num(Finite(2.0)),
                "outer" := Obj(map["inner" := Obj(map["number" := Num(Finite(12.0))])]),
                "to_override" := Num(Finite(4.0))]
  {
    MergeOverride();
    MergeOuter();
  }

  /** The second variable of the merge test sets "to_override" over the first's
      configuration. */
  lemma MergeOverride()
    ensures Config(MergeOriginal(), DefaultPrefix, DefaultNestingDelimiter, [(DefaultPrefix + ("OUTER" + "__" + "INNER" + "__" + "NUMBE" + "R"), "12"), (DefaultPrefix + ("TO_" + "OVER" + "RIDE"), "4")])
         == SetPath(Config(MergeOriginal(), DefaultPrefix, DefaultNestingDelimiter, [(DefaultPrefix + ("OUTER" + "__" + "INNER" + "__" + "NUMBE" + "R"), "12")]),
                    ["to_override"], Num(Finite(4.0)))
  {
    ToOverrideKey();
    FourExample();
    ConfigOfPair(MergeOriginal(), DefaultPrefix, DefaultNestingDelimiter, (DefaultPrefix + ("OUTER" + "__" + "INNER" + "__" + "NUMBE" + "R"), "12"), (DefaultPrefix + ("TO_" + "OVER" + "RIDE"), "4"),
                 ["to_override"], Num(Finite(4.0)));
  }

  /** Overrides are sticky: a custom prefix given to one call is still in force in the
      next call made without options, and so is the default delimiter. */
  method StickyPrefix(env: seq<(string, string)>) returns (first: map<string, Value>, second: map<string, Value>)
    ensures first == Config(Undefined, "APP_", DefaultNestingDelimiter, env)
    ensures second == first
  {
    var state := new DeepEnv();
    first := state.Deepenv(Undefined, Options(Some("APP_"), None), env);
    second := state.Deepenv(Undefined, Options(None, None), env);
  }
}
