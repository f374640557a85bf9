/** The values that flow through deepenv: what parseEnvValue returns, what JSON.parse
    builds, and what the configuration object holds. */
module JsValues {

  datatype Option<+T> = None | Some(value: T)

  /** A JavaScript number, kept as the exact mathematical value of the literal it was
      read from. Rounding to an IEEE-754 double (and the sign of zero) is not modelled. */
  datatype Number = Finite(mv: real) | Infinity(negative: bool)

  /** A JavaScript value as it can appear in a configuration object. Objects are maps
      from property names to values; the insertion order of their keys is not modelled. */
  datatype Value =
    | Undefined
    | Null
    | Bool(b: bool)
    | Num(n: Number)
    | Str(s: string)
    | Arr(items: seq<Value>)
    | Obj(fields: map<string, Value>)
}
