/** Configuration values as the YAML loader hands them to the resolution engine. */
module Values {

  datatype Option<+T> = None | Some(value: T)

  /** A value stored in a configuration mapping: a scalar string, a tag set,
      a command list, or a nested mapping. */
  datatype Value =
    | Str(s: string)
    | Tags(t: set<string>)
    | Cmds(c: seq<string>)
    | Dict(d: map<string, Value>)

  /** The placeholder that marks a field as deliberately unset, so that a
      later merge may fill it in. */
  const Sentinel: string := "to be defined"

  /** Python's `v == 'to be defined'`: only a string can equal the placeholder. */
  predicate IsSentinel(v: Value) {
    v == Str(Sentinel)
  }
}
