/**
 * The document the TOML and JSON parsers hand to the extractors. Only the shape
 * matters here: the parsers themselves are parameters of the model.
 */
module Tree {
  import opened Options

  /**
   * A parsed TOML or JSON value. `Table` is a TOML table or a JSON object,
   * `Null` is JSON's null, and `Other` stands for every kind no extractor
   * looks into (numbers, arrays, dates).
   */
  datatype Value = Str(s: string) | Bool(b: bool) | Table(entries: map<string, Value>) | Null | Other

  /** `value.get(key)` of both libraries: a table's entry; None for a missing key or a non-table. */
  function Get(v: Value, key: string): Option<Value> {
    if v.Table? && key in v.entries then Some(v.entries[key]) else None
  }

  /** `value.as_str()`. */
  function AsStr(v: Value): Option<string> {
    if v.Str? then Some(v.s) else None
  }

  /** `value.as_bool()`. */
  function AsBool(v: Value): Option<bool> {
    if v.Bool? then Some(v.b) else None
  }

  /** The value reached by following a dotted key path such as `package.version`. */
  function At(v: Value, path: seq<string>): Option<Value>
    decreases |path|
  {
    if path == [] then Some(v)
    else if v.Table? && path[0] in v.entries then At(v.entries[path[0]], path[1..])
    else None
  }

  /** The string at a key path; None when the path is missing or leads to a non-string. */
  function StringAt(v: Value, path: seq<string>): Option<string> {
    match At(v, path)
    case Some(Str(s)) => Some(s)
    case _ => None
  }

  /** One step of a path lookup is one `get`. */
  lemma AtStep(v: Value, key: string, rest: seq<string>)
    ensures At(v, [key] + rest) == if Get(v, key).Some? then At(Get(v, key).value, rest) else None
  {
    assert ([key] + rest)[0] == key && ([key] + rest)[1..] == rest;
  }
}
