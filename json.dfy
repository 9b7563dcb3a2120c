/** The `serde_json::Value` a JSON text parses to. The program never looks
    inside a value, so numbers are kept as unbounded integers. */
module Json {
  import opened Wrappers

  datatype Value =
    | Null
    | Bool(b: bool)
    | Number(n: int)
    | String(s: string)
    | Array(elems: seq<Value>)
    | Object(members: map<string, Value>)

  /** `serde_json::from_str::<Value>`: a parser is a function from text to the
      value it denotes, None when the text is not JSON. */
  type Parser = string -> Option<Value>

  /** `serde_json::from_str::<Vec<Value>>`, taken to be the `Value` parser
      restricted to arrays: both deserialize a JSON array through the same
      sequence visitor. */
  function FromStrVec(parse: Parser, text: string): Option<seq<Value>> {
    match parse(text)
    case Some(Array(xs)) => Some(xs)
    case _ => None
  }
}
