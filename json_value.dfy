/** Parsed JSON values and the parser the converter is given. */
module JsonValue {
  import opened Wrappers

  datatype Json =
    | JNull
    | JBool(b: bool)
    | JNumber(n: int)
    | JString(s: string)
    | JArray(items: seq<Json>)
    | JObject(fields: seq<(string, Json)>)

  /** The object `{}`. */
  const EmptyObject: Json := JObject([])

  /** A JSON parser, standing for `JSON.parse`: `None` where `JSON.parse` throws. */
  type Parser = string -> Option<Json>

  /** What `JSON.parse("{}")` does: every conforming parser satisfies this. */
  predicate ParsesEmptyObject(parse: Parser) {
    parse("{}") == Some(EmptyObject)
  }
}
