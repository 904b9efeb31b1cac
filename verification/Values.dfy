/** Small shared values: optional results and parsed JSON. */
module Values {
  datatype Option<+T> = None | Some(value: T)

  /** A JSON document after parsing. A number has its exact value and the text it is written back as. */
  datatype Json =
    | JNull
    | JBool(b: bool)
    | JNumber(n: real, text: string)
    | JString(s: string)
    | JArray(items: seq<Json>)
    | JObject(members: map<string, Json>)
}
