/** The outcome of `JSON.parse`, kept abstract: the model never parses text itself,
    it only inspects the value that the parser produced (or the error it threw). */
module Json {
  import opened Wrappers

  /** A parsed JSON value. Numbers are integers (see README, "Left out"); an
      object's members form a map because a parsed object has unique keys. */
  datatype Json =
    | JNull
    | JBool(b: bool)
    | JNumber(n: int)
    | JString(s: string)
    | JArray(items: seq<Json>)
    | JObject(fields: map<string, Json>)

  /** What `JSON.parse` does with a text: return a value, or throw a `SyntaxError`. */
  datatype ParseOutcome = ParseError | Parsed(value: Json)

  /** JavaScript's falsy values among parsed JSON: `null`, `false`, `0` and `""`. */
  predicate IsFalsy(j: Json) {
    j == JNull || j == JBool(false) || j == JNumber(0) || j == JString("")
  }

  /** Property access `j.key`: only an object has own members named by a key; on
      every other parsed value the configuration's keys read as `undefined`. */
  function Field(j: Json, key: string): (v: Option<Json>)
    ensures v.Some? <==> j.JObject? && key in j.fields
    ensures v.Some? ==> v.value == j.fields[key]
  {
    match j
    case JObject(fields) => if key in fields then Some(fields[key]) else None
    case _ => None
  }
}
