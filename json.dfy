/** The JSON values that `json.loads` produces, and the two library calls the
    listeners make on them. The library itself is not modelled: a parser and a
    serializer are handed to the listeners as function values. */
module Json {
  import opened Wrappers

  /** `json.loads` yields a dict, a str, a list, an int or float, a bool or None.
      A number is kept as a decimal `mantissa * 10^exponent`. */
  datatype Json =
    | JObject(members: seq<(string, Json)>)
    | JString(text: string)
    | JArray(items: seq<Json>)
    | JNum(mantissa: int, exponent: int)
    | JBool(b: bool)
    | JNull

  /** `json.loads(message)`: `None` stands for the exception it raises. */
  type Parser = string -> Option<Json>

  /** `json.dumps(data)`. */
  type Serializer = Json -> string
}
