/** Decoded JSON values, as Python's `json.loads` returns them. */
module Json {

  /** A JSON document after decoding.  Numbers are modelled as reals; NaN and
      the infinities, which Python's decoder also accepts, are not. */
  datatype Value =
    | JNull
    | JBool(b: bool)
    | JNumber(x: real)
    | JString(s: string)
    | JArray(items: seq<Value>)
    | JObject(fields: map<string, Value>)

  /** A decoded JSON object: a Python `dict` with string keys.  Key order,
      which a Python dict keeps, is not modelled. */
  type Object = map<string, Value>
}
