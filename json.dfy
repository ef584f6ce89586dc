/** The values the model lets `json.loads` produce. Decoding itself is not
    modelled: the code that needs it takes a decoder as a parameter. Numbers
    are exact, so the `NaN`, `Infinity` and `-Infinity` floats Python's
    decoder also accepts have no value here. */
module JsonValue {

  /** `null`, booleans, numbers, strings, arrays (Python lists) and objects
      (Python dicts; a repeated key keeps its last value, so a map suffices). */
  datatype Json =
    | JNull
    | JBool(b: bool)
    | JNum(n: real)
    | JStr(s: string)
    | JArr(items: seq<Json>)
    | JObj(fields: map<string, Json>)
}
