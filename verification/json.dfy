/**
 * The JSON documents the providers build. Only the object structure is
 * modelled; byte serialisation is not.
 */
module Json {

  datatype Json =
    | JString(text: string)
    | JInt(number: int)
    | JBool(flag: bool)
    | JReal(approx: real)
    | JObject(fields: map<string, Json>)
  {
    /** The key set of an object; empty for every other kind of value. */
    function Keys(): set<string> {
      if JObject? then fields.Keys else {}
    }
  }
}
