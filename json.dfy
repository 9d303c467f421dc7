/** The JSON values that appear as placeholders in a command record. */
module Json {

  datatype Json =
    | JNull
    | JString(s: string)
    | JArray(items: seq<Json>)
      /** Python dicts keep insertion order, so an object is an ordered list of members. */
    | JObject(members: seq<(string, Json)>)
}
