/** Parsed JSON input of the converter. */
module JsonValues {
  import opened OrderedMaps

  /** A JSON value as `JSON.parse` returns it, without `null`. Numbers are
      integers. An object's members are in `Object.keys` order; in any
      object JavaScript produces, the keys are distinct. */
  datatype Json =
    | JString(s: string)
    | JNumber(n: int)
    | JBool(b: bool)
    | JArray(items: seq<Json>)
    | JObject(members: seq<Entry<Json>>)

  /** The catch-all key of a plural-form object. */
  const PluralFormNthKey: string := "n"
}
