/**
 * JSON documents as trees, as the JSON library hands them to the account code.
 * The text form (pretty-printing and parsing) is not modelled.
 */
module Json {

  /** A JSON value. An object maps each key to one value, as the library's default object does. */
  datatype JVal =
    | JNull
    | JBool(b: bool)
    | JNumber(n: int)
    | JString(str: string)
    | JArray(items: seq<JVal>)
    | JObject(members: map<string, JVal>)

  /** `contains(key)`: true only for an object that has the key; false for every other kind of value. */
  predicate Contains(j: JVal, key: string) {
    j.JObject? && key in j.members
  }
}
