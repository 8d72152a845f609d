/**
 * The parsed JSON tree (the QJsonValue / QJsonObject / QJsonArray family) and the
 * accessors with which both converters read it. The accessors keep Qt's defaulting
 * rules: a missing key reads as Undefined, and a value of the wrong kind converts
 * to a null string, an empty array or an empty object.
 */
module JsonValue {
  import opened Wrappers

  /**
   * A JSON value. Numbers play no part in either converter; their value is kept
   * as an integer only so that they are distinguishable. `JUndefined` is what a
   * lookup of an absent key yields.
   */
  datatype Json =
    | JNull
    | JBool(b: bool)
    | JNumber(n: int)
    | JString(s: string)
    | JArray(items: seq<Json>)
    | JObject(members: JsonObject)
    | JUndefined

  type JsonObject = map<string, Json>

  /** `QJsonObject::value(key)`: the member, or Undefined when the key is absent. */
  function Value(o: JsonObject, key: string): (v: Json)
    ensures key in o ==> v == o[key]
    ensures key !in o ==> v == JUndefined
  {
    if key in o then o[key] else JUndefined
  }

  /** `QJsonValue::toString()`: the string, or a null string (None) for any other kind. */
  function ToString(v: Json): (r: Option<string>)
    ensures r.Some? <==> v.JString?
    ensures r.Some? ==> r.value == v.s
  {
    if v.JString? then Some(v.s) else None
  }

  /**
   * A `QString` read with `toString()` and then used as a name or as text content:
   * a null string reads as the empty string.
   */
  function StringOrEmpty(v: Json): string {
    ToString(v).GetOr("")
  }

  /** `QJsonValue::toArray()`: the items, or an empty array for any other kind. */
  function ToArray(v: Json): (r: seq<Json>)
    ensures !v.JArray? ==> r == []
  {
    if v.JArray? then v.items else []
  }

  /** `QJsonValue::toObject()`: the members, or an empty object for any other kind. */
  function ToObject(v: Json): (r: JsonObject)
    ensures !v.JObject? ==> r == map[]
  {
    if v.JObject? then v.members else map[]
  }
}
