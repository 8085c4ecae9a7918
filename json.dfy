/**
  JSON values as the OCR server produces them and the two socket clients read them.
  Objects are maps, so a key occurs at most once. Turning text into a value and back
  is done by libraries (jsoncpp, serde_json, Python's json) that are not modelled:
  wherever that happens, the model takes the library's function as a parameter.
*/
module Json {
  import opened Common

  datatype Json =
    | JNull
    | JBool(b: bool)
    | JNumber(n: real)
    | JString(s: string)
    | JArray(items: seq<Json>)
    | JObject(members: map<string, Json>)

  /** `isMember(key)`: the value is an object with that key. */
  predicate HasMember(j: Json, key: string) {
    j.JObject? && key in j.members
  }

  function Member(j: Json, key: string): Json
    requires HasMember(j, key)
  {
    j.members[key]
  }

  /**
    Field `index` (named `name`) of a struct with `count` fields, as serde's derived
    `Deserialize` reads it: by name from an object, whose other members are ignored,
    or by position from an array of exactly `count` elements; anything else is an error.
  */
  function StructField(j: Json, name: string, index: nat, count: nat): (f: Option<Json>)
    requires index < count
    ensures j.JObject? ==> (f.Some? <==> name in j.members) && (f.Some? ==> f.value == j.members[name])
    ensures j.JArray? ==> (f.Some? <==> |j.items| == count) && (f.Some? ==> f.value == j.items[index])
    ensures !j.JObject? && !j.JArray? ==> f.None?
  {
    match j
    case JObject(m) => if name in m then Some(m[name]) else None
    case JArray(items) => if |items| == count then Some(items[index]) else None
    case _ => None
  }

  /** The empty object `{}`. */
  const EMPTY_OBJECT := JObject(map[])

  /** A list of points `[[x, y], ...]`. */
  function PointsJson(ps: seq<(real, real)>): Json {
    JArray(seq(|ps|, i requires 0 <= i < |ps| => JArray([JNumber(ps[i].0), JNumber(ps[i].1)])))
  }
}
