/** Python values as the statistics applications read them from JSON files and
    hand them to `json.dumps`: `None`, booleans, numbers, strings, lists and
    dicts. Numbers are kept as reals; whether Python holds an `int` or a
    `float` is not distinguished. */
module Json {

  datatype Json =
    | JNull
    | JBool(b: bool)
    | JNum(n: real)
    | JStr(s: string)
    | JArr(items: seq<Json>)
    | JObj(fields: map<string, Json>)

  /** `d.get(key)`: the value under `key`, or `None` when the key is absent. */
  function Get(d: map<string, Json>, key: string): (v: Json)
    ensures key !in d ==> v == JNull
    ensures key in d ==> v == d[key]
  {
    if key in d then d[key] else JNull
  }

  /** `d.get(key, default)`: unlike `Get`, a stored `None` is returned as is. */
  function GetOr(d: map<string, Json>, key: string, default: Json): (v: Json)
    ensures key !in d ==> v == default
    ensures key in d ==> v == d[key]
  {
    if key in d then d[key] else default
  }
}
