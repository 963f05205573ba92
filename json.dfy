/**
 * JSON values as Python's `json` module decodes them, and the replies of the
 * code-hosting platform's HTTP API as the dashboards receive them.
 */
module Json {
  import opened Wrappers

  /** A decoded JSON document. Numbers are integers here (see README). */
  datatype Json =
    | JNull
    | JBool(b: bool)
    | JInt(i: int)
    | JStr(s: string)
    | JArr(items: seq<Json>)
    | JObj(fields: map<string, Json>)

  /** Python truthiness of a decoded value, as `if x`, `x or y` and `if repo.get(...)` test it. */
  predicate Truthy(j: Json) {
    match j
    case JNull => false
    case JBool(b) => b
    case JInt(i) => i != 0
    case JStr(s) => s != ""
    case JArr(items) => items != []
    case JObj(fields) => fields != map[]
  }

  /** `len(j)`: items of a list, keys of a dict, characters of a string; `None` is the TypeError `len` raises otherwise. */
  function Length(j: Json): Option<nat> {
    match j
    case JArr(items) => Some(|items|)
    case JObj(fields) => Some(|fields|)
    case JStr(s) => Some(|s|)
    case _ => None
  }

  /** `d.get(key)` on a decoded dict: the value, or `None` (JSON null) when the key is missing. */
  function Get(fields: map<string, Json>, key: string): Json {
    if key in fields then fields[key] else JNull
  }

  /**
   * The reply to one HTTP request: a response with its status code, the value
   * of its `Link` header when it has one, and its body decoded as JSON
   * (`None` when `.json()` would raise); or `TransportError` when the
   * request itself raised.
   */
  datatype Reply =
    | Response(status: int, link: Option<string>, body: Option<Json>)
    | TransportError
}
