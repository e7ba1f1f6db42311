/** Request values and replies shared by the route handlers.
    A request body is a JSON value; a handler answers with either a value
    or one of the error outcomes the server produces. */
module Http {

  /** A JSON value as it arrives in a request or a provider response.
      Numbers are integers: fractional numbers are not modelled. */
  datatype Json =
    | JNull
    | JBool(b: bool)
    | JNum(n: int)
    | JStr(s: string)
    | JArray(items: seq<Json>)
    | JObject(fields: map<string, Json>)

  /** The ways a handler can fail.
      Validation: a schema rejected the params or the body (surfaced as a server error).
      NotFound: a lookup by id found no row (surfaced as a server error).
      Unauthorized: 401 with an empty body.
      Upstream: a call to the OAuth provider failed. */
  datatype Error = Validation | NotFound | Unauthorized | Upstream

  datatype Reply<T> = Ok(value: T) | Fail(error: Error)

  datatype Option<T> = None | Some(value: T)

  /** JavaScript's Boolean(v): the truthiness of a JSON value. */
  predicate Truthy(v: Json) {
    match v
    case JNull => false
    case JBool(b) => b
    case JNum(n) => n != 0
    case JStr(s) => s != ""
    case JArray(_) => true
    case JObject(_) => true
  }

  /** A field that the schema declares as a required string. */
  function StringField(fields: map<string, Json>, key: string): (r: Option<string>)
    ensures r.Some? <==> key in fields && fields[key].JStr?
    ensures r.Some? ==> fields[key] == JStr(r.value)
  {
    if key in fields then
      match fields[key]
      case JStr(s) => Some(s)
      case _ => None
    else None
  }

  /** A field that the schema declares as a coerced boolean defaulting to false:
      an absent field is false, a present one is its truthiness. */
  function CoercedFlag(fields: map<string, Json>, key: string): (b: bool)
    ensures b <==> key in fields && Truthy(fields[key])
  {
    if key in fields then Truthy(fields[key]) else false
  }
}
