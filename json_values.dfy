/** JSON values as the handlers receive them in request bodies and store them in the document. */
module JsonValues {
  import opened Wrappers

  datatype Json =
    | JNull
    | JBool(b: bool)
    | JNum(n: real)
    | JStr(s: string)
    | JArr(items: seq<Json>)
    | JObj(fields: map<string, Json>)

  const EmptyObject: Json := JObj(map[])

  /** Python truthiness of a decoded JSON value. */
  predicate Truthy(j: Json)
  {
    match j
    case JNull => false
    case JBool(b) => b
    case JNum(n) => n != 0.0
    case JStr(s) => s != ""
    case JArr(items) => items != []
    case JObj(fields) => fields != map[]
  }

  /**
   * `request.get_json() or {}`: a missing body (None) or a falsy one is replaced by
   * the empty object; a truthy body is kept as it is.
   */
  function BodyOrEmpty(body: Option<Json>): (r: Json)
    ensures Truthy(r) <==> body.Some? && Truthy(body.value)
    ensures Truthy(r) ==> r == body.value
    ensures !Truthy(r) ==> r == EmptyObject
  {
    if body.Some? && Truthy(body.value) then body.value else EmptyObject
  }
}
