/** Values shared by every part of the document service model. */
module Common {

  /** A nullable column or an optional result (SQL NULL / Python None is None). */
  datatype Option<+T> = None | Some(value: T) {
    /** The value, or `default` when there is none (SQL COALESCE, `x if x else d`). */
    function GetOr(default: T): T {
      match this
      case Some(v) => v
      case None => default
    }
  }

  /** A JSON value as the service stores and returns it once it has been parsed. */
  datatype Json =
    | JNull
    | JBool(b: bool)
    | JNumber(n: int)
    | JString(s: string)
    | JArray(items: seq<Json>)
    | JObject(fields: map<string, Json>)

  /** The empty JSON object `{}`. */
  const EmptyObject: Json := JObject(map[])
}
