/** JSON-like values exchanged with the HTTP boundary, and Python's notion of truthiness on them. */
module JsonValues {

  datatype Json =
    | JNull
    | JBool(b: bool)
    | JInt(i: int)
    | JReal(r: real)
    | JStr(s: string)
    | JList(items: seq<Json>)
    | JObj(fields: map<string, Json>)

  /** `bool(v)` in Python: null, false, 0, "", [] and {} are falsy. */
  predicate Truthy(v: Json) {
    match v
    case JNull => false
    case JBool(b) => b
    case JInt(i) => i != 0
    case JReal(r) => r != 0.0
    case JStr(s) => s != ""
    case JList(items) => |items| > 0
    case JObj(fields) => |fields| > 0
  }

  const EmptyObject: Json := JObj(map[])
}
