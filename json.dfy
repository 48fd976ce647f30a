/**
 * Decoded JSON values, as Go's `encoding/json` hands them over in an
 * `interface{}`: nil, bool, float64, string, []interface{} or
 * map[string]interface{}.
 */
module Json {

  datatype JVal =
    | JNull
    | JBool(b: bool)
    | JNum(x: real)
    | JStr(s: string)
    | JArr(items: seq<JVal>)
    | JObj(fields: map<string, JVal>)

  /**
   * The renderings that Go's libraries perform and this model does not spell
   * out: `fmt.Sprint` of a float64 (shortest `%v` form), `fmt.Sprint` of an
   * array or object (Go's `[...]` / `map[...]` syntax) and `json.Marshal` of
   * an array or object.
   */
  datatype Formats = Formats(
    number: real -> string,
    sprintComposite: JVal -> string,
    marshal: JVal -> string)

  /** `fmt.Sprintf("%t", b)`. */
  function BoolText(b: bool): string {
    if b then "true" else "false"
  }

  /**
   * `fmt.Sprint(v)` for a decoded JSON value: a string prints as itself, a
   * boolean as `true` or `false`, nil as `<nil>`.
   */
  function Sprint(v: JVal, f: Formats): (r: string)
    ensures v.JStr? ==> r == v.s
    ensures v.JBool? ==> (r == "true" <==> v.b) && (r == "false" <==> !v.b)
    ensures v.JNull? ==> r == "<nil>"
  {
    match v
    case JNull => "<nil>"
    case JBool(b) => BoolText(b)
    case JNum(x) => f.number(x)
    case JStr(s) => s
    case _ => f.sprintComposite(v)
  }
}
