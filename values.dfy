/**
 * Python values as the core sees them.
 *
 * `Json` is the part of a decoded JSON value that the posted log's fields can hold
 * in this model; `Scalar` is a table cell that is only ever formatted with `str()`
 * or used as a condition.
 */
module Values {
  import Text

  /** A JSON field value: `null`, an integer or a string. */
  datatype Json = JNull | JInt(i: int) | JStr(s: string)

  /** Python truthiness: `None`, `0` and `""` are false. */
  predicate Truthy(v: Json) {
    match v
    case JNull => false
    case JInt(i) => i != 0
    case JStr(s) => s != ""
  }

  /** The text an f-string interpolation `{v}` produces. */
  function Show(v: Json): (r: string)
    ensures v.JStr? ==> r == v.s
    ensures v.JNull? ==> r == "None"
  {
    match v
    case JNull => "None"
    case JInt(i) => Text.IntToDecimal(i)
    case JStr(s) => s
  }

  /** `d.get(key)` on a decoded JSON object: `None` when the key is missing. */
  function Get(m: map<string, Json>, key: string): (r: Json)
    ensures key !in m ==> r == JNull
    ensures key in m ==> r == m[key]
  {
    if key in m then m[key] else JNull
  }

  /** A table cell (latitude, longitude): its `str()` text and whether it is truthy. */
  datatype Scalar = Scalar(text: string, truthy: bool)
}
