/**
 Values of a row as the export endpoint delivers it, after Python's `json`
 module has decoded it into a `dict`.

 A D1 (SQLite) row is flat: every column holds a scalar. Numbers are never
 computed with by the converter, only copied or printed, so a number is kept
 as the text Python's `str()` prints for it.
 */
module JsonValue {

  /** A decoded JSON scalar: `None`, `True`/`False`, an `int`/`float`, a `str`. */
  datatype JVal =
    | Null
    | Bool(b: bool)
    | Num(text: string)
    | Str(s: string)

  /** A source row: a string-keyed dictionary of scalars. */
  type Row = map<string, JVal>

  /** Python's `row.get(key, default)`: the default is used only when the key is absent. */
  function Get(row: Row, key: string, default: JVal): (r: JVal)
    ensures key in row ==> r == row[key]
    ensures key !in row ==> r == default
    ensures r == (map[key := default] + row)[key]
  {
    if key in row then row[key] else default
  }

  /** Python's `str(v)`, which is what an f-string interpolation prints. */
  function PyStr(v: JVal): (r: string)
    ensures v == Null ==> r == "None"
    ensures v.Bool? ==> r == (if v.b then "True" else "False")
    ensures v.Num? ==> r == v.text
    ensures v.Str? ==> r == v.s
  {
    match v
    case Null => "None"
    case Bool(b) => if b then "True" else "False"
    case Num(text) => text
    case Str(s) => s
  }
}
