/** Decoded JSON values as the scripts see them after `json.loads`, with Python's
    truthiness and `str()`. Numbers are integers in this model. */
module Json {
  import opened Dicts
  import opened Strings

  datatype Value =
    | Null
    | Bool(b: bool)
    | Int(i: int)
    | Str(s: string)
    | Arr(items: seq<Value>)
    | Obj(fields: Dict<Value>)

  /** Python's `bool(v)`: `None`, `False`, `0`, `""`, `[]` and `{}` are false. */
  predicate Truthy(v: Value) {
    match v
    case Null => false
    case Bool(b) => b
    case Int(i) => i != 0
    case Str(s) => |s| > 0
    case Arr(xs) => |xs| > 0
    case Obj(fs) => |fs| > 0
  }

  /** A Salesforce relationship object: a dict carrying an `attributes` key. */
  predicate IsRelationship(v: Value) {
    v.Obj? && HasKey(v.fields, "attributes")
  }

  /** Python's `str(v)`: strings unquoted, containers as their `repr`. */
  function PyStr(v: Value): string {
    match v
    case Str(s) => s
    case _ => PyRepr(v)
  }

  /** Python's `repr(v)` with strings in single quotes. */
  function PyRepr(v: Value): string
    decreases v, 1
  {
    match v
    case Null => "None"
    case Bool(b) => if b then "True" else "False"
    case Int(i) => IntToString(i)
    case Str(s) => "'" + s + "'"
    case Arr(xs) => "[" + ReprItems(v, 0) + "]"
    case Obj(fs) => "{" + ReprFields(v, 0) + "}"
  }

  function ReprItems(parent: Value, i: nat): string
    requires parent.Arr? && i <= |parent.items|
    decreases parent, 0, |parent.items| - i
  {
    if i == |parent.items| then ""
    else (if i > 0 then ", " else "") + PyRepr(parent.items[i]) + ReprItems(parent, i + 1)
  }

  function ReprFields(parent: Value, i: nat): string
    requires parent.Obj? && i <= |parent.fields|
    decreases parent, 0, |parent.fields| - i
  {
    if i == |parent.fields| then ""
    else
      (if i > 0 then ", " else "") + "'" + parent.fields[i].0 + "': "
      + PyRepr(parent.fields[i].1) + ReprFields(parent, i + 1)
  }
}
