/** Parsed JSON values as the application sees them after `JSON.parse`,
    together with the JavaScript coercions it applies to them: property
    access, truthiness, `typeof … === 'object'` and `String(…)`. */
module Json {
  import Text

  datatype Option<T> = None | Some(value: T)

  /** A JavaScript value read from parsed JSON. `Undefined` is what a
      missing property reads as; numbers are modelled as integers. */
  datatype Val =
    | Undefined
    | Null
    | Bool(b: bool)
    | Num(n: int)
    | Str(s: string)
    | Arr(items: seq<Val>)
    | Obj(fields: map<string, Val>)

  /** Property access `v[name]`: a missing property, or a property of a
      value that is not an object, reads as `undefined`. */
  function Get(v: Val, name: string): (r: Val)
    ensures !v.Obj? ==> r == Undefined
    ensures v.Obj? && name in v.fields ==> r == v.fields[name]
  {
    if v.Obj? && name in v.fields then v.fields[name] else Undefined
  }

  /** JavaScript truthiness: `undefined`, `null`, `false`, `0` and `''`
      are falsy, every other value is truthy. */
  predicate Truthy(v: Val)
  {
    match v
    case Undefined => false
    case Null => false
    case Bool(b) => b
    case Num(n) => n != 0
    case Str(s) => s != ""
    case _ => true
  }

  /** `v && typeof v === 'object'`: an array or an object. */
  predicate IsObject(v: Val)
  {
    v.Arr? || v.Obj?
  }

  /** `String(v)`, as a template literal renders a value. */
  function ToJsString(v: Val): string
  {
    match v
    case Undefined => "undefined"
    case Null => "null"
    case Bool(b) => if b then "true" else "false"
    case Num(n) => Text.IntToString(n)
    case Str(s) => s
    case Arr(items) => JoinItems(items)
    case Obj(_) => "[object Object]"
  }

  /** `items.join(',')`, where `null` and `undefined` render as ''. */
  function JoinItems(items: seq<Val>): string
    decreases items
  {
    if items == [] then ""
    else
      var first := if items[0].Undefined? || items[0].Null? then "" else ToJsString(items[0]);
      if |items| == 1 then first else first + "," + JoinItems(items[1..])
  }

  /** `v || ''` for a text field: the text itself when it is a non-empty
      string, '' when the value is falsy. A truthy value of another type is
      held as its string form. */
  function TextOr(v: Val): (r: string)
    ensures v.Str? ==> r == v.s
    ensures !Truthy(v) ==> r == ""
  {
    if Truthy(v) then ToJsString(v) else ""
  }
}
