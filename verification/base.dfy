/** Shared vocabulary of the overlay model: optional values and the small
    slice of JavaScript values that the protocol messages carry. */
module Base {

  datatype Option<T> = None | Some(value: T)

  /** A JavaScript value as it can appear in a decoded protocol message.
      Numbers are integers here: no protocol field of the core carries a
      fraction, and NaN is left out. */
  datatype Value =
    | Undefined
    | Null
    | Bool(b: bool)
    | Num(n: int)
    | Str(s: string)
    | Arr(items: seq<Value>)
    | Obj(fields: map<string, Value>)

  /** JavaScript truthiness: `undefined`, `null`, `false`, `0` and `""` are falsy. */
  predicate Truthy(v: Value)
  {
    match v
    case Undefined => false
    case Null => false
    case Bool(b) => b
    case Num(n) => n != 0
    case Str(s) => s != ""
    case Arr(_) => true
    case Obj(_) => true
  }

  /** A protocol message: an open record of named fields. */
  type Msg = map<string, Value>

  /** Property read `msg.key`: a missing field reads as `undefined`. */
  function Field(m: Msg, key: string): Value
  {
    if key in m then m[key] else Undefined
  }

  /** Property read on an arbitrary value, as in `value.key`. Only objects
      carry named fields; on every other value the read yields `undefined`
      (or throws, for `undefined` and `null`, which callers decide). */
  function Prop(v: Value, key: string): Value
  {
    if v.Obj? then Field(v.fields, key) else Undefined
  }

  /** No element occurs twice. */
  predicate NoDup<T(==)>(s: seq<T>)
  {
    forall i, j :: 0 <= i < j < |s| ==> s[i] != s[j]
  }
}
