/** JavaScript values as the controllers see them in a request body or a
    store column, and the two operators the controllers rely on: truthiness
    (`if (x)`, `!x`, `x || y`) and strict inequality (`x !== y`). */
module Js {

  datatype Option<+T> = None | Some(value: T)

  /** A call into a library the core does not own: it returns a value or
      throws an error with a message. */
  datatype Outcome<+T> = Returned(value: T) | Threw(message: string)

  /** A JSON-like JavaScript value. Numbers are integers (no NaN, no
      fractions); `Obj` is any non-array object, whose contents the core
      never inspects. */
  datatype Value =
    | Undefined
    | Null
    | Bool(b: bool)
    | Num(n: int)
    | Str(s: string)
    | Arr(items: seq<Value>)
    | Obj

  /** JavaScript truthiness: `undefined`, `null`, `false`, `0` and `""` are
      falsy, every array and object is truthy. */
  predicate Truthy(v: Value) {
    match v
    case Undefined => false
    case Null => false
    case Bool(b) => b
    case Num(n) => n != 0
    case Str(s) => s != ""
    case Arr(_) => true
    case Obj => true
  }

  /** A column value Sequelize accepts under `allowNull: false`. */
  predicate NonNull(v: Value) {
    !v.Undefined? && !v.Null?
  }

  /** `a || b`: the first operand when it is truthy, the second otherwise. */
  function Or(a: Value, b: Value): Value {
    if Truthy(a) then a else b
  }

  /** `a === b` where `a` and `b` come from different sources (a request
      body and a store row): primitives compare by value, while two array or
      object values are never the same object. */
  predicate StrictEq(a: Value, b: Value) {
    match a
    case Arr(_) => false
    case Obj => false
    case _ => a == b
  }
}
