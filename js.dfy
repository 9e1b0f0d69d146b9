/** The few JavaScript value semantics the user list component depends on. */
module Js {

  /** A JavaScript primitive as it can appear in an identifier field of a
      record or in the component's `editingUserId` cell. A field that the
      backend leaves out reads as `Undefined`. Strict equality `===` on these
      values is datatype equality; in particular `undefined === undefined`. */
  datatype Value = Undefined | Null | Str(s: string) | Num(n: int)

  /** JavaScript truthiness of a primitive: `undefined`, `null`, `""` and `0`
      are falsy, everything else is truthy. */
  predicate Truthy(v: Value) {
    match v
    case Undefined => false
    case Null => false
    case Str(s) => s != ""
    case Num(n) => n != 0
  }

  /** The only identifier values that select the create path when stored in
      `editingUserId` are the four falsy ones. */
  lemma FalsyValues(v: Value)
    ensures !Truthy(v) <==> v in {Undefined, Null, Str(""), Num(0)}
  {
  }
}
