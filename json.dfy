/**
 The JSON values a locale fragment is made of (RFC 8259, section 3), with the
 two JavaScript tests the merge applies to them: truthiness and
 `typeof v === "object"`.
 */
module Json {

  /** A JSON value. Numbers are opaque scalars: the merge never computes with them. */
  datatype Value =
    | Null
    | Bool(b: bool)
    | Num(n: real)
    | Str(s: string)
    | Arr(items: seq<Value>)
    | Obj(fields: map<string, Value>)

  /** `undefined` is modelled as a missing key, `None`. */
  datatype Option<+T> = None | Some(value: T)

  /** The members of a JSON object, keyed by name. */
  type Fields = map<string, Value>

  /** JavaScript truthiness: `null`, `false`, `0` and `""` are falsy; arrays and objects are truthy. */
  predicate IsTruthy(v: Value)
    // the falsy JSON values are exactly these four
    ensures !IsTruthy(v) <==> v in {Null, Bool(false), Num(0.0), Str("")}
  {
    match v
    case Null => false
    case Bool(b) => b
    case Num(n) => n != 0.0
    case Str(s) => s != ""
    case Arr(_) => true
    case Obj(_) => true
  }

  /** `typeof v === "object"`, which holds of `null` and of arrays as well as of objects. */
  predicate IsTypeofObject(v: Value)
    // booleans, numbers and strings are primitives; everything else is of type "object"
    ensures IsTypeofObject(v) <==> !(v.Bool? || v.Num? || v.Str?)
    // `null` is the one value of type "object" that is falsy
    ensures IsTypeofObject(v) && !IsTruthy(v) <==> v == Null
  {
    v.Null? || v.Arr? || v.Obj?
  }

  /** The test a source value must pass to be merged key by key:
      truthy, of type "object" and not an array. */
  predicate IsMergeableObject(v: Value)
    // `null` fails on truthiness and an array on `Array.isArray`: only an object passes
    ensures IsMergeableObject(v) <==> v.Obj?
  {
    IsTruthy(v) && IsTypeofObject(v) && !v.Arr?
  }

  /** The test an existing target slot fails when it is replaced by `{}`:
      missing (`undefined`), falsy, or not of type "object". */
  predicate NeedsFreshObject(slot: Option<Value>)
    // a slot survives exactly when it already holds an object or an array
    ensures !NeedsFreshObject(slot) <==> slot.Some? && (slot.value.Obj? || slot.value.Arr?)
  {
    match slot
    case None => true
    case Some(v) => !IsTruthy(v) || !IsTypeofObject(v)
  }
}
