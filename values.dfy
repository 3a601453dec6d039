/**
 * The JavaScript values the interning engine sees: every element of a tuple,
 * every canonical key and every argument is one of these.
 */
module JsValues {

  datatype Option<+T> = None | Some(value: T)

  /** Identity of a JavaScript object. */
  datatype ObjectRef =
    // The three frozen placeholder objects standing in for null, undefined and NaN.
    | NullSentinel
    | UndefinedSentinel
    | NaNSentinel
      // The wrapper object objectForm created for a primitive, by allocation order.
    | Box(id: nat)
      // A frozen, tagged tuple array, by allocation order.
    | TupleObject(id: nat)
      // The value every object inherits from Object.prototype under `name`
      // (the Object function for "constructor", Object.prototype for "__proto__", ...).
    | Intrinsic(name: string)
      // Any other object made by the caller (plain objects, arrays, functions).
    | Allocated(id: nat)
      // An object made by `Object.create(proto)`: it has no own properties and
      // inherits every property of `proto`, a tuple's tag and an array-like
      // object's `length` and elements among them.
    | Derived(proto: ObjectRef, id: nat)

  /**
   * A JavaScript value. A number is represented by its string conversion
   * (`String(n)`), so NaN is `Num("NaN")` and the infinities are
   * `Num("Infinity")` and `Num("-Infinity")`.
   */
  datatype Value =
    | Null
    | Undefined
    | Num(form: string)
    | Str(text: string)
    | Bool(b: bool)
    | Obj(ref: ObjectRef)

  /** A number, string or boolean: the values a WeakMap refuses as keys, besides null and undefined. */
  predicate IsPrimitive(v: Value) {
    v.Num? || v.Str? || v.Bool?
  }

  /** `isNaN` applied to a number. */
  predicate IsNaN(v: Value) {
    v.Num? && v.form == "NaN"
  }

  /** The primitives objectForm boxes: every number except NaN, every string, every boolean. */
  predicate NeedsBox(v: Value) {
    IsPrimitive(v) && !IsNaN(v)
  }

  /** The string conversion JavaScript applies when a primitive is used as a property name. */
  function StringForm(v: Value): (s: string)
    requires IsPrimitive(v)
  {
    match v
    case Num(form) => form
    case Str(text) => text
    case Bool(b) => if b then "true" else "false"
  }

  /**
   * What a caller passes to Tuple.for or Tuple.any: an object of the caller's
   * with a numeric `length` and indexed elements (an Array, an arguments
   * object, ...), or any other value passed directly. An `Allocated` object
   * given as `Plain` is one without a `length` property; the tuples, boxes
   * and derived objects given as `Plain` have the length their kind gives them.
   */
  datatype Argument =
    | ArrayLikeObject(elements: seq<Value>)
    | Plain(v: Value)
}
