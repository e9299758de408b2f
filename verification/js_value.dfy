/**
 * The slice of JavaScript value semantics the extension relies on: the shape of a parsed
 * `package.json` or of a configuration layer, truthiness, `typeof v === 'object'`,
 * property access and `Object.keys`.
 */
module JsValue {

  /** A JavaScript value. Numbers are integers here (see README, "Left out"). */
  datatype Value =
    | Undefined
    | Null
    | Bool(b: bool)
    | Num(n: int)
    | Str(s: string)
    | Arr(elems: seq<Value>)
    | Obj(props: seq<Prop>)

  /** One own property of an object, in insertion order. */
  datatype Prop = Prop(name: string, val: Value)

  /** The only exception the modelled code can raise. */
  datatype JsError = TypeError

  /** `v === undefined || v === null`: reading a property of such a value throws. */
  predicate Nullish(v: Value) {
    v.Undefined? || v.Null?
  }

  /** `!!v`. */
  predicate Truthy(v: Value) {
    match v
    case Undefined => false
    case Null => false
    case Bool(b) => b
    case Num(n) => n != 0
    case Str(s) => s != ""
    case Arr(_) => true
    case Obj(_) => true
  }

  /** `typeof v === 'object'` (true of null and of arrays as well). */
  predicate IsTypeofObject(v: Value) {
    v.Null? || v.Arr? || v.Obj?
  }

  /** The value of the first own property called `name`, or `undefined`. */
  function Lookup(props: seq<Prop>, name: string): Value {
    if props == [] then Undefined
    else if props[0].name == name then props[0].val
    else Lookup(props[1..], name)
  }

  /**
   * `v.name` for one of the manifest property names the extension reads; none of them is
   * found on the prototype of a primitive or of an array, so only objects yield a value.
   */
  function Get(v: Value, name: string): Value
    requires !Nullish(v)
  {
    if v.Obj? then Lookup(v.props, name) else Undefined
  }

  /** `v?.name`. */
  function OptionalGet(v: Value, name: string): Value {
    if Nullish(v) then Undefined else Get(v, name)
  }

  /** The property names of an object, in insertion order. */
  function Names(props: seq<Prop>): (names: seq<string>)
    ensures |names| == |props|
    ensures forall i :: 0 <= i < |props| ==> names[i] == props[i].name
  {
    if props == [] then [] else [props[0].name] + Names(props[1..])
  }

  /** The decimal spelling of a natural number, as used for array indices. */
  function Decimal(n: nat): string {
    if n < 10 then ["0123456789"[n]] else Decimal(n / 10) + ["0123456789"[n % 10]]
  }

  /** `["0", "1", ..., String(n - 1)]`, the keys of a string or array of length n. */
  function IndexKeys(n: nat): seq<string> {
    seq(n, i requires 0 <= i => Decimal(i))
  }

  /** `Object.keys(v)`, which throws on null and undefined (callers test truthiness first). */
  function ObjectKeys(v: Value): seq<string>
    requires !Nullish(v)
  {
    match v
    case Obj(props) => Names(props)
    case Arr(elems) => IndexKeys(|elems|)
    case Str(s) => IndexKeys(|s|)
    case _ => []
  }
}
