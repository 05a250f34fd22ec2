/** JavaScript values as the dashboard sees them: form data, JSON documents
    and the truthiness test behind the `a || b` fallbacks. */
module JsValues {

  datatype Option<+T> = None | Some(value: T)

  datatype Result<+T, +E> = Success(value: T) | Failure(error: E)

  /** A JSON-shaped JavaScript value. Numbers are kept as reals; NaN and
      `undefined` never come out of JSON and are absent here (a missing
      property is an `Option.None`). */
  datatype Value =
    | Null
    | Bool(b: bool)
    | Num(n: real)
    | Str(s: string)
    | Arr(items: seq<Value>)
    | Obj(fields: map<string, Value>)

  /** The object literal `{}`. */
  const EmptyObject: Value := Obj(map[])

  /** JavaScript truthiness: null, false, 0, -0 and "" are falsy. */
  predicate Truthy(v: Value) {
    match v
    case Null => false
    case Bool(b) => b
    case Num(n) => n != 0.0
    case Str(s) => s != ""
    case Arr(_) => true
    case Obj(_) => true
  }

  /** `v || fallback` where `v` may be undefined (None). */
  function OrElse(v: Option<Value>, fallback: Value): (r: Value)
    ensures v.Some? && Truthy(v.value) ==> r == v.value
    ensures !(v.Some? && Truthy(v.value)) ==> r == fallback
    ensures Truthy(fallback) ==> Truthy(r)
  {
    if v.Some? && Truthy(v.value) then v.value else fallback
  }

  /** Property access `obj[key]` on an object, undefined when absent. */
  function Get(m: map<string, Value>, key: string): Option<Value> {
    if key in m then Some(m[key]) else None
  }
}

/** Library code the dashboard calls but that is not part of this model,
    passed in as plain functions so that every property holds for any
    implementation of them. */
module Foreign {
  import opened JsValues

  newtype Byte = x: int | 0 <= x < 256

  type Bytes = seq<Byte>

  datatype Library = Library(
    /** Utils.snakeCase */
    snakeCase: string -> string,
    /** Utils.checksum, as a function of the bytes of the file it is given */
    checksum: Bytes -> string,
    /** JSON.parse; None where it throws */
    parseJson: string -> Option<Value>)

  /** No character that path.parse or the digest layout treats specially:
      lodash-style snake_case output and a hex digest are of this kind. */
  predicate PlainSegment(s: string) {
    forall k :: 0 <= k < |s| ==> s[k] != '.' && s[k] != '/' && s[k] != '-'
  }
}
