/** JavaScript values as the main process and the pages exchange them: NeDB documents,
    IPC arguments and replies, and the session object. */
module JsValues {

  datatype Option<T> = None | Some(value: T)

  /** The JavaScript values that occur in the core. A Date object is represented by its
      instant in milliseconds. */
  datatype Value = Undefined | Null | Bool(b: bool) | Str(s: string) | Time(ms: int)

  /** A plain JavaScript object, as its own properties. A property can be present and hold
      `undefined` (`{birthDate: userData.birthDate}` when the argument has no birthDate):
      such a key still overrides in a spread. */
  type Doc = map<string, Value>

  /** `d.k`: a missing property reads as `undefined`. */
  function Get(d: Doc, k: string): Value
  {
    if k in d then d[k] else Undefined
  }

  /** JavaScript truthiness on these values: `!v` holds exactly for undefined, null, false
      and the empty string. */
  predicate Truthy(v: Value)
  {
    match v
    case Undefined => false
    case Null => false
    case Bool(b) => b
    case Str(s) => s != ""
    case Time(_) => true
  }

  /** `a === b`: primitives compare by value, while two Date objects are equal only when
      they are the same object, which a value received over IPC never is of a stored one. */
  predicate StrictEquals(a: Value, b: Value)
  {
    a == b && !a.Time?
  }

  /** The object an IPC handler resolves with: `{success: true, <payload>}` or
      `{success: false, message}`. */
  datatype Reply<T> = Ok(data: T) | Fail(message: string)
}
