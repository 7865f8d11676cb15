/** The dynamically typed Python values that reach the modelled code from the
    simulator or from stored records, and Python's truthiness on them. */
module PyValues {

  datatype PyValue =
    | PyNone
    | PyBool(b: bool)
    | PyInt(i: int)
    | PyFloat(f: real)
    | PyStr(s: string)
    | PyList(items: seq<PyValue>)

  /** `bool(v)`: None, False, zero and empty containers are falsy. */
  predicate Truthy(v: PyValue) {
    match v
    case PyNone => false
    case PyBool(b) => b
    case PyInt(i) => i != 0
    case PyFloat(f) => f != 0.0
    case PyStr(s) => |s| > 0
    case PyList(items) => |items| > 0
  }
}
