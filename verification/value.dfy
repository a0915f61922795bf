/** The JSON-like values the BIRD output parsers build. */
module BirdValue {

  /** A parsed value: `None`, an int, a string, a list of ints or a dict. */
  datatype Value =
    | Null
    | Int(i: int)
    | Str(s: string)
    | IntList(xs: seq<int>)
    | Dict(m: map<string, Value>)

  /** Python truthiness of a value. */
  predicate Truthy(v: Value) {
    match v
    case Null => false
    case Int(i) => i != 0
    case Str(s) => s != ""
    case IntList(xs) => xs != []
    case Dict(m) => m != map[]
  }
}
