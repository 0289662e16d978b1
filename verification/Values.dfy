/** The dynamically typed values of the probe language, and the library functions the
    probe evaluator calls but this repository does not define. */
module Values {
  import opened States
  import opened Wrappers

  /** A float64, as far as comparisons can tell. */
  datatype Float = NaN | NegativeInfinity | Finite(r: real) | PositiveInfinity

  predicate FloatEqual(a: Float, b: Float) {
    a == b && a != NaN
  }

  predicate FloatLess(a: Float, b: Float) {
    match (a, b)
    case (Finite(x), Finite(y)) => x < y
    case (NegativeInfinity, Finite(_)) => true
    case (NegativeInfinity, PositiveInfinity) => true
    case (Finite(_), PositiveInfinity) => true
    case _ => false
  }

  datatype IntType =
    | GoInt | Int8 | Int16 | Int32 | Int64
    | GoUint | Uint8 | Uint16 | Uint32 | Uint64

  /** What a Go `any` can hold here: JSON and YAML literals, header and body text, and the
      results of transforms. */
  datatype Value =
    | Nil
    | Bool(b: bool)
    | Integer(kind: IntType, n: int)
    | Float32(f32: Float)
    | Float64(f64: Float)
    | JsonNumber(digits: string)
    | Text(text: string)
    | Array(items: seq<Value>)
    | Object(fields: map<string, Value>)

  /** Library behaviour, left open: number and timestamp parsing, conversions, case
      folding, JSON coding, regular expressions, and the clock behind `time.Since`. */
  datatype Library = Library(
    toFloat: int -> Float,
    truncate: Float -> int,
    parseFloat: string -> Option<Float>,
    parseInt: string -> Option<int>,
    parseTimestamp: string -> Option<Time>,
    fromUnix: int -> Time,
    ageSeconds: Time -> int,
    lower: string -> string,
    decodeJson: string -> Option<Value>,
    encodeJson: Value -> Option<string>,
    matches: (string, string) -> Option<bool>)
}
