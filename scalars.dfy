/** The PHP values the automation passes around: what telemetry, weather parsing and the clock
    put into the variables a rule condition is evaluated against. */
module Scalars {

  datatype Scalar =
    | Null
    | Bool(b: bool)
    | Int(i: int)
    | Str(s: string)

  /** PHP's conversion to boolean, as `if ($x)` and `&&` apply it: `null`, `false`, `0`,
      `""` and `"0"` are false, everything else is true. */
  predicate Truthy(v: Scalar) {
    match v
    case Null => false
    case Bool(b) => b
    case Int(i) => i != 0
    case Str(s) => s != "" && s != "0"
  }
}
