/** Ruby values as the HTML emission protocol sees them. */
module RubyValues {

  datatype Option<+T> = None | Some(value: T)

  /** A value handed to an element as an attribute. Booleans and `nil` are
      told apart, a String is kept as its text, and any other object (a
      Symbol, an Integer, ...) is kept as the text its `to_s` returns. */
  datatype Value = Bool(b: bool) | Nil | Str(s: string) | Other(shown: string)

  /** Ruby truthiness: only `nil` and `false` are falsy, so `""` is truthy. */
  predicate Truthy(v: Value) {
    v != Nil && v != Bool(false)
  }

  /** `to_s`: `nil.to_s` is the empty string. */
  function ToS(v: Value): string {
    match v
    case Bool(b) => if b then "true" else "false"
    case Nil => ""
    case Str(s) => s
    case Other(shown) => shown
  }
}
