/** The values every component exchanges: scalars, arrays and dictionaries. */
module Values {

  /** The bit pattern of an IEEE 754 binary64 number. */
  type Float64 = x: int | 0 <= x < 0x1_0000_0000_0000_0000

  /** A value with its containers unfolded; `Other` is any object that is neither an array
      nor a dictionary, known only by the text its `ToString()` returns and by whether it is
      a function, which is its own clone, while other objects cannot be cloned. */
  datatype Value =
    | Empty
    | Boolean(b: bool)
    | Number(bits: Float64)
    | String(s: string)
    | Array(items: seq<Value>)
    | Dictionary(entries: map<string, Value>)
    | Other(text: string, cloneable: bool)

  predicate IsScalar(v: Value) {
    v.Empty? || v.Boolean? || v.Number? || v.String?
  }

  type Scalar = v: Value | IsScalar(v) witness Empty

  /** Every object inside is an array or a dictionary: a JSON-encodable value. */
  predicate IsData(v: Value) {
    match v
    case Array(items) => forall i :: 0 <= i < |items| ==> IsData(items[i])
    case Dictionary(m) => forall k :: k in m ==> IsData(m[k])
    case Other(_, _) => false
    case _ => true
  }

  /** A deep copy can be made: every object inside is an array, a dictionary or a function. */
  predicate Cloneable(v: Value) {
    match v
    case Array(items) => forall i :: 0 <= i < |items| ==> Cloneable(items[i])
    case Dictionary(m) => forall k :: k in m ==> Cloneable(m[k])
    case Other(_, cloneable) => cloneable
    case _ => true
  }
}
