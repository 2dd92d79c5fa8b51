/**
 `serde_json::Value` without the `arbitrary_precision` and `preserve_order`
 features. Dafny's `==` on these datatypes is the derived `PartialEq` of the
 source: numbers of different representations differ (`1` is not `1.0`), objects
 compare by key.
 */
module Json {
  import opened Wrappers
  import opened Doubles

  type U64 = n: int | 0 <= n < TWO64
  type I64 = n: int | -TWO63 <= n < TWO63
  type Negative64 = n: int | -TWO63 <= n < 0 witness -1

  datatype Number = PosInt(n: U64) | NegInt(i: Negative64) | Float(value: Double) {

    function AsI64(): (r: Option<int>) {
      match this
      case PosInt(n) => if n < TWO63 then Some(n) else None
      case NegInt(i) => Some(i)
      case Float(_) => None
    }

    function AsU64(): (r: Option<int>) {
      match this
      case PosInt(n) => Some(n)
      case _ => None
    }

    /** Integers are rounded to the nearest double; see `Doubles.RoundNatIsNearest`. */
    function AsF64(): (r: real)
      ensures IsDouble(r)
    {
      match this
      case PosInt(n) => RoundNatIsDouble(n); RoundInt(n) as real
      case NegInt(i) => RoundNatIsDouble(0 - i); RoundInt(i) as real
      case Float(v) => v
    }

    /** The number denoted, before any rounding. */
    ghost function Exact(): real {
      match this
      case PosInt(n) => n as real
      case NegInt(i) => i as real
      case Float(v) => v
    }
  }

  datatype Json =
    | JNull
    | JBool(b: bool)
    | JNumber(num: Number)
    | JString(s: string)
    | JArray(items: seq<Json>)
    | JObject(fields: map<string, Json>)

  /** `Value::from(i64)`. */
  function FromI64(n: I64): (r: Json) {
    JNumber(if n < 0 then NegInt(n) else PosInt(n))
  }
}
