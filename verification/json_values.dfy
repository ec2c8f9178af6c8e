/** The already-parsed JSON tree of serde_json (`serde_json::Value`). */
module JsonValues {
  import opened Numbers
  import opened Outcomes

  /**
   * serde_json's `Number` without the arbitrary-precision feature is one of an unsigned
   * integer, a negative integer or a finite float. `Unrepresentable` stands for a number
   * whose `as_f64` yields nothing, which only an arbitrary-precision build can produce; the
   * model otherwise follows the default feature set and keeps this kind only for the `Null`
   * arm of `json_to_ipld`.
   */
  datatype Number =
    | PosInt(u: U64)
    | NegInt(i: NegI64)
    | Float(f: FiniteF64)
    | Unrepresentable

  datatype Value =
    | Null
    | Bool(b: bool)
    | Number(n: Number)
    | String(s: string)
    | Array(items: seq<Value>)
    | Object(fields: map<string, Value>)

  /** `Number::as_f64` is `Some`. */
  predicate HasF64(n: Number) {
    !n.Unrepresentable?
  }

  /** `Number::is_i64`. */
  predicate IsI64(n: Number) {
    match n
    case PosInt(u) => u <= MAX_I64
    case NegInt(_) => true
    case _ => false
  }

  /** `Number::is_u64`. */
  predicate IsU64(n: Number) {
    n.PosInt?
  }

  /** `Number::as_i64`. */
  function AsI64(n: Number): (r: Option<I64>)
    ensures r.Some? <==> IsI64(n)
  {
    match n
    case PosInt(u) => if u <= MAX_I64 then Some(u) else None
    case NegInt(i) => Some(i)
    case _ => None
  }
}
