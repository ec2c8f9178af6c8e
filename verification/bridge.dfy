/**
 * The value bridge of the hexpds DAG-CBOR NIF: `json_to_ipld` and `ipld_to_json`.
 * A Rust panic inside either conversion is modelled as `None`.
 */
module Bridge {
  import opened Numbers
  import opened Outcomes
  import J = JsonValues
  import I = IpldValues
  import opened Collaborators

  // ---------------------------------------------------------------------------
  // JSON to IPLD
  // ---------------------------------------------------------------------------

  /**
   * `f as i64` where `f` is the `as_f64` image of an unsigned integer above i64::MAX.
   * Every such double is at least 2^63, and Rust's float-to-integer cast saturates.
   */
  function SaturatingCastOfU64(u: U64): (r: I64)
    requires u > MAX_I64
  {
    MAX_I64
  }

  /** What a JSON number becomes, kind by kind, as the code's branches work out. */
  ghost predicate NumberImage(n: J.Number, x: I.Ipld) {
    match n
    case PosInt(u) => x == I.Integer(if u <= MAX_I64 then u else MAX_I64)
    case NegInt(i) => x == I.Integer(i)
    case Float(f) => x == I.Float(f)
    case Unrepresentable => x == I.Null
  }

  /** The `JsonValue::Number` arm of `json_to_ipld`, following its tests in order. */
  function NumberToIpld(n: J.Number): (r: I.Ipld)
    ensures NumberImage(n, r)
    ensures r.Integer? <==> n.PosInt? || n.NegInt?
    ensures r.Float? <==> n.Float?
  {
    if !J.HasF64(n) then I.Null
    else if J.IsI64(n) then I.Integer(J.AsI64(n).value)
    else if J.IsU64(n) then I.Integer(J.AsI64(n).GetOr(SaturatingCastOfU64(n.u)))
    else I.Float(n.f)
  }

  /**
   * `x` is the IPLD image of the JSON tree `v`: scalars keep their payload, numbers
   * follow `NumberImage`, arrays keep length and order, objects keep their key set.
   */
  ghost predicate Converts(lib: Libraries, v: J.Value, x: I.Ipld)
    decreases v, 0
  {
    match v
    case Null => x == I.Null
    case Bool(b) => x == I.Bool(b)
    case String(s) => x == I.String(s)
    case Number(n) => NumberImage(n, x)
    case Array(items) =>
      && x.List?
      && |x.items| == |items|
      && forall i :: 0 <= i < |items| ==> Converts(lib, items[i], x.items[i])
    case Object(fields) =>
      && x.Map?
      && x.entries.Keys == fields.Keys
      && forall k :: k in fields ==> FieldConverts(lib, k, fields[k], x.entries[k])
  }

  /** A `"cid"` key bound to a string becomes the link its text parses to; any other entry converts. */
  ghost predicate FieldConverts(lib: Libraries, key: string, v: J.Value, x: I.Ipld)
    decreases v, 1
  {
    if key == "cid" && v.String? then x.Link? && lib.parseCid(v.s) == Some(x.cid)
    else Converts(lib, v, x)
  }

  /** Every string-valued `"cid"` field anywhere in `v` parses as a CID. */
  predicate CidsParse(lib: Libraries, v: J.Value)
    decreases v, 0
  {
    match v
    case Array(items) => forall i :: 0 <= i < |items| ==> CidsParse(lib, items[i])
    case Object(fields) => forall k :: k in fields ==> FieldCidsParse(lib, k, fields[k])
    case _ => true
  }

  predicate FieldCidsParse(lib: Libraries, key: string, v: J.Value)
    decreases v, 1
  {
    if key == "cid" && v.String? then lib.parseCid(v.s).Some? else CidsParse(lib, v)
  }

  /** `json_to_ipld`; `None` is the panic of `Cid::from_str(..).unwrap()`. */
  function JsonToIpld(lib: Libraries, v: J.Value): (r: Option<I.Ipld>)
    ensures r.Some? ==> Converts(lib, v, r.value)
    decreases v, 0
  {
    match v
    case Null => Some(I.Null)
    case Bool(b) => Some(I.Bool(b))
    case String(s) => Some(I.String(s))
    case Number(n) => Some(NumberToIpld(n))
    case Array(items) =>
      if forall i :: 0 <= i < |items| ==> JsonToIpld(lib, items[i]).Some? then
        Some(I.List(seq(|items|, i requires 0 <= i < |items| => JsonToIpld(lib, items[i]).value)))
      else None
    case Object(fields) =>
      if forall k :: k in fields ==> FieldToIpld(lib, k, fields[k]).Some? then
        Some(I.Map(map k | k in fields :: FieldToIpld(lib, k, fields[k]).value))
      else None
  }

  /** The closure `json_to_ipld` maps over an object's entries. */
  function FieldToIpld(lib: Libraries, key: string, v: J.Value): (r: Option<I.Ipld>)
    ensures r.Some? ==> FieldConverts(lib, key, v, r.value)
    decreases v, 1
  {
    if key == "cid" && v.String? then
      match lib.parseCid(v.s)
      case Some(c) => Some(I.Link(c))
      case None => None
    else JsonToIpld(lib, v)
  }

  // ---------------------------------------------------------------------------
  // IPLD to JSON
  // ---------------------------------------------------------------------------

  /**
   * `json!(v)` for an i128: serde_json's value serializer accepts what fits a u64 or an
   * i64 and the macro unwraps the result, so anything else panics (`None`).
   */
  function IntegerToJson(i: I128): (r: Option<J.Value>) {
    if 0 <= i <= MAX_U64 then Some(J.Number(J.PosInt(i)))
    else if MIN_I64 <= i < 0 then Some(J.Number(J.NegInt(i)))
    else None
  }

  /** `json!(f)` for an f64: a NaN or an infinity has no JSON number and becomes `null`. */
  function FloatToJson(f: F64): (r: J.Value) {
    if IsFinite(f) then J.Number(J.Float(f)) else J.Null
  }

  /** `n` is the JSON number for the integer `i`. */
  predicate SameInteger(n: J.Number, i: int) {
    || (n.PosInt? && n.u == i)
    || (n.NegInt? && n.i == i)
  }

  /** Every integer in `x` lies in [i64::MIN, u64::MAX]. */
  predicate IntegersFit(x: I.Ipld)
    decreases x
  {
    match x
    case Integer(i) => MIN_I64 <= i <= MAX_U64
    case List(items) => forall i :: 0 <= i < |items| ==> IntegersFit(items[i])
    case Map(entries) => forall k :: k in entries ==> IntegersFit(entries[k])
    case _ => true
  }

  /**
   * `v` is the JSON rendering of `x`: integers keep their value, bytes become unpadded
   * base64 text, links become the CID's text, lists and maps keep their shape.
   */
  ghost predicate Renders(lib: Libraries, x: I.Ipld, v: J.Value)
    decreases x
  {
    match x
    case Null => v == J.Null
    case Bool(b) => v == J.Bool(b)
    case Integer(i) => v.Number? && SameInteger(v.n, i)
    case Float(f) => if IsFinite(f) then v == J.Number(J.Float(f)) else v == J.Null
    case String(s) => v == J.String(s)
    case Bytes(b) => v == J.String(lib.base64NoPad(b))
    case List(items) =>
      && v.Array?
      && |v.items| == |items|
      && forall i :: 0 <= i < |items| ==> Renders(lib, items[i], v.items[i])
    case Map(entries) =>
      && v.Object?
      && v.fields.Keys == entries.Keys
      && forall k :: k in entries ==> Renders(lib, entries[k], v.fields[k])
    case Link(c) => v == J.String(lib.showCid(c))
  }

  /** `ipld_to_json`; `None` is the panic of `json!` on an integer outside u64 and i64. */
  function IpldToJson(lib: Libraries, x: I.Ipld): (r: Option<J.Value>)
    ensures r.Some? <==> IntegersFit(x)
    ensures r.Some? ==> Renders(lib, x, r.value)
    decreases x
  {
    match x
    case Null => Some(J.Null)
    case Bool(b) => Some(J.Bool(b))
    case Integer(i) => IntegerToJson(i)
    case Float(f) => Some(FloatToJson(f))
    case String(s) => Some(J.String(s))
    case Bytes(b) => Some(J.String(lib.base64NoPad(b)))
    case List(items) =>
      if forall i :: 0 <= i < |items| ==> IpldToJson(lib, items[i]).Some? then
        Some(J.Array(seq(|items|, i requires 0 <= i < |items| => IpldToJson(lib, items[i]).value)))
      else None
    case Map(entries) =>
      if forall k :: k in entries ==> IpldToJson(lib, entries[k]).Some? then
        Some(J.Object(map k | k in entries :: IpldToJson(lib, entries[k]).value))
      else None
    case Link(c) => Some(J.String(lib.showCid(c)))
  }
}
