/**
 * The hipdster copy of the DAG-CBOR NIF library. Its `json_to_ipld` differs from the
 * hexpds one only in taking the saturating cast lazily (`unwrap_or_else`); its
 * `ipld_to_json` is identical up to the local name of `serde_json::Value`, so
 * `Bridge.IpldToJson` serves both.
 */
module Hipdster {
  import opened Numbers
  import opened Outcomes
  import J = JsonValues
  import I = IpldValues
  import opened Collaborators
  import Bridge
  import BridgeProperties
  import opened Adapter

  /** The `Value::Number` arm, with the fallback cast behind `unwrap_or_else`. */
  function NumberToIpld(n: J.Number): (r: I.Ipld)
    ensures Bridge.NumberImage(n, r)
  {
    if !J.HasF64(n) then I.Null
    else if J.IsI64(n) then I.Integer(J.AsI64(n).value)
    else if J.IsU64(n) then
      I.Integer(match J.AsI64(n) case Some(i) => i case None => Bridge.SaturatingCastOfU64(n.u))
    else I.Float(n.f)
  }

  /** `json_to_ipld`; `None` is the panic of `Cid::from_str(..).unwrap()`. */
  function JsonToIpld(lib: Libraries, v: J.Value): (r: Option<I.Ipld>)
    ensures r.Some? ==> Bridge.Converts(lib, v, r.value)
    decreases v, 0
  {
    match v
    case Null => Some(I.Null)
    case Bool(b) => Some(I.Bool(b))
    case String(s) => Some(I.String(s))
    case Number(n) => Some(NumberToIpld(n))
    case Array(items) =>
      if forall i :: 0 <= i < |items| ==> JsonToIpld(lib, items[i]).Some? then
        Some(I.List(seq(|items|, i requires 0 <= i < |items| => JsonToIpld(lib, items[i]).value)))
      else None
    case Object(fields) =>
      if forall k :: k in fields ==> FieldToIpld(lib, k, fields[k]).Some? then
        Some(I.Map(map k | k in fields :: FieldToIpld(lib, k, fields[k]).value))
      else None
  }

  function FieldToIpld(lib: Libraries, key: string, v: J.Value): (r: Option<I.Ipld>)
    ensures r.Some? ==> Bridge.FieldConverts(lib, key, v, r.value)
    decreases v, 1
  {
    if key == "cid" && v.String? then
      match lib.parseCid(v.s)
      case Some(c) => Some(I.Link(c))
      case None => None
    else JsonToIpld(lib, v)
  }

  /** Both copies of the numeric rule give the same value for every number. */
  lemma NumberRulesAgree(n: J.Number)
    ensures NumberToIpld(n) == Bridge.NumberToIpld(n)
  {
  }

  /** Both copies of `json_to_ipld` agree on every input, aborting on the same trees. */
  lemma {:induction false} JsonToIpldAgrees(lib: Libraries, v: J.Value)
    ensures JsonToIpld(lib, v) == Bridge.JsonToIpld(lib, v)
    decreases v
  {
    match v
    case Array(items) =>
      forall i | 0 <= i < |items|
        ensures JsonToIpld(lib, items[i]) == Bridge.JsonToIpld(lib, items[i])
      {
        JsonToIpldAgrees(lib, items[i]);
      }
      if forall i :: 0 <= i < |items| ==> JsonToIpld(lib, items[i]).Some? {
        assert seq(|items|, i requires 0 <= i < |items| => JsonToIpld(lib, items[i]).value)
            == seq(|items|, i requires 0 <= i < |items| => Bridge.JsonToIpld(lib, items[i]).value);
      }
    case Object(fields) =>
      forall k | k in fields
        ensures FieldToIpld(lib, k, fields[k]) == Bridge.FieldToIpld(lib, k, fields[k])
      {
        JsonToIpldAgrees(lib, fields[k]);
      }
      if forall k :: k in fields ==> FieldToIpld(lib, k, fields[k]).Some? {
        assert (map k | k in fields :: FieldToIpld(lib, k, fields[k]).value)
            == (map k | k in fields :: Bridge.FieldToIpld(lib, k, fields[k]).value);
      }
    case _ =>
  }

  /** `encode_dag_cbor`; the same reply as the hexpds NIF on every input. */
  method EncodeDagCbor(lib: Libraries, json: string) returns (reply: Reply<seq<Byte>>)
    ensures EncodeReplies(lib, json, reply)
    ensures reply.Raised? <==> lib.parseJson(json).Success? && !Bridge.CidsParse(lib, lib.parseJson(json).value)
    ensures reply.Error? ==> PARSE_JSON_PREFIX <= reply.message || ENCODE_PREFIX <= reply.message
  {
    var parsed := lib.parseJson(json);
    if parsed.Failure? {
      return Error(PARSE_JSON_PREFIX + parsed.error);
    }
    JsonToIpldAgrees(lib, parsed.value);
    BridgeProperties.JsonToIpldSucceedsIff(lib, parsed.value);
    var ipldData := JsonToIpld(lib, parsed.value);
    if ipldData.None? {
      return Raised;
    }
    var encoded := lib.encodeCbor(ipldData.value);
    match encoded
    case Success(buffer) =>
      var binary := CopyToBinary(buffer);
      assert binary == buffer;
      reply := Ok(binary);
    case Failure(e) =>
      reply := Error(ENCODE_PREFIX + e);
  }

  /** `decode_dag_cbor`, which binds the serialised text before replying. */
  method DecodeDagCbor(lib: Libraries, data: seq<Byte>) returns (reply: Reply<string>)
    ensures DecodeReplies(lib, data, reply)
    ensures reply.Raised? <==> lib.decodeCbor(data).Success? && !Bridge.IntegersFit(lib.decodeCbor(data).value)
    ensures reply.Error? ==> DECODE_PREFIX <= reply.message || SERIALIZE_PREFIX <= reply.message
  {
    var decoded := lib.decodeCbor(data);
    if decoded.Failure? {
      return Error(DECODE_PREFIX + decoded.error);
    }
    var json := Bridge.IpldToJson(lib, decoded.value);
    if json.None? {
      return Raised;
    }
    var jsonString: string;
    match lib.serializeJson(json.value) {
      case Success(text) =>
        jsonString := text;
      case Failure(e) =>
        return Error(SERIALIZE_PREFIX + e);
    }
    reply := Ok(jsonString);
  }
}
