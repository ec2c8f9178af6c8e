/**
 * The two NIFs of the hexpds DAG-CBOR library, `encode_dag_cbor` and `decode_dag_cbor`:
 * they chain the foreign parser and codec with the value bridge and turn every reported
 * failure into an `{:error, message}` reply whose message names the failing step.
 */
module Adapter {
  import opened Numbers
  import opened Outcomes
  import opened Collaborators
  import opened Bridge
  import opened BridgeProperties

  const PARSE_JSON_PREFIX: string := "Failed to parse JSON: "
  const ENCODE_PREFIX: string := "Failed to encode to DAG-CBOR: "
  const DECODE_PREFIX: string := "Failed to decode from DAG-CBOR: "
  const SERIALIZE_PREFIX: string := "Failed to serialize JSON: "

  /**
   * What a NIF call hands back to the host: `{:ok, value}`, `{:error, message}`, or an
   * exception raised in the calling process because the Rust code panicked.
   */
  datatype Reply<+T> = Ok(value: T) | Error(message: string) | Raised

  /** The reply `encode_dag_cbor` owes for the JSON text `json`. */
  ghost predicate EncodeReplies(lib: Libraries, json: string, reply: Reply<seq<Byte>>) {
    match lib.parseJson(json)
    case Failure(e) => reply == Error(PARSE_JSON_PREFIX + e)
    case Success(v) =>
      match JsonToIpld(lib, v)
      case None => reply == Raised
      case Some(x) =>
        match lib.encodeCbor(x)
        case Failure(e) => reply == Error(ENCODE_PREFIX + e)
        case Success(buffer) => reply == Ok(buffer)
  }

  /** The reply `decode_dag_cbor` owes for the binary `data`. */
  ghost predicate DecodeReplies(lib: Libraries, data: seq<Byte>, reply: Reply<string>) {
    match lib.decodeCbor(data)
    case Failure(e) => reply == Error(DECODE_PREFIX + e)
    case Success(x) =>
      match IpldToJson(lib, x)
      case None => reply == Raised
      case Some(v) =>
        match lib.serializeJson(v)
        case Failure(e) => reply == Error(SERIALIZE_PREFIX + e)
        case Success(text) => reply == Ok(text)
  }

  /** Fills a freshly allocated binary of the buffer's length with `copy_from_slice`. */
  method CopyToBinary(buffer: seq<Byte>) returns (binary: seq<Byte>)
    ensures |binary| == |buffer|
    ensures forall i :: 0 <= i < |buffer| ==> binary[i] == buffer[i]
  {
    var owned := new Byte[|buffer|];
    var i := 0;
    while i < |buffer|
      invariant 0 <= i <= |buffer|
      invariant forall j :: 0 <= j < i ==> owned[j] == buffer[j]
    {
      owned[i] := buffer[i];
      i := i + 1;
    }
    binary := owned[..];
  }

  /** `encode_dag_cbor`: JSON text to DAG-CBOR bytes. */
  method EncodeDagCbor(lib: Libraries, json: string) returns (reply: Reply<seq<Byte>>)
    ensures EncodeReplies(lib, json, reply)
    ensures reply.Raised? <==> lib.parseJson(json).Success? && !CidsParse(lib, lib.parseJson(json).value)
    ensures reply.Error? ==> PARSE_JSON_PREFIX <= reply.message || ENCODE_PREFIX <= reply.message
  {
    var parsed := lib.parseJson(json);
    if parsed.Failure? {
      return Error(PARSE_JSON_PREFIX + parsed.error);
    }
    JsonToIpldSucceedsIff(lib, parsed.value);
    var ipldData := JsonToIpld(lib, parsed.value);
    if ipldData.None? {
      return Raised;
    }
    var encoded := lib.encodeCbor(ipldData.value);
    match encoded
    case Success(buffer) =>
      var binary := CopyToBinary(buffer);
      assert binary == buffer;
      reply := Ok(binary);
    case Failure(e) =>
      reply := Error(ENCODE_PREFIX + e);
  }

  /** `decode_dag_cbor`: DAG-CBOR bytes to JSON text. */
  method DecodeDagCbor(lib: Libraries, data: seq<Byte>) returns (reply: Reply<string>)
    ensures DecodeReplies(lib, data, reply)
    ensures reply.Raised? <==> lib.decodeCbor(data).Success? && !IntegersFit(lib.decodeCbor(data).value)
    ensures reply.Error? ==> DECODE_PREFIX <= reply.message || SERIALIZE_PREFIX <= reply.message
  {
    var decoded := lib.decodeCbor(data);
    if decoded.Failure? {
      return Error(DECODE_PREFIX + decoded.error);
    }
    var json := IpldToJson(lib, decoded.value);
    if json.None? {
      return Raised;
    }
    match lib.serializeJson(json.value)
    case Success(text) =>
      reply := Ok(text);
    case Failure(e) =>
      reply := Error(SERIALIZE_PREFIX + e);
  }

  /**
   * Within each NIF the two error prefixes first differ at character 10, so a message
   * always tells which step failed, whatever the library's own text.
   */
  lemma ErrorCausesDistinguishable(e1: string, e2: string)
    ensures PARSE_JSON_PREFIX + e1 != ENCODE_PREFIX + e2
    ensures DECODE_PREFIX + e1 != SERIALIZE_PREFIX + e2
  {
    assert (PARSE_JSON_PREFIX + e1)[10] == 'p' && (ENCODE_PREFIX + e2)[10] == 'e';
    assert (DECODE_PREFIX + e1)[10] == 'd' && (SERIALIZE_PREFIX + e2)[10] == 's';
  }
}
