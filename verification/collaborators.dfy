/**
 * The foreign code the NIFs call, as plain total functions handed in by the caller:
 * `Cid::from_str` and `Cid::to_string`, `BASE64_NOPAD.encode`, `serde_json::from_str`
 * and `serde_json::to_string`, and `DagCborCodec.encode` / `decode`. Errors are carried
 * as their `Display` text, which is all the NIFs use of them.
 */
module Collaborators {
  import opened Numbers
  import opened Outcomes
  import opened JsonValues
  import opened IpldValues

  datatype Libraries = Libraries(
    parseCid: string -> Option<Cid>,
    showCid: Cid -> string,
    base64NoPad: seq<Byte> -> string,
    parseJson: string -> Result<Value, string>,
    serializeJson: Value -> Result<string, string>,
    encodeCbor: Ipld -> Result<seq<Byte>, string>,
    decodeCbor: seq<Byte> -> Result<Ipld, string>)
}
