# DAG-CBOR value bridge (hexpds / hipdster NIFs)

A Dafny model of the Rust NIF libraries that let the hexpds and hipdster personal data
servers convert between JSON text and DAG-CBOR bytes. The model covers the value bridge
between serde_json's `Value` tree and libipld's `Ipld` tree (`json_to_ipld`,
`ipld_to_json`) and the two NIFs built on it (`encode_dag_cbor`, `decode_dag_cbor`), in
both copies of the library.

Layout, one module per file:

- `outcomes.dfy` (`Outcomes`): `Option` and `Result`.
- `numbers.dfy` (`Numbers`): i64, u64 and i128 ranges, bytes, and f64 values as 64-bit patterns with `IsFinite`.
- `json_values.dfy` (`JsonValues`): serde_json's `Value` and `Number`, and the `Number` queries the bridge uses (`is_i64`, `is_u64`, `as_i64`, `as_f64`).
- `ipld_values.dfy` (`IpldValues`): libipld's `Ipld` and `Cid`, a concrete stand-in whose fields the model never reads.
- `collaborators.dfy` (`Collaborators`): the `Libraries` record. It holds the foreign calls the NIFs make, as total functions passed in by the caller: CID parse and print, unpadded base64, JSON parse and serialise, and DAG-CBOR encode and decode.
- `bridge.dfy` (`Bridge`): the two conversions of the hexpds copy. Each has a relational specification: `Converts` and `Renders`. A Rust panic is modelled as `None`.
- `bridge_properties.dfy` (`BridgeProperties`): when each conversion succeeds, why each specification determines its result, and the per-kind facts.
- `round_trip.dfy` (`RoundTrip`): the JSON→IPLD→JSON and IPLD→JSON→IPLD round trips.
- `adapter.dfy` (`Adapter`): the hexpds NIFs, their error prefixes and the byte copy into the returned binary.
- `hipdster.dfy` (`Hipdster`): the hipdster copy, with proofs that it agrees with hexpds.

A NIF reply is `Ok(value)`, `Error(message)` or `Raised`. `Raised` means the Rust code
panicked. The Rustler runtime then raises an exception in the calling process, and no
`{:error, _}` tuple is returned.

Behaviours of the code worth knowing:

- A JSON unsigned integer above i64::MAX becomes `Integer(i64::MAX)`. The value goes through the saturating `f as i64` cast. It does not become a `Float`.
- A string under a `"cid"` key that is not a valid CID panics the NIF through `unwrap()`. It is not turned into a tagged `{:error, _}` reply.
- `ipld_to_json` is not total. `Ipld::Integer` holds an i128, and `json!(v)` unwraps serde_json's conversion, which only accepts values that fit a u64 or an i64. Any integer outside [i64::MIN, u64::MAX] panics. DAG-CBOR can carry such an integer: a negative integer down to -2^64.
- `json!(f)` turns a NaN or an infinite float into JSON `null`.
- A number that has no f64 form becomes `Null`. Only an arbitrary-precision build of serde_json can produce such a number.

## Model

| member | source | states |
|---|---|---|
| Bridge.NumberToIpld | native/hexpds_dagcbor_internal/src/lib.rs:29-40 | Follows the branch order of the code (`as_f64`, `is_i64`, `is_u64`, `unwrap_or`). An i64-range integer becomes `Integer` of the same value. A u64-only integer becomes `Integer(i64::MAX)`. A float becomes `Float` of the same bits. A number with no f64 form becomes `Null`. The result is an `Integer` exactly when the number is an integer, and a `Float` exactly when it is a float |
| Bridge.JsonToIpld | native/hexpds_dagcbor_internal/src/lib.rs:24-54 | Whenever the conversion succeeds, its result is the image `Converts` describes. Scalars keep their payload, arrays keep length and element order, objects keep their key set, and a string under `"cid"` becomes the link it parses to |
| Bridge.FieldToIpld | native/hexpds_dagcbor_internal/src/lib.rs:44-50 | For one object entry, a success satisfies `FieldConverts`. A string under `"cid"` gives `Link(c)` where the string parses to `c`. Every other entry, including a non-string under `"cid"`, converts recursively |
| Bridge.IpldToJson | native/hexpds_dagcbor_internal/src/lib.rs:57-71 | Succeeds exactly when every integer in the tree lies in [i64::MIN, u64::MAX]. On success the result is the rendering `Renders` describes. Integers keep their value, finite floats keep their bits, other floats become null, bytes become unpadded base64 text, links become the CID's text, and lists and maps keep their shape |
| BridgeProperties.JsonToIpldSucceedsIff | native/hexpds_dagcbor_internal/src/lib.rs:43-51 | `json_to_ipld` aborts exactly when some string-valued `"cid"` field, at any depth, fails to parse as a CID. Both directions are proved |
| BridgeProperties.ConvertsDeterminesResult | native/hexpds_dagcbor_internal/src/lib.rs:24-54 | Any tree that `Converts` relates to a JSON value is exactly what `json_to_ipld` returns for that value. So the relational specification has one image per input |
| BridgeProperties.JsonToIpldCharacterised | native/hexpds_dagcbor_internal/src/lib.rs:24-54 | `json_to_ipld(v) == Some(x)` holds if and only if `Converts(v, x)` does |
| BridgeProperties.ScalarsPassThrough | native/hexpds_dagcbor_internal/src/lib.rs:26-28 | Null, booleans and strings map to the IPLD scalar with the same payload, and lines 59-60 and 63 map them back unchanged |
| BridgeProperties.ArrayConversion | native/hexpds_dagcbor_internal/src/lib.rs:42 | An array converts exactly when each of its elements does. The result is a list of the same length whose i-th element is the conversion of the i-th input element |
| BridgeProperties.ObjectConversion | native/hexpds_dagcbor_internal/src/lib.rs:43-51 | An object converts exactly when its `"cid"` string parses and every other entry converts. The result map has the same key set. The `"cid"` string becomes the parsed link, and every other key holds the recursive conversion of its value |
| BridgeProperties.JsonNeverYieldsBytes | native/hexpds_dagcbor_internal/src/lib.rs:24-54 | No IPLD tree converted from JSON holds a byte string anywhere. Text is never read back as bytes |
| BridgeProperties.RendersDeterminesResult | native/hexpds_dagcbor_internal/src/lib.rs:57-71 | Any JSON value that `Renders` relates to an IPLD tree is exactly what `ipld_to_json` returns for that tree |
| BridgeProperties.IpldToJsonCharacterised | native/hexpds_dagcbor_internal/src/lib.rs:57-71 | `ipld_to_json(x) == Some(v)` holds if and only if `Renders(x, v)` does |
| BridgeProperties.BytesAndLinksBecomeText | native/hexpds_dagcbor_internal/src/lib.rs:64-69 | `Bytes b` renders as the string `base64nopad(b)` and `Link c` as the string of `c`. Converting either string back gives `String`, not `Bytes` |
| RoundTrip.JsonRoundTrip | native/hexpds_dagcbor_internal/src/lib.rs:24-71 | Take a JSON tree whose numbers are all i64 integers or floats and which binds no `"cid"` key to a string. Then `ipld_to_json(json_to_ipld(v)) == v` |
| RoundTrip.IpldRoundTrip | native/hexpds_dagcbor_internal/src/lib.rs:24-71 | Take an IPLD tree with i64 integers, finite floats, no bytes, links only under `"cid"` keys whose text parses back to the same CID, and no string under `"cid"`. Then `json_to_ipld(ipld_to_json(x)) == x` |
| RoundTrip.CidFieldRoundTrip | native/hexpds_dagcbor_internal/src/lib.rs:45-46 | `{"cid": Link(c)}` renders as `{"cid": "<c>"}`. That JSON converts back to `{"cid": Link(c)}` whenever the text of `c` parses back to `c` |
| Adapter.CopyToBinary | native/hexpds_dagcbor_internal/src/lib.rs:86-91 | The binary allocated with the buffer's length and filled by `copy_from_slice` has the buffer's length and the same byte at every position |
| Adapter.EncodeDagCbor | native/hexpds_dagcbor_internal/src/lib.rs:74-103 | A parse failure gives `Error("Failed to parse JSON: " + e)`, whatever the encoder would do. A bad `"cid"` raises instead of replying, and nothing else does. An encoder failure gives `Error("Failed to encode to DAG-CBOR: " + e)`. On success the reply carries exactly the encoder's buffer |
| Adapter.DecodeDagCbor | native/hexpds_dagcbor_internal/src/lib.rs:106-124 | A decode failure gives `Error("Failed to decode from DAG-CBOR: " + e)`. The call raises exactly when the decoded tree holds an integer outside [i64::MIN, u64::MAX]. A serialise failure gives `Error("Failed to serialize JSON: " + e)`. Otherwise the reply is `Ok(serialize(ipld_to_json(decoded)))` |
| Adapter.ErrorCausesDistinguishable | native/hexpds_dagcbor_internal/src/lib.rs:77-122 | Within each NIF, the two failure messages differ whatever library text follows the prefix, so the message always names the failing step |
| Hipdster.NumberToIpld | native/hipdster_dagcbor_internal/src/lib.rs:31-42 | The hipdster number arm, whose fallback cast sits in a lazy `unwrap_or_else` closure, meets the same kind-by-kind rule `NumberImage` as the hexpds arm |
| Hipdster.JsonToIpld | native/hipdster_dagcbor_internal/src/lib.rs:26-56 | Whenever the hipdster conversion succeeds, its result is the image `Converts` describes. This covers scalars, numbers, length and order of lists, key sets, and the `"cid"` rewrite |
| Hipdster.FieldToIpld | native/hipdster_dagcbor_internal/src/lib.rs:46-52 | For one object entry, a success satisfies `FieldConverts`, as in the hexpds copy |
| Hipdster.NumberRulesAgree | native/hipdster_dagcbor_internal/src/lib.rs:36 | `unwrap_or_else` and the eager `unwrap_or` of hexpds give the same IPLD value for every number |
| Hipdster.JsonToIpldAgrees | native/hipdster_dagcbor_internal/src/lib.rs:26-56 | The two copies of `json_to_ipld` return the same result on every input, including aborting on the same inputs |
| Hipdster.EncodeDagCbor | native/hipdster_dagcbor_internal/src/lib.rs:77-102 | Gives the same reply as the hexpds NIF: the parse and encode prefixes, a raise exactly on a bad `"cid"`, and the encoder's buffer byte for byte on success |
| Hipdster.DecodeDagCbor | native/hipdster_dagcbor_internal/src/lib.rs:105-125 | Gives the same reply as the hexpds NIF: the decode and serialise prefixes, a raise exactly on an integer outside [i64::MIN, u64::MAX], and otherwise `Ok(serialize(ipld_to_json(decoded)))`. It uses the shared `ipld_to_json` of lines 59-73, which is identical to the hexpds one up to the local name of `serde_json::Value` |

## Left out

- The DAG-CBOR encoder and decoder (`DagCborCodec`) are a foreign library. They are the `encodeCbor` and `decodeCbor` fields of `Libraries`, with no properties assumed. Canonical key order, integer width, tag 42 for links and rejection of trailing bytes are therefore not modelled.
- `Cid::from_str`, `Cid::to_string` and `BASE64_NOPAD.encode` are library calls. They are the `parseCid`, `showCid` and `base64NoPad` fields. Where a result needs a CID's text to parse back to the same CID, that is a stated precondition (`RoundTrip.CidFieldRoundTrip`, `RoundTrip.Reconstructible`). It is not an axiom.
- serde_json's text parser and serialiser are the `parseJson` and `serializeJson` fields. Duplicate-key handling and number lexing happen inside them and are not modelled. The model starts from an already-parsed `Value`.
- Object and map entry order is not modelled. Objects and maps are Dafny maps. serde_json's `Map` compares as a map in both its ordered and insertion-ordered builds.
- Floats are carried as 64-bit patterns, with no arithmetic. The `f as i64` cast is modelled only where the code uses its result: for an unsigned integer above i64::MAX, it saturates to i64::MAX.
- The model assumes serde_json's default feature set (no `arbitrary_precision`); the `Unrepresentable` number kind is kept only to model the `Null` arm of `json_to_ipld`. In an arbitrary-precision build `json!(i128)` never fails, so the `Raised` clause of `Adapter.DecodeDagCbor` would not hold there.
- The `ipld_to_json` behaviour for an i128 assumes a serde_json release whose value serializer accepts i128 values that fit a u64 or an i64. Older releases reject every i128, which would make `Integer` always panic.
- `OwnedBinary::new(..).unwrap()` panics only when allocation fails. Memory exhaustion is not modelled.
- Rustler plumbing (atoms, `rustler::init!`, `Env`, `Term` encoding, the conversion of a panic into a raised exception) is reduced to the `Reply` datatype.
- The hipdster `ipld_to_json` (native/hipdster_dagcbor_internal/src/lib.rs:59-73) is identical to the hexpds one up to the local name of `serde_json::Value` (`Value` there, the alias `JsonValue` in hexpds), so the model has a single definition, `Bridge.IpldToJson`.
- native/hexpds_k256_internal/src/lib.rs and native/hexpds_k256/src/lib.rs are thin wrappers over secp256k1 key derivation, signing and hex encoding, so they are not part of this model.
- native/hipdster_auth_jwt_internal/src/lib.rs is a wrapper over a JWT library with wall-clock claims, so it is not part of this model.
