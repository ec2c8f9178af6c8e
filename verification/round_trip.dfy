/** Composing the two conversions of the value bridge, in both orders. */
module RoundTrip {
  import opened Numbers
  import opened Outcomes
  import J = JsonValues
  import I = IpldValues
  import opened Collaborators
  import opened Bridge
  import opened BridgeProperties

  // ---------------------------------------------------------------------------
  // JSON -> IPLD -> JSON
  // ---------------------------------------------------------------------------

  /**
   * A JSON tree the bridge gives back unchanged: every number is an i64 or a float, and no
   * `"cid"` key is bound to a string (that string would come back as the CID's own text).
   */
  predicate RoundTrippable(v: J.Value)
    decreases v
  {
    match v
    case Number(n) => J.IsI64(n) || n.Float?
    case Array(items) => forall i :: 0 <= i < |items| ==> RoundTrippable(items[i])
    case Object(fields) => forall k :: k in fields ==> !(k == "cid" && fields[k].String?) && RoundTrippable(fields[k])
    case _ => true
  }

  lemma {:induction false} RoundTrippableCidsParse(lib: Libraries, v: J.Value)
    requires RoundTrippable(v)
    ensures CidsParse(lib, v)
    decreases v
  {
    match v
    case Array(items) =>
      forall i | 0 <= i < |items| ensures CidsParse(lib, items[i]) {
        RoundTrippableCidsParse(lib, items[i]);
      }
    case Object(fields) =>
      forall k | k in fields ensures FieldCidsParse(lib, k, fields[k]) {
        RoundTrippableCidsParse(lib, fields[k]);
      }
    case _ =>
  }

  lemma {:induction false} ConvertsThenRenders(lib: Libraries, v: J.Value, x: I.Ipld)
    requires RoundTrippable(v) && Converts(lib, v, x)
    ensures Renders(lib, x, v)
    decreases v
  {
    match v
    case Array(items) =>
      forall i | 0 <= i < |items| ensures Renders(lib, x.items[i], items[i]) {
        ConvertsThenRenders(lib, items[i], x.items[i]);
      }
    case Object(fields) =>
      forall k | k in fields ensures Renders(lib, x.entries[k], fields[k]) {
        ConvertsThenRenders(lib, fields[k], x.entries[k]);
      }
    case _ =>
  }

  /** `ipld_to_json(json_to_ipld(v)) == v` for every round-trippable JSON tree. */
  lemma JsonRoundTrip(lib: Libraries, v: J.Value)
    requires RoundTrippable(v)
    ensures JsonToIpld(lib, v).Some?
    ensures IpldToJson(lib, JsonToIpld(lib, v).value) == Some(v)
  {
    RoundTrippableCidsParse(lib, v);
    JsonToIpldSucceedsIff(lib, v);
    var x := JsonToIpld(lib, v).value;
    ConvertsThenRenders(lib, v, x);
    RendersDeterminesResult(lib, x, v);
  }

  // ---------------------------------------------------------------------------
  // IPLD -> JSON -> IPLD
  // ---------------------------------------------------------------------------

  /**
   * An IPLD tree the bridge rebuilds from its own JSON rendering: integers within i64,
   * finite floats, no byte strings, and links only as the value of a `"cid"` key whose
   * CID text parses back to the same CID; no `"cid"` key is bound to a string.
   */
  predicate Reconstructible(lib: Libraries, x: I.Ipld)
    decreases x, 0
  {
    match x
    case Integer(i) => MIN_I64 <= i <= MAX_I64
    case Float(f) => IsFinite(f)
    case Bytes(_) => false
    case Link(_) => false
    case List(items) => forall i :: 0 <= i < |items| ==> Reconstructible(lib, items[i])
    case Map(entries) => forall k :: k in entries ==> FieldReconstructible(lib, k, entries[k])
    case _ => true
  }

  predicate FieldReconstructible(lib: Libraries, key: string, x: I.Ipld)
    decreases x, 1
  {
    if key == "cid" then
      match x
      case Link(c) => lib.parseCid(lib.showCid(c)) == Some(c)
      case String(_) => false
      case _ => Reconstructible(lib, x)
    else Reconstructible(lib, x)
  }

  lemma {:induction false} ReconstructibleFits(lib: Libraries, x: I.Ipld)
    requires Reconstructible(lib, x)
    ensures IntegersFit(x)
    decreases x
  {
    match x
    case List(items) =>
      forall i | 0 <= i < |items| ensures IntegersFit(items[i]) {
        ReconstructibleFits(lib, items[i]);
      }
    case Map(entries) =>
      forall k | k in entries ensures IntegersFit(entries[k]) {
        if !entries[k].Link? {
          ReconstructibleFits(lib, entries[k]);
        }
      }
    case _ =>
  }

  lemma {:induction false} RendersThenConverts(lib: Libraries, x: I.Ipld, v: J.Value)
    requires Reconstructible(lib, x) && Renders(lib, x, v)
    ensures Converts(lib, v, x)
    decreases x
  {
    match x
    case List(items) =>
      forall i | 0 <= i < |items| ensures Converts(lib, v.items[i], items[i]) {
        RendersThenConverts(lib, items[i], v.items[i]);
      }
    case Map(entries) =>
      forall k | k in entries ensures FieldConverts(lib, k, v.fields[k], entries[k]) {
        if !(k == "cid" && entries[k].Link?) {
          RendersThenConverts(lib, entries[k], v.fields[k]);
        }
      }
    case _ =>
  }

  /** `json_to_ipld(ipld_to_json(x)) == x` for every reconstructible IPLD tree. */
  lemma IpldRoundTrip(lib: Libraries, x: I.Ipld)
    requires Reconstructible(lib, x)
    ensures IpldToJson(lib, x).Some?
    ensures JsonToIpld(lib, IpldToJson(lib, x).value) == Some(x)
  {
    ReconstructibleFits(lib, x);
    var v := IpldToJson(lib, x).value;
    RendersThenConverts(lib, x, v);
    ConvertsDeterminesResult(lib, v, x);
  }

  /**
   * A map `{"cid": Link(c)}` renders as `{"cid": "<c as text>"}`, and that JSON converts
   * back to the same link whenever the CID's text parses back to the CID.
   */
  lemma CidFieldRoundTrip(lib: Libraries, c: I.Cid)
    requires lib.parseCid(lib.showCid(c)) == Some(c)
    ensures IpldToJson(lib, I.Map(map["cid" := I.Link(c)])) == Some(J.Object(map["cid" := J.String(lib.showCid(c))]))
    ensures JsonToIpld(lib, J.Object(map["cid" := J.String(lib.showCid(c))])) == Some(I.Map(map["cid" := I.Link(c)]))
  {
    var x := I.Map(map["cid" := I.Link(c)]);
    assert Reconstructible(lib, x);
    IpldRoundTrip(lib, x);
    RendersDeterminesResult(lib, x, J.Object(map["cid" := J.String(lib.showCid(c))]));
  }
}
