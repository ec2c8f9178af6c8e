/** What the two conversions of the value bridge guarantee, alone and together. */
module BridgeProperties {
  import opened Numbers
  import opened Outcomes
  import J = JsonValues
  import I = IpldValues
  import opened Collaborators
  import opened Bridge

  // ---------------------------------------------------------------------------
  // JSON to IPLD
  // ---------------------------------------------------------------------------

  /** The conversion aborts exactly when some string-valued `"cid"` field fails to parse. */
  lemma {:induction false} JsonToIpldSucceedsIff(lib: Libraries, v: J.Value)
    ensures JsonToIpld(lib, v).Some? <==> CidsParse(lib, v)
    decreases v
  {
    match v
    case Array(items) =>
      forall i | 0 <= i < |items|
        ensures JsonToIpld(lib, items[i]).Some? <==> CidsParse(lib, items[i])
      {
        JsonToIpldSucceedsIff(lib, items[i]);
      }
    case Object(fields) =>
      forall k | k in fields
        ensures FieldToIpld(lib, k, fields[k]).Some? <==> FieldCidsParse(lib, k, fields[k])
      {
        JsonToIpldSucceedsIff(lib, fields[k]);
      }
    case _ =>
  }

  /** `Converts` has one image per tree, and it is the one the conversion returns. */
  lemma {:induction false} ConvertsDeterminesResult(lib: Libraries, v: J.Value, x: I.Ipld)
    requires Converts(lib, v, x)
    ensures JsonToIpld(lib, v) == Some(x)
    decreases v
  {
    match v
    case Array(items) =>
      forall i | 0 <= i < |items|
        ensures JsonToIpld(lib, items[i]) == Some(x.items[i])
      {
        ConvertsDeterminesResult(lib, items[i], x.items[i]);
      }
      assert seq(|items|, i requires 0 <= i < |items| => JsonToIpld(lib, items[i]).value) == x.items;
    case Object(fields) =>
      forall k | k in fields
        ensures FieldToIpld(lib, k, fields[k]) == Some(x.entries[k])
      {
        if !(k == "cid" && fields[k].String?) {
          ConvertsDeterminesResult(lib, fields[k], x.entries[k]);
        }
      }
      assert (map k | k in fields :: FieldToIpld(lib, k, fields[k]).value) == x.entries;
    case _ =>
  }

  /** The conversion's result is characterised, in both directions, by `Converts`. */
  lemma JsonToIpldCharacterised(lib: Libraries, v: J.Value, x: I.Ipld)
    ensures JsonToIpld(lib, v) == Some(x) <==> Converts(lib, v, x)
  {
    if Converts(lib, v, x) {
      ConvertsDeterminesResult(lib, v, x);
    }
  }

  /** Null, booleans and strings pass through unchanged in both directions. */
  lemma ScalarsPassThrough(lib: Libraries, b: bool, s: string)
    ensures JsonToIpld(lib, J.Null) == Some(I.Null) && IpldToJson(lib, I.Null) == Some(J.Null)
    ensures JsonToIpld(lib, J.Bool(b)) == Some(I.Bool(b)) && IpldToJson(lib, I.Bool(b)) == Some(J.Bool(b))
    ensures JsonToIpld(lib, J.String(s)) == Some(I.String(s)) && IpldToJson(lib, I.String(s)) == Some(J.String(s))
  {
  }

  /**
   * An array converts element by element: the result is a list of the same length whose
   * i-th element is the image of the i-th element; one failing element aborts the whole.
   */
  lemma ArrayConversion(lib: Libraries, items: seq<J.Value>)
    ensures JsonToIpld(lib, J.Array(items)).Some?
            <==> forall i :: 0 <= i < |items| ==> JsonToIpld(lib, items[i]).Some?
    ensures JsonToIpld(lib, J.Array(items)).Some? ==>
              var out := JsonToIpld(lib, J.Array(items)).value;
              && out.List?
              && |out.items| == |items|
              && forall i :: 0 <= i < |items| ==> JsonToIpld(lib, items[i]) == Some(out.items[i])
  {
  }

  /**
   * An object converts to a map with the same key set; a string under `"cid"` becomes the
   * link it parses to, and the conversion aborts when it does not parse; every other entry,
   * including a non-string under `"cid"`, converts recursively.
   */
  lemma ObjectConversion(lib: Libraries, fields: map<string, J.Value>)
    ensures JsonToIpld(lib, J.Object(fields)).Some?
            <==> && (forall k :: k in fields && k == "cid" && fields[k].String? ==> lib.parseCid(fields[k].s).Some?)
                 && (forall k :: k in fields && !(k == "cid" && fields[k].String?) ==> JsonToIpld(lib, fields[k]).Some?)
    ensures JsonToIpld(lib, J.Object(fields)).Some? ==>
              var out := JsonToIpld(lib, J.Object(fields)).value;
              && out.Map?
              && out.entries.Keys == fields.Keys
              && (forall k :: k in fields && k == "cid" && fields[k].String? ==>
                    lib.parseCid(fields[k].s) == Some(out.entries[k].cid) && out.entries[k].Link?)
              && (forall k :: k in fields && !(k == "cid" && fields[k].String?) ==>
                    JsonToIpld(lib, fields[k]) == Some(out.entries[k]))
  {
  }

  /** A tree with no byte string anywhere. */
  predicate NoBytes(x: I.Ipld)
    decreases x
  {
    match x
    case Bytes(_) => false
    case List(items) => forall i :: 0 <= i < |items| ==> NoBytes(items[i])
    case Map(entries) => forall k :: k in entries ==> NoBytes(entries[k])
    case _ => true
  }

  /** JSON has no byte strings, and the conversion never invents one. */
  lemma {:induction false} JsonNeverYieldsBytes(lib: Libraries, v: J.Value, x: I.Ipld)
    requires Converts(lib, v, x)
    ensures NoBytes(x)
    decreases v
  {
    match v
    case Array(items) =>
      forall i | 0 <= i < |items| ensures NoBytes(x.items[i]) {
        JsonNeverYieldsBytes(lib, items[i], x.items[i]);
      }
    case Object(fields) =>
      forall k | k in fields ensures NoBytes(x.entries[k]) {
        if !(k == "cid" && fields[k].String?) {
          JsonNeverYieldsBytes(lib, fields[k], x.entries[k]);
        }
      }
    case _ =>
  }

  // ---------------------------------------------------------------------------
  // IPLD to JSON
  // ---------------------------------------------------------------------------

  /** `Renders` has one rendering per tree, and it is the one the conversion returns. */
  lemma {:induction false} RendersDeterminesResult(lib: Libraries, x: I.Ipld, v: J.Value)
    requires Renders(lib, x, v)
    ensures IpldToJson(lib, x) == Some(v)
    decreases x
  {
    match x
    case List(items) =>
      forall i | 0 <= i < |items|
        ensures IpldToJson(lib, items[i]) == Some(v.items[i])
      {
        RendersDeterminesResult(lib, items[i], v.items[i]);
      }
      assert seq(|items|, i requires 0 <= i < |items| => IpldToJson(lib, items[i]).value) == v.items;
    case Map(entries) =>
      forall k | k in entries
        ensures IpldToJson(lib, entries[k]) == Some(v.fields[k])
      {
        RendersDeterminesResult(lib, entries[k], v.fields[k]);
      }
      var rendered := map k | k in entries :: IpldToJson(lib, entries[k]).value;
      assert rendered.Keys == v.fields.Keys;
      assert rendered == v.fields;
    case _ =>
  }

  /** The rendering is characterised, in both directions, by `Renders`. */
  lemma IpldToJsonCharacterised(lib: Libraries, x: I.Ipld, v: J.Value)
    ensures IpldToJson(lib, x) == Some(v) <==> Renders(lib, x, v)
  {
    if Renders(lib, x, v) {
      RendersDeterminesResult(lib, x, v);
    }
  }

  /**
   * Bytes render as unpadded base64 text and links as the CID's text; converting either
   * rendering back gives a string, not bytes (outside a `"cid"` key, not a link either).
   */
  lemma BytesAndLinksBecomeText(lib: Libraries, b: seq<Byte>, c: I.Cid)
    ensures IpldToJson(lib, I.Bytes(b)) == Some(J.String(lib.base64NoPad(b)))
    ensures JsonToIpld(lib, J.String(lib.base64NoPad(b))) == Some(I.String(lib.base64NoPad(b)))
    ensures IpldToJson(lib, I.Link(c)) == Some(J.String(lib.showCid(c)))
    ensures JsonToIpld(lib, J.String(lib.showCid(c))) == Some(I.String(lib.showCid(c)))
  {
  }
}
