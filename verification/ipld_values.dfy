/** libipld's generic value tree (`libipld::Ipld`) and its content identifier. */
module IpldValues {
  import opened Numbers

  /**
   * A content identifier: a concrete stand-in (version, content codec and multihash) whose
   * fields the model never reads; parsing and printing are library calls (see
   * `Collaborators.Libraries`).
   */
  datatype Cid = Cid(version: nat, codec: nat, multihash: seq<Byte>)

  datatype Ipld =
    | Null
    | Bool(b: bool)
    | Integer(i: I128)
    | Float(f: F64)
    | String(s: string)
    | Bytes(bytes: seq<Byte>)
    | List(items: seq<Ipld>)
    | Map(entries: map<string, Ipld>)
    | Link(cid: Cid)
}
