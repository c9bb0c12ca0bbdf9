/** The entities the state machine stores and the API puts on the wire. */
module Model {

  datatype Option<+T> = None | Some(value: T)

  datatype Result<+T> = Ok(value: T) | Err(message: string)

  /** Byte strings; one character per byte. */
  type Bytes = string

  /** An authenticated encryption box, symbolically: it remembers what it was sealed with.
      `Garbage` is any byte string that no key opens. */
  datatype Box = Sealed(key: Bytes, nonce: Bytes, plain: Bytes) | Garbage(raw: Bytes)

  /** Carrier of a secret: the data sealed under a data key (DEK), and the DEK sealed under the
      master key (KEK) of generation `dekV`. */
  datatype Ciphertext = Ciphertext(
    enc: string, v: nat, dekV: nat, nonce: Bytes, ct: Box, edek: Box, edekNonce: Bytes)

  /** Configuration values. Floats are opaque with equality, so NaN is excluded. */
  datatype Value =
    | Str(str: string)
    | Int(num: int)
    | Float(repr: string)
    | Bool(flag: bool)
    | Json(text: string)
    | Array(elems: seq<string>)
    | Secret(sealed: Ciphertext)

  /** group -> (key -> value) */
  type SnapshotMap = map<string, map<string, Value>>

  datatype ChangeKind = Upsert | Delete

  datatype DiffEntry = DiffEntry(group: string, key: string, kind: ChangeKind, newValue: Option<Value>)

  datatype EventType = ValuePublish | StructurePublish | SharedCascade | Rollback

  datatype PublishEvent = PublishEvent(
    project: string, branch: string, version: nat, ty: EventType, structureVersion: nat,
    comment: string, requestId: string, changes: seq<DiffEntry>, gray: bool)

  datatype VersionRecord = VersionRecord(
    no: nat, structureVersion: nat, comment: string, rollbackOf: Option<nat>,
    eventTy: Option<EventType>, gray: bool)
}
