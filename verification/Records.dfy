/** Committed writes as every store keeps them. */
module Records {
  import opened Prelude

  /** A full key: the namespace, a colon and the key, as bytes. */
  type Key = Bytes

  /** A value; Go tells nil from the empty slice, so None stands for nil. */
  type Value = Option<Bytes>

  /** The bytes of a value; nil and empty have the same. */
  function Raw(v: Value): Bytes {
    if v == None then [] else v.value
  }

  /** A stored write: where it came from, its per-key version, and what it wrote. */
  datatype Record = Record(block: U64, tx: U64, version: U64, txId: Bytes, isDelete: bool, value: Value)

  /** A write to apply; its version is the store's business. */
  datatype Update = Update(key: Key, value: Value, block: U64, tx: U64, txId: Bytes, isDelete: bool)

  function ToRecord(u: Update, version: U64): Record {
    Record(u.block, u.tx, version, u.txId, u.isDelete, u.value)
  }
}
