/** Write batches and the entries they stand for (db/write_batch.cc). */
module WriteBatches {
  import opened DbFormat

  datatype Op = Op(kind: Kind, key: UserKey, value: Value)

  // The entries a batch turns into, numbered upwards from `first`.
  function BatchEntries(ops: seq<Op>, first: nat): seq<Entry>
    requires first + |ops| <= MAX_SEQUENCE
  {
    seq(|ops|, i requires 0 <= i < |ops| => Entry(InternalKey(ops[i].key, first + i, ops[i].kind), ops[i].value))
  }
}
