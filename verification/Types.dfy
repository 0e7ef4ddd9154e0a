/** The data types every component shares: read/write sets, versions, records,
    transactions and blocks.  Go strings are byte strings, so `[]byte(key)` is the
    identity here; a nil byte slice is the empty one, as for `bytes.Equal`. */
module Types {

  datatype Option<+T> = None | Some(value: T)

  /** The outcome of a call that may return an error; error texts are not modelled. */
  datatype Result<+T> = Ok(value: T) | Err

  newtype byte = x: int | 0 <= x < 256

  type Bytes = seq<byte>

  datatype Version = Version(blockNum: nat, txNum: nat)

  datatype KVRead = KVRead(key: string, version: Option<Version>)

  datatype KVWrite = KVWrite(key: string, isDelete: bool, value: Bytes)

  datatype ReadWriteSet = ReadWriteSet(readSet: seq<KVRead>, writeSet: seq<KVWrite>)

  datatype NsReadWriteSet = NsReadWriteSet(ns: string, rws: ReadWriteSet)

  /** One row of the world state. */
  datatype WriteRecord = WriteRecord(
    ns: string, key: string, blockNum: nat, txNum: nat, version: nat,
    value: Bytes, isDelete: bool, txId: string)

  datatype Status =
    | Unknown
    | Committed
    | InvalidSignature
    | MVCCConflict
    | DuplicateTxID
    | Malformed
    | Unrecognized
    | EndorsementPolicyFailure
  {
    predicate Valid() { Committed? }

    predicate IsFinal() { !Unknown? }
  }

  datatype Transaction = Transaction(
    id: string, number: nat, status: Status, rawCode: int, nsRWS: seq<NsReadWriteSet>)
  {
    predicate Valid() { status.Valid() }
  }

  datatype Block = Block(number: nat, txs: seq<Transaction>)

  /** What a `RecordGetter` answers while one validation or one simulation runs. */
  type Getter = (string, string) -> Result<Option<WriteRecord>>
}
